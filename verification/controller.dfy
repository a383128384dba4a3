/** `TextSpeechController.convertSpeechToText`: validate the conversion type
    and the upload, run the pipeline, and turn its payload into the HTTP
    answer by base64-decoding it. */
module TextSpeechController {
  import opened Wrappers
  import opened JavaLang
  import opened Model
  import opened Capabilities
  import Base64
  import AIServiceImpl
  import BarCodeService

  const DefaultConversionType := "raw"
  const InvalidConversionTypeMessage := "Invalid conversionType. Must be 'raw' or 'polished'"
  const MissingFileMessage := "Please upload an audio file"
  const TranscriptionFailedMessage := "Failed to transcribe audio: "

  /** Status, content type when one is set explicitly, and body bytes. */
  datatype Response = Response(status: nat, contentType: Option<string>, body: seq<byte>)

  /** The answer and the calls made to produce it. */
  datatype Exchange = Exchange(response: Response, trace: seq<Call>)

  /** The `conversionType` request parameter: absent or empty gives "raw". */
  function ResolveConversionType(param: Option<string>): (ct: string)
    ensures param.None? ==> ct == DefaultConversionType
    ensures param.Some? && param.value != "" ==> ct == param.value
  {
    if param.None? || param.value == "" then DefaultConversionType else param.value
  }

  function BadRequest(message: string): Response {
    Response(400, None, AsciiBytes(message))
  }

  const ServerError := Response(500, None, AsciiBytes(TranscriptionFailedMessage))

  /** `convertSpeechToText(file, conversionType)`. */
  function ConvertSpeechToText(p: Providers, file: AudioFile, conversionTypeParam: Option<string>): (x: Exchange)
    ensures x.response.status in {200, 400, 500}
    ensures x.response.status == 200 ==> x.response.contentType == Some("image/png")
  {
    var conversionType := ResolveConversionType(conversionTypeParam);
    if conversionType != "raw" && conversionType != "polished" then
      Exchange(BadRequest(InvalidConversionTypeMessage), [])
    else if file.size == 0 then
      Exchange(BadRequest(MissingFileMessage), [])
    else
      var run := AIServiceImpl.ConvertAudioToText(p, file, conversionType);
      match run.outcome
      case Failure(_) => Exchange(ServerError, run.trace)
      case Success(payload) =>
        match Base64.Decode(payload.base64)
        case None => Exchange(ServerError, run.trace)
        case Some(png) => Exchange(Response(200, Some("image/png"), png), run.trace)
  }

  // ---------------------------------------------------------------------
  // Properties
  // ---------------------------------------------------------------------

  /** Anything but exactly "raw" or "polished" (so also "RAW") is rejected
      before the upload is looked at and before the service is called. */
  lemma InvalidConversionTypeRejected(p: Providers, file: AudioFile, conversionTypeParam: Option<string>)
    requires var ct := ResolveConversionType(conversionTypeParam); ct != "raw" && ct != "polished"
    ensures ConvertSpeechToText(p, file, conversionTypeParam)
            == Exchange(Response(400, None, AsciiBytes(InvalidConversionTypeMessage)), [])
  {
  }

  /** A valid conversion type with an empty upload is rejected without
      calling the service. */
  lemma EmptyFileRejected(p: Providers, file: AudioFile, conversionTypeParam: Option<string>)
    requires ResolveConversionType(conversionTypeParam) in {"raw", "polished"}
    requires file.size == 0
    ensures ConvertSpeechToText(p, file, conversionTypeParam)
            == Exchange(Response(400, None, AsciiBytes(MissingFileMessage)), [])
  {
  }

  /** The validation is case-sensitive although the service compares
      ignoring case: "RAW" would mean raw to the service but never gets there. */
  lemma UpperCaseRawRejected(p: Providers, file: AudioFile)
    ensures AIServiceImpl.IsRaw("RAW")
    ensures ConvertSpeechToText(p, file, Some("RAW")).response.status == 400
  {
  }

  /** Leaving the parameter out, or sending it empty, is the same as "raw". */
  lemma MissingConversionTypeIsRaw(p: Providers, file: AudioFile)
    ensures ConvertSpeechToText(p, file, None) == ConvertSpeechToText(p, file, Some("raw"))
    ensures ConvertSpeechToText(p, file, Some("")) == ConvertSpeechToText(p, file, Some("raw"))
  {
  }

  /** A 200 answer is always typed image/png and carries the decoding of the
      service's payload, whatever MIME type the payload names; every
      failure of the service or of the decoding is a 500 with a fixed text. */
  lemma AnswerFollowsPayload(p: Providers, file: AudioFile, conversionTypeParam: Option<string>)
    requires ResolveConversionType(conversionTypeParam) in {"raw", "polished"}
    requires file.size > 0
    ensures var ct := ResolveConversionType(conversionTypeParam);
      var run := AIServiceImpl.ConvertAudioToText(p, file, ct);
      var x := ConvertSpeechToText(p, file, conversionTypeParam);
      && x.trace == run.trace
      && (x.response.status == 200 <==>
            run.outcome.Success? && Base64.Decode(run.outcome.value.base64).Some?)
      && (x.response.status == 200 ==>
            x.response == Response(200, Some("image/png"), Base64.Decode(run.outcome.value.base64).value))
      && (x.response.status != 200 ==> x.response == Response(500, None, AsciiBytes(TranscriptionFailedMessage)))
  {
  }

  /** The "no discount" payload is plain text with spaces, which the base64
      decoder rejects: once the classifier says no, the client always gets
      the 500 answer. */
  lemma NoDiscountEndsInServerError(p: Providers, file: AudioFile, conversionTypeParam: Option<string>,
                                    transcript: Option<string>, text: Option<string>)
    requires var ct := ResolveConversionType(conversionTypeParam);
      && ct in {"raw", "polished"}
      && file.size > 0 && file.content.Bytes?
      && p.transcribe(AIServiceImpl.ResourceOf(file), AIServiceImpl.TranscriptionOptionsFor(ct)) == Returned(transcript)
      && AIServiceImpl.TextToClassify(p, transcript, ct).outcome == Success(text)
      && AIServiceImpl.CheckIfDiscount(p, text).outcome == Success(DiscountDecision(false))
    ensures ConvertSpeechToText(p, file, conversionTypeParam).response
            == Response(500, None, AsciiBytes(TranscriptionFailedMessage))
  {
    var ct := ResolveConversionType(conversionTypeParam);
    AIServiceImpl.DecisionSelectsAnswer(p, file, ct, transcript, text, DiscountDecision(false));
    assert AIServiceImpl.NoDiscountText[11] == ' ';
    Base64.DecodeRejectsForeignChar(AIServiceImpl.NoDiscountText, 11);
  }

  /** Once the classifier says yes and the barcode API returns a non-empty
      PNG, the client gets 200 with exactly those PNG bytes: the base64
      written by the coupon service decodes back to them. */
  lemma CouponBytesReachClient(p: Providers, file: AudioFile, conversionTypeParam: Option<string>,
                               transcript: Option<string>, text: Option<string>, png: seq<byte>)
    requires var ct := ResolveConversionType(conversionTypeParam);
      && ct in {"raw", "polished"}
      && file.size > 0 && file.content.Bytes?
      && p.transcribe(AIServiceImpl.ResourceOf(file), AIServiceImpl.TranscriptionOptionsFor(ct)) == Returned(transcript)
      && AIServiceImpl.TextToClassify(p, transcript, ct).outcome == Success(text)
      && AIServiceImpl.CheckIfDiscount(p, text).outcome == Success(DiscountDecision(true))
    requires p.barcode(BarCodeService.CouponRequest(p.barcodeApiKey, AIServiceImpl.DiscountCode)) == Returned(Some(png))
    requires |png| > 0
    ensures ConvertSpeechToText(p, file, conversionTypeParam).response == Response(200, Some("image/png"), png)
  {
    var ct := ResolveConversionType(conversionTypeParam);
    AIServiceImpl.DecisionSelectsAnswer(p, file, ct, transcript, text, DiscountDecision(true));
    BarCodeService.CouponSuccess(p, BarCodeRequest(AIServiceImpl.DiscountCode));
  }
}
