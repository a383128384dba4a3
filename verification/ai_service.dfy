/** `AIServiceImpl`: text to speech behind the blocked-word filter, and the
    audio-to-decision pipeline: read the upload, transcribe, optionally
    polish, classify, and issue a coupon or a "no discount" answer. */
module AIServiceImpl {
  import opened Wrappers
  import opened JavaLang
  import opened Model
  import opened Capabilities
  import Redaction
  import BarCodeService

  /** The fixed settings of the speech call. */
  const SpeechSettings := SpeechOptions(Alloy, NormalSpeed, Mp3, "tts-1")

  const TranscriptionModel := "whisper-1"
  const DiscountCode := "DISCOUNT2024"
  const NoResponseMessage := "No response received from AI"
  const ReadFailurePrefix := "Failed to read audio file: "
  // Long literals are split so that their first characters sit in a short
  // piece: the verifier does not reliably index into a long string literal.
  const NoDiscountText := "Transcribed " + "Text does not indicate a discount is needed"

  /** The answer when the decision is negative. */
  const NoDiscountPayload := ImagePayload("text/plain", NoDiscountText)

  const PolishHead :=
    "Please " + "improve the following transcribed text by:\n"
    + "1. Fixing any grammatical errors\n"
    + "2. Adding proper punctuation\n"
    + "3. Correcting capitalization\n"
    + "4. Improving sentence structure while maintaining the original meaning\n"
    + "5. Removing filler words (um, uh, like, etc.)\n\n"
    + "Original text:\n"
  const PolishTail := "\n\nPolished text:"

  /** The text block of the classification prompt as Java renders it: eight
      spaces of indentation survive (the closing line sets the margin), the
      first two lines are joined, and a lone quote ends it. */
  const DiscountHead :=
    "        " + "Based on the following transcribed text, determine if a Discount should be applied. "
    + "        Discount should be applied  if the text contains shopping / checkout / shipping functionality failure\n"
    + "        Provide your answer in the following format:\n"
    + "        "
  const DiscountMiddle := "\n        Transcribed text:\n        "
  const DiscountTail := "\n\n'"

  /** `convertToAudio(question)`: the question with blocked words masked is
      sent to the speech service, whose bytes are the answer. */
  function ConvertToAudio(p: Providers, blockedWords: seq<string>, question: Question): (r: Run<seq<byte>>)
    requires Redaction.AllBlockable(blockedWords)
    ensures |r.trace| == 1 && r.trace[0].Synthesize? && r.trace[0].speechOptions == SpeechSettings
    ensures r.trace[0].text == Redaction.FilterText(question.question, blockedWords)
    ensures forall k, j: nat :: 0 <= k < |blockedWords| ==>
      !Redaction.MatchAt(r.trace[0].text, blockedWords[k], j)
    ensures r.outcome == Outcome(p.speech(r.trace[0].text, SpeechSettings))
  {
    var text := Redaction.FilterText(question.question, blockedWords);
    Run(Outcome(p.speech(text, SpeechSettings)), [Synthesize(text, SpeechSettings)])
  }

  /** A question without any blocked word is spoken exactly as asked. */
  lemma CleanQuestionSpokenVerbatim(p: Providers, blockedWords: seq<string>, question: Question)
    requires Redaction.AllBlockable(blockedWords)
    requires forall k, j: nat :: 0 <= k < |blockedWords| ==> !Redaction.MatchAt(question.question, blockedWords[k], j)
    ensures ConvertToAudio(p, blockedWords, question).trace == [Synthesize(question.question, SpeechSettings)]
  {
    Redaction.CleanTextUnchanged(question.question, blockedWords);
  }

  /** `"raw".equalsIgnoreCase(conversionType)`. */
  predicate IsRaw(conversionType: string) {
    EqualsIgnoreCase("raw", conversionType)
  }

  /** `"polished".equalsIgnoreCase(conversionType)`. */
  predicate IsPolished(conversionType: string) {
    EqualsIgnoreCase("polished", conversionType)
  }

  /** Raw mode is selected by exactly the eight ASCII spellings of "raw": no
      other character folds onto r, a or w. */
  lemma RawSpellings(conversionType: string)
    ensures IsRaw(conversionType) <==> (|conversionType| == 3
      && conversionType[0] in "rR" && conversionType[1] in "aA" && conversionType[2] in "wW")
  {
  }

  /** Polished mode is selected by the ASCII spellings of "polished", and
      also by those with a dotted or dotless i (U+0130, U+0131) or a long s
      (U+017F), which Java folds onto i and s. */
  lemma PolishedSpellings(conversionType: string)
    ensures IsPolished(conversionType) <==> (|conversionType| == 8
      && conversionType[0] in "pP" && conversionType[1] in "oO" && conversionType[2] in "lL"
      && conversionType[3] in "iI\U{0130}\U{0131}" && conversionType[4] in "sS\U{017F}"
      && conversionType[5] in "hH" && conversionType[6] in "eE" && conversionType[7] in "dD")
  {
    var c := conversionType;
    if |c| == 8 {
      var lit := "polished";
      assert lit[0] == 'p' && lit[1] == 'o' && lit[2] == 'l' && lit[3] == 'i';
      assert lit[4] == 's' && lit[5] == 'h' && lit[6] == 'e' && lit[7] == 'd';
      PlainLetterVariants('p', c[0]);
      PlainLetterVariants('o', c[1]);
      PlainLetterVariants('l', c[2]);
      LetterIVariants(c[3]);
      LetterSVariants(c[4]);
      PlainLetterVariants('h', c[5]);
      PlainLetterVariants('e', c[6]);
      PlainLetterVariants('d', c[7]);
    }
  }

  /** The transcription options: always whisper-1 with plain-text output;
      temperature pinned to 0.0 exactly in raw mode. */
  function TranscriptionOptionsFor(conversionType: string): (o: TranscriptionOptions)
    ensures o.model == TranscriptionModel && o.responseFormat == TextFormat
    ensures o.temperature == Pinned <==> IsRaw(conversionType)
    ensures o.temperature == Unset <==> !IsRaw(conversionType)
  {
    TranscriptionOptions(TranscriptionModel, TextFormat, if IsRaw(conversionType) then Pinned else Unset)
  }

  /** The polishing prompt: the instructions, then the transcript (or
      "null") verbatim, then the closing line. */
  function PolishPrompt(rawText: Option<string>): (prompt: string)
    ensures IsPolishPrompt(prompt)
  {
    var prompt := PolishHead + Render(rawText) + PolishTail;
    assert prompt[..|PolishHead|] == PolishHead;
    prompt
  }

  /** The classification prompt. As written, the transcript fills the slot
      after "following format:" and the format text the slot after
      "Transcribed text:". It never reads as a polishing prompt. */
  function DiscountPrompt(transcribedText: Option<string>, outputFormat: string): (prompt: string)
    ensures !IsPolishPrompt(prompt)
  {
    var prompt := DiscountHead + Render(transcribedText) + DiscountMiddle + outputFormat + DiscountTail;
    assert prompt[0] == DiscountHead[0] == ' ';
    assert PolishHead[0] == 'P';
    prompt
  }

  /** The transcript sits verbatim between the instructions and the closing
      line, so the polishing prompt determines the rendered transcript. */
  lemma PolishPromptCarriesText(a: Option<string>, b: Option<string>)
    ensures var prompt := PolishPrompt(a);
      |prompt| == |PolishHead| + |Render(a)| + |PolishTail|
      && prompt[|PolishHead|..|prompt| - |PolishTail|] == Render(a)
    ensures PolishPrompt(a) == PolishPrompt(b) ==> Render(a) == Render(b)
  {
    SlotOfThree(PolishHead, Render(a), PolishTail);
    SlotOfThree(PolishHead, Render(b), PolishTail);
  }

  /** Where the two inputs land in the classification prompt: the transcript
      right after the heading that announces the answer format, the format
      text right after "Transcribed text:". */
  lemma DiscountPromptSlots(transcribedText: Option<string>, outputFormat: string)
    ensures var prompt := DiscountPrompt(transcribedText, outputFormat);
      var t := Render(transcribedText);
      && |prompt| == |DiscountHead| + |t| + |DiscountMiddle| + |outputFormat| + |DiscountTail|
      && prompt[|DiscountHead|..|DiscountHead| + |t|] == t
      && prompt[|DiscountHead| + |t| + |DiscountMiddle|..|prompt| - |DiscountTail|] == outputFormat
  {
    SlotsOfFive(DiscountHead, Render(transcribedText), DiscountMiddle, outputFormat, DiscountTail);
  }

  /** The middle piece of a three-piece text. */
  lemma SlotOfThree(h: string, t: string, e: string)
    ensures var x := h + t + e;
      |x| == |h| + |t| + |e| && x[|h|..|x| - |e|] == t
  {
    var x := h + t + e;
    assert x[|h|..|x| - |e|] == t;
  }

  /** The second and fourth pieces of a five-piece text. */
  lemma SlotsOfFive(h: string, t: string, m: string, f: string, e: string)
    ensures var x := h + t + m + f + e;
      && |x| == |h| + |t| + |m| + |f| + |e|
      && x[|h|..|h| + |t|] == t
      && x[|h| + |t| + |m|..|x| - |e|] == f
  {
    var x := h + t + m + f + e;
    assert x[|h|..|h| + |t|] == t;
    assert x[|h| + |t| + |m|..|x| - |e|] == f;
  }

  /** `polishText(rawText)`: one polishing call; its reply, null included,
      is the polished text, and its exception is the failure. */
  function PolishText(p: Providers, rawText: Option<string>): (r: Run<Option<string>>)
    ensures |r.trace| == 1 && r.trace[0] == Chat(PolishPrompt(rawText))
    ensures PolishCalls(r.trace) == 1
    ensures var reply := p.chat(PolishPrompt(rawText));
      && (r.outcome.Success? <==> reply.Returned?)
      && (r.outcome.Success? ==> r.outcome.value == reply.value)
      && (r.outcome.Failure? ==> r.outcome.error == reply.exception)
  {
    var prompt := PolishPrompt(rawText);
    Run(Outcome(p.chat(prompt)), [Chat(prompt)])
  }

  /** `checkIfDiscount(transcribedText)`: one chat call; a null or empty
      reply is an AIException, anything else goes to the parser. */
  function CheckIfDiscount(p: Providers, transcribedText: Option<string>): (r: Run<DiscountDecision>)
    ensures |r.trace| >= 1 && r.trace[0] == Chat(DiscountPrompt(transcribedText, p.formatSpec))
    ensures |r.trace| <= 2
    ensures var reply := p.chat(DiscountPrompt(transcribedText, p.formatSpec));
      && (reply.Threw? ==> r.outcome == Failure(reply.exception) && |r.trace| == 1)
      && (reply == Returned(None) || reply == Returned(Some("")) ==>
            r.outcome == Failure(AIError(NoResponseMessage)) && |r.trace| == 1)
      && (reply.Returned? && reply.value.Some? && reply.value.value != "" ==>
            |r.trace| == 2 && r.trace[1] == Parse(reply.value.value)
            && r.outcome == Outcome(p.parse(reply.value.value)))
    ensures r.outcome.Success? ==>
      && |r.trace| == 2 && r.trace[1].Parse?
      && p.chat(DiscountPrompt(transcribedText, p.formatSpec)) == Returned(Some(r.trace[1].response))
      && p.parse(r.trace[1].response) == Returned(r.outcome.value)
  {
    var prompt := DiscountPrompt(transcribedText, p.formatSpec);
    match p.chat(prompt)
    case Threw(e) => Run(Failure(e), [Chat(prompt)])
    case Returned(reply) =>
      if reply.None? || reply.value == "" then Run(Failure(AIError(NoResponseMessage)), [Chat(prompt)])
      else Run(Outcome(p.parse(reply.value)), [Chat(prompt), Parse(reply.value)])
  }

  /** The `catch (IOException e)` around the pipeline: an IOException becomes
      a RuntimeException "Failed to read audio file: <message>"; any other
      exception passes through. */
  function CatchIO(e: JavaException): (r: JavaException)
    ensures e.kind != IOException ==> r == e
    ensures e.kind == IOException ==> r.kind == RuntimeException
    ensures e.kind == IOException ==> r.message == Some(ReadFailurePrefix + Render(e.message))
  {
    if e.kind == IOException then JavaException(RuntimeException, Some(ReadFailurePrefix + Render(e.message)))
    else e
  }

  /** The resource wrapping a readable upload. */
  function ResourceOf(audioFile: AudioFile): AudioResource
    requires audioFile.content.Bytes?
  {
    AudioResource(audioFile.content.bytes, audioFile.originalFilename)
  }

  /** The text handed to classification: the polished reply in polished
      mode, the transcript itself otherwise. */
  function TextToClassify(p: Providers, transcript: Option<string>, conversionType: string): (r: Run<Option<string>>)
    ensures PolishCalls(r.trace) == if IsPolished(conversionType) then 1 else 0
    ensures !IsPolished(conversionType) ==> r.trace == [] && r.outcome == Success(transcript)
    ensures IsPolished(conversionType) ==>
      var reply := p.chat(PolishPrompt(transcript));
      && r.trace == [Chat(PolishPrompt(transcript))]
      && (r.outcome.Success? <==> reply.Returned?)
      && (r.outcome.Success? ==> r.outcome.value == reply.value)
      && (r.outcome.Failure? ==> r.outcome.error == reply.exception)
  {
    if IsPolished(conversionType) then PolishText(p, transcript) else Run(Success(transcript), [])
  }

  /** `convertAudioToText(audioFile, conversionType)`. */
  function ConvertAudioToText(p: Providers, audioFile: AudioFile, conversionType: string): (r: Run<ImagePayload>)
    ensures |r.trace| >= 1 && r.trace[0] == ReadUpload
    ensures audioFile.content.Bytes? ==>
      |r.trace| >= 2 && r.trace[1] == Transcribe(ResourceOf(audioFile), TranscriptionOptionsFor(conversionType))
  {
    match audioFile.content
    case ReadError(m) => Run(Failure(CatchIO(JavaException(IOException, m))), [ReadUpload])
    case Bytes(_) =>
      var resource := ResourceOf(audioFile);
      var options := TranscriptionOptionsFor(conversionType);
      var heard := [ReadUpload, Transcribe(resource, options)];
      match p.transcribe(resource, options)
      case Threw(e) => Run(Failure(CatchIO(e)), heard)
      case Returned(transcript) =>
        var polished := TextToClassify(p, transcript, conversionType);
        match polished.outcome
        case Failure(e) => Run(Failure(CatchIO(e)), heard + polished.trace)
        case Success(text) =>
          var decision := CheckIfDiscount(p, text);
          var decided := heard + polished.trace + decision.trace;
          match decision.outcome
          case Failure(e) => Run(Failure(CatchIO(e)), decided)
          case Success(d) =>
            if d.applyDiscount then
              var coupon := BarCodeService.GenerateDiscountCoupon(p, BarCodeRequest(DiscountCode));
              var outcome := match coupon.outcome
                case Success(v) => Success(v)
                case Failure(e) => Failure(CatchIO(e));
              Run(outcome, decided + coupon.trace)
            else
              Run(Success(NoDiscountPayload), decided)
  }

  // ---------------------------------------------------------------------
  // Properties of the pipeline
  // ---------------------------------------------------------------------

  /** A prompt built by `polishText`. */
  predicate IsPolishPrompt(prompt: string) {
    PolishHead <= prompt
  }

  /** The number of polishing calls in a trace. */
  function PolishCalls(trace: seq<Call>): nat
    decreases |trace|
  {
    if |trace| == 0 then 0
    else (if trace[0].Chat? && IsPolishPrompt(trace[0].prompt) then 1 else 0) + PolishCalls(trace[1..])
  }

  lemma {:induction false} PolishCallsAppend(a: seq<Call>, b: seq<Call>)
    ensures PolishCalls(a + b) == PolishCalls(a) + PolishCalls(b)
    decreases |a|
  {
    if |a| == 0 {
      assert a + b == b;
    } else {
      assert (a + b)[0] == a[0];
      assert (a + b)[1..] == a[1..] + b;
      PolishCallsAppend(a[1..], b);
    }
  }

  /** A classification step makes no polishing call. */
  lemma CheckIfDiscountPolishesNothing(p: Providers, text: Option<string>)
    ensures PolishCalls(CheckIfDiscount(p, text).trace) == 0
  {
    var t := CheckIfDiscount(p, text).trace;
    assert PolishCalls(t) == PolishCalls(t[1..]);
    if |t| == 2 {
      assert PolishCalls(t[1..]) == PolishCalls(t[1..][1..]);
      assert t[1..][1..] == [];
    } else {
      assert t[1..] == [];
    }
  }

  /** A failure reading the upload becomes "Failed to read audio file: ..."
      before any service is called. */
  lemma ReadFailureCallsNothing(p: Providers, audioFile: AudioFile, conversionType: string)
    requires audioFile.content.ReadError?
    ensures var r := ConvertAudioToText(p, audioFile, conversionType);
      && r.trace == [ReadUpload]
      && r.outcome == Failure(JavaException(RuntimeException,
           Some(ReadFailurePrefix + Render(audioFile.content.message))))
  {
  }

  /** The transcription call is made with temperature pinned to 0.0 exactly
      when the conversion type is "raw" in any case. */
  lemma TemperaturePinnedExactlyForRaw(p: Providers, audioFile: AudioFile, conversionType: string)
    requires audioFile.content.Bytes?
    ensures var r := ConvertAudioToText(p, audioFile, conversionType);
      && |r.trace| >= 2
      && r.trace[1] == Transcribe(ResourceOf(audioFile), r.trace[1].options)
      && r.trace[1].options.model == TranscriptionModel
      && (r.trace[1].options.temperature == Pinned <==> IsRaw(conversionType))
  {
  }

  /** A transcription failure ends the run: nothing is polished, classified
      or rendered. */
  lemma TranscriptionFailureStops(p: Providers, audioFile: AudioFile, conversionType: string, e: JavaException)
    requires audioFile.content.Bytes?
    requires p.transcribe(ResourceOf(audioFile), TranscriptionOptionsFor(conversionType)) == Threw(e)
    ensures var r := ConvertAudioToText(p, audioFile, conversionType);
      && r.outcome == Failure(CatchIO(e))
      && r.trace == [ReadUpload, Transcribe(ResourceOf(audioFile), TranscriptionOptionsFor(conversionType))]
  {
  }

  /** The trace of a run after a successful transcription, piece by piece:
      the read and the transcription, the polishing step, the classification
      step and, after a yes, the barcode request. */
  lemma TraceShape(p: Providers, audioFile: AudioFile, conversionType: string, transcript: Option<string>)
    requires audioFile.content.Bytes?
    requires p.transcribe(ResourceOf(audioFile), TranscriptionOptionsFor(conversionType)) == Returned(transcript)
    ensures var r := ConvertAudioToText(p, audioFile, conversionType);
      var heard := [ReadUpload, Transcribe(ResourceOf(audioFile), TranscriptionOptionsFor(conversionType))];
      var polished := TextToClassify(p, transcript, conversionType);
      && (polished.outcome.Failure? ==> r.trace == heard + polished.trace)
      && (polished.outcome.Success? ==>
            var decision := CheckIfDiscount(p, polished.outcome.value);
            var decided := heard + polished.trace + decision.trace;
            if decision.outcome.Success? && decision.outcome.value.applyDiscount
            then r.trace == decided + BarCodeService.GenerateDiscountCoupon(p, BarCodeRequest(DiscountCode)).trace
            else r.trace == decided)
  {
  }

  /** Polishing runs exactly once in polished mode and never otherwise. */
  lemma PolishRunsOnceExactlyWhenPolished(p: Providers, audioFile: AudioFile, conversionType: string)
    requires audioFile.content.Bytes?
    requires p.transcribe(ResourceOf(audioFile), TranscriptionOptionsFor(conversionType)).Returned?
    ensures PolishCalls(ConvertAudioToText(p, audioFile, conversionType).trace)
            == if IsPolished(conversionType) then 1 else 0
  {
    var options := TranscriptionOptionsFor(conversionType);
    var heard := [ReadUpload, Transcribe(ResourceOf(audioFile), options)];
    var transcript := p.transcribe(ResourceOf(audioFile), options).value;
    var polished := TextToClassify(p, transcript, conversionType);
    TraceShape(p, audioFile, conversionType, transcript);
    assert PolishCalls(heard) == 0 by {
      assert PolishCalls(heard) == PolishCalls(heard[1..]);
      assert PolishCalls(heard[1..]) == PolishCalls(heard[1..][1..]);
      assert heard[1..][1..] == [];
    }
    PolishCallsAppend(heard, polished.trace);
    if polished.outcome.Success? {
      var decision := CheckIfDiscount(p, polished.outcome.value);
      CheckIfDiscountPolishesNothing(p, polished.outcome.value);
      PolishCallsAppend(heard + polished.trace, decision.trace);
      if decision.outcome.Success? && decision.outcome.value.applyDiscount {
        var coupon := BarCodeService.GenerateDiscountCoupon(p, BarCodeRequest(DiscountCode));
        PolishCallsAppend(heard + polished.trace + decision.trace, coupon.trace);
        assert coupon.trace[1..] == [];
      }
    }
  }

  /** After a successful transcription the trace is the read, the
      transcription, the polishing step, then the classification step. */
  lemma TraceAfterTranscription(p: Providers, audioFile: AudioFile, conversionType: string, transcript: Option<string>)
    requires audioFile.content.Bytes?
    requires p.transcribe(ResourceOf(audioFile), TranscriptionOptionsFor(conversionType)) == Returned(transcript)
    ensures var r := ConvertAudioToText(p, audioFile, conversionType);
      var polished := TextToClassify(p, transcript, conversionType);
      && (polished.outcome.Failure? ==> r.outcome == Failure(CatchIO(polished.outcome.error)))
      && (polished.outcome.Success? ==>
            var first := CheckIfDiscount(p, polished.outcome.value).trace[0];
            |r.trace| > 2 + |polished.trace|
            && r.trace[2..2 + |polished.trace|] == polished.trace
            && r.trace[2 + |polished.trace|] == first)
  {
    var heard := [ReadUpload, Transcribe(ResourceOf(audioFile), TranscriptionOptionsFor(conversionType))];
    var polished := TextToClassify(p, transcript, conversionType);
    var r := ConvertAudioToText(p, audioFile, conversionType);
    TraceShape(p, audioFile, conversionType, transcript);
    if polished.outcome.Success? {
      var decision := CheckIfDiscount(p, polished.outcome.value);
      var coupon := BarCodeService.GenerateDiscountCoupon(p, BarCodeRequest(DiscountCode));
      if decision.outcome.Success? && decision.outcome.value.applyDiscount {
        Segments(r.trace, heard, polished.trace, decision.trace, coupon.trace);
      } else {
        Segments(r.trace, heard, polished.trace, decision.trace, []);
      }
    }
  }

  /** Where the middle pieces of a four-piece trace sit. */
  lemma Segments(t: seq<Call>, a: seq<Call>, b: seq<Call>, c: seq<Call>, d: seq<Call>)
    requires t == a + b + c + d && |c| >= 1
    ensures |t| > |a| + |b| && t[|a|..|a| + |b|] == b && t[|a| + |b|] == c[0]
  {
    assert t[|a|..|a| + |b|] == b;
  }

  /** The text classified is the polishing reply, verbatim, in polished mode
      and the transcript otherwise. */
  lemma ClassifiedTextIsPolishReply(p: Providers, audioFile: AudioFile, conversionType: string, transcript: Option<string>)
    requires audioFile.content.Bytes?
    requires p.transcribe(ResourceOf(audioFile), TranscriptionOptionsFor(conversionType)) == Returned(transcript)
    ensures var r := ConvertAudioToText(p, audioFile, conversionType);
      var reply := p.chat(PolishPrompt(transcript));
      && (IsPolished(conversionType) && reply.Returned? ==>
            |r.trace| >= 4 && r.trace[2] == Chat(PolishPrompt(transcript))
            && r.trace[3] == Chat(DiscountPrompt(reply.value, p.formatSpec)))
      && (IsPolished(conversionType) && reply.Threw? ==> r.outcome == Failure(CatchIO(reply.exception)))
      && (!IsPolished(conversionType) ==>
            |r.trace| >= 3 && r.trace[2] == Chat(DiscountPrompt(transcript, p.formatSpec)))
  {
    TraceAfterTranscription(p, audioFile, conversionType, transcript);
    var polished := TextToClassify(p, transcript, conversionType);
    var r := ConvertAudioToText(p, audioFile, conversionType);
    if IsPolished(conversionType) && polished.outcome.Success? {
      assert r.trace[2] == r.trace[2..3][0];
    }
  }

  /** An empty or null classification reply is "No response received from
      AI"; nothing is parsed and no barcode is requested. */
  lemma EmptyReplyStopsPipeline(p: Providers, audioFile: AudioFile, conversionType: string,
                                transcript: Option<string>, text: Option<string>)
    requires audioFile.content.Bytes?
    requires p.transcribe(ResourceOf(audioFile), TranscriptionOptionsFor(conversionType)) == Returned(transcript)
    requires TextToClassify(p, transcript, conversionType).outcome == Success(text)
    requires var reply := p.chat(DiscountPrompt(text, p.formatSpec));
      reply == Returned(None) || reply == Returned(Some(""))
    ensures var r := ConvertAudioToText(p, audioFile, conversionType);
      && r.outcome == Failure(AIError(NoResponseMessage))
      && forall k :: 0 <= k < |r.trace| ==> !r.trace[k].Parse? && !r.trace[k].RenderBarcode?
  {
  }

  /** A parser failure propagates unchanged; it is never read as "no discount". */
  lemma ParseFailurePropagates(p: Providers, text: Option<string>, reply: string, e: JavaException)
    requires p.chat(DiscountPrompt(text, p.formatSpec)) == Returned(Some(reply)) && reply != ""
    requires p.parse(reply) == Threw(e)
    ensures CheckIfDiscount(p, text) == Run(Failure(e), [Chat(DiscountPrompt(text, p.formatSpec)), Parse(reply)])
  {
  }

  /** A positive decision answers with exactly the coupon for "DISCOUNT2024";
      a negative one answers "no discount" and requests no barcode. */
  lemma DecisionSelectsAnswer(p: Providers, audioFile: AudioFile, conversionType: string,
                              transcript: Option<string>, text: Option<string>, d: DiscountDecision)
    requires audioFile.content.Bytes?
    requires p.transcribe(ResourceOf(audioFile), TranscriptionOptionsFor(conversionType)) == Returned(transcript)
    requires TextToClassify(p, transcript, conversionType).outcome == Success(text)
    requires CheckIfDiscount(p, text).outcome == Success(d)
    ensures var r := ConvertAudioToText(p, audioFile, conversionType);
      var coupon := BarCodeService.GenerateDiscountCoupon(p, BarCodeRequest(DiscountCode));
      && (d.applyDiscount ==> r.outcome == coupon.outcome && r.trace[|r.trace| - 1] == coupon.trace[0])
      && (!d.applyDiscount ==> r.outcome == Success(NoDiscountPayload))
      && (!d.applyDiscount ==> forall k :: 0 <= k < |r.trace| ==> !r.trace[k].RenderBarcode?)
  {
  }
}
