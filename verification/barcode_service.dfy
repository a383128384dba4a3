/** `BarCodeService.generateDiscountCoupon`: normalise the coupon code, ask
    the barcode API for a PNG, and wrap the bytes as a base64 payload. */
module BarCodeService {
  import opened Wrappers
  import opened JavaLang
  import opened Model
  import opened Capabilities
  import Base64

  /** Codes shorter than this are padded. */
  const MinWidth: nat := 11

  const EmptyResponseMessage := "Empty response received from barcode API"
  const GenerationErrorPrefix := "Error while generating barcode: "

  /** `String.format("%-<width>s", s)`: left-justified, space-filled. */
  function PadRight(s: string, width: nat): (r: string)
    ensures |r| == if |s| < width then width else |s|
    ensures r[..|s|] == s
    ensures forall k :: |s| <= k < |r| ==> r[k] == ' '
  {
    if |s| < width then s + seq(width - |s|, _ => ' ') else s
  }

  /** `s.replace(from, to)`: every occurrence of one character replaced. */
  function ReplaceChar(s: string, from: char, to: char): (r: string)
    ensures |r| == |s|
    ensures forall k :: 0 <= k < |s| ==> r[k] == if s[k] == from then to else s[k]
  {
    seq(|s|, k requires 0 <= k < |s| => if s[k] == from then to else s[k])
  }

  /** The code sent to the barcode API: a code shorter than 11 characters is
      padded to 11 and then every space, its own included, becomes '0';
      a longer code goes through as it is. */
  function NormalizeCode(code: string): (r: string)
    ensures |r| >= MinWidth
    ensures |code| >= MinWidth ==> r == code
    ensures |code| < MinWidth ==> |r| == MinWidth
    ensures |code| < MinWidth ==> forall k :: 0 <= k < MinWidth ==>
      r[k] == if k < |code| && code[k] != ' ' then code[k] else '0'
  {
    if |code| < MinWidth then ReplaceChar(PadRight(code, MinWidth), ' ', '0') else code
  }

  /** The HTTP request for a code: a PNG QR code of the normalised code from
      `/qrcode`, with the configured key and `Accept: image/png`. */
  function CouponRequest(apiKey: string, code: string): (r: QrRequest)
    ensures r.path == "/qrcode" && r.format == "png" && r.accept == "image/png"
    ensures r.apiKey == apiKey
    ensures |r.data| >= MinWidth && (|code| >= MinWidth ==> r.data == code)
  {
    QrRequest("/qrcode", "png", NormalizeCode(code), apiKey, "image/png")
  }

  /** `generateDiscountCoupon(request)`. */
  function GenerateDiscountCoupon(p: Providers, request: BarCodeRequest): (r: Run<ImagePayload>)
    ensures r.trace == [RenderBarcode(CouponRequest(p.barcodeApiKey, request.barCodeText))]
    ensures r.outcome.Failure? ==> r.outcome.error.kind == AIException
  {
    var req := CouponRequest(p.barcodeApiKey, request.barCodeText);
    var outcome :=
      match p.barcode(req)
      case Threw(e) =>
        if e.kind == AIException then Failure(e)
        else Failure(AIError(GenerationErrorPrefix + Render(e.message)))
      case Returned(body) =>
        if body.None? || |body.value| == 0 then Failure(AIError(EmptyResponseMessage))
        else Success(ImagePayload("image/png", Base64.Encode(body.value)));
    Run(outcome, [RenderBarcode(req)])
  }

  // ---------------------------------------------------------------------
  // Properties
  // ---------------------------------------------------------------------

  /** Normalisation is idempotent. */
  lemma NormalizeIdempotent(code: string)
    ensures NormalizeCode(NormalizeCode(code)) == NormalizeCode(code)
  {
  }

  /** A short code comes out as the code with its spaces zeroed, followed by
      zeros up to width 11, and contains no space at all. */
  lemma NormalizeShortCode(code: string)
    requires |code| < MinWidth
    ensures NormalizeCode(code) == ReplaceChar(code, ' ', '0') + seq(MinWidth - |code|, _ => '0')
    ensures forall k :: 0 <= k < MinWidth ==> NormalizeCode(code)[k] != ' '
  {
  }

  /** "AB" becomes "AB000000000"; the coupon code the service uses,
      "DISCOUNT2024", is twelve characters long and is sent unchanged. */
  lemma NormalizeExamples()
    ensures NormalizeCode("AB") == "AB000000000"
    ensures NormalizeCode("A B") == "A0B00000000"
    ensures NormalizeCode("DISCOUNT2024") == "DISCOUNT2024"
  {
    NormalizeShortCode("AB");
    NormalizeShortCode("A B");
    assert ReplaceChar("AB", ' ', '0') == "AB";
    assert ReplaceChar("A B", ' ', '0') == "A0B";
  }

  /** The coupon succeeds exactly when the API returns a non-empty body, and
      then the payload is a PNG whose base64 decodes to exactly those bytes. */
  lemma CouponSuccess(p: Providers, request: BarCodeRequest)
    ensures var reply := p.barcode(CouponRequest(p.barcodeApiKey, request.barCodeText));
      var r := GenerateDiscountCoupon(p, request);
      && (r.outcome.Success? <==> reply.Returned? && reply.value.Some? && |reply.value.value| > 0)
      && (r.outcome.Success? ==>
            r.outcome.value.mimeType == "image/png"
            && Base64.Decode(r.outcome.value.base64) == Some(reply.value.value))
  {
    var reply := p.barcode(CouponRequest(p.barcodeApiKey, request.barCodeText));
    if reply.Returned? && reply.value.Some? {
      Base64.DecodeEncode(reply.value.value);
    }
  }

  /** A null or empty body is reported as such, not re-wrapped as a
      generation error. */
  lemma CouponEmptyResponse(p: Providers, request: BarCodeRequest)
    requires var reply := p.barcode(CouponRequest(p.barcodeApiKey, request.barCodeText));
      reply == Returned(None) || reply == Returned(Some([]))
    ensures GenerateDiscountCoupon(p, request).outcome == Failure(AIError(EmptyResponseMessage))
  {
  }

  /** An exception from the call is rethrown when it is an AIException and is
      otherwise wrapped in one carrying the cause's message. */
  lemma CouponCallFailure(p: Providers, request: BarCodeRequest, e: JavaException)
    requires p.barcode(CouponRequest(p.barcodeApiKey, request.barCodeText)) == Threw(e)
    ensures e.kind == AIException ==> GenerateDiscountCoupon(p, request).outcome == Failure(e)
    ensures e.kind != AIException ==>
      GenerateDiscountCoupon(p, request).outcome == Failure(AIError(GenerationErrorPrefix + Render(e.message)))
  {
  }
}
