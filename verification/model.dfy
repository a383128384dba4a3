/** The request and response records the services exchange. */
module Model {

  /** `Question`: the text to turn into speech. */
  datatype Question = Question(question: string)

  /** `ImagePayload`: a MIME type and a text field named `base64`. For the
      rendered coupon the field holds base64 of PNG bytes; for the
      "no discount" answer it holds plain text. */
  datatype ImagePayload = ImagePayload(mimeType: string, base64: string)

  /** `BarCodeRequest`: the coupon code to render. */
  datatype BarCodeRequest = BarCodeRequest(barCodeText: string)

  /** `DiscountDecision`: the structured answer parsed from the chat reply. */
  datatype DiscountDecision = DiscountDecision(applyDiscount: bool)
}
