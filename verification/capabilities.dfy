/** The external services the core calls, as injected pure functions, and
    the trace of calls a run makes. A service either returns a value or
    throws; which one it does is entirely up to the function supplied. */
module Capabilities {
  import opened Wrappers
  import opened JavaLang
  import opened Model

  /** What a service call gives back. */
  datatype Reply<+T> = Returned(value: T) | Threw(exception: JavaException)

  /** Transcription options. Temperature is either left to the service or
      pinned to 0.0, the only value the code ever sets. */
  datatype TranscriptFormat = TextFormat
  datatype Temperature = Unset | Pinned
  datatype TranscriptionOptions =
    TranscriptionOptions(model: string, responseFormat: TranscriptFormat, temperature: Temperature)

  /** Reading the bytes of an upload: the bytes, or the IOException's message. */
  datatype ReadOutcome = Bytes(bytes: seq<byte>) | ReadError(message: Option<string>)

  /** The multipart upload: its original filename, its size (what
      `isEmpty()` looks at) and what reading its bytes yields. */
  datatype AudioFile = AudioFile(originalFilename: Option<string>, size: nat, content: ReadOutcome)

  /** The uploaded audio handed to the transcription service. */
  datatype AudioResource = AudioResource(bytes: seq<byte>, filename: Option<string>)

  /** Speech options: voice ALLOY, speed 1.0, MP3, model "tts-1". */
  datatype Voice = Alloy
  datatype Speed = NormalSpeed
  datatype SpeechFormat = Mp3
  datatype SpeechOptions =
    SpeechOptions(voice: Voice, speed: Speed, responseFormat: SpeechFormat, model: string)

  /** An HTTP GET to the barcode API: path, `format` and `data` query
      parameters, `X-Api-Key` and `Accept` headers. */
  datatype QrRequest =
    QrRequest(path: string, format: string, data: string, apiKey: string, accept: string)

  /** One call to the outside world, in the order a run makes them.
      `ReadUpload` is reading the bytes of the uploaded file. */
  datatype Call =
    | ReadUpload
    | Transcribe(resource: AudioResource, options: TranscriptionOptions)
    | Chat(prompt: string)
    | Parse(response: string)
    | RenderBarcode(request: QrRequest)
    | Synthesize(text: string, speechOptions: SpeechOptions)

  /** The outcome of a run (a value, or the exception that escaped) and the
      calls it made. */
  datatype Run<+T> = Run(outcome: Result<T, JavaException>, trace: seq<Call>)

  /** The injected services: speech synthesis, transcription, chat, the
      structured-output converter (its format text and its parser), and the
      barcode API with its key. */
  datatype Providers = Providers(
    speech: (string, SpeechOptions) -> Reply<seq<byte>>,
    transcribe: (AudioResource, TranscriptionOptions) -> Reply<Option<string>>,
    chat: string -> Reply<Option<string>>,
    formatSpec: string,
    parse: string -> Reply<DiscountDecision>,
    barcodeApiKey: string,
    barcode: QrRequest -> Reply<Option<seq<byte>>>)

  /** `Reply` to `Result`: a thrown exception propagates unchanged. */
  function Outcome<T>(reply: Reply<T>): (r: Result<T, JavaException>)
    ensures reply.Returned? <==> r.Success?
    ensures reply.Returned? ==> r.value == reply.value
    ensures reply.Threw? ==> r.error == reply.exception
  {
    match reply
    case Returned(v) => Success(v)
    case Threw(e) => Failure(e)
  }
}
