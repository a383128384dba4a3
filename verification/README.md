# ai-text-speech, modelled in Dafny

The service exposes two endpoints.

- **Text to speech.** A question has every configured blocked word masked as `****` and is then sent to a speech-synthesis model.
- **Speech to text.** An uploaded recording goes through these steps:
  1. It is transcribed. In "raw" mode the temperature is pinned to 0.0.
  2. In "polished" mode a chat model cleans up the transcript.
  3. A chat model decides whether the caller should get a discount.
  4. On a yes, a QR-code PNG for the coupon `DISCOUNT2024` is fetched from a barcode API. It travels base64-encoded and is decoded again for the HTTP answer.

The model covers the following parts:

- **Redaction** (`redaction.dfy`): `filterText`. Each blocked word is applied in list order as a case-insensitive whole-word `replaceAll`. The model scans left to right, replaces non-overlapping matches, and tests the `\b` boundaries against the original text.
- **The pipeline** (`ai_service.dfy`): `convertToAudio`, `convertAudioToText`, `polishText` and `checkIfDiscount`. They are functions over injected services (`capabilities.dfy`). Each run returns its outcome (a value or the Java exception that escaped) together with the trace of outside calls it made. The trace is what lets properties say "is never called", "is called exactly once" or "stops here".
- **The coupon** (`barcode_service.dfy`): `generateDiscountCoupon`. This covers code normalisation to width 11, the request sent, the null or empty body check, base64 wrapping, and the two catch clauses.
- **The controller** (`controller.dfy`): `convertSpeechToText`. This covers the defaulted `conversionType` parameter, the case-sensitive validation, the empty-upload check, base64 decoding of the payload, and the catch-all that turns any failure into a 500.
- **Base64** (`base64.dfy`): `java.util.Base64`'s basic encoder and decoder, following the alphabet of section 4 of RFC 4648.
  - The encoder always pads.
  - The decoder accepts input with or without final padding.
  - It rejects wrong padding and any character outside the alphabet.
  - It does not check the unused trailing bits.
- **Java semantics the code relies on** (`java_lang.dfy`): `equalsIgnoreCase`, the rendering of a null string as `null`, exceptions as a kind plus an optional message, and `getBytes` on ASCII text.

Several behaviours are modelled exactly as the code has them:

- **Swapped prompt slots.** The `checkIfDiscount` prompt passes its arguments in the order `(transcribedText, outputFormat)`. So the transcript lands after "Provide your answer in the following format:", and the converter's format text lands after "Transcribed text:". `AIServiceImpl.DiscountPrompt` reproduces this. It also reproduces the text block's rendering: eight spaces of leftover indentation, lines 147 and 148 joined by the trailing backslash, and a final `'`.
- **The "no discount" answer is unusable.** It is the `text/plain` sentence "Transcribed Text does not indicate a discount is needed". The controller base64-decodes every payload, and that sentence contains spaces, so a negative decision always ends in the 500 answer. `TextSpeechController.NoDiscountEndsInServerError` proves this.
- **Case handling differs between the two layers.** The controller accepts only the exact strings `raw` and `polished`. The service compares them ignoring case. So `RAW` is rejected with 400, although the service would treat it as raw mode.
- **Catching `IOException`.** The `catch (IOException e)` in `convertAudioToText` wraps every `IOException` raised inside the `try` as "Failed to read audio file: ...". That includes one raised by the transcription or chat services, not only one from reading the upload (`AIServiceImpl.CatchIO`).

## Model

| member | source | states |
|---|---|---|
| Redaction.FilterText | src/main/java/com/learning/services/AIServiceImpl.java:134-140 | after filtering, no blocked word of the list occurs anywhere as a whole word, in any ASCII letter case |
| Redaction.RedactWord | src/main/java/com/learning/services/AIServiceImpl.java:137 | one `replaceAll` pass leaves no whole-word occurrence of its word, and returns a text that has none unchanged |
| Redaction.ScanFromStart | src/main/java/com/learning/services/AIServiceImpl.java:137 | the left-to-right replacement scan leaves no occurrence of its own word, and copies a text that has none |
| Redaction.CleanTextUnchangedFrom | src/main/java/com/learning/services/AIServiceImpl.java:137 | the scan copies the text from any position past which no match starts |
| Redaction.CopyRun | src/main/java/com/learning/services/AIServiceImpl.java:137 | once the scan passes a position where no match starts, the rest of that word run is copied verbatim, since no match can start inside a run |
| Redaction.SeparatorCopied | src/main/java/com/learning/services/AIServiceImpl.java:137 | a non-word character is always copied, as no match starts on it |
| Redaction.NoMatchAfterRedact | src/main/java/com/learning/services/AIServiceImpl.java:137 | one `replaceAll` pass leaves no whole-word match of its word, and creates no match of a word the text did not already contain |
| Redaction.NoOccurrenceFrom | src/main/java/com/learning/services/AIServiceImpl.java:137 | the left-to-right scan, resumed after each replacement, leaves no occurrence of the word in any suffix it produces |
| Redaction.FilterKeepsClean | src/main/java/com/learning/services/AIServiceImpl.java:136-138 | a later blocked word in the list never re-introduces a word an earlier pass removed |
| Redaction.CleanTextUnchanged | src/main/java/com/learning/services/AIServiceImpl.java:134-140 | a text with no whole-word occurrence of any blocked word, and in particular any text with an empty block list, is returned unchanged |
| Redaction.FilterIdempotent | src/main/java/com/learning/services/AIServiceImpl.java:134-140 | filtering an already filtered text changes nothing |
| Redaction.RedactSplitsAtSeparator | src/main/java/com/learning/services/AIServiceImpl.java:137 | replacement works token by token: it splits at every non-word character |
| Redaction.RedactWordRun | src/main/java/com/learning/services/AIServiceImpl.java:137 | a single run of word characters is masked exactly when it equals the blocked word ignoring ASCII case, so a longer word containing it is kept |
| Redaction.FilterExample | src/main/java/com/learning/services/AIServiceImpl.java:137 | blocking "cat" turns "Cat category" into "**** category" |
| Redaction.RunEnd | src/main/java/com/learning/services/AIServiceImpl.java:137 | the run of word characters from a position ends at a `\b` boundary |
| AIServiceImpl.ConvertToAudio | src/main/java/com/learning/services/AIServiceImpl.java:48-63 | exactly one synthesis call with alloy voice, normal speed, MP3 and tts-1, on the filtered question, which contains no whole-word blocked word; the answer is that call's bytes, or its exception |
| AIServiceImpl.CleanQuestionSpokenVerbatim | src/main/java/com/learning/services/AIServiceImpl.java:58-60 | a question without blocked words is synthesised exactly as asked |
| AIServiceImpl.TranscriptionOptionsFor | src/main/java/com/learning/services/AIServiceImpl.java:80-89 | whisper-1 with text output, and the temperature is pinned exactly when the type equals "raw" ignoring case |
| AIServiceImpl.TemperaturePinnedExactlyForRaw | src/main/java/com/learning/services/AIServiceImpl.java:84-93 | the transcription call of a readable upload carries the uploaded resource, whisper-1, and a pinned temperature if and only if the mode is raw |
| AIServiceImpl.CatchIO | src/main/java/com/learning/services/AIServiceImpl.java:111-113 | an IOException becomes a RuntimeException whose message is "Failed to read audio file: " plus the original message ("null" when absent); every other exception passes through unchanged |
| AIServiceImpl.ReadFailureCallsNothing | src/main/java/com/learning/services/AIServiceImpl.java:72-113 | an unreadable upload fails with "Failed to read audio file: " plus its message, before any service is called |
| AIServiceImpl.TranscriptionFailureStops | src/main/java/com/learning/services/AIServiceImpl.java:92-95 | a failed transcription ends the run with nothing polished, classified or rendered |
| JavaLang.EqualsIgnoreCase | src/main/java/com/learning/services/AIServiceImpl.java:85 | equal strings are equal ignoring case, and strings of different lengths never are |
| JavaLang.EqualsIgnoreCaseSymmetric | src/main/java/com/learning/services/AIServiceImpl.java:85 | the comparison gives the same answer whichever side is the receiver |
| AIServiceImpl.RawSpellings | src/main/java/com/learning/services/AIServiceImpl.java:85 | raw mode is selected by exactly the eight upper/lower-case spellings of "raw" and nothing else |
| AIServiceImpl.PolishedSpellings | src/main/java/com/learning/services/AIServiceImpl.java:99 | polished mode is selected by the spellings of "polished" in any ASCII case, and also with the dotted or dotless I in place of i and the long s in place of s |
| AIServiceImpl.PolishPrompt | src/main/java/com/learning/services/AIServiceImpl.java:119-127 | every polishing prompt starts with the polishing instructions |
| AIServiceImpl.PolishPromptCarriesText | src/main/java/com/learning/services/AIServiceImpl.java:119-127 | the transcript, or "null", sits verbatim between the instructions and "Polished text:", so two transcripts give the same prompt only if they render the same |
| AIServiceImpl.PolishText | src/main/java/com/learning/services/AIServiceImpl.java:118-132 | one chat call on the polishing prompt, counted as exactly one polishing call; the reply, null included, is the polished text, and a thrown exception is the failure |
| AIServiceImpl.TextToClassify | src/main/java/com/learning/services/AIServiceImpl.java:98-102 | one polishing call in polished mode and none otherwise; outside polished mode the transcript goes to classification untouched, in polished mode the chat reply does |
| AIServiceImpl.DiscountPrompt | src/main/java/com/learning/services/AIServiceImpl.java:145-154 | no classification prompt can be mistaken for a polishing prompt |
| AIServiceImpl.DiscountPromptSlots | src/main/java/com/learning/services/AIServiceImpl.java:145-154 | the transcript lands right after "Provide your answer in the following format:" and the format text right after "Transcribed text:", the swapped order of the `String.format` arguments |
| AIServiceImpl.TraceAfterTranscription | src/main/java/com/learning/services/AIServiceImpl.java:92-104 | after a transcription, a failed polishing call ends the run, and otherwise the polishing calls are followed directly by the classification call |
| AIServiceImpl.CheckIfDiscountPolishesNothing | src/main/java/com/learning/services/AIServiceImpl.java:142-163 | classification makes no polishing call |
| AIServiceImpl.PolishRunsOnceExactlyWhenPolished | src/main/java/com/learning/services/AIServiceImpl.java:98-102 | after a transcription, the run makes exactly one polishing call in polished mode and none otherwise |
| AIServiceImpl.ClassifiedTextIsPolishReply | src/main/java/com/learning/services/AIServiceImpl.java:98-104 | classification sees the polishing reply verbatim in polished mode and the raw transcript otherwise; a failed polishing call ends the run |
| AIServiceImpl.CheckIfDiscount | src/main/java/com/learning/services/AIServiceImpl.java:142-163 | one chat call on the classification prompt; a thrown exception escapes; a null or empty reply fails with "No response received from AI" and parses nothing; any other reply is parsed once and the parser decides; every decision comes from parsing the chat reply |
| AIServiceImpl.EmptyReplyStopsPipeline | src/main/java/com/learning/services/AIServiceImpl.java:156-159 | a null or empty classification reply fails with "No response received from AI"; nothing is parsed and no barcode is requested |
| AIServiceImpl.ParseFailurePropagates | src/main/java/com/learning/services/AIServiceImpl.java:161 | a parser failure escapes unchanged and is never read as "no discount" |
| AIServiceImpl.DecisionSelectsAnswer | src/main/java/com/learning/services/AIServiceImpl.java:104-115 | a yes answers with exactly the coupon for DISCOUNT2024; a no answers with the text/plain sentence and never requests a barcode |
| AIServiceImpl.ConvertAudioToText | src/main/java/com/learning/services/AIServiceImpl.java:65-116 | every run starts by reading the upload, and a readable upload is transcribed next with the options of its mode |
| BarCodeService.NormalizeCode | src/main/java/com/learning/services/BarCodeService.java:32-36 | a code of 11 or more characters is sent unchanged; a shorter one comes out at width 11, holding its own non-space characters, with '0' everywhere else |
| BarCodeService.PadRight | src/main/java/com/learning/services/BarCodeService.java:33 | `%-11s` keeps the text and fills with spaces up to the width |
| BarCodeService.NormalizeShortCode | src/main/java/com/learning/services/BarCodeService.java:32-33 | a short code is the code with spaces zeroed, followed by zeros, and contains no space |
| BarCodeService.NormalizeIdempotent | src/main/java/com/learning/services/BarCodeService.java:32-36 | normalising twice is normalising once |
| BarCodeService.NormalizeExamples | src/main/java/com/learning/services/BarCodeService.java:32-36 | "AB" becomes "AB000000000", "A B" becomes "A0B00000000", and "DISCOUNT2024" is unchanged |
| BarCodeService.CouponRequest | src/main/java/com/learning/services/BarCodeService.java:37-46 | the request asks `/qrcode` for a PNG of the normalised code, which has at least 11 characters and is the code itself when that is long enough, with the configured API key and `Accept: image/png` |
| BarCodeService.GenerateDiscountCoupon | src/main/java/com/learning/services/BarCodeService.java:28-62 | one barcode request per coupon, and every failure is an AIException |
| BarCodeService.CouponSuccess | src/main/java/com/learning/services/BarCodeService.java:48-54 | success exactly when the body is non-null and non-empty, and then the payload is image/png whose base64 decodes to exactly the body |
| BarCodeService.CouponEmptyResponse | src/main/java/com/learning/services/BarCodeService.java:48-50 | a null or empty body fails with "Empty response received from barcode API" |
| BarCodeService.CouponCallFailure | src/main/java/com/learning/services/BarCodeService.java:56-61 | an AIException from the call is rethrown as is, and any other exception is wrapped with "Error while generating barcode: " and its message |
| Base64.Encode | src/main/java/com/learning/services/BarCodeService.java:53 | the padded encoding has four characters per started group of three bytes, all from the alphabet or '=' |
| Base64.Decode | src/main/java/com/learning/controllers/TextSpeechController.java:55 | a lone final character is rejected; an accepted text gives three bytes per four characters, one or two for a final unpadded pair or triple, and one to three for a final padded unit |
| Base64.DecodeEncode | src/main/java/com/learning/controllers/TextSpeechController.java:55 | decoding the encoder's output gives back the original bytes |
| Base64.DecodeRejectsForeignChar | src/main/java/com/learning/controllers/TextSpeechController.java:55 | a character outside the alphabet and not '=' makes decoding fail, wherever it stands |
| Base64.ValueOfCharOf | src/main/java/com/learning/services/BarCodeService.java:53 | the alphabet maps each 6-bit value to a character that maps back to it |
| Base64.CharOfValueOf | src/main/java/com/learning/controllers/TextSpeechController.java:55 | each alphabet character maps to a value that maps back to it |
| TextSpeechController.ResolveConversionType | src/main/java/com/learning/controllers/TextSpeechController.java:36 | a missing parameter means "raw"; a non-empty one is taken as given |
| TextSpeechController.ConvertSpeechToText | src/main/java/com/learning/controllers/TextSpeechController.java:34-59 | the answer is 200, 400 or 500, and a 200 is always typed image/png |
| TextSpeechController.InvalidConversionTypeRejected | src/main/java/com/learning/controllers/TextSpeechController.java:39-42 | any type other than exactly raw or polished gets 400 with the fixed message, before the upload is looked at and with no service call |
| TextSpeechController.UpperCaseRawRejected | src/main/java/com/learning/controllers/TextSpeechController.java:39-42 | "RAW" is rejected although the service would read it as raw |
| TextSpeechController.EmptyFileRejected | src/main/java/com/learning/controllers/TextSpeechController.java:44-47 | an empty upload gets 400 "Please upload an audio file" with no service call |
| TextSpeechController.MissingConversionTypeIsRaw | src/main/java/com/learning/controllers/TextSpeechController.java:36 | an absent or empty parameter behaves exactly like "raw" |
| TextSpeechController.AnswerFollowsPayload | src/main/java/com/learning/controllers/TextSpeechController.java:49-59 | 200 exactly when the service returns a payload that decodes, with the decoded bytes as body; otherwise 500 "Failed to transcribe audio: " |
| TextSpeechController.NoDiscountEndsInServerError | src/main/java/com/learning/controllers/TextSpeechController.java:55-58 | a negative classification always ends in the 500 answer |
| TextSpeechController.CouponBytesReachClient | src/main/java/com/learning/controllers/TextSpeechController.java:49-55 | a positive classification with a non-empty PNG answers 200 image/png with exactly those PNG bytes |
| JavaLang.Render | src/main/java/com/learning/services/AIServiceImpl.java:113 | a null message is concatenated as "null" |
| Capabilities.Outcome | src/main/java/com/learning/services/AIServiceImpl.java:60-62 | a service's returned value becomes the success, and its exception escapes unchanged |

## Left out

- Spring wiring, dependency injection, the `AIService` interface and `AiTextSpeechApplication` are left out; they are plumbing. The configured `AppProperties.getBlockedWords()` list becomes a parameter.
- `TextSpeechController.convertTextToSpeech` only delegates, so `AIServiceImpl.ConvertToAudio` stands for it.
- The speech, transcription, chat and barcode services, and `BeanOutputConverter` (its format text and its parser), are network or library calls. They are injected as functions that either return or throw. As pure functions they answer the same way each time they get the same arguments. Calling into the services can raise an NPE, for example from `getResult()` returning null. That is covered only as an exception the injected service may throw.
- Floating-point settings are not numbers here. The temperature 0.0 is `Pinned` and the unset temperature is `Unset`. The speed 1.0 is `NormalSpeed`.
- Logging, the Content-Disposition header, the `produces`/`consumes` media types and multipart parsing are left out. An upload is modelled as its original filename, its size (`isEmpty` means size 0), and either its bytes or the IOException that reading it raises.
- The barcode API's base URL, the HTTP transport and the other exceptions of `RestClient` are left out. The request is a record of path, format, data, API key and accept header.
- The records under `com/learning/model` and the `AIException` class are not part of this model. They are rebuilt as plain datatypes from their use in the three core files.
- Redaction.FilterText: proved only for blocked words that are non-empty and made of ASCII word characters. `Pattern.quote` allows any text, but `\b` next to a non-word character (or with an empty word) matches in different places, and that case is not modelled.
- Redaction.RedactWord: requires its word to be non-empty ASCII word characters, for the reason above.
- AIServiceImpl.ConvertToAudio: has the same restriction on blocked words as `Redaction.FilterText`.
- Redaction.RedactFrom: case folding is ASCII-only, as for a pattern compiled without UNICODE_CASE. Word characters are only the ASCII `[A-Za-z0-9_]`, and every other character counts as a non-word character. Java's `\b` differs on non-ASCII text. Before JDK 19 it treats every Unicode letter or digit as a word character. On every version, a non-spacing mark that follows a word character counts as part of the word. So on text where a blocked word touches a non-ASCII letter, digit or combining mark, the model can mask where Java does not. For example, the model masks "cat" followed by U+0301 to "****" followed by U+0301, but Java leaves it. The redaction lemmas hold for the model as stated, not for such text in Java.
- Redaction.RedactFrom: carries no contract of its own. Its behaviour is stated by `Redaction.ScanFromStart`, `Redaction.CleanTextUnchangedFrom`, `Redaction.CopyRun`, `Redaction.SeparatorCopied` and `Redaction.NoOccurrenceFrom`.
- JavaLang.EqualsIgnoreCase: folds ASCII letters plus the four non-ASCII characters whose case mapping lands on an ASCII letter (U+0130, U+0131, U+017F, U+212A). This is exact whenever one side is an ASCII literal, which holds for every use here. It is not a full Unicode case table.
- JavaLang.AsciiBytes: `String.getBytes()` uses the platform charset. It is modelled for the ASCII literals the controller sends, where every charset in use agrees.
- Strings are sequences of Unicode characters rather than UTF-16 code units. Supplementary characters would count once instead of twice, which affects only the length test of `%-11s` padding.
- BarCodeService.GenerateDiscountCoupon: a null `barCodeText` is left out. The only caller passes the constant "DISCOUNT2024".
