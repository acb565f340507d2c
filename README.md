# Nano Banana image editing: the edit-request pipeline in Dafny

This project models the core of a small web application that edits an uploaded image
with Gemini. The user picks an image, types or picks an edit instruction, and presses
generate. The application sends the image and the instruction to the model and shows the
edited image, or the model's text reply, or an error.

Two source files hold that logic, and each has a module here:

- `GeminiService` models `editImageWithGemini` (services/geminiService.ts). It strips the
  `data:` URL framing (RFC 2397, section 3) from the image, builds the two-part request,
  and reads the first candidate of the reply into an image URL and a text. It fails when
  it finds neither. The SDK call is a function parameter
  `generateContent: Request -> Result<Response, Error>` applied to the request that would be sent.
- `App` models the session state of App.tsx as class `Session`. The class has the six
  `useState` cells and the handlers that set them. The asynchronous `handleGenerate` is
  split at its `await`:
  - `BeginGenerate` runs the guard and the updates before the call.
  - `CompleteSuccess` and `CompleteFailure` run the updates after it.
  - `Generate` runs all three back to back. Like the handler, it does not look at calls
    already pending.

`Types` mirrors types.ts. `JsText` models the `String.prototype.trim` that the generate
guard calls. `Scenarios` states whole sessions against fixed replies and proves their end states.

The model states what the code does, including where it is less strict than one might expect:

- A missing image or a blank prompt makes generating a silent no-op. There are no
  "empty instruction" or "missing image" errors.
- The prompt is sent as typed, not trimmed.
- The result holds a re-framed URL `data:image/png;base64,<data>`, not bare base64. The
  PNG framing is used whatever mime type the reply part states.
- A part counts as text only when it has no inline data and its text is non-empty.
- Stripping removes one framing only. So it is idempotent on base64 payloads but not on
  every string (`StripFramingRemovesOnlyOne`).
- `handleGenerate` never checks for a pending call. Only the disabled controls guard against
  a second one, and Reset All (App.tsx:101) is not disabled, so a second generation can start
  after it (see Findings).
  `Session.inFlight` is the model's own count of calls started and not completed. It is
  not a cell of the source.

## Model

| member | source | states |
|---|---|---|
| `GeminiService.MatchedSubtype` | services/geminiService.ts:20 | the anchored pattern matches exactly when the string opens with `data:image/<t>;base64,` for t in png, jpeg, jpg, webp, and the match names that t |
| `GeminiService.FramingIsUnique` | services/geminiService.ts:20 | no string opens with the framing of two different accepted subtypes, so the alternation order cannot matter |
| `GeminiService.StripFraming` | services/geminiService.ts:20 | the cleaned string is the input, or the input minus one leading accepted framing; an unframed input comes back unchanged |
| `GeminiService.StripFramingRemovesThatPrefix` | services/geminiService.ts:20 | an input framed with subtype t is exactly that framing followed by the cleaned string |
| `GeminiService.Base64TextIsUnframed` | services/geminiService.ts:20 | base64 text (no `:`) never opens with a framing |
| `GeminiService.StripFramingOfDataUrl` | services/geminiService.ts:20 | a data URL of an accepted subtype over a base64 payload strips to the payload, and stripping again changes nothing |
| `GeminiService.StripFramingRemovesOnlyOne` | services/geminiService.ts:20 | a doubly framed string loses only its first framing, so stripping is not idempotent on all strings |
| `GeminiService.StripFramingKeepsOtherSubtypes` | services/geminiService.ts:20 | a data URL whose subtype is not accepted (gif, svg+xml, ...) is left unchanged |
| `GeminiService.StripFramingNeedsBase64Marker` | services/geminiService.ts:20 | `data:image/<t>,...` without `;base64` is left unchanged |
| `GeminiService.StripFramingOnlyAtStart` | services/geminiService.ts:20 | a framing that follows a non-empty base64 head is not at position 0 and is left in place |
| `GeminiService.BuildRequest` | services/geminiService.ts:22-36 | the request names model gemini-2.5-flash-image and has exactly two parts: first the image part, carrying the caller's mime type unchanged and the input with its framing (if any) removed; then the text part, carrying the prompt exactly as passed |
| `GeminiService.RequestCarriesPayload` | services/geminiService.ts:20-31 | for an upload read as an accepted data URL, the image part carries exactly the framing-free base64 payload |
| `GeminiService.ImageUrlOfNone` | services/geminiService.ts:46-51 | the image URL is null exactly when no part of the first candidate has inline data |
| `GeminiService.ImageUrlOfLast` | services/geminiService.ts:46-51 | the image URL comes from the last part with inline data, as `data:image/png;base64,` + its data |
| `GeminiService.ImageUrlFramedAsPng` | services/geminiService.ts:51 | every image URL produced carries the PNG framing, whatever the part's mime type |
| `GeminiService.TextOfNone` | services/geminiService.ts:46-54 | the text is null exactly when no part without inline data has a non-empty text; a produced text is never empty |
| `GeminiService.TextOfLast` | services/geminiService.ts:46-54 | the text comes from the last part that has no inline data and a non-empty text; image parts and empty texts after it are ignored |
| `GeminiService.Interpretation` | services/geminiService.ts:58-62 | the outcome fails, with "No image or text was returned from the model.", exactly when no part counts as image or text; otherwise at least one field is non-null |
| `GeminiService.LaterCandidatesIgnored` | services/geminiService.ts:43-44 | only the first candidate is read, and a reply with no candidates fails with the empty-result error |
| `GeminiService.InterpretResponse` | services/geminiService.ts:40-62 | the loop over the first candidate's parts, with the throw check after it, yields the interpretation of those parts |
| `GeminiService.EditImageWithGemini` | services/geminiService.ts:18-67 | one request built from the arguments is sent; an error thrown by the call is rethrown unchanged; otherwise the reply's interpretation is returned, and a result always has an image or a text |
| `JsText.TrimEmptyIffBlank` | App.tsx:42 | `s.trim()` is empty exactly when every character of s is white space or a line terminator |
| `App.ErrorText` | App.tsx:53 | the shown error is the error's own message when non-empty, else the fixed fallback, so it is never empty |
| `App.Session.constructor` | App.tsx:17-22 | the initial state is IDLE, no image, mime type '', prompt '', no result, no error; it satisfies the session invariant |
| `App.Session.ImageSelect` | App.tsx:24-30 | image and mime type are set, result and error cleared, status IDLE, prompt unchanged; the invariant is kept |
| `App.Session.Clear` | App.tsx:32-39 | all six cells return to their initial values from any state; the invariant is kept |
| `App.Session.SetPrompt` | App.tsx:124 | only the prompt changes; the invariant is kept |
| `App.Session.BeginGenerate` | App.tsx:41-46 | when the guard fails nothing changes; otherwise status PROCESSING, error and result cleared, image, mime type and prompt untouched, one more call in flight; no check of calls already pending |
| `App.Session.BeginGenerateSingleFlight` | App.tsx:41-46 | as BeginGenerate, but a start while a call is pending is ignored; the invariant is kept from every valid state |
| `App.Session.CompleteSuccess` | App.tsx:50-51 | result := the reply and status SUCCESS, other cells untouched; the invariant is kept when at most one call was pending |
| `App.Session.CompleteFailure` | App.tsx:52-54 | error := the error text (never empty) and status ERROR, other cells untouched; the invariant is kept when at most one call was pending |
| `App.Session.Generate` | App.tsx:41-56 | a run of handleGenerate with nothing in between, whether or not another call is pending: a no-op when the guard fails; otherwise SUCCESS with the service's result and no error, or ERROR with the error text and no result; the three status facts hold afterwards, and the whole invariant too when no other call was pending |
| `App.CanGenerateIff` | App.tsx:42 | generating proceeds exactly when the image is neither null nor empty and the prompt is not all white space |
| `Scenarios.ReadySession` | App.tsx:24-30 | selecting an image and entering a prompt leaves a session that may generate |
| `Scenarios.OnlyImageReply` | services/geminiService.ts:46-51 | a reply with a single image part (stated as JPEG) ends in SUCCESS with a PNG-framed image URL and no text |
| `Scenarios.OnlyTextReply` | services/geminiService.ts:52-53 | a reply with a single text part ends in SUCCESS with that text and no image, not in an error |
| `Scenarios.EmptyReply` | services/geminiService.ts:58-60 | a reply with no candidates ends in ERROR with the empty-result message |
| `Scenarios.GenerateWithoutImage` | App.tsx:42 | generating with no image selected changes nothing |
| `Scenarios.FaultThenRetry` | App.tsx:52-54 | a thrown fault shows its own message, a message-less one the fallback, and a later attempt succeeds on its own; a reply with one text part and one image part fills both fields |
| `Scenarios.GenerateWhilePending` | App.tsx:41-56 | after Reset All while a call is pending, generating again sends a second call, whose failure is shown |
| `Scenarios.DoubleSubmit` | App.tsx:101 | with two calls in flight, a failure followed by a success leaves status SUCCESS beside a non-null error |
| `Scenarios.DoubleSubmitSingleFlight` | App.tsx:41-46 | under the single-flight rule the same clicks start only one call and the invariant holds |

The session invariant (`Session.Valid`) is:

- status = ERROR exactly when error is non-null, and a non-null error is non-empty;
- status = SUCCESS implies result is non-null;
- status IDLE or PROCESSING implies result is null;
- at most one call is in flight, and while one is, status is IDLE or PROCESSING.

## Left out

- The Gemini SDK client: the global `GoogleGenAI` built from `process.env.API_KEY` and the network call itself. The reply is a parameter.
- `console.error` logging in the catch block, which is I/O. The rethrow is modelled.
- A candidate without `content` or `content.parts`, and an inline-data part without `data`. The source would throw a TypeError there or build the URL from `undefined`. The model's parts always have these fields. An absent `candidates` list is modelled as the empty one.
- The JavaScript event loop. A pending call is modelled by the `inFlight` count, and its completion by separate methods that callers may interleave with other handlers in any order. Which of two pending calls completes first is left to the caller.
- `handleDownload` (DOM link creation, `Date.now()`), all JSX rendering, and the display choice of image over text.
- The upload component: `FileReader.readAsDataURL` (the base64 encoding happens there), `alert`, drag and drop, and its `image/` type check.
- The prompt input's auto-resize and Enter-key handling. Those are presentation only.
- The disabled state of the controls (App.tsx:110, 126, 139; components/PromptInput.tsx:45, 52). In the source it is the only thing that limits when handlers run. The model lets every handler run in every state, for example `BeginGenerate` straight from PROCESSING, so it allows a superset of what the enabled controls allow. The single-flight rule those controls aim at is stated separately, by `BeginGenerateSingleFlight` and `Session.Valid`.
- The preset prompt strings. They are constant data that reach the model only through `SetPrompt`.

## Findings

| source | as written | input that shows it | evidently intended | confidence | as-written member | corrected member |
|---|---|---|---|---|---|---|
| App.tsx:101 | "Reset All" stays enabled while a generation is pending. `handleGenerate` never checks for a pending call. After Reset All the upload and prompt controls are enabled again, because the status is IDLE. The end state shows SUCCESS together with an error message. | Select an image, enter a prompt, generate. While it is pending, press Reset All, select an image, enter a prompt and generate again. The second call fails, then the first succeeds. | At most one generation in flight. The upload area, the prompt box and the presets are all disabled while PROCESSING. | medium, not executed | `Scenarios.DoubleSubmit` | `App.Session.BeginGenerateSingleFlight` |
