# Picking an action from an image, in Dafny

This project models the action-selection protocol of `chatgpt-vision-rust`.
A caller gives a context sentence, a list of candidate actions and an image.
A picker turns the context and the actions into one prompt and asks an AI
backend about the image. The backend's answer, meant to be one action id,
is returned unchanged.

The repository holds two copies of this protocol, and both are modelled:

- The crate root has `pick_action`, which builds the prompt itself by
  appending to a string (module `ActionPicker`). Its adapter, `ChatGpt4v`,
  inlines one image in a payload literal (module `ChatGpt4vLegacy`).
- The `pick_action_from_image` library crate renders the prompt from a
  template (module `TemplatePicker`). Its adapter builds a payload for any
  number of images and checks the HTTP status (module `ChatGpt4v`).

Shared modules:

- `Ai` holds the error kinds and `ImagePath`. It also holds the backend
  capability: a class `Backend` with a reply function and a ghost log
  `asked` of every question put to it. The log lets the pickers state that
  the backend is asked once, or not at all.
- `VisionWire` holds the payload, the image-to-URL mapping and the reply
  shape that both adapters use.
- `Base64` is the standard base64 encoding of section 4 of RFC 4648. Local
  image files are sent in this encoding. A decoder is included as the
  inverse the encoder is proved against.
- `Scenarios` has two callers: one with a stub backend, and one with the
  adapter over an unreadable file.

The file system, the network and the template are parameters. They are
functions from their input to a result or an error message:

- `FileSystem`: a path to the file's bytes.
- `Transport`: a payload to the HTTP reply.
- `Renderer`: the template's input to the rendered prompt.

The adapters are pure functions of these parameters. "No request is sent"
is stated by the result not depending on `Transport`.

Three behaviours of the code are easy to miss; the model follows the code:

- The pickers accept an empty action list and duplicate ids. Neither is
  rejected. The empty list gives a prompt that ends with the
  `Possible Actions:` header.
- Only a status in 400-599 is `RequestFailed` in the newer adapter. A 1xx
  or 3xx reply goes on to decoding. The older adapter checks no status at
  all (`ChatGpt4vLegacy.ErrorStatusAccepted`).
- The older adapter's reply schema requires `finish_details` in every
  choice, not `finish_reason` (`ChatGpt4vLegacy.FinishDetailsRequired`).

## Model

| member | source | states |
|---|---|---|
| `Base64.Encode` | pick_action_from_image/src/chatgpt_4v.rs:67 | The encoding of n bytes has 4·⌈n/3⌉ characters, each from the standard alphabet or the `=` pad. |
| `Base64.DecodeEncode` | src/chatgpt_4v.rs:50 | Decoding the base64 text of any byte string gives back exactly those bytes. The encoding loses nothing. |
| `Base64.EncodeDecode` | src/chatgpt_4v.rs:50 | The encoding is canonical. Any text the strict decoder accepts is exactly the encoding of the bytes it decodes to, so no other text stands for those bytes. |
| `VisionWire.EncodeImage` | pick_action_from_image/src/chatgpt_4v.rs:63-68 | Encoding an image fails exactly when reading the file fails, with the read error. On success the text is the standard base64 encoding of the file's bytes, and it decodes back to them. |
| `VisionWire.ImageUrl` | pick_action_from_image/src/chatgpt_4v.rs:152-159 | A `Url` image is sent as its URL, verbatim. A `File` image fails with `BadImagePath` carrying the I/O error exactly when the file cannot be read. Otherwise it becomes `data:image/jpeg;base64,` followed by the standard base64 encoding of the file's bytes, which decodes back to them. |
| `VisionWire.UserPayload` | pick_action_from_image/src/chatgpt_4v.rs:168-177 | The payload has model `gpt-4-vision-preview`, `max_tokens` 300, and exactly one message, with role `user`, holding the given content. |
| `VisionWire.DecodeChoices` | pick_action_from_image/src/chatgpt_4v.rs:118-121 | The `choices` array decodes only if every choice has all required fields. The decoded contents are then the choices' message contents, one per choice, in order. |
| `Ai.Backend.AskAboutImage` | pick_action_from_image/src/ai.rs:19-26 | A backend call returns the backend's own answer or error for the question and image, and adds exactly that question to the log. |
| `ActionPicker.BlocksSnoc` | src/action_picker.rs:22-24 | Adding an action to the list adds exactly its `id: description` block, with a blank line, after the existing blocks. |
| `ActionPicker.BlocksAppend` | src/action_picker.rs:22-24 | The blocks of two lists joined together are the blocks of the first list followed by the blocks of the second. |
| `ActionPicker.BlockAt` | src/action_picker.rs:22-24 | List order is kept. Action i's block comes right after the blocks of the actions before it, and the blocks of the actions after it follow. |
| `ActionPicker.PromptLayout` | src/action_picker.rs:14-21 | The prompt is the fixed instruction sentence, then a blank line, then exactly `Context: <context>` with a blank line, then `Possible Actions:` with a blank line, then the action blocks with nothing after them. |
| `ActionPicker.PromptEnd` | src/action_picker.rs:21-24 | With no actions the prompt is the preamble, ending in the header. With some actions it ends with the last action's block. |
| `ActionPicker.PromptSnoc` | src/action_picker.rs:16-24 | Adding one action at the end of the list adds exactly that action's block at the end of the prompt. |
| `ActionPicker.BuildPrompt` | src/action_picker.rs:14-24 | The string built by appending the fixed parts, then one block per action in a loop, equals the prompt defined from the context and the actions alone. |
| `ActionPicker.PickAction` | src/action_picker.rs:8-28 | The backend is asked exactly once, with the full prompt and the caller's image. Its answer or error is returned unchanged, and the answer is not checked against the action ids. |
| `TemplatePicker.GeneratePrompt` | pick_action_from_image/src/action_picker.rs:23-25 | The template gets only the caller's context and actions. The prompt step fails exactly when rendering fails, as `FailedToGeneratePrompt` with the renderer's error. Otherwise the rendered text is the prompt. |
| `TemplatePicker.PickActionFromImage` | pick_action_from_image/src/action_picker.rs:17-28 | If rendering fails, the result is `FailedToGeneratePrompt` and the backend is never asked. Otherwise the backend is asked exactly once, with the rendered prompt and the caller's image, and its answer or error is the result. |
| `ChatGpt4v.ImageParts` | pick_action_from_image/src/chatgpt_4v.rs:151-166 | If every image has a URL, there is one `image_url` part per image, in input order. Otherwise the result is the error of the first image whose URL cannot be made. |
| `ChatGpt4v.ImagePartsSnoc` | pick_action_from_image/src/chatgpt_4v.rs:151-166 | One more loop iteration adds the new image's part, or ends with that image's error. |
| `ChatGpt4v.ImagePartsFailurePersists` | pick_action_from_image/src/chatgpt_4v.rs:154-157 | Once an image fails, the images after it do not change the outcome. |
| `ChatGpt4v.ImagePartsStep` | pick_action_from_image/src/chatgpt_4v.rs:151-166 | One pass of the loop over image i: if it has a URL, its part follows the parts of the images before it. Otherwise its error is the outcome for the whole list. |
| `ChatGpt4v.PayloadFor` | pick_action_from_image/src/chatgpt_4v.rs:143-178 | A payload is made exactly when every image has a URL. It has the fixed model, `max_tokens` 300 and one user message. The content is the text part first, then one `image_url` part per image in order, so its length is 1 + the number of images. |
| `ChatGpt4v.MakePayload` | pick_action_from_image/src/chatgpt_4v.rs:143-178 | The in-place loop that pushes onto `content`, with its early `BadImagePath` return, produces exactly `PayloadFor`. |
| `ChatGpt4v.HandleReply` | pick_action_from_image/src/chatgpt_4v.rs:103-136 | A transport error is `RequestFailed`. A 4xx/5xx status is `RequestFailed` whatever the body holds. Otherwise the result is an answer exactly when the body decodes to exactly one complete choice with `finish_reason`, and the answer is that choice's content unchanged. Every other case is `UnableToParseResponse`. |
| `ChatGpt4v.AskAboutImage` | pick_action_from_image/src/chatgpt_4v.rs:87-137 | An image that cannot be made into a URL gives its `BadImagePath`, and the network is not consulted. Otherwise exactly one request is sent: the payload with the question's text part, then the image's part. Its reply is handled as `HandleReply` says. |
| `ChatGpt4vLegacy.SingleImagePayload` | src/chatgpt_4v.rs:80-100 | The payload literal has model `gpt-4-vision-preview`, `max_tokens` 300 and one user message. Its content is exactly two parts: the question's text part, then the image's part. |
| `ChatGpt4vLegacy.HandleReply` | src/chatgpt_4v.rs:102-129 | A transport error is `RequestFailed`, and the status is never checked. The result is an answer exactly when the body decodes to exactly one complete choice with `finish_details`, and the answer is that choice's content unchanged. Otherwise the result is `UnableToParseResponse`. |
| `ChatGpt4vLegacy.AskAboutImage` | src/chatgpt_4v.rs:59-130 | An unreadable file gives `BadImagePath` before any request is built or sent. Otherwise exactly the payload literal for the image's URL is sent, and its reply is handled as the legacy `HandleReply` says. |
| `ChatGpt4vLegacy.SameRequest` | src/chatgpt_4v.rs:80-100 | For one image, the newer `make_payload` builds the very payload the older adapter's literal spells out. |
| `ChatGpt4vLegacy.SameExchange` | src/chatgpt_4v.rs:71-109 | The two adapters fail alike on an image without a URL. Otherwise they send the same request and differ only in how they read the reply. |
| `ChatGpt4vLegacy.ErrorStatusAccepted` | src/chatgpt_4v.rs:102-114 | A 4xx/5xx reply whose body still decodes to one complete choice is an answer for the older adapter and `RequestFailed` for the newer one. |
| `ChatGpt4vLegacy.FinishDetailsRequired` | src/chatgpt_4v.rs:25-30 | A one-choice reply carrying `finish_reason` but no `finish_details` is `UnableToParseResponse` for the older adapter and an answer for the newer one. |
| `Scenarios.StubPicksGiveBone` | src/action_picker.rs:8-28 | With a backend that always answers `give bone`, picking among `give bone` and `none` returns exactly `give bone`. The backend was asked once, with the built prompt. |
| `Scenarios.UnreadableImage` | pick_action_from_image/src/chatgpt_4v.rs:99-100 | The library picker over the adapter, with a local image that cannot be read, yields `BadImagePath` with the I/O error, whatever the network would have answered. |

## Left out

- The `AiImageChat` trait is a class, `Ai.Backend`, whose reply is a fixed function of the question and the image. A backend whose answers vary from call to call is not modelled. The real adapter becomes a backend through `ChatGpt4v.AsReply`, with the file system and the network fixed.
- HTTP headers are not modelled: the JSON content type, the bearer token built from the API key, and the `unwrap` on that header value. The endpoint URL and the client are left out too. The API key is used only in the header, so `ChatGpt4v` has no key field.
- serde's decoding is reduced to "decodes or fails". The envelope fields (`id`, `object`, `created`, `model`, `usage`) only decide whether `choices` is present. Unknown fields are ignored, as serde does by default.
- The JSON payload is a typed datatype. The order of keys in `json!` objects is not modelled.
- Each error's boxed cause becomes a text. Fixed stand-ins are used where the source's message comes from a library (`UndecodableBody`).
- Opening a file and reading it are one step, `FileSystem`. Its error text is the I/O error's message.
- `Url` is modelled by its serialised string. `to_string` is the identity on it, and URL parsing is left out.
- Status codes are plain integers. The range of 100-999 that `StatusCode` allows is not enforced.
- The `first()` / `ok_or` fallback after the length check can never fire. The model takes the single choice directly.
- The template file `pick_action_from_image_prompt.txt` is not part of this model. Rendering is an arbitrary function of the context and the actions.
- async/await is not modelled. There is no concurrency, so every call is sequential.
- The demo binaries (`src/main.rs`, `demo/src/main.rs`, `examples/chatgpt-4v/src/main.rs`) and the re-exports of `lib.rs` are left out. They hold environment loading, printing and wiring only.
