/**
 * What both GPT-4 Vision adapters send and receive: the request payload,
 * the way an image becomes a URL, and the reply as far as the adapters look
 * at it.
 */
module VisionWire {
  import opened Wrappers
  import opened Ai
  import Base64

  // ---------------------------------------------------------------- request

  const Model: string := "gpt-4-vision-preview"
  const MaxTokens: nat := 300
  const DataUriPrefix: string := "data:image/jpeg;base64,"

  /**
   * One element of a message's `content` array:
   * `{"type": "text", "text": ...}` or
   * `{"type": "image_url", "image_url": {"url": ...}}`.
   */
  datatype ContentPart = TextPart(text: string) | ImageUrlPart(url: string)

  /** `{"role": ..., "content": [...]}` */
  datatype Message = Message(role: string, content: seq<ContentPart>)

  /** `{"model": ..., "messages": [...], "max_tokens": ...}` */
  datatype Payload = Payload(model: string, messages: seq<Message>, maxTokens: nat)

  /** The one user message with the given content, at the fixed model and token cap. */
  function UserPayload(content: seq<ContentPart>): (p: Payload)
    ensures p.model == Model && p.maxTokens == MaxTokens
    ensures |p.messages| == 1 && p.messages[0].role == "user" && p.messages[0].content == content
  {
    Payload(Model, [Message("user", content)], MaxTokens)
  }

  // ------------------------------------------------------------------ image

  /**
   * Reading a whole file: its bytes, or the I/O error's message. Opening and
   * reading are not told apart.
   */
  type FileSystem = string -> Result<seq<Base64.byte>, string>

  /** The file's bytes in standard base64, or the I/O error. */
  function EncodeImage(fs: FileSystem, path: string): (r: Result<string, string>)
    ensures r.Failure? <==> fs(path).Failure?
    ensures r.Failure? ==> r.error == fs(path).error
    ensures r.Success? ==> r.value == Base64.Encode(fs(path).value)
    ensures r.Success? ==> Base64.Decode(r.value) == Some(fs(path).value)
  {
    var bytes :- fs(path);
    Base64.DecodeEncode(bytes);
    Success(Base64.Encode(bytes))
  }

  /**
   * The URL an image is sent as: a remote image's URL verbatim, a local file
   * as a `data:` URI holding the base64 of its bytes. An unreadable file is
   * `BadImagePath`.
   */
  function ImageUrl(fs: FileSystem, image: ImagePath): (r: Result<string, AiImageChatError>)
    ensures image.Url? ==> r == Success(image.url)
    ensures image.File? ==> (r.Failure? <==> fs(image.path).Failure?)
    ensures image.File? && r.Failure? ==> r.error == BadImagePath(fs(image.path).error)
    ensures image.File? && r.Success? ==> r.value == DataUriPrefix + Base64.Encode(fs(image.path).value)
    ensures image.File? && r.Success? ==>
      |DataUriPrefix| <= |r.value| && r.value[..|DataUriPrefix|] == DataUriPrefix &&
      Base64.Decode(r.value[|DataUriPrefix|..]) == Some(fs(image.path).value)
  {
    match image
    case Url(url) => Success(url)
    case File(path) =>
      var base64Image :- EncodeImage(fs, path).MapFailure(e => BadImagePath(e));
      assert (DataUriPrefix + base64Image)[|DataUriPrefix|..] == base64Image;
      Success(DataUriPrefix + base64Image)
  }

  // ------------------------------------------------------------------ reply

  /** `{"content": ..., "role": ...}` with each field possibly missing. */
  datatype RawMessage = RawMessage(content: Option<string>, role: Option<string>)

  /**
   * One element of the reply's `choices` array as it arrives: every field
   * may be missing; fields the adapters do not name are ignored. The older
   * adapter expects `finish_details`, the newer one `finish_reason`.
   */
  datatype RawChoice = RawChoice(
    finishReason: Option<string>,
    finishDetails: Option<map<string, string>>,
    index: Option<int>,
    message: Option<RawMessage>)

  /**
   * An HTTP reply: its status code and its `choices` array, or `None` when
   * the body is not JSON or lacks the envelope fields (`id`, `object`,
   * `created`, `model`, `usage`, `choices`).
   */
  datatype HttpReply = HttpReply(status: int, choices: Option<seq<RawChoice>>)

  /** Stands for serde's message when a body does not decode. */
  const UndecodableBody: string := "response body does not decode"

  /** One POST of a payload: the reply, or the transport error's message. */
  type Transport = Payload -> Result<HttpReply, string>

  const MaxU32: int := 0x1_0000_0000

  /** A choice's message content when the fields a choice must have are all present. */
  function ContentOf(c: RawChoice): Option<string> {
    if c.index.Some? && 0 <= c.index.value < MaxU32 &&
       c.message.Some? && c.message.value.content.Some? && c.message.value.role.Some?
    then Some(c.message.value.content.value)
    else None
  }

  /**
   * The contents of all choices, in order, when every choice has the fields
   * its schema demands (`wellFormed` for the adapter-specific finish field,
   * `ContentOf` for the rest); otherwise decoding fails as a whole.
   */
  function DecodeChoices(raw: seq<RawChoice>, wellFormed: RawChoice -> bool): (r: Option<seq<string>>)
    ensures r.Some? <==> forall i :: 0 <= i < |raw| ==> wellFormed(raw[i]) && ContentOf(raw[i]).Some?
    ensures r.Some? ==> |r.value| == |raw|
    ensures r.Some? ==> forall i :: 0 <= i < |raw| ==> r.value[i] == ContentOf(raw[i]).value
  {
    if raw == [] then Some([])
    else if !wellFormed(raw[0]) then None
    else
      var first :- ContentOf(raw[0]);
      var rest :- DecodeChoices(raw[1..], wellFormed);
      Some([first] + rest)
  }

  /** A status in 400-499 (`is_client_error`) or 500-599 (`is_server_error`). */
  predicate IsErrorStatus(status: int) {
    400 <= status < 600
  }
}
