/**
 * The older GPT-4 Vision adapter of the crate root (src/chatgpt_4v.rs): one
 * image inlined in a payload literal, no status check, a reply schema whose
 * choices carry `finish_details`, and the same exactly-one-choice rule.
 */
module ChatGpt4vLegacy {
  import opened Wrappers
  import opened Ai
  import opened VisionWire
  import ChatGpt4v

  /** The finish field this adapter's reply schema demands. */
  predicate HasFinishDetails(c: RawChoice) {
    c.finishDetails.Some?
  }

  /** The payload literal: one user message, the question's text part, then the image's part. */
  function SingleImagePayload(question: string, imageUrl: string): (p: Payload)
    ensures p.model == Model && p.maxTokens == MaxTokens
    ensures |p.messages| == 1 && p.messages[0].role == "user"
    ensures p.messages[0].content == [TextPart(question), ImageUrlPart(imageUrl)]
  {
    UserPayload([TextPart(question), ImageUrlPart(imageUrl)])
  }

  /**
   * What this adapter makes of the outcome of its POST: a transport error is
   * `RequestFailed`; the status is never looked at; an undecodable body, or
   * one with other than exactly one choice, is `UnableToParseResponse`;
   * otherwise the sole choice's content, as is.
   */
  function HandleReply(sent: Result<HttpReply, string>): (r: Result<string, AiImageChatError>)
    ensures sent.Failure? ==> r == Failure(RequestFailed(sent.error))
    ensures sent.Success? ==>
      var decoded := sent.value.choices;
      (r.Success? <==>
        decoded.Some? && |decoded.value| == 1 &&
        HasFinishDetails(decoded.value[0]) && ContentOf(decoded.value[0]).Some?) &&
      (r.Success? ==> r.value == ContentOf(decoded.value[0]).value) &&
      (r.Failure? ==> r.error.UnableToParseResponse?)
  {
    var response :- sent.MapFailure(e => RequestFailed(e));
    var raw :- response.choices.OkOr(UnableToParseResponse(UndecodableBody));
    var contents :- DecodeChoices(raw, HasFinishDetails).OkOr(UnableToParseResponse(UndecodableBody));
    if |contents| != 1 then Failure(UnableToParseResponse("Expected one choice"))
    else Success(contents[0])
  }

  /**
   * `ask_about_image`: the image's URL first (an unreadable file is
   * `BadImagePath`, before any request is built or sent), then one POST of
   * the payload literal.
   */
  function AskAboutImage(fs: FileSystem, send: Transport, question: string, image: ImagePath)
    : (r: Result<string, AiImageChatError>)
    ensures ImageUrl(fs, image).Failure? ==> r == Failure(ImageUrl(fs, image).error) && r.error.BadImagePath?
    ensures ImageUrl(fs, image).Success? ==>
      r == HandleReply(send(SingleImagePayload(question, ImageUrl(fs, image).value)))
  {
    var imageUrl :- ImageUrl(fs, image);
    HandleReply(send(SingleImagePayload(question, imageUrl)))
  }

  /** Both adapters post the very same request for a question and an image. */
  lemma SameRequest(fs: FileSystem, question: string, image: ImagePath)
    requires ImageUrl(fs, image).Success?
    ensures ChatGpt4v.PayloadFor(fs, question, [image]) ==
      Success(SingleImagePayload(question, ImageUrl(fs, image).value))
  {
    var p := ChatGpt4v.PayloadFor(fs, question, [image]);
    assert ChatGpt4v.UserContent(p.value) == [TextPart(question), ImageUrlPart(ImageUrl(fs, image).value)];
  }

  /** On a URL or a readable file the two adapters differ only in how they read the reply. */
  lemma SameExchange(fs: FileSystem, send: Transport, question: string, image: ImagePath)
    ensures ImageUrl(fs, image).Failure? ==>
      AskAboutImage(fs, send, question, image) == ChatGpt4v.AskAboutImage(fs, send, question, image)
    ensures ImageUrl(fs, image).Success? ==>
      var sent := send(SingleImagePayload(question, ImageUrl(fs, image).value));
      AskAboutImage(fs, send, question, image) == HandleReply(sent) &&
      ChatGpt4v.AskAboutImage(fs, send, question, image) == ChatGpt4v.HandleReply(sent)
  {
  }

  /**
   * Status drift: a 4xx or 5xx reply whose body still decodes to one
   * complete choice is `RequestFailed` for the newer adapter but an answer
   * for this one.
   */
  lemma ErrorStatusAccepted(status: int, choice: RawChoice)
    requires IsErrorStatus(status)
    requires HasFinishDetails(choice) && ContentOf(choice).Some?
    ensures HandleReply(Success(HttpReply(status, Some([choice])))) == Success(ContentOf(choice).value)
    ensures ChatGpt4v.HandleReply(Success(HttpReply(status, Some([choice])))).error.RequestFailed?
  {
  }

  /**
   * Schema drift: a successful reply with one choice that carries
   * `finish_reason` but no `finish_details` is an answer for the newer
   * adapter and `UnableToParseResponse` for this one.
   */
  lemma FinishDetailsRequired(status: int, choice: RawChoice)
    requires !IsErrorStatus(status)
    requires ChatGpt4v.HasFinishReason(choice) && !HasFinishDetails(choice) && ContentOf(choice).Some?
    ensures HandleReply(Success(HttpReply(status, Some([choice])))).error.UnableToParseResponse?
    ensures ChatGpt4v.HandleReply(Success(HttpReply(status, Some([choice])))) == Success(ContentOf(choice).value)
  {
  }
}
