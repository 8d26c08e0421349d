/**
 * The GPT-4 Vision adapter of the library crate
 * (pick_action_from_image/src/chatgpt_4v.rs): it builds a payload for any
 * number of images, posts it, rejects 4xx and 5xx replies, and accepts a
 * reply only when it holds exactly one choice.
 */
module ChatGpt4v {
  import opened Wrappers
  import opened Ai
  import opened VisionWire

  /** Image `k` is the first whose URL cannot be made. */
  predicate FirstBadImage(fs: FileSystem, images: seq<ImagePath>, k: int) {
    0 <= k < |images| && ImageUrl(fs, images[k]).Failure? &&
    forall j :: 0 <= j < k ==> ImageUrl(fs, images[j]).Success?
  }

  /** The finish field the current reply schema demands. */
  predicate HasFinishReason(c: RawChoice) {
    c.finishReason.Some?
  }

  /**
   * One `image_url` part per image, in order, or the error of the first
   * image whose URL cannot be made.
   */
  function ImageParts(fs: FileSystem, images: seq<ImagePath>): (r: Result<seq<ContentPart>, AiImageChatError>)
    ensures r.Success? <==> forall i :: 0 <= i < |images| ==> ImageUrl(fs, images[i]).Success?
    ensures r.Success? ==> |r.value| == |images|
    ensures r.Success? ==> forall i :: 0 <= i < |images| ==> r.value[i] == ImageUrlPart(ImageUrl(fs, images[i]).value)
    ensures r.Failure? ==>
      exists k :: FirstBadImage(fs, images, k) && r.error == ImageUrl(fs, images[k]).error
  {
    if images == [] then Success([])
    else
      var url :- ImageUrl(fs, images[0]);
      var rest := ImageParts(fs, images[1..]);
      if rest.Failure? then
        var k :| FirstBadImage(fs, images[1..], k) && rest.error == ImageUrl(fs, images[1..][k]).error;
        assert FirstBadImage(fs, images, k + 1);
        Failure(rest.error)
      else
        Success([ImageUrlPart(url)] + rest.value)
  }

  /** The content array of a payload's first message (empty when it has none). */
  function UserContent(p: Payload): seq<ContentPart> {
    if |p.messages| == 0 then [] else p.messages[0].content
  }

  /** The request body for a question and a list of images. */
  function PayloadFor(fs: FileSystem, text: string, images: seq<ImagePath>): (r: Result<Payload, AiImageChatError>)
    ensures r.Success? <==> ImageParts(fs, images).Success?
    ensures r.Failure? ==> r.error == ImageParts(fs, images).error
    ensures r.Success? ==>
      r.value.model == Model && r.value.maxTokens == MaxTokens &&
      |r.value.messages| == 1 && r.value.messages[0].role == "user"
    ensures r.Success? ==>
      var content := UserContent(r.value);
      |content| == |images| + 1 && content[0] == TextPart(text) &&
      forall i :: 0 <= i < |images| ==> content[i + 1] == ImageUrlPart(ImageUrl(fs, images[i]).value)
  {
    var parts :- ImageParts(fs, images);
    Success(UserPayload([TextPart(text)] + parts))
  }

  /** Adding an image to the list adds its part, or stops at the first failure. */
  lemma {:induction false} ImagePartsSnoc(fs: FileSystem, images: seq<ImagePath>, image: ImagePath)
    requires ImageParts(fs, images).Success?
    ensures ImageUrl(fs, image).Failure? ==> ImageParts(fs, images + [image]) == Failure(ImageUrl(fs, image).error)
    ensures ImageUrl(fs, image).Success? ==>
      ImageParts(fs, images + [image]) == Success(ImageParts(fs, images).value + [ImageUrlPart(ImageUrl(fs, image).value)])
  {
    var all := images + [image];
    assert forall i :: 0 <= i < |images| ==> all[i] == images[i];
    assert all[|images|] == image;
    if ImageUrl(fs, image).Failure? {
      var r := ImageParts(fs, all);
      assert !ImageUrl(fs, all[|images|]).Success?;
      var k :| FirstBadImage(fs, all, k) && r.error == ImageUrl(fs, all[k]).error;
      assert k == |images|;
    } else {
      var r := ImageParts(fs, all);
      assert r.Success?;
      assert r.value == ImageParts(fs, images).value + [ImageUrlPart(ImageUrl(fs, image).value)];
    }
  }

  /** Once an image fails, the images after it do not change the outcome. */
  lemma {:induction false} ImagePartsFailurePersists(fs: FileSystem, images: seq<ImagePath>, more: seq<ImagePath>)
    requires ImageParts(fs, images).Failure?
    ensures ImageParts(fs, images + more) == ImageParts(fs, images)
  {
    var all := images + more;
    var r, r' := ImageParts(fs, images), ImageParts(fs, all);
    var k :| FirstBadImage(fs, images, k) && r.error == ImageUrl(fs, images[k]).error;
    assert all[k] == images[k];
    assert FirstBadImage(fs, all, k) by {
      forall j | 0 <= j < k ensures ImageUrl(fs, all[j]).Success? {
        assert all[j] == images[j];
      }
    }
    assert !ImageUrl(fs, all[k]).Success?;
    var k' :| FirstBadImage(fs, all, k') && r'.error == ImageUrl(fs, all[k']).error;
    assert k' == k;
  }

  /**
   * One iteration of `make_payload`'s loop: image `i` either adds its part
   * to those of the images before it, or its error is the outcome for the
   * whole list.
   */
  lemma {:induction false} ImagePartsStep(fs: FileSystem, images: seq<ImagePath>, i: nat)
    requires i < |images| && ImageParts(fs, images[..i]).Success?
    ensures ImageUrl(fs, images[i]).Failure? ==> ImageParts(fs, images) == Failure(ImageUrl(fs, images[i]).error)
    ensures ImageUrl(fs, images[i]).Success? ==>
      ImageParts(fs, images[..i + 1]) == Success(ImageParts(fs, images[..i]).value + [ImageUrlPart(ImageUrl(fs, images[i]).value)])
  {
    assert images[..i + 1] == images[..i] + [images[i]];
    ImagePartsSnoc(fs, images[..i], images[i]);
    if ImageUrl(fs, images[i]).Failure? {
      assert images == images[..i + 1] + images[i + 1..];
      ImagePartsFailurePersists(fs, images[..i + 1], images[i + 1..]);
    }
  }

  /**
   * `make_payload`: the content vector starts with the text part and grows
   * by one `image_url` part per image; the first image that cannot be
   * turned into a URL ends it with that image's error.
   */
  method MakePayload(fs: FileSystem, text: string, images: seq<ImagePath>) returns (r: Result<Payload, AiImageChatError>)
    ensures r == PayloadFor(fs, text, images)
  {
    var content := [TextPart(text)];
    for i := 0 to |images|
      invariant ImageParts(fs, images[..i]).Success?
      invariant content == [TextPart(text)] + ImageParts(fs, images[..i]).value
    {
      ImagePartsStep(fs, images, i);
      var imageUrl :- ImageUrl(fs, images[i]);
      content := content + [ImageUrlPart(imageUrl)];
    }
    assert images[..|images|] == images;
    r := Success(UserPayload(content));
  }

  /**
   * What the adapter makes of the outcome of its POST: a transport error or
   * a 4xx/5xx status is `RequestFailed` (the body is then not looked at); an
   * undecodable body, or one with other than exactly one choice, is
   * `UnableToParseResponse`; otherwise the sole choice's content, as is.
   */
  function HandleReply(sent: Result<HttpReply, string>): (r: Result<string, AiImageChatError>)
    ensures sent.Failure? ==> r == Failure(RequestFailed(sent.error))
    ensures sent.Success? && IsErrorStatus(sent.value.status) ==> r == Failure(RequestFailed("Request failed"))
    ensures sent.Success? && !IsErrorStatus(sent.value.status) ==>
      var decoded := sent.value.choices;
      (r.Success? <==>
        decoded.Some? && |decoded.value| == 1 &&
        HasFinishReason(decoded.value[0]) && ContentOf(decoded.value[0]).Some?) &&
      (r.Success? ==> r.value == ContentOf(decoded.value[0]).value) &&
      (r.Failure? ==> r.error.UnableToParseResponse?)
  {
    var response :- sent.MapFailure(e => RequestFailed(e));
    if IsErrorStatus(response.status) then
      Failure(RequestFailed("Request failed"))
    else
      var raw :- response.choices.OkOr(UnableToParseResponse(UndecodableBody));
      var contents :- DecodeChoices(raw, HasFinishReason).OkOr(UnableToParseResponse(UndecodableBody));
      if |contents| != 1 then Failure(UnableToParseResponse("Expected one choice"))
      else Success(contents[0])
  }

  /**
   * `ask_about_image`: a single-image payload (text part, then the image's
   * part), posted once; an image that cannot be made into a URL fails with
   * its `BadImagePath` before anything is sent, so the transport is not
   * consulted at all.
   */
  function AskAboutImage(fs: FileSystem, send: Transport, question: string, image: ImagePath)
    : (r: Result<string, AiImageChatError>)
    ensures ImageUrl(fs, image).Failure? ==> r == Failure(ImageUrl(fs, image).error)
    ensures ImageUrl(fs, image).Success? ==>
      r == HandleReply(send(UserPayload([TextPart(question), ImageUrlPart(ImageUrl(fs, image).value)])))
  {
    var payload :- PayloadFor(fs, question, [image]);
    assert UserContent(payload) == [TextPart(question), ImageUrlPart(ImageUrl(fs, image).value)];
    HandleReply(send(payload))
  }

  /** The adapter seen as a backend for the pickers, given the file system and the network. */
  function AsReply(fs: FileSystem, send: Transport): (string, ImagePath) -> Result<string, AiImageChatError> {
    (question, image) => AskAboutImage(fs, send, question, image)
  }
}
