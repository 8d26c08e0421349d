/**
 * The vocabulary shared by the pickers and the backends: the error kinds, the
 * two ways of naming an image, and the one capability a backend offers,
 * answering a question about an image.
 */
module Ai {
  import opened Wrappers

  /**
   * The closed set of failures. Each carries a diagnostic text standing for
   * the boxed `dyn Error` of the Rust error kinds.
   */
  datatype AiImageChatError =
    | BadImagePath(cause: string)
    | RequestFailed(cause: string)
    | UnableToParseResponse(cause: string)
    | FailedToGeneratePrompt(cause: string)

  /** A remote image by its URL (its serialised form), or a local image file by its path. */
  datatype ImagePath = Url(url: string) | File(path: string)

  /** One question put to a backend. */
  datatype Question = Question(text: string, image: ImagePath)

  /**
   * A backend able to answer a question about an image. Its answer is a
   * function of the question and the image (for the real adapters, see the
   * ChatGpt4v modules, a function of the file system and the network as
   * well); `asked` records every question put to it, so that callers can
   * state how often, and with what, the backend was consulted.
   */
  class Backend {
    const reply: (string, ImagePath) -> Result<string, AiImageChatError>
    ghost var asked: seq<Question>

    constructor (reply: (string, ImagePath) -> Result<string, AiImageChatError>)
      ensures this.reply == reply && asked == []
    {
      this.reply := reply;
      asked := [];
    }

    /** Ask about one image; the answer or the error is the backend's own. */
    method AskAboutImage(question: string, image: ImagePath) returns (r: Result<string, AiImageChatError>)
      modifies this`asked
      ensures asked == old(asked) + [Question(question, image)]
      ensures r == reply(question, image)
    {
      asked := asked + [Question(question, image)];
      r := reply(question, image);
    }
  }
}
