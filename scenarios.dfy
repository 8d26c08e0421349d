/**
 * Callers of the pickers, with the backend
 * replaced by a stub or by the adapter over a given file system and network.
 */
module Scenarios {
  import opened Wrappers
  import opened Ai
  import opened ActionPicker
  import TemplatePicker
  import VisionWire
  import ChatGpt4v

  function DogActions(): seq<Action> {
    [ Action("give bone", "Give a delicious bone to chew on"),
      Action("none", "Don't do anything") ]
  }

  /**
   * With a backend that always answers "give bone", picking returns exactly
   * "give bone", and the backend was asked once, with the prompt built from
   * the context and the two actions.
   */
  method StubPicksGiveBone() returns (r: Result<string, AiImageChatError>, ghost asked: seq<Question>)
    ensures r == Success("give bone")
    ensures asked == [Question(Prompt("Is the dog hungry?", DogActions()), Url("https://example.com/dog.jpg"))]
  {
    var stub := new Backend((question: string, image: ImagePath) => Success("give bone"));
    var image := Url("https://example.com/dog.jpg");
    r := PickAction(stub, "Is the dog hungry?", DogActions(), image);
    asked := stub.asked;
  }

  /**
   * The library picker over the adapter, with a local image that cannot be
   * read: the result is `BadImagePath` with the I/O error, whatever the
   * network would have answered, since no request is made.
   */
  method UnreadableImage(send: VisionWire.Transport, render: TemplatePicker.Renderer)
    returns (r: Result<string, AiImageChatError>)
    requires render(TemplatePicker.PromptTemplate("Is the dog hungry?", DogActions())).Success?
    ensures r == Failure(BadImagePath("No such file or directory"))
  {
    var noFiles: VisionWire.FileSystem := path => Failure("No such file or directory");
    var gpt := new Backend(ChatGpt4v.AsReply(noFiles, send));
    r := TemplatePicker.PickActionFromImage(gpt, render, "Is the dog hungry?", DogActions(), File("assets/dog.jpeg"));
  }
}
