/**
 * The template-driven picker of the library crate
 * (pick_action_from_image/src/action_picker.rs). The prompt text comes from
 * a template file that is not part of this model; rendering is therefore a
 * parameter, a function that either yields the prompt or fails.
 */
module TemplatePicker {
  import opened Wrappers
  import opened Ai
  import opened ActionPicker

  /** What the template is given: the caller's context and actions, nothing else. */
  datatype PromptTemplate = PromptTemplate(context: string, actions: seq<Action>)

  /** Rendering a template: the prompt, or the renderer's error message. */
  type Renderer = PromptTemplate -> Result<string, string>

  /**
   * The prompt step: a rendering failure becomes `FailedToGeneratePrompt`
   * carrying the renderer's error; a rendered prompt is used as it is.
   */
  function GeneratePrompt(render: Renderer, context: string, actions: seq<Action>)
    : (r: Result<string, AiImageChatError>)
    ensures r.Failure? <==> render(PromptTemplate(context, actions)).Failure?
    ensures r.Failure? ==> r.error == FailedToGeneratePrompt(render(PromptTemplate(context, actions)).error)
    ensures r.Success? ==> r.value == render(PromptTemplate(context, actions)).value
  {
    render(PromptTemplate(context, actions)).MapFailure(e => FailedToGeneratePrompt(e))
  }

  /**
   * Pick an action. If rendering fails the result is `FailedToGeneratePrompt`
   * and the backend is never asked; otherwise the backend is asked exactly
   * once, with the rendered prompt and the caller's image, and its answer or
   * error is the result.
   */
  method PickActionFromImage(ai: Backend, render: Renderer, context: string, actions: seq<Action>, image: ImagePath)
    returns (r: Result<string, AiImageChatError>)
    modifies ai`asked
    ensures var rendered := render(PromptTemplate(context, actions));
      rendered.Failure? ==>
        r == Failure(FailedToGeneratePrompt(rendered.error)) && ai.asked == old(ai.asked)
    ensures var rendered := render(PromptTemplate(context, actions));
      rendered.Success? ==>
        ai.asked == old(ai.asked) + [Question(rendered.value, image)] &&
        r == ai.reply(rendered.value, image)
  {
    var prompt :- GeneratePrompt(render, context, actions);
    var response :- ai.AskAboutImage(prompt, image);
    r := Success(response);
  }
}
