/**
 * The prompt-building picker of the crate root (src/action_picker.rs): it
 * writes an instruction, the caller's context and one line per candidate
 * action into a growing string, asks the backend once and hands back its
 * answer untouched.
 */
module ActionPicker {
  import opened Wrappers
  import opened Ai

  /** A candidate action: the id the model is to answer with, and what it means. */
  datatype Action = Action(id: string, description: string)

  const Instructions: string :=
    "Given the context and instructions below, respond with only the single action id that best matches the image. Don't reply with anything else."

  const ActionsHeader: string := "Possible Actions:\n\n"

  /** Everything before the first action: instructions, context, header. */
  function Preamble(context: string): string {
    Instructions + "\n\n" + ("Context: " + context + "\n\n") + ActionsHeader
  }

  /** The text written for one action. */
  function Block(action: Action): string {
    action.id + ": " + action.description + "\n\n"
  }

  /** The blocks of all actions, first action first. */
  function Blocks(actions: seq<Action>): string {
    if actions == [] then "" else Block(actions[0]) + Blocks(actions[1..])
  }

  /** The whole prompt for a context and a list of actions. */
  function Prompt(context: string, actions: seq<Action>): string {
    Preamble(context) + Blocks(actions)
  }

  /** Appending an action appends exactly its block. */
  lemma {:induction false} BlocksSnoc(actions: seq<Action>, action: Action)
    ensures Blocks(actions + [action]) == Blocks(actions) + Block(action)
  {
    if actions == [] {
      assert [] + [action] == [action];
    } else {
      assert (actions + [action])[1..] == actions[1..] + [action];
      BlocksSnoc(actions[1..], action);
    }
  }

  /** The blocks of two lists one after the other are the blocks of the joined list. */
  lemma {:induction false} BlocksAppend(front: seq<Action>, back: seq<Action>)
    ensures Blocks(front + back) == Blocks(front) + Blocks(back)
  {
    if front == [] {
      assert front + back == back;
    } else {
      assert (front + back)[1..] == front[1..] + back;
      BlocksAppend(front[1..], back);
    }
  }

  /** An action put in front adds its block in front. */
  lemma {:induction false} BlocksCons(action: Action, back: seq<Action>)
    ensures Blocks([action] + back) == Block(action) + Blocks(back)
  {
    assert ([action] + back)[1..] == back;
  }

  /**
   * Order is kept: the block of action `i` starts right after the blocks of
   * the actions before it, and the blocks of the actions after it follow.
   */
  lemma {:induction false} BlockAt(actions: seq<Action>, i: nat)
    requires i < |actions|
    ensures Blocks(actions) == Blocks(actions[..i]) + Block(actions[i]) + Blocks(actions[i + 1..])
  {
    var rest := [actions[i]] + actions[i + 1..];
    assert actions == actions[..i] + rest;
    BlocksAppend(actions[..i], rest);
    BlocksCons(actions[i], actions[i + 1..]);
  }

  /**
   * The layout of the prompt: the instruction sentence and a blank line,
   * then the context line, then the header, then the action blocks and
   * nothing after them.
   */
  lemma {:induction false} PromptLayout(context: string, actions: seq<Action>)
    ensures Prompt(context, actions)[..|Instructions| + 2] == Instructions + "\n\n"
    ensures var start := |Instructions| + 2;
      Prompt(context, actions)[start..start + |context| + 11] == "Context: " + context + "\n\n"
    ensures var start := |Instructions| + |context| + 13;
      Prompt(context, actions)[start..start + |ActionsHeader|] == ActionsHeader
    ensures Prompt(context, actions)[|Preamble(context)|..] == Blocks(actions)
  {
    var p := Prompt(context, actions);
    var s1 := Instructions + "\n\n";
    var s2 := "Context: " + context + "\n\n";
    assert p == s1 + s2 + ActionsHeader + Blocks(actions);
    assert |s1| == |Instructions| + 2;
    assert |s2| == |context| + 11;
    assert p[..|s1|] == s1;
    assert p[|s1|..|s1| + |s2|] == s2;
    assert p[|s1| + |s2|..|s1| + |s2| + |ActionsHeader|] == ActionsHeader;
  }

  /** With no actions the prompt ends with the header; with some, with the last action's block. */
  lemma {:induction false} PromptEnd(context: string, actions: seq<Action>)
    ensures actions == [] ==> Prompt(context, actions) == Preamble(context)
    ensures actions != [] ==>
      var p := Prompt(context, actions);
      var last := Block(actions[|actions| - 1]);
      |last| <= |p| && p[|p| - |last|..] == last
  {
    if actions != [] {
      var n := |actions| - 1;
      assert actions == actions[..n] + [actions[n]];
      BlocksSnoc(actions[..n], actions[n]);
      var last := Block(actions[n]);
      var p := Prompt(context, actions);
      assert p == Preamble(context) + Blocks(actions[..n]) + last;
    }
  }

  /**
   * Adding one action at the end of the list adds exactly that action's
   * block at the end of the prompt.
   */
  lemma {:induction false} PromptSnoc(context: string, actions: seq<Action>, action: Action)
    ensures Prompt(context, actions + [action]) == Prompt(context, actions) + Block(action)
  {
    BlocksSnoc(actions, action);
  }

  /** The fixed parts appended one by one to an empty string give the prompt for no actions. */
  lemma {:induction false} PreambleParts(context: string)
    ensures "" + Instructions + "\n\n" + ("Context: " + context + "\n\n") + ActionsHeader == Prompt(context, [])
  {
    assert Blocks([]) == "";
  }

  /**
   * The prompt as `pick_action` builds it: a string grown by appending the
   * fixed parts and then, in list order, one block per action.
   */
  method BuildPrompt(context: string, actions: seq<Action>) returns (fullPrompt: string)
    ensures fullPrompt == Prompt(context, actions)
  {
    fullPrompt := "";
    fullPrompt := fullPrompt + Instructions;
    fullPrompt := fullPrompt + "\n\n";
    fullPrompt := fullPrompt + ("Context: " + context + "\n\n");
    fullPrompt := fullPrompt + ActionsHeader;
    PreambleParts(context);
    assert actions[..0] == [];
    for i := 0 to |actions|
      invariant fullPrompt == Prompt(context, actions[..i])
    {
      PromptSnoc(context, actions[..i], actions[i]);
      assert actions[..i + 1] == actions[..i] + [actions[i]];
      fullPrompt := fullPrompt + Block(actions[i]);
    }
    assert actions[..|actions|] == actions;
  }

  /**
   * Pick an action: build the prompt, ask the backend exactly once with it
   * and the caller's image, and return the backend's answer or error as it
   * is. The answer is not checked against the action ids.
   */
  method PickAction(ai: Backend, context: string, actions: seq<Action>, image: ImagePath)
    returns (r: Result<string, AiImageChatError>)
    modifies ai`asked
    ensures ai.asked == old(ai.asked) + [Question(Prompt(context, actions), image)]
    ensures r == ai.reply(Prompt(context, actions), image)
  {
    var fullPrompt := BuildPrompt(context, actions);
    var response :- ai.AskAboutImage(fullPrompt, image);
    r := Success(response);
  }
}
