/** The playback state machine of the story reader (useStoryPlayer.ts): the pure
    reducer `playerReducer` over `PlayerState` with its helpers, the derived display
    configuration, and the pure parts of the `useStoryPlayer` composable (jump,
    reset, progress, completion). The clock reading `Date.now()` is a parameter. */
module Player {
  import opened Wrappers
  import opened Strings
  import opened Types

  datatype Action =
    | ClickDialogue
    | ClickBackground
    | SelectChoice(optionId: string)
    | GoBackAction

  /** `script.scenes[i]` is a scene (and not `undefined`). */
  predicate Addresses(script: ParsedScript, i: int) { 0 <= i < |script.scenes| }

  /** `state.script.scenes[state.currentSceneIndex]`. */
  function CurrentScene(s: PlayerState): (r: Option<ParsedScene>)
    ensures r.Some? <==> Addresses(s.script, s.currentSceneIndex)
    ensures r.Some? ==> r.value == s.script.scenes[s.currentSceneIndex]
  {
    if Addresses(s.script, s.currentSceneIndex) then Some(s.script.scenes[s.currentSceneIndex]) else None
  }

  /** `scene.dialogues[i]?.text || null`: nothing for a missing line or empty text. */
  function LineText(scene: ParsedScene, i: int): (r: Option<string>)
    ensures r.Some? <==> 0 <= i < |scene.dialogues| && scene.dialogues[i].text != ""
    ensures r.Some? ==> r.value == scene.dialogues[i].text
  {
    if 0 <= i < |scene.dialogues| && scene.dialogues[i].text != "" then Some(scene.dialogues[i].text) else None
  }

  /** `getChoiceDisplayConfig(state)`. */
  function GetChoiceDisplayConfig(s: PlayerState): (c: ChoiceDisplayConfig)
    ensures CurrentScene(s).None? ==> c == ChoiceDisplayConfig(false, None, false, true)
    ensures CurrentScene(s).Some? && !s.showChoices ==>
      var scene := CurrentScene(s).value;
      && c.showDialogueBox == (|scene.dialogues| > 0)
      && c.dialogueContent == LineText(scene, s.currentDialogueIndex)
      && c.allowDialogueClick
      && c.allowBackgroundClick == (scene.sceneType == Transition)
    ensures CurrentScene(s).Some? && s.showChoices ==>
      var scene := CurrentScene(s).value;
      && c.showDialogueBox == (|scene.dialogues| > 0)
      && c.dialogueContent == LineText(scene, |scene.dialogues| - 1)
      && !c.allowDialogueClick && !c.allowBackgroundClick
  {
    match CurrentScene(s)
    case None => ChoiceDisplayConfig(false, None, false, true)
    case Some(scene) =>
      if !s.showChoices then
        ChoiceDisplayConfig(|scene.dialogues| > 0, LineText(scene, s.currentDialogueIndex), true,
                            scene.sceneType == Transition)
      else
        var last := if |scene.dialogues| > 0 then LineText(scene, |scene.dialogues| - 1) else None;
        ChoiceDisplayConfig(|scene.dialogues| > 0, last, false, false)
  }

  /** The history entry for the current position. */
  function Here(s: PlayerState, now: int): HistoryEntry {
    HistoryEntry(s.currentSceneIndex, s.currentDialogueIndex, now)
  }

  /** `advanceScene(state)`: the next scene from its first line, or the terminal
      index `-1` past the last scene. No history is recorded. */
  function AdvanceScene(s: PlayerState): (r: PlayerState)
    ensures r.script == s.script && r.history == s.history && r.choicesMade == s.choicesMade
    ensures s.currentSceneIndex + 1 >= |s.script.scenes| ==> r == s.(currentSceneIndex := -1)
    ensures s.currentSceneIndex + 1 < |s.script.scenes| ==>
      r == s.(currentSceneIndex := s.currentSceneIndex + 1, currentDialogueIndex := 0,
               isTyping := true, showChoices := false)
  {
    var next := s.currentSceneIndex + 1;
    if next >= |s.script.scenes| then s.(currentSceneIndex := -1)
    else s.(currentSceneIndex := next, currentDialogueIndex := 0, isTyping := true, showChoices := false)
  }

  /** `scene.choices?.length` is truthy. */
  predicate OffersChoices(scene: ParsedScene) {
    scene.choices.Some? && |scene.choices.value| > 0
  }

  /** `advanceDialogue(state)`: the next line of the scene, recording the line left;
      on the last line the choices are shown if the scene has any, else the next
      scene begins. */
  function AdvanceDialogue(s: PlayerState, now: int): (r: PlayerState)
    requires Addresses(s.script, s.currentSceneIndex)
    ensures var scene := s.script.scenes[s.currentSceneIndex];
      if s.currentDialogueIndex + 1 < |scene.dialogues| then
        r == s.(currentDialogueIndex := s.currentDialogueIndex + 1, isTyping := true,
                history := s.history + [Here(s, now)])
      else if OffersChoices(scene) then r == s.(showChoices := true)
      else r == AdvanceScene(s)
  {
    var scene := s.script.scenes[s.currentSceneIndex];
    var next := s.currentDialogueIndex + 1;
    if next < |scene.dialogues| then
      s.(currentDialogueIndex := next, isTyping := true, history := s.history + [Here(s, now)])
    else if OffersChoices(scene) then s.(showChoices := true)
    else AdvanceScene(s)
  }

  /** The id of scene `j` contains `branchId`. */
  predicate IsBranch(script: ParsedScript, j: int, branchId: string)
    requires 0 <= j < |script.scenes|
  {
    Contains(script.scenes[j].id, branchId)
  }

  /** The first scene at or after `k` whose id contains `branchId`. */
  function FindFrom(script: ParsedScript, branchId: string, k: nat): (r: Option<nat>)
    requires k <= |script.scenes|
    ensures r.Some? ==> k <= r.value < |script.scenes| && IsBranch(script, r.value, branchId)
    ensures r.Some? ==> forall j | k <= j < r.value :: !IsBranch(script, j, branchId)
    ensures r.None? ==> forall j | k <= j < |script.scenes| :: !IsBranch(script, j, branchId)
    decreases |script.scenes| - k
  {
    if k == |script.scenes| then None
    else if IsBranch(script, k, branchId) then Some(k)
    else FindFrom(script, branchId, k + 1)
  }

  /** `findBranchScene(script, branchId)`: the first scene whose id contains the
      branch id as a substring, scene 0 when there is none. */
  function FindBranchScene(script: ParsedScript, branchId: string): (i: nat)
    ensures (exists j | 0 <= j < |script.scenes| :: IsBranch(script, j, branchId)) ==>
      && i < |script.scenes|
      && IsBranch(script, i, branchId)
      && forall j | 0 <= j < i :: !IsBranch(script, j, branchId)
    ensures (forall j | 0 <= j < |script.scenes| :: !IsBranch(script, j, branchId)) ==> i == 0
  {
    match FindFrom(script, branchId, 0)
    case Some(i) => i
    case None => 0
  }

  /** `goBack(state)`: with an empty history nothing changes; otherwise the last
      entry is removed and its position restored, typing and choices cleared. */
  function GoBack(s: PlayerState): (r: PlayerState)
    ensures |s.history| == 0 ==> r == s
    ensures |s.history| > 0 ==>
      var e := s.history[|s.history| - 1];
      && r.history == s.history[..|s.history| - 1]
      && r.currentSceneIndex == e.sceneIndex && r.currentDialogueIndex == e.dialogueIndex
      && !r.isTyping && !r.showChoices
      && r.script == s.script && r.choicesMade == s.choicesMade
  {
    if |s.history| == 0 then s
    else
      var e := s.history[|s.history| - 1];
      s.(currentSceneIndex := e.sceneIndex, currentDialogueIndex := e.dialogueIndex,
         isTyping := false, showChoices := false, history := s.history[..|s.history| - 1])
  }

  /** The `SELECT_CHOICE` case: record the choice for this scene, remember the
      position left, and start the branch scene from its first line. */
  function Select(s: PlayerState, scene: ParsedScene, optionId: string, now: int): (r: PlayerState)
    ensures r.choicesMade == s.choicesMade[scene.id := optionId]
    ensures r.history == s.history + [Here(s, now)]
    ensures r.currentSceneIndex == FindBranchScene(s.script, optionId)
    ensures r.currentDialogueIndex == 0 && r.isTyping && !r.showChoices && r.script == s.script
  {
    s.(choicesMade := s.choicesMade[scene.id := optionId],
       history := s.history + [Here(s, now)],
       showChoices := false,
       currentSceneIndex := FindBranchScene(s.script, optionId),
       currentDialogueIndex := 0,
       isTyping := true)
  }

  /** `playerReducer(state, action)` at clock reading `now`. */
  function Reduce(s: PlayerState, a: Action, now: int): (r: PlayerState)
    ensures r.script == s.script
    // no scene at the current index: every action, GO_BACK included, is ignored
    ensures CurrentScene(s).None? ==> r == s
    ensures CurrentScene(s).Some? && a == ClickDialogue ==>
      if s.showChoices then r == s
      else if s.isTyping then r == s.(isTyping := false)
      else r == AdvanceDialogue(s, now)
    ensures CurrentScene(s).Some? && a == ClickBackground ==>
      r == (if CurrentScene(s).value.sceneType == Transition then AdvanceScene(s) else s)
    ensures CurrentScene(s).Some? && a.SelectChoice? ==> r == Select(s, CurrentScene(s).value, a.optionId, now)
    ensures CurrentScene(s).Some? && a == GoBackAction ==> r == GoBack(s)
  {
    match CurrentScene(s)
    case None => s
    case Some(scene) =>
      match a
      case ClickDialogue =>
        if s.showChoices then s
        else if s.isTyping then s.(isTyping := false)
        else AdvanceDialogue(s, now)
      case ClickBackground =>
        if scene.sceneType != Transition then s else AdvanceScene(s)
      case SelectChoice(optionId) => Select(s, scene, optionId, now)
      case GoBackAction => GoBack(s)
  }

  // ---------------------------------------------------------------------------
  // useStoryPlayer
  // ---------------------------------------------------------------------------

  /** The state `useStoryPlayer(script)` starts from: the first line of the first
      scene, typing, with nothing remembered. */
  function InitialState(script: ParsedScript): (s: PlayerState)
    ensures s.script == script && s.history == [] && s.choicesMade == map[]
    ensures s.isTyping && !s.showChoices && s.currentDialogueIndex == 0
    ensures |script.scenes| > 0 ==> CurrentScene(s) == Some(script.scenes[0]) && !IsComplete(s)
    ensures |script.scenes| == 0 ==> CurrentScene(s).None?
  {
    PlayerState(script, 0, 0, true, false, [], map[])
  }

  /** `jumpToScene(index)`: an addressable index starts that scene from its first
      line; any other index changes nothing. History and choices are kept. */
  function JumpToScene(s: PlayerState, index: int): (r: PlayerState)
    ensures !Addresses(s.script, index) ==> r == s
    ensures Addresses(s.script, index) ==>
      && r.currentSceneIndex == index && r.currentDialogueIndex == 0 && r.isTyping && !r.showChoices
      && r.script == s.script && r.history == s.history && r.choicesMade == s.choicesMade
  {
    if 0 <= index < |s.script.scenes| then
      s.(currentSceneIndex := index, currentDialogueIndex := 0, isTyping := true, showChoices := false)
    else s
  }

  /** `reset()`: back to the initial state of the same script. */
  function Reset(s: PlayerState): (r: PlayerState)
    ensures r == InitialState(s.script)
    ensures r.script == s.script && r.history == [] && r.choicesMade == map[]
    ensures r.currentSceneIndex == 0 && r.currentDialogueIndex == 0 && r.isTyping && !r.showChoices
  {
    InitialState(s.script)
  }

  /** `isComplete`: the terminal index has been reached. */
  predicate IsComplete(s: PlayerState)
    ensures IsComplete(s) ==> CurrentScene(s).None?
    ensures IsComplete(s) ==> forall a, now :: Reduce(s, a, now) == s
  {
    s.currentSceneIndex == -1
  }

  /** `progress`: the 1-based scene number (0 once complete) and the scene count. */
  function Progress(s: PlayerState): (p: (int, int))
    ensures p.1 == |s.script.scenes|
    ensures IsComplete(s) ==> p.0 == 0
    ensures Addresses(s.script, s.currentSceneIndex) ==> 1 <= p.0 <= p.1
    ensures Addresses(s.script, s.currentSceneIndex) ==> p.0 == s.currentSceneIndex + 1
  {
    (s.currentSceneIndex + 1, |s.script.scenes|)
  }

  // ---------------------------------------------------------------------------
  // Properties
  // ---------------------------------------------------------------------------

  /** Moving to the next scene raises the progress count by one; only from the
      last scene does it complete the story. */
  lemma AdvanceSceneProgress(s: PlayerState)
    requires Addresses(s.script, s.currentSceneIndex)
    ensures IsComplete(AdvanceScene(s)) <==> Progress(s).0 == Progress(s).1
    ensures !IsComplete(AdvanceScene(s)) ==> Progress(AdvanceScene(s)).0 == Progress(s).0 + 1
    ensures Progress(AdvanceScene(s)).1 == Progress(s).1
  {
  }

  /** A (scene, line) position the player can stand on: an addressable scene and
      either its first position or one of its lines. */
  predicate ValidPosition(script: ParsedScript, scene: int, line: int) {
    && Addresses(script, scene)
    && 0 <= line
    && (line == 0 || line < |script.scenes[scene].dialogues|)
  }

  /** The player's invariant: the current position is valid or terminal, and every
      history entry is a valid position. */
  predicate ValidState(s: PlayerState) {
    && (s.currentSceneIndex == -1 || ValidPosition(s.script, s.currentSceneIndex, s.currentDialogueIndex))
    && forall k | 0 <= k < |s.history| ::
         ValidPosition(s.script, s.history[k].sceneIndex, s.history[k].dialogueIndex)
  }

  /** The starting state is valid for any script with at least one scene. */
  lemma InitialStateValid(script: ParsedScript)
    requires |script.scenes| > 0
    ensures ValidState(InitialState(script))
  {
  }

  /** Every action keeps the player's invariant. */
  lemma ReducePreservesValid(s: PlayerState, a: Action, now: int)
    requires ValidState(s)
    ensures ValidState(Reduce(s, a, now))
  {
    var r := Reduce(s, a, now);
    if CurrentScene(s).Some? {
      match a
      case ClickDialogue =>
      case ClickBackground =>
      case SelectChoice(o) =>
        assert forall k | 0 <= k < |r.history| :: r.history[k] == (s.history + [Here(s, now)])[k];
      case GoBackAction =>
        if |s.history| > 0 {
          assert forall k | 0 <= k < |r.history| :: r.history[k] == s.history[k];
        }
    }
  }

  /** `jumpToScene` keeps the player's invariant. */
  lemma JumpPreservesValid(s: PlayerState, index: int)
    requires ValidState(s)
    ensures ValidState(JumpToScene(s, index))
  {
  }

  /** Undo of a line advance: after a click that moves to the next line of the
      same scene, going back restores the state exactly. */
  lemma AdvanceThenGoBack(s: PlayerState, now: int)
    requires Addresses(s.script, s.currentSceneIndex)
    requires !s.showChoices && !s.isTyping
    requires s.currentDialogueIndex + 1 < |s.script.scenes[s.currentSceneIndex].dialogues|
    ensures |Reduce(s, ClickDialogue, now).history| == |s.history| + 1
    ensures GoBack(Reduce(s, ClickDialogue, now)) == s
  {
    var r := Reduce(s, ClickDialogue, now);
    assert r.history[..|r.history| - 1] == s.history;
  }

  /** Undo of a choice: going back returns to the position and history before the
      selection, but the recorded choice stays. */
  lemma SelectThenGoBack(s: PlayerState, optionId: string, now: int)
    requires Addresses(s.script, s.currentSceneIndex)
    ensures var r := GoBack(Reduce(s, SelectChoice(optionId), now));
      && r.currentSceneIndex == s.currentSceneIndex
      && r.currentDialogueIndex == s.currentDialogueIndex
      && r.history == s.history
      && r.choicesMade == s.choicesMade[s.script.scenes[s.currentSceneIndex].id := optionId]
      && !r.isTyping && !r.showChoices
  {
    var r := Reduce(s, SelectChoice(optionId), now);
    assert r.history[..|r.history| - 1] == s.history;
  }

  /** Going back from any state with history removes exactly one entry; with no
      history, or when no scene is current, nothing changes. */
  lemma GoBackPopsOne(s: PlayerState, now: int)
    ensures |s.history| == 0 ==> Reduce(s, GoBackAction, now) == s
    ensures CurrentScene(s).Some? && |s.history| > 0 ==>
      && Reduce(s, GoBackAction, now).history + [s.history[|s.history| - 1]] == s.history
      && Reduce(s, GoBackAction, now).choicesMade == s.choicesMade
  {
    if |s.history| > 0 {
      assert s.history[..|s.history| - 1] + [s.history[|s.history| - 1]] == s.history;
    }
  }

  /** A click on the dialogue box while the text is still typing only finishes
      typing. */
  lemma TypingClickOnlyFinishes(s: PlayerState, now: int)
    requires CurrentScene(s).Some? && !s.showChoices && s.isTyping
    ensures Reduce(s, ClickDialogue, now) == s.(isTyping := false)
  {
  }

  /** The display configuration agrees with the interaction table: a dialogue
      scene allows exactly the dialogue click, and a choice scene showing its
      choices allows no click at all and shows the dialogue box exactly when the
      table does (a choice scene carries dialogue, a choice-only scene none). */
  lemma DisplayAgreesWithInteractionMap(s: PlayerState)
    requires CurrentScene(s).Some?
    ensures var scene := CurrentScene(s).value;
      var c := GetChoiceDisplayConfig(s);
      var m := InteractionMap(scene.sceneType);
      && (scene.sceneType == Dialogue && !s.showChoices ==>
            c.allowDialogueClick == m.dialogueBoxClickable && c.allowBackgroundClick == m.backgroundClickable)
      && (m.choicesVisible && s.showChoices ==>
            !c.allowDialogueClick && !c.allowBackgroundClick
            && ((scene.sceneType == Choice) == (|scene.dialogues| > 0) ==> c.showDialogueBox == m.dialogueBoxVisible))
  {
  }

  /** No scene of the script offers choices. */
  predicate NoChoices(script: ParsedScript) {
    forall j | 0 <= j < |script.scenes| :: !OffersChoices(script.scenes[j])
  }

  /** Lines still ahead in the current scene (0 when no scene is current). */
  function LinesAhead(s: PlayerState): int {
    if Addresses(s.script, s.currentSceneIndex)
    then |s.script.scenes[s.currentSceneIndex].dialogues| - s.currentDialogueIndex
    else 0
  }

  /** Scenes still ahead, counting the current one (0 once complete). */
  function ScenesAhead(s: PlayerState): int {
    if s.currentSceneIndex == -1 then 0 else |s.script.scenes| - s.currentSceneIndex
  }

  /** On a script without choices, clicking the dialogue box again and again from
      any valid state reaches the end; `clicks` counts the clicks needed. */
  method PlayToEnd(s0: PlayerState, now: int) returns (s: PlayerState, clicks: nat)
    requires ValidState(s0) && !s0.showChoices && NoChoices(s0.script)
    ensures IsComplete(s) && ValidState(s)
    ensures s.script == s0.script && s.choicesMade == s0.choicesMade
    ensures clicks == 0 <==> IsComplete(s0)
  {
    s := s0;
    clicks := 0;
    while s.currentSceneIndex != -1
      invariant ValidState(s) && !s.showChoices
      invariant s.script == s0.script && s.choicesMade == s0.choicesMade
      invariant clicks == 0 ==> s == s0
      invariant clicks > 0 ==> !IsComplete(s0)
      decreases ScenesAhead(s), LinesAhead(s), if s.isTyping then 1 else 0
    {
      ReducePreservesValid(s, ClickDialogue, now);
      s := Reduce(s, ClickDialogue, now);
      clicks := clicks + 1;
    }
  }
}
