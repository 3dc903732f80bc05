/** The third stage of the script compiler (script-parser.ts, class `SceneBuilder`):
    an accumulator that collects the commands, speakers, dialogue and choices of the
    scene being read and emits a finished `ParsedScene` at every `[k]`, `[page]` and
    `[end]`. The mutable class becomes an immutable record; every method is a
    function from the record before to the record after. */
module SceneBuilder {
  import opened Wrappers
  import opened Strings
  import opened OrderedMap
  import opened Types
  import opened Directives

  /** `args[i]`: `None` stands for `undefined` past the end of the list. */
  function Arg(args: seq<string>, i: nat): (r: Option<string>)
    ensures r.Some? <==> i < |args|
    ensures r.Some? ==> r.value == args[i]
  {
    if i < |args| then Some(args[i]) else None
  }

  /** JavaScript truthiness of a string that may be `undefined`. */
  predicate Truthy(a: Option<string>) { a.Some? && a.value != "" }

  /** `parseInt(a)`; `parseInt(undefined)` is `NaN`, written `None`. */
  function ParseArg(a: Option<string>): (r: Option<int>)
    ensures a.None? ==> r.None?
  {
    match a
    case None => None
    case Some(s) => ParseInt(s)
  }

  /** The character map, keyed by slot name (`undefined` is a possible key). */
  type CharacterMap = seq<(Option<string>, CharacterState)>

  datatype Builder = Builder(
    scenes: seq<ParsedScene>,
    current: ParsedScene,
    characters: CharacterMap,
    sceneIndex: nat,
    lastBackground: Option<string>,
    pendingChoices: seq<ChoiceOption>,
    currentSpeaker: Option<string>,
    currentSpeakerSlot: Option<string>)

  /** The id of the scene at position `i`. */
  function SceneId(i: nat): string { "scene-" + NatToString(i) }

  /** `createEmptyScene()`: a fresh scene numbered `index` that inherits the last
      background set. */
  function EmptyScene(index: nat, background: Option<string>): ParsedScene {
    ParsedScene(SceneId(index), index, background, [], [], AudioState(None, []), None, Dialogue)
  }

  /** The builder as the constructor leaves it: no scenes, an empty first scene and
      an empty-string background. */
  function NewBuilder(): (b: Builder)
    ensures Valid(b)
    ensures b.scenes == [] && b.characters == [] && b.pendingChoices == []
    ensures b.current.background == Some("") && b.current.dialogues == []
    ensures BackgroundSynced(b)
  {
    Builder([], EmptyScene(0, Some("")), [], 0, Some(""), [], None, None)
  }

  // ---------------------------------------------------------------------------
  // Invariant
  // ---------------------------------------------------------------------------

  /** A scene has something to show: a dialogue line or a choice. */
  predicate HasContent(s: ParsedScene) {
    |s.dialogues| > 0 || (s.choices.Some? && |s.choices.value| > 0)
  }

  /** The shape every scene of the builder keeps: its type agrees with its choices,
      `Transition` never occurs, `Choice` implies dialogue, and every dialogue line
      is non-empty, trimmed text. */
  predicate WellTyped(s: ParsedScene) {
    && s.sceneType != Transition
    && (s.choices.Some? <==> s.sceneType != Dialogue)
    && (s.choices.Some? ==> |s.choices.value| > 0)
    && (s.sceneType == Choice ==> |s.dialogues| > 0)
    && forall i | 0 <= i < |s.dialogues| :: s.dialogues[i].text != [] && IsTrimmed(s.dialogues[i].text)
  }

  /** Emitted scene `i` is numbered `i`, carries the matching id, has content and
      is well typed. */
  predicate EmittedScenes(scenes: seq<ParsedScene>) {
    forall i | 0 <= i < |scenes| ::
      && scenes[i].index == i
      && scenes[i].id == SceneId(i)
      && HasContent(scenes[i])
      && WellTyped(scenes[i])
  }

  /** The builder invariant: the scene counter counts the emitted scenes, the
      current scene is numbered next and has no character snapshot yet, and the
      character map has distinct keys. */
  predicate Valid(b: Builder) {
    && b.sceneIndex == |b.scenes|
    && EmittedScenes(b.scenes)
    && b.current.index == b.sceneIndex
    && b.current.id == SceneId(b.sceneIndex)
    && b.current.characters == []
    && WellTyped(b.current)
    && UniqueKeys(b.characters)
  }

  // ---------------------------------------------------------------------------
  // Characters
  // ---------------------------------------------------------------------------

  /** `setActiveSpeaker(slot)`: every character becomes inactive, then the one under
      `slot` (if any) active. */
  function SetActiveSpeaker(m: CharacterMap, slot: Option<string>): (r: CharacterMap)
    ensures |r| == |m|
    ensures UniqueKeys(m) ==> UniqueKeys(r)
    ensures UniqueKeys(m) ==>
      forall i | 0 <= i < |m| :: r[i] == (m[i].0, m[i].1.(isActive := m[i].0 == slot))
  {
    var off := MapValues(m, (c: CharacterState) => c.(isActive := false));
    assert forall i, j | 0 <= i < j < |m| :: off[i].0 == m[i].0 && off[j].0 == m[j].0;
    Update(off, slot, (c: CharacterState) => c.(isActive := true))
  }

  /** The `charatalk off` step: every character inactive. */
  function AllInactive(m: CharacterMap): (r: CharacterMap)
    ensures |r| == |m|
    ensures forall i | 0 <= i < |m| :: r[i].0 == m[i].0 && !r[i].1.isActive
    ensures forall i | 0 <= i < |m| :: r[i].1 == m[i].1.(isActive := false)
  {
    MapValues(m, (c: CharacterState) => c.(isActive := false))
  }

  /** `setCharacter(args)`: the character under `args[0]` (re)created from the
      arguments slot, graph id, position and display name, with face 0, inactive. */
  function SetCharacter(m: CharacterMap, args: seq<string>): (r: CharacterMap)
    ensures UniqueKeys(m) ==> UniqueKeys(r)
    ensures Get(r, Arg(args, 0)) ==
      Some(CharacterState(Arg(args, 0), ParseArg(Arg(args, 1)), ParseArg(Arg(args, 2)), Arg(args, 3), 0, false))
    ensures forall k | k != Arg(args, 0) :: Get(r, k) == Get(m, k)
    ensures HasKey(m, Arg(args, 0)) ==> |r| == |m|
    ensures !HasKey(m, Arg(args, 0)) ==> |r| == |m| + 1 && r[..|m|] == m
  {
    var slot := Arg(args, 0);
    var r := Set(m, slot, CharacterState(slot, ParseArg(Arg(args, 1)), ParseArg(Arg(args, 2)), Arg(args, 3), 0, false));
    assert !HasKey(m, slot) ==> r[..|m|] == m;
    r
  }

  // ---------------------------------------------------------------------------
  // Commands
  // ---------------------------------------------------------------------------

  /** `handleCommand(name, args)`, one case per command name the source knows;
      any other name changes nothing. */
  function HandleCommand(b: Builder, name: string, args: seq<string>): (r: Builder)
    ensures Valid(b) ==> Valid(r)
    ensures name == "scene" || name == "sceneset" ==>
      r.lastBackground == Arg(args, 0) && r.current.background == Arg(args, 0)
    ensures name != "scene" && name != "sceneset" ==> r.lastBackground == b.lastBackground
  {
    if name == "scene" || name == "sceneset" then
      b.(current := b.current.(background := Arg(args, 0)), lastBackground := Arg(args, 0))
    else if name == "charaset" then
      b.(characters := SetCharacter(b.characters, args))
    else if name == "charaface" then
      var face := ParseArg(Arg(args, 1)).GetOr(0);   // `parseInt(args[1]) || 0`
      b.(characters := Update(b.characters, Arg(args, 0), (c: CharacterState) => c.(face := face)))
    else if name == "charatalk" then
      if Arg(args, 0) == Some("off") then b.(characters := AllInactive(b.characters))
      else if Arg(args, 0) == Some("on") then b
      else b.(characters := SetActiveSpeaker(b.characters, Arg(args, 0)))
    else if name == "charafadein" then
      if Truthy(Arg(args, 2)) then
        var pos := ParseArg(Arg(args, 2));
        b.(characters := Update(b.characters, Arg(args, 0), (c: CharacterState) => c.(position := pos)))
      else b
    else if name == "characlear" then
      b.(characters := [])
    else if name == "bgm" then
      b.(current := b.current.(audio := b.current.audio.(bgm := Arg(args, 0))))
    else if name == "se" then
      b.(current := b.current.(audio := b.current.audio.(se := b.current.audio.se + [Arg(args, 0)])))
    else if name == "k" || name == "page" || name == "end" then
      CommitScene(b)
    else
      // `charafadeout`, `messageoff` and every unknown name
      b
  }

  /** The command names `handleCommand` acts on. */
  predicate KnownCommand(name: string) {
    name in {"scene", "sceneset", "charaset", "charaface", "charatalk", "charafadein",
             "characlear", "bgm", "se", "k", "page", "end"}
  }

  /** An unknown command, `charafadeout` and `messageoff` leave the builder as it is. */
  lemma UnknownCommandIgnored(b: Builder, name: string, args: seq<string>)
    requires !KnownCommand(name)
    ensures HandleCommand(b, name, args) == b
  {
  }

  /** `[k]`, `[page]` and `[end]` all commit the current scene. */
  lemma PageCommandCommits(b: Builder, name: string, args: seq<string>)
    requires name == "k" || name == "page" || name == "end"
    ensures HandleCommand(b, name, args) == CommitScene(b)
  {
  }

  /** `charaface`, `charafadein` and `charatalk <slot>` never add a character:
      on a slot that is not loaded, `charaface` and `charafadein` change nothing. */
  lemma AbsentSlotIgnored(b: Builder, args: seq<string>)
    requires !HasKey(b.characters, Arg(args, 0))
    ensures HandleCommand(b, "charaface", args) == b
    ensures HandleCommand(b, "charafadein", args) == b
  {
  }

  /** `scene`/`sceneset` sets the current background, and the next fresh scene
      starts with it. */
  lemma BackgroundInherited(b: Builder, args: seq<string>)
    requires Valid(b)
    ensures var r := HandleCommand(b, "scene", args);
      && r.current.background == Arg(args, 0)
      && CommitScene(r).current.background == Arg(args, 0)
  {
  }

  /** The current scene shows the last background set: true of a fresh builder and
      of every scene a commit opens. */
  predicate BackgroundSynced(b: Builder) {
    b.current.background == b.lastBackground
  }

  /** `r` keeps the scenes `b` had emitted, and every scene emitted since shows
      background `bg`. */
  predicate AddsScenesWith(b: Builder, r: Builder, bg: Option<string>) {
    && b.scenes <= r.scenes
    && forall i | |b.scenes| <= i < |r.scenes| :: r.scenes[i].background == bg
  }

  /** Scenes added in two runs, each showing `bg`, are scenes added showing `bg`. */
  lemma AddsScenesWithTrans(a: Builder, b: Builder, c: Builder, bg: Option<string>)
    requires AddsScenesWith(a, b, bg) && AddsScenesWith(b, c, bg)
    ensures AddsScenesWith(a, c, bg)
  {
    forall i | |a.scenes| <= i < |c.scenes| ensures c.scenes[i].background == bg {
      if i < |b.scenes| {
        assert c.scenes[i] == b.scenes[i];
      }
    }
  }

  /** Every command other than `scene`/`sceneset` keeps the last background, keeps
      the current scene on it, and emits only scenes showing it. */
  lemma HandleCommandKeepsBackground(b: Builder, name: string, args: seq<string>)
    requires BackgroundSynced(b) && name != "scene" && name != "sceneset"
    ensures var r := HandleCommand(b, name, args);
      && r.lastBackground == b.lastBackground
      && BackgroundSynced(r)
      && AddsScenesWith(b, r, b.lastBackground)
  {
    if name == "k" || name == "page" || name == "end" {
      PageCommandCommits(b, name, args);
      CommitKeepsBackground(b);
    } else {
      OtherCommandKeepsScenes(b, name, args);
    }
  }

  /** Committing a scene whose background is the last background emits at most
      that scene and starts the next one on the same background. */
  lemma CommitKeepsBackground(b: Builder)
    requires BackgroundSynced(b)
    ensures var r := CommitScene(b);
      BackgroundSynced(r) && AddsScenesWith(b, r, b.lastBackground)
  {
    var r := CommitScene(b);
    assert b.scenes == r.scenes[..|b.scenes|];
  }

  /** A command that neither sets the background nor commits keeps the scene list
      and the current background. */
  lemma OtherCommandKeepsScenes(b: Builder, name: string, args: seq<string>)
    requires name !in {"scene", "sceneset", "k", "page", "end"}
    ensures var r := HandleCommand(b, name, args);
      r.scenes == b.scenes && r.current.background == b.current.background
  {
  }

  /** `charaface` sets the face of a loaded character to the parsed number, `0`
      when the argument is missing or not a number, and touches nothing else. */
  lemma FaceSet(b: Builder, args: seq<string>)
    requires Valid(b) && HasKey(b.characters, Arg(args, 0))
    ensures var r := HandleCommand(b, "charaface", args);
      && r.scenes == b.scenes && r.current == b.current
      && Get(r.characters, Arg(args, 0)).value ==
           Get(b.characters, Arg(args, 0)).value.(face := ParseArg(Arg(args, 1)).GetOr(0))
      && (ParseArg(Arg(args, 1)).None? ==> Get(r.characters, Arg(args, 0)).value.face == 0)
  {
  }

  /** `charaset` (re)loads the character under `args[0]` from the arguments and
      leaves every other slot and the rest of the builder alone. */
  lemma CharaSetLoads(b: Builder, args: seq<string>)
    ensures var r := HandleCommand(b, "charaset", args);
      && r == b.(characters := r.characters)
      && Get(r.characters, Arg(args, 0)) ==
           Some(CharacterState(Arg(args, 0), ParseArg(Arg(args, 1)), ParseArg(Arg(args, 2)), Arg(args, 3), 0, false))
      && forall k | k != Arg(args, 0) :: Get(r.characters, k) == Get(b.characters, k)
  {
  }

  /** `charatalk`: `off` makes every character inactive, `on` does nothing, and any
      other argument makes exactly the character under that slot active. */
  lemma TalkCommand(b: Builder, args: seq<string>)
    requires UniqueKeys(b.characters)
    ensures var r := HandleCommand(b, "charatalk", args);
      && r == b.(characters := r.characters) && |r.characters| == |b.characters|
      && (Arg(args, 0) == Some("off") ==>
            forall i | 0 <= i < |b.characters| ::
              r.characters[i] == (b.characters[i].0, b.characters[i].1.(isActive := false)))
      && (Arg(args, 0) == Some("on") ==> r == b)
      && (Arg(args, 0) != Some("off") && Arg(args, 0) != Some("on") ==>
            forall i | 0 <= i < |b.characters| ::
              r.characters[i] == (b.characters[i].0, b.characters[i].1.(isActive := b.characters[i].0 == Arg(args, 0))))
  {
  }

  /** `charafadein` with a truthy third argument moves a loaded character to the
      parsed position; without one it does nothing. Other slots are untouched. */
  lemma FadeInPlaces(b: Builder, args: seq<string>)
    ensures var r := HandleCommand(b, "charafadein", args);
      && r == b.(characters := r.characters)
      && (!Truthy(Arg(args, 2)) ==> r == b)
      && (Truthy(Arg(args, 2)) && HasKey(b.characters, Arg(args, 0)) ==>
            Get(r.characters, Arg(args, 0)).Some? &&
            Get(r.characters, Arg(args, 0)).value ==
              Get(b.characters, Arg(args, 0)).value.(position := ParseArg(Arg(args, 2))))
      && forall k | k != Arg(args, 0) :: Get(r.characters, k) == Get(b.characters, k)
  {
  }

  /** `characlear` unloads every character, so a scene committed next carries none. */
  lemma ClearUnloads(b: Builder, args: seq<string>)
    ensures var r := HandleCommand(b, "characlear", args);
      && r == b.(characters := [])
      && (HasContent(r.current) || r.pendingChoices != [] ==>
            CommitScene(r).scenes[|b.scenes|].characters == [])
  {
  }

  /** `bgm` records its argument as the current scene's music and changes nothing else. */
  lemma BgmCommandSets(b: Builder, args: seq<string>)
    ensures var r := HandleCommand(b, "bgm", args);
      && r.current.audio.bgm == Arg(args, 0) && r.current.audio.se == b.current.audio.se
      && r == b.(current := b.current.(audio := r.current.audio))
  {
  }

  /** `se` appends its argument to the current scene's sound effects and changes
      nothing else. */
  lemma SeCommandAppends(b: Builder, args: seq<string>)
    ensures var r := HandleCommand(b, "se", args);
      && r.current.audio.se == b.current.audio.se + [Arg(args, 0)] && r.current.audio.bgm == b.current.audio.bgm
      && r == b.(current := b.current.(audio := r.current.audio))
  {
  }

  // ---------------------------------------------------------------------------
  // Speakers, dialogue and choices
  // ---------------------------------------------------------------------------

  /** `setSpeaker(speaker, slot)`: the current speaker is recorded; with a slot the
      character in it becomes the only active one, without a slot exactly the
      characters whose display name is the speaker become active. */
  function SetSpeaker(b: Builder, speaker: string, slot: Option<string>): (r: Builder)
    ensures r.currentSpeaker == Some(speaker) && r.currentSpeakerSlot == slot
    ensures r == b.(currentSpeaker := Some(speaker), currentSpeakerSlot := slot, characters := r.characters)
    ensures |r.characters| == |b.characters|
    ensures UniqueKeys(b.characters) ==> forall i | 0 <= i < |b.characters| ::
      && r.characters[i].0 == b.characters[i].0
      && r.characters[i].1 == b.characters[i].1.(isActive := r.characters[i].1.isActive)
      && (r.characters[i].1.isActive <==>
            if Truthy(slot) then b.characters[i].0 == slot
            else b.characters[i].1.displayName == Some(speaker))
    ensures Valid(b) ==> Valid(r)
  {
    var chars :=
      if Truthy(slot) then SetActiveSpeaker(b.characters, slot)
      else MapValues(b.characters, (c: CharacterState) => c.(isActive := c.displayName == Some(speaker)));
    assert forall i | 0 <= i < |chars| :: chars[i].0 == b.characters[i].0;
    b.(currentSpeaker := Some(speaker), currentSpeakerSlot := slot, characters := chars)
  }

  /** `addDialogue(text)`: the formatted text, if not empty, is appended to the
      current scene under the current speaker and slot. */
  function AddDialogue(b: Builder, text: string): (r: Builder)
    ensures FormatText(text) == [] ==> r == b
    ensures FormatText(text) != [] ==>
      r == b.(current := b.current.(dialogues :=
        b.current.dialogues + [DialogueLine(b.currentSpeaker, FormatText(text), b.currentSpeakerSlot)]))
    ensures Valid(b) ==> Valid(r)
  {
    var formatted := FormatText(text);
    if formatted == [] then b
    else
      var d := b.current.dialogues + [DialogueLine(b.currentSpeaker, formatted, b.currentSpeakerSlot)];
      b.(current := b.current.(dialogues := d))
  }

  /** `addChoice(choice)`: queued until the choices are committed. */
  function AddChoice(b: Builder, c: ChoiceOption): (r: Builder)
    ensures r.pendingChoices == b.pendingChoices + [c]
    ensures r == b.(pendingChoices := r.pendingChoices)
    ensures Valid(b) ==> Valid(r)
  {
    b.(pendingChoices := b.pendingChoices + [c])
  }

  /** `commitChoices()`: without pending choices nothing happens; otherwise the
      pending list becomes the current scene's choices, typed `Choice` when the
      scene already has dialogue and `ChoiceOnly` when not, and the list is emptied. */
  function CommitChoices(b: Builder): (r: Builder)
    ensures b.pendingChoices == [] ==> r == b
    ensures b.pendingChoices != [] ==>
      && r.pendingChoices == []
      && r.current.choices == Some(b.pendingChoices)
      && r.current.sceneType == (if |b.current.dialogues| > 0 then Choice else ChoiceOnly)
      && r.current.dialogues == b.current.dialogues
      && r.current.background == b.current.background && r.current.audio == b.current.audio
      && r.scenes == b.scenes && r.characters == b.characters
      && r.currentSpeaker == b.currentSpeaker && r.currentSpeakerSlot == b.currentSpeakerSlot
    ensures r == b.(current := r.current, pendingChoices := r.pendingChoices)
    ensures r.current.background == b.current.background
    ensures Valid(b) ==> Valid(r)
  {
    if |b.pendingChoices| == 0 then b
    else
      var t := if |b.current.dialogues| > 0 then Choice else ChoiceOnly;
      b.(current := b.current.(choices := Some(b.pendingChoices), sceneType := t), pendingChoices := [])
  }

  // ---------------------------------------------------------------------------
  // Committing scenes
  // ---------------------------------------------------------------------------

  /** `commitScene()`: pending choices are committed; a scene with content is
      emitted with a snapshot of every loaded character, one without content is
      dropped with its audio; either way a fresh scene starts, inheriting the last
      background, and the current speaker is forgotten. */
  function CommitScene(b: Builder): (r: Builder)
    ensures var emitted := HasContent(b.current) || b.pendingChoices != [];
      && |r.scenes| == |b.scenes| + (if emitted then 1 else 0)
      && r.scenes[..|b.scenes|] == b.scenes
      && (emitted ==>
            var s := r.scenes[|b.scenes|];
            && s.characters == Values(b.characters)
            && s.dialogues == b.current.dialogues
            && s.audio == b.current.audio
            && s.background == b.current.background
            && s.choices == (if b.pendingChoices != [] then Some(b.pendingChoices) else b.current.choices))
    ensures r.current.dialogues == [] && r.current.choices == None && r.current.audio == AudioState(None, [])
    ensures r.current.background == b.lastBackground && r.lastBackground == b.lastBackground
    ensures r.currentSpeaker == None && r.currentSpeakerSlot == None
    ensures r.pendingChoices == [] && r.characters == b.characters
    ensures Valid(b) ==> Valid(r)
  {
    var b1 := if |b.pendingChoices| > 0 then CommitChoices(b) else b;
    var cur := b1.current;
    var emit := HasContent(cur);
    var scenes := if emit then b1.scenes + [cur.(characters := Values(b1.characters))] else b1.scenes;
    var next := if emit then b1.sceneIndex + 1 else b1.sceneIndex;
    var r := b1.(scenes := scenes, sceneIndex := next, current := EmptyScene(next, b1.lastBackground),
                 currentSpeaker := None, currentSpeakerSlot := None);
    assert Valid(b) ==> EmittedScenes(r.scenes) by {
      if Valid(b) && emit {
        EmitNext(b1.scenes, cur.(characters := Values(b1.characters)));
      }
    }
    r
  }

  /** Emitting a well-typed scene with content, numbered next, keeps the emitted
      list well formed. */
  lemma EmitNext(scenes: seq<ParsedScene>, s: ParsedScene)
    requires EmittedScenes(scenes)
    requires s.index == |scenes| && s.id == SceneId(|scenes|) && HasContent(s) && WellTyped(s)
    ensures EmittedScenes(scenes + [s])
  {
    assert forall i | 0 <= i < |scenes| :: (scenes + [s])[i] == scenes[i];
  }

  /** `build()`'s renumbering: every scene's index set to its position. */
  function Renumber(scenes: seq<ParsedScene>): (r: seq<ParsedScene>)
    ensures |r| == |scenes|
    ensures forall i | 0 <= i < |scenes| :: r[i] == scenes[i].(index := i)
  {
    seq(|scenes|, i requires 0 <= i < |scenes| => scenes[i].(index := i))
  }

  /** Renumbering changes nothing: scenes are already numbered by position when
      they are emitted. */
  lemma RenumberIdentity(scenes: seq<ParsedScene>)
    requires EmittedScenes(scenes)
    ensures Renumber(scenes) == scenes
  {
  }

  /** `build()`: the current scene is committed if it has dialogue or pending
      choices, then the scenes are renumbered. */
  function Build(b: Builder): (scenes: seq<ParsedScene>)
    ensures Valid(b) ==> EmittedScenes(scenes)
    ensures |b.scenes| <= |scenes| <= |b.scenes| + 1
    ensures Valid(b) ==> scenes[..|b.scenes|] == b.scenes
  {
    var b1 := if |b.current.dialogues| > 0 || |b.pendingChoices| > 0 then CommitScene(b) else b;
    var r := Renumber(b1.scenes);
    assert Valid(b) ==> r == b1.scenes by {
      if Valid(b) { RenumberIdentity(b1.scenes); }
    }
    r
  }

  /** A scene with dialogue or pending choices is emitted by `build()`. */
  lemma BuildEmitsPending(b: Builder)
    requires Valid(b)
    requires |b.current.dialogues| > 0 || b.pendingChoices != []
    ensures |Build(b)| == |b.scenes| + 1
    ensures Build(b)[|b.scenes|].dialogues == b.current.dialogues
  {
  }

  /** A trailing scene whose choices were already closed by `？！` and which has no
      dialogue is not emitted by `build()`, although it has content. */
  lemma BuildDropsClosedChoiceOnlyScene(b: Builder)
    requires Valid(b)
    requires b.current.dialogues == [] && b.pendingChoices == [] && b.current.choices.Some?
    ensures HasContent(b.current)
    ensures Build(b) == b.scenes
  {
  }
}
