/** The render-state manager (script-state-manager.ts, class `ScriptStateManager`):
    it consumes structured script components one at a time and keeps what the stage
    shows — character slots, background, audio, the current dialogue or choices.
    Character slots are preloaded invisible, become visible only by a fade-in, and
    are hidden (never removed) by a fade-out or a clear. The mutable class becomes
    an immutable record and every handler a function on it. */
module StateManager {
  import opened Wrappers
  import opened Strings
  import opened OrderedMap
  import opened Types
  import opened Directives

  // ---------------------------------------------------------------------------
  // Input components
  // ---------------------------------------------------------------------------

  /** One element of a dialogue line as it arrives, by its `type` tag; `RawOther`
      is any tag the manager does not know. Field values are given after the
      source's `String(…)`/`Number(…)` conversions. */
  datatype RawPart =
    | RawText(text: string, colorHex: Option<string>)
    | RawNewLine
    | RawPlayerName(colorHex: Option<string>)
    | RawRuby(text: string, ruby: string, colorHex: Option<string>)
    | RawHiddenName(svtId: int, hiddenName: string, trueName: string, colorHex: Option<string>)
    | RawGender(male: seq<RawPart>, female: seq<RawPart>, colorHex: Option<string>)
    | RawLine(length: int, colorHex: Option<string>)
    | RawOther

  /** `{ name, audioAsset }` of a bgm, sound effect or voice. */
  datatype AudioAsset = AudioAsset(name: string, audioAsset: string)

  /** `{ name, speakerCode? }` of a dialogue's speaker. */
  datatype SpeakerInfo = SpeakerInfo(name: string, speakerCode: Option<string>)

  /** `{ id, option }` of one choice. */
  datatype RawChoice = RawChoice(id: int, option: seq<RawPart>)

  /** A script component, by its `type` tag; `Unknown` is any other tag. Numeric
      fields that may be missing or not a number are `None`. */
  datatype Component =
    | CharaSet(speakerCode: string, charaGraphId: string, baseFace: Option<int>, baseName: string)
    | CharaFadeIn(speakerCode: string, position: int, face: Option<int>)
    | CharaFadeOut(speakerCode: string)
    | CharaFace(speakerCode: string, face: Option<int>)
    | CharaClear
    | Background(backgroundAsset: string)
    | Bgm(bgm: AudioAsset, volumne: Option<real>)
    | BgmStop
    | SoundEffect(soundEffect: AudioAsset)
    | Voice(voice: AudioAsset)
    | DialogueComp(speaker: Option<SpeakerInfo>, components: seq<seq<RawPart>>)
    | Choices(choices: seq<RawChoice>)
    | Unknown

  // ---------------------------------------------------------------------------
  // State
  // ---------------------------------------------------------------------------

  type SlotMap = seq<(string, CharacterSlot)>

  datatype Manager = Manager(
    slots: SlotMap,
    background: Option<string>,
    audio: AudioRenderState,
    currentDialogue: Option<DialogueRenderState>,
    currentChoices: Option<seq<ChoiceOption>>,
    sceneType: SceneType)

  const SilentAudio := AudioRenderState(None, [], None, false, false)

  /** The state after construction (and after `reset()`). */
  function NewManager(): (m: Manager)
    ensures Valid(m) && m.slots == [] && m.currentDialogue.None? && m.currentChoices.None?
    ensures m.sceneType == Dialogue && m.audio.se == [] && m.audio.bgm.None?
  {
    Manager([], None, SilentAudio, None, None, Dialogue)
  }

  /** The slot map has distinct keys and every slot is stored under its own name. */
  predicate Valid(m: Manager) {
    && UniqueKeys(m.slots)
    && forall i | 0 <= i < |m.slots| :: m.slots[i].1.slot == m.slots[i].0
  }

  // ---------------------------------------------------------------------------
  // Character handlers
  // ---------------------------------------------------------------------------

  /** `handleCharaSet`: the slot is (re)created hidden, unplaced, inactive and not a
      silhouette, showing its base face (`0` when missing); an empty name becomes
      `???`. */
  function CharaSetSlot(m: Manager, code: string, graph: string, baseFace: Option<int>, name: string): (r: Manager)
    ensures Get(r.slots, code) == Some(CharacterSlot(code, graph, baseFace.GetOr(0),
      if name == "" then "???" else name, false, -1, baseFace.GetOr(0), false, false))
    ensures forall k | k != code :: Get(r.slots, k) == Get(m.slots, k)
    ensures r == m.(slots := r.slots)
    ensures Valid(m) ==> Valid(r)
  {
    var face := baseFace.GetOr(0);   // `Number(comp.baseFace) || 0`
    var s := CharacterSlot(code, graph, face, if name == "" then "???" else name, false, -1, face, false, false);
    var slots := Set(m.slots, code, s);
    assert Valid(m) ==> forall i | 0 <= i < |slots| :: slots[i].1.slot == slots[i].0;
    m.(slots := slots)
  }

  /** `handleCharaFadeIn`: an existing slot becomes visible at `position`, and its
      face changes only when a face is given; an unknown slot is ignored. */
  function CharaFadeInSlot(m: Manager, code: string, position: int, face: Option<int>): (r: Manager)
    ensures !HasKey(m.slots, code) ==> r == m
    ensures HasKey(m.slots, code) ==>
      var c := Get(m.slots, code).value;
      Get(r.slots, code) == Some(c.(visible := true, position := position, currentFace := face.GetOr(c.currentFace)))
    ensures forall k | k != code :: Get(r.slots, k) == Get(m.slots, k)
    ensures r == m.(slots := r.slots)
    ensures Valid(m) ==> Valid(r)
  {
    var f := (c: CharacterSlot) =>
      c.(visible := true, position := position,
         currentFace := if face.Some? then face.value else c.currentFace);
    m.(slots := Update(m.slots, code, f))
  }

  /** `handleCharaFadeOut`: an existing slot is hidden, nothing else about it
      changes. */
  function CharaFadeOutSlot(m: Manager, code: string): (r: Manager)
    ensures !HasKey(m.slots, code) ==> r == m
    ensures HasKey(m.slots, code) ==> Get(r.slots, code) == Some(Get(m.slots, code).value.(visible := false))
    ensures forall k | k != code :: Get(r.slots, k) == Get(m.slots, k)
    ensures r == m.(slots := r.slots)
    ensures Valid(m) ==> Valid(r)
  {
    m.(slots := Update(m.slots, code, (c: CharacterSlot) => c.(visible := false)))
  }

  /** `handleCharaFace`: an existing slot shows the given face, `0` when missing. */
  function CharaFaceSlot(m: Manager, code: string, face: Option<int>): (r: Manager)
    ensures !HasKey(m.slots, code) ==> r == m
    ensures HasKey(m.slots, code) ==>
      Get(r.slots, code) == Some(Get(m.slots, code).value.(currentFace := face.GetOr(0)))
    ensures forall k | k != code :: Get(r.slots, k) == Get(m.slots, k)
    ensures r == m.(slots := r.slots)
    ensures Valid(m) ==> Valid(r)
  {
    var n := face.GetOr(0);   // `Number(comp.face) || 0`
    m.(slots := Update(m.slots, code, (c: CharacterSlot) => c.(currentFace := n)))
  }

  /** `handleCharaClear`: every slot hidden, but kept with all its other data. */
  function CharaClearSlots(m: Manager): (r: Manager)
    ensures |r.slots| == |m.slots|
    ensures forall i | 0 <= i < |m.slots| :: r.slots[i] == (m.slots[i].0, m.slots[i].1.(visible := false))
    ensures r == m.(slots := r.slots)
    ensures Valid(m) ==> Valid(r)
  {
    var slots := MapValues(m.slots, (c: CharacterSlot) => c.(visible := false));
    assert forall i, j | 0 <= i < j < |slots| :: slots[i].0 == m.slots[i].0 && slots[j].0 == m.slots[j].0;
    m.(slots := slots)
  }

  /** `setActiveSpeaker(slot)`: exactly the characters whose slot name is `slot`
      become active. */
  function SetActiveSpeaker(slots: SlotMap, slot: string): (r: SlotMap)
    ensures |r| == |slots|
    ensures forall i | 0 <= i < |slots| ::
      r[i] == (slots[i].0, slots[i].1.(isActive := slots[i].1.slot == slot))
  {
    MapValues(slots, (c: CharacterSlot) => c.(isActive := c.slot == slot))
  }

  // ---------------------------------------------------------------------------
  // Dialogue components
  // ---------------------------------------------------------------------------

  /** `parseDialogueComponents(line)`: each element mapped to its component, an
      unknown element to empty text; gender variants are parsed recursively. */
  function ParseDialogueComponents(parts: seq<RawPart>): (r: seq<DialogueComponent>)
    ensures |r| == |parts|
    ensures forall i | 0 <= i < |parts| :: r[i] == ParsePart(parts[i])
    decreases parts
  {
    if |parts| == 0 then []
    else
      assert parts[0] in parts;
      [ParsePart(parts[0])] + ParseDialogueComponents(parts[1..])
  }

  /** One element of `parseDialogueComponents`. */
  function ParsePart(p: RawPart): (c: DialogueComponent)
    ensures p.RawOther? ==> c == TextPart("", None)
    ensures p.RawText? ==> c == TextPart(p.text, p.colorHex)
    ensures p.RawRuby? ==> c == Ruby(p.text, p.ruby, p.colorHex)
    decreases p
  {
    match p
    case RawText(t, col) => TextPart(t, col)
    case RawNewLine => NewLine
    case RawPlayerName(col) => PlayerName(col)
    case RawRuby(t, ruby, col) => Ruby(t, ruby, col)
    case RawHiddenName(id, hidden, trueName, col) => HiddenName(id, hidden, trueName, col)
    case RawGender(male, female, col) => Gender(ParseDialogueComponents(male), ParseDialogueComponents(female), col)
    case RawLine(n, col) => LineRule(n, col)
    case RawOther => TextPart("", None)
  }

  /** The plain text of one element as `renderDialogueToText` renders it: text and
      ruby give their base text, a newline `"\n"`, the player placeholder the
      protagonist's name, a hidden name the hidden name, anything else nothing. */
  function PartText(p: RawPart): string {
    match p
    case RawText(t, _) => t
    case RawNewLine => "\n"
    case RawPlayerName(_) => Directives.PlayerName
    case RawRuby(t, _, _) => t
    case RawHiddenName(_, hidden, _, _) => hidden
    case _ => ""
  }

  /** `renderDialogueToText(parts)`: the elements' texts concatenated. */
  function RenderDialogueToText(parts: seq<RawPart>): (s: string)
    ensures |parts| == 1 ==> s == PartText(parts[0])
    ensures (forall i | 0 <= i < |parts| :: PartText(parts[i]) == "") ==> s == ""
  {
    if |parts| == 0 then "" else PartText(parts[0]) + RenderDialogueToText(parts[1..])
  }

  /** Rendering distributes over concatenation of element lists. */
  lemma {:induction false} RenderAppend(a: seq<RawPart>, b: seq<RawPart>)
    ensures RenderDialogueToText(a + b) == RenderDialogueToText(a) + RenderDialogueToText(b)
    decreases |a|
  {
    if |a| > 0 {
      assert (a + b)[0] == a[0];
      assert (a + b)[1..] == a[1..] + b;
      RenderAppend(a[1..], b);
    } else {
      assert a + b == b;
    }
  }

  /** The plain text of a parsed component, by the same rules. */
  function ComponentText(c: DialogueComponent): string {
    match c
    case TextPart(t, _) => t
    case NewLine => "\n"
    case PlayerName(_) => Directives.PlayerName
    case Ruby(t, _, _) => t
    case HiddenName(_, hidden, _, _) => hidden
    case _ => ""
  }

  /** The plain text of a parsed line. */
  function ComponentsText(cs: seq<DialogueComponent>): string {
    if |cs| == 0 then "" else ComponentText(cs[0]) + ComponentsText(cs[1..])
  }

  /** Rendering raw elements to text agrees with parsing them first and reading
      the text of the parsed components: an unknown element parses to empty text
      and renders as nothing, a gender element parses to a gender component and
      renders as nothing. */
  lemma {:induction false} RenderAgreesWithParse(parts: seq<RawPart>)
    ensures RenderDialogueToText(parts) == ComponentsText(ParseDialogueComponents(parts))
    decreases |parts|
  {
    if |parts| > 0 {
      RenderAgreesWithParse(parts[1..]);
      var cs := ParseDialogueComponents(parts);
      assert cs[1..] == ParseDialogueComponents(parts[1..]);
      assert ComponentText(cs[0]) == PartText(parts[0]);
    }
  }

  /** A ruby renders as its base text, never its reading. */
  lemma RubyRendersBase(pre: seq<RawPart>, text: string, ruby: string, col: Option<string>, post: seq<RawPart>)
    ensures RenderDialogueToText(pre + [RawRuby(text, ruby, col)] + post) ==
      RenderDialogueToText(pre) + text + RenderDialogueToText(post)
  {
    RenderAppend(pre + [RawRuby(text, ruby, col)], post);
    RenderAppend(pre, [RawRuby(text, ruby, col)]);
  }

  // ---------------------------------------------------------------------------
  // Dialogue and choices
  // ---------------------------------------------------------------------------

  /** `speaker?.speakerCode` is truthy. */
  predicate HasSpeakerCode(sp: Option<SpeakerInfo>) {
    sp.Some? && sp.value.speakerCode.Some? && sp.value.speakerCode.value != ""
  }

  /** `handleDialogue`: a speaker with a slot code becomes the only active
      character; the dialogue becomes current with the voice playing now; the
      scene is a dialogue scene and no choices are current. */
  function HandleDialogue(m: Manager, speaker: Option<SpeakerInfo>, lines: seq<seq<RawPart>>): (r: Manager)
    ensures HasSpeakerCode(speaker) ==> r.slots == SetActiveSpeaker(m.slots, speaker.value.speakerCode.value)
    ensures !HasSpeakerCode(speaker) ==> r.slots == m.slots
    ensures r.currentDialogue.Some? && |r.currentDialogue.value.components| == |lines|
    ensures r.currentDialogue.value.speaker == (if speaker.Some? then Some(speaker.value.name) else None)
    ensures r.currentDialogue.value.speakerSlot == (if speaker.Some? then speaker.value.speakerCode else None)
    ensures forall i | 0 <= i < |lines| ::
      r.currentDialogue.value.components[i] == ParseDialogueComponents(lines[i])
    ensures r.currentDialogue.value.voice == (if m.audio.voice.Some? then Some(m.audio.voice.value.url) else None)
    ensures r.sceneType == Dialogue && r.currentChoices.None?
    ensures r.background == m.background && r.audio == m.audio
    ensures Valid(m) ==> Valid(r)
  {
    var slots := if HasSpeakerCode(speaker) then SetActiveSpeaker(m.slots, speaker.value.speakerCode.value) else m.slots;
    assert forall i, j | 0 <= i < j < |slots| :: slots[i].0 == m.slots[i].0 && slots[j].0 == m.slots[j].0;
    var comps := seq(|lines|, i requires 0 <= i < |lines| => ParseDialogueComponents(lines[i]));
    var d := DialogueRenderState(
      if speaker.Some? then Some(speaker.value.name) else None,
      if speaker.Some? then speaker.value.speakerCode else None,
      comps,
      if m.audio.voice.Some? then Some(m.audio.voice.value.url) else None);
    m.(slots := slots, currentDialogue := Some(d), sceneType := Dialogue, currentChoices := None)
  }

  /** `handleChoices`: each choice becomes `{id, text, targetBranch = id}` with its
      option rendered to text; the scene is a choice scene when a dialogue is
      current and a choice-only scene when not. */
  function HandleChoices(m: Manager, choices: seq<RawChoice>): (r: Manager)
    ensures r.currentChoices.Some? && |r.currentChoices.value| == |choices|
    ensures forall i | 0 <= i < |choices| ::
      var c := r.currentChoices.value[i];
      && c.id == IntToString(choices[i].id)
      && c.targetBranch == c.id
      && c.text == RenderDialogueToText(choices[i].option)
    ensures r.sceneType == (if m.currentDialogue.Some? then Choice else ChoiceOnly)
    ensures r.sceneType != Dialogue && r.sceneType != Transition
    ensures r == m.(currentChoices := r.currentChoices, sceneType := r.sceneType)
  {
    var cs := seq(|choices|, i requires 0 <= i < |choices| =>
      ChoiceOption(IntToString(choices[i].id), RenderDialogueToText(choices[i].option), IntToString(choices[i].id)));
    m.(currentChoices := Some(cs), sceneType := if m.currentDialogue.Some? then Choice else ChoiceOnly)
  }

  // ---------------------------------------------------------------------------
  // processComponent
  // ---------------------------------------------------------------------------

  /** `processComponent(comp)`. */
  function ProcessComponent(m: Manager, c: Component): (r: Manager)
    ensures c.Unknown? ==> r == m
    ensures Valid(m) ==> Valid(r)
    ensures r.audio.bgmMuted == m.audio.bgmMuted && r.audio.seMuted == m.audio.seMuted
  {
    match c
    case CharaSet(code, graph, face, name) => CharaSetSlot(m, code, graph, face, name)
    case CharaFadeIn(code, pos, face) => CharaFadeInSlot(m, code, pos, face)
    case CharaFadeOut(code) => CharaFadeOutSlot(m, code)
    case CharaFace(code, face) => CharaFaceSlot(m, code, face)
    case CharaClear => CharaClearSlots(m)
    case Background(asset) => m.(background := Some(asset))
    case Bgm(asset, vol) =>
      // `Number(comp.volumne) || 1`
      var v := if vol.Some? && vol.value != 0.0 then vol.value else 1.0;
      m.(audio := m.audio.(bgm := Some(BgmTrack(asset.name, asset.audioAsset, v, true))))
    case BgmStop =>
      if m.audio.bgm.Some? then m.(audio := m.audio.(bgm := Some(m.audio.bgm.value.(playing := false))))
      else m
    case SoundEffect(asset) => m.(audio := m.audio.(se := m.audio.se + [SoundRef(asset.name, asset.audioAsset)]))
    case Voice(asset) => m.(audio := m.audio.(voice := Some(SoundRef(asset.name, asset.audioAsset))))
    case DialogueComp(speaker, lines) => HandleDialogue(m, speaker, lines)
    case Choices(choices) => HandleChoices(m, choices)
    case Unknown => m
  }

  /** Visibility of slot `k`: present and visible. */
  predicate ShownIn(slots: SlotMap, k: string) {
    Get(slots, k).Some? && Get(slots, k).value.visible
  }

  /** `characlear` shows nothing. */
  lemma ClearShowsNothing(m: Manager, k: string)
    ensures !ShownIn(CharaClearSlots(m).slots, k)
  {
    var r := CharaClearSlots(m);
    match Find(r.slots, k)
    case None =>
    case Some(i) => assert Get(r.slots, k) == Some(r.slots[i].1);
  }

  /** A dialogue changes who is active, never who is shown. */
  lemma DialogueShowsNoNew(m: Manager, speaker: Option<SpeakerInfo>, lines: seq<seq<RawPart>>, k: string)
    requires Valid(m)
    ensures ShownIn(HandleDialogue(m, speaker, lines).slots, k) ==> ShownIn(m.slots, k)
  {
    var r := HandleDialogue(m, speaker, lines);
    if HasKey(r.slots, k) {
      var i :| 0 <= i < |r.slots| && r.slots[i].0 == k;
      assert r.slots[i].1 == Get(r.slots, k).value;
      assert Get(m.slots, k) == Some(m.slots[i].1);
    }
  }

  /** Setting, fading out or changing the face of a slot never shows a slot. */
  lemma SlotEditShowsNoNew(m: Manager, c: Component, k: string)
    requires c.CharaSet? || c.CharaFadeOut? || c.CharaFace?
    ensures ShownIn(ProcessComponent(m, c).slots, k) ==> ShownIn(m.slots, k)
  {
  }

  /** A fade-in is the only way a slot becomes visible: after any other component,
      every visible slot was already visible before. */
  lemma OnlyFadeInShows(m: Manager, c: Component, k: string)
    requires Valid(m) && !c.CharaFadeIn?
    ensures ShownIn(ProcessComponent(m, c).slots, k) ==> ShownIn(m.slots, k)
  {
    match c
    case CharaSet(code, graph, face, name) => SlotEditShowsNoNew(m, c, k);
    case CharaFadeOut(code) => SlotEditShowsNoNew(m, c, k);
    case CharaFace(code, face) => SlotEditShowsNoNew(m, c, k);
    case CharaClear => ClearShowsNothing(m, k);
    case DialogueComp(speaker, lines) => DialogueShowsNoNew(m, speaker, lines, k);
    case Choices(choices) =>
    case Background(asset) =>
    case Bgm(asset, vol) =>
    case BgmStop =>
    case SoundEffect(asset) =>
    case Voice(asset) =>
    case Unknown =>
  }

  /** Re-setting a slot hides it, whatever it showed before. */
  lemma CharaSetHides(m: Manager, code: string, graph: string, face: Option<int>, name: string)
    ensures !ShownIn(ProcessComponent(m, CharaSet(code, graph, face, name)).slots, code)
    ensures Get(ProcessComponent(m, CharaSet(code, graph, face, name)).slots, code).value.position == -1
  {
  }

  /** A dialogue naming a slot leaves exactly that slot active. */
  lemma DialogueActivatesSpeaker(m: Manager, name: string, code: string, lines: seq<seq<RawPart>>, k: string)
    requires Valid(m) && code != "" && HasKey(m.slots, k)
    ensures var r := ProcessComponent(m, DialogueComp(Some(SpeakerInfo(name, Some(code))), lines));
      Get(r.slots, k).Some? && (Get(r.slots, k).value.isActive <==> k == code)
  {
    var r := ProcessComponent(m, DialogueComp(Some(SpeakerInfo(name, Some(code))), lines));
    var i :| 0 <= i < |m.slots| && m.slots[i].0 == k;
    assert r.slots[i].0 == k;
    assert Get(r.slots, k) == Some(r.slots[i].1);
  }

  /** A background component replaces the background and changes nothing else. */
  lemma BackgroundSets(m: Manager, asset: string)
    ensures ProcessComponent(m, Background(asset)) == m.(background := Some(asset))
  {
  }

  /** A bgm component starts that track playing, at the given volume when it is a
      non-zero number and at full volume otherwise; only the music changes. */
  lemma BgmStarts(m: Manager, a: AudioAsset, vol: Option<real>)
    ensures var r := ProcessComponent(m, Bgm(a, vol));
      && r == m.(audio := m.audio.(bgm := r.audio.bgm))
      && r.audio.bgm.Some? && r.audio.bgm.value.playing
      && r.audio.bgm.value.id == a.name && r.audio.bgm.value.url == a.audioAsset
      && (vol.Some? && vol.value != 0.0 ==> r.audio.bgm.value.volume == vol.value)
      && (vol.None? || vol == Some(0.0) ==> r.audio.bgm.value.volume == 1.0)
  {
  }

  /** A voice component replaces the voice and changes nothing else. */
  lemma VoiceSets(m: Manager, a: AudioAsset)
    ensures ProcessComponent(m, Voice(a)) == m.(audio := m.audio.(voice := Some(SoundRef(a.name, a.audioAsset))))
  {
  }

  /** Stopping the bgm only pauses an existing track. */
  lemma BgmStopPauses(m: Manager)
    ensures m.audio.bgm.None? ==> ProcessComponent(m, BgmStop) == m
    ensures m.audio.bgm.Some? ==> ProcessComponent(m, BgmStop).audio.bgm == Some(m.audio.bgm.value.(playing := false))
  {
  }

  /** A sound effect is appended to the queue. */
  lemma SoundEffectAppends(m: Manager, a: AudioAsset)
    ensures ProcessComponent(m, SoundEffect(a)).audio.se == m.audio.se + [SoundRef(a.name, a.audioAsset)]
  {
  }

  /** `clearSoundEffects()`: the sound-effect queue and the voice are emptied; the
      bgm and the mute flags stay. */
  function ClearSoundEffects(m: Manager): (r: Manager)
    ensures r.audio.se == [] && r.audio.voice.None?
    ensures r.audio.bgm == m.audio.bgm && r.audio.bgmMuted == m.audio.bgmMuted && r.audio.seMuted == m.audio.seMuted
    ensures r == m.(audio := r.audio)
  {
    m.(audio := m.audio.(se := [], voice := None))
  }

  /** `setBgmMuted(muted)`: only the bgm mute flag changes. */
  function SetBgmMuted(m: Manager, muted: bool): (r: Manager)
    ensures r.audio.bgmMuted == muted
    ensures r.audio == m.audio.(bgmMuted := r.audio.bgmMuted) && r == m.(audio := r.audio)
  {
    m.(audio := m.audio.(bgmMuted := muted))
  }

  /** `setSeMuted(muted)`: only the sound-effect mute flag changes. */
  function SetSeMuted(m: Manager, muted: bool): (r: Manager)
    ensures r.audio.seMuted == muted
    ensures r.audio == m.audio.(seMuted := r.audio.seMuted) && r == m.(audio := r.audio)
  {
    m.(audio := m.audio.(seMuted := muted))
  }

  /** The mute flags are settings: later components and `clearSoundEffects()` keep
      them, only `reset()` clears them. */
  lemma MuteFlagsPersist(m: Manager, c: Component, bgmMuted: bool, seMuted: bool)
    ensures var r := ProcessComponent(SetSeMuted(SetBgmMuted(m, bgmMuted), seMuted), c);
      && r.audio.bgmMuted == bgmMuted && r.audio.seMuted == seMuted
      && ClearSoundEffects(r).audio.bgmMuted == bgmMuted
      && ClearSoundEffects(r).audio.seMuted == seMuted
    ensures !Reset(SetBgmMuted(m, bgmMuted)).audio.bgmMuted
  {
  }

  /** `reset()`: back to the state after construction, whatever came before. */
  function Reset(m: Manager): (r: Manager)
    ensures r == NewManager()
    ensures Valid(r) && r.slots == [] && r.background.None? && r.currentDialogue.None?
  {
    Manager([], None, SilentAudio, None, None, Dialogue)
  }

  // ---------------------------------------------------------------------------
  // getCurrentRenderState
  // ---------------------------------------------------------------------------

  /** Non-decreasing positions. */
  predicate SortedByPosition(s: seq<CharacterSlot>) {
    forall i, j | 0 <= i < j < |s| :: s[i].position <= s[j].position
  }

  /** `x` placed after every element whose position is not greater (which keeps
      equal positions in arrival order). */
  function InsertByPosition(x: CharacterSlot, s: seq<CharacterSlot>): (r: seq<CharacterSlot>)
    ensures |r| == |s| + 1
    ensures multiset(r) == multiset(s) + multiset{x}
    ensures forall i | 0 <= i < |r| :: r[i] == x || r[i] in s
  {
    if |s| == 0 then [x]
    else if x.position < s[0].position then [x] + s
    else
      var t := InsertByPosition(x, s[1..]);
      assert s == [s[0]] + s[1..];
      [s[0]] + t
  }

  /** Inserting into a sorted list keeps it sorted. */
  lemma {:induction false} InsertKeepsSorted(x: CharacterSlot, s: seq<CharacterSlot>)
    requires SortedByPosition(s)
    ensures SortedByPosition(InsertByPosition(x, s))
    decreases |s|
  {
    if |s| > 0 && x.position >= s[0].position {
      var t := InsertByPosition(x, s[1..]);
      InsertKeepsSorted(x, s[1..]);
      assert forall i | 0 <= i < |t| :: s[0].position <= t[i].position by {
        forall i | 0 <= i < |t| ensures s[0].position <= t[i].position {
          assert t[i] == x || t[i] in s[1..];
        }
      }
      assert InsertByPosition(x, s) == [s[0]] + t;
    }
  }

  /** The stable sort `sort((a, b) => a.position - b.position)`: each element is
      inserted after the already sorted ones whose position is not greater. */
  function SortByPosition(s: seq<CharacterSlot>): (r: seq<CharacterSlot>)
    ensures multiset(r) == multiset(s)
    decreases |s|
  {
    if |s| == 0 then []
    else
      var init := s[..|s| - 1];
      var last := s[|s| - 1];
      assert multiset(s) == multiset(init) + multiset{last} by {
        assert s == init + [last];
      }
      InsertByPosition(last, SortByPosition(init))
  }

  /** The sort's output is ordered by position. */
  lemma {:induction false} SortByPositionSorted(s: seq<CharacterSlot>)
    ensures SortedByPosition(SortByPosition(s))
    decreases |s|
  {
    if |s| > 0 {
      var init := s[..|s| - 1];
      SortByPositionSorted(init);
      InsertKeepsSorted(s[|s| - 1], SortByPosition(init));
    }
  }

  /** `c` is the value of some slot. */
  predicate SlotValue(slots: SlotMap, c: CharacterSlot) {
    exists i | 0 <= i < |slots| :: slots[i].1 == c
  }

  /** `Array.from(slots.values()).filter(c => c.visible)`, in map order. */
  function VisibleSlots(slots: SlotMap): (r: seq<CharacterSlot>)
    ensures forall c :: c in r <==> c.visible && SlotValue(slots, c)
    decreases |slots|
  {
    if |slots| == 0 then []
    else
      var rest := VisibleSlots(slots[1..]);
      assert forall c :: SlotValue(slots, c) <==> c == slots[0].1 || SlotValue(slots[1..], c) by {
        forall c ensures SlotValue(slots, c) <==> c == slots[0].1 || SlotValue(slots[1..], c) {
          if SlotValue(slots, c) {
            var i :| 0 <= i < |slots| && slots[i].1 == c;
            if i > 0 { assert slots[1..][i - 1].1 == c; }
          }
          if SlotValue(slots[1..], c) {
            var i :| 0 <= i < |slots| - 1 && slots[1..][i].1 == c;
            assert slots[i + 1].1 == c;
          }
          if c == slots[0].1 { assert slots[0].1 == c; }
        }
      }
      if slots[0].1.visible then [slots[0].1] + rest else rest
  }

  /** `getCurrentRenderState()`: the state as the stage draws it. The visible
      characters are exactly the visible slots, ordered by non-decreasing position;
      the sound-effect list is a copy (a value here). */
  function GetCurrentRenderState(m: Manager): (rs: RenderState)
    ensures SortedByPosition(rs.visibleCharacters)
    ensures multiset(rs.visibleCharacters) == multiset(VisibleSlots(m.slots))
    ensures forall c :: c in rs.visibleCharacters <==> c.visible && SlotValue(m.slots, c)
    ensures rs.slots == m.slots && rs.audio == m.audio && rs.background == m.background
    ensures rs.currentDialogue == m.currentDialogue && rs.currentChoices == m.currentChoices
    ensures rs.sceneType == m.sceneType
  {
    var vis := SortByPosition(VisibleSlots(m.slots));
    SortByPositionSorted(VisibleSlots(m.slots));
    assert forall c :: c in vis <==> c in multiset(vis);
    assert forall c :: c in VisibleSlots(m.slots) <==> c in multiset(VisibleSlots(m.slots));
    RenderState(m.background, m.slots, vis, m.currentDialogue, m.currentChoices, m.audio, m.sceneType)
  }

  /** After `characlear` nothing is drawn, but every slot is still loaded. */
  lemma ClearHidesAll(m: Manager)
    ensures GetCurrentRenderState(ProcessComponent(m, CharaClear)).visibleCharacters == []
    ensures |ProcessComponent(m, CharaClear).slots| == |m.slots|
  {
    var r := ProcessComponent(m, CharaClear);
    var vis := GetCurrentRenderState(r).visibleCharacters;
    assert forall c | SlotValue(r.slots, c) :: !c.visible;
  }
}
