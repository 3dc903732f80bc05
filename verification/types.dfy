/** Shared datatypes of the story reader (types/index.ts): the parser's scene records,
    the player's state, the render-state manager's character slots and dialogue
    components, and the table of interaction permissions per scene type. */
module Types {
  import opened Wrappers

  /** How a scene is presented. The parser produces the first three; `Transition`
      is never produced by it but is honoured by the player and the table below. */
  datatype SceneType = Dialogue | Choice | ChoiceOnly | Transition

  datatype InteractionConfig = InteractionConfig(
    dialogueBoxVisible: bool,
    dialogueBoxClickable: bool,
    backgroundClickable: bool,
    choicesVisible: bool)

  /** `INTERACTION_MAP`: what the player may see and click in each kind of scene. */
  function InteractionMap(t: SceneType): (c: InteractionConfig)
    ensures c.backgroundClickable <==> t == Transition
    ensures c.dialogueBoxClickable <==> t == Dialogue
    ensures c.choicesVisible <==> t == Choice || t == ChoiceOnly
    ensures c.choicesVisible ==> !c.dialogueBoxClickable && !c.backgroundClickable
    ensures c.dialogueBoxVisible <==> t == Dialogue || t == Choice
    // every kind of scene offers exactly one way to move on
    ensures (if c.dialogueBoxClickable then 1 else 0) + (if c.backgroundClickable then 1 else 0)
            + (if c.choicesVisible then 1 else 0) == 1
  {
    match t
    case Dialogue => InteractionConfig(true, true, false, false)
    case Choice => InteractionConfig(true, false, false, true)
    case ChoiceOnly => InteractionConfig(false, false, false, true)
    case Transition => InteractionConfig(false, false, true, false)
  }

  /** A character as the parser snapshots it (`CharacterState`). Fields read from
      command arguments may be missing (`None` for `undefined`, or `NaN` for a
      failed `parseInt`). The optional `isSilhouette` is never set by the parser. */
  datatype CharacterState = CharacterState(
    slot: Option<string>,
    charaGraphId: Option<int>,
    position: Option<int>,
    displayName: Option<string>,
    face: int,
    isActive: bool)

  datatype DialogueLine = DialogueLine(speaker: Option<string>, text: string, slot: Option<string>)

  datatype ChoiceOption = ChoiceOption(id: string, text: string, targetBranch: string)

  /** Scene audio. `bgm` is `None` when absent or set to `undefined`; `se` is the
      list of sound-effect arguments (an `undefined` argument is pushed as `None`),
      empty exactly when the source leaves the field absent. */
  datatype AudioState = AudioState(bgm: Option<string>, se: seq<Option<string>>)

  datatype ParsedScene = ParsedScene(
    id: string,
    index: int,
    background: Option<string>,
    characters: seq<CharacterState>,
    dialogues: seq<DialogueLine>,
    audio: AudioState,
    choices: Option<seq<ChoiceOption>>,
    sceneType: SceneType)

  datatype ScriptMetadata = ScriptMetadata(questId: int, questPhase: int, totalScenes: int)

  datatype ParsedScript = ParsedScript(
    id: string,
    region: string,
    scenes: seq<ParsedScene>,
    metadata: ScriptMetadata)

  /** One undo step: the position that was left, and when (a clock reading the
      player is given; the model never compares it). */
  datatype HistoryEntry = HistoryEntry(sceneIndex: int, dialogueIndex: int, timestamp: int)

  datatype PlayerState = PlayerState(
    script: ParsedScript,
    currentSceneIndex: int,
    currentDialogueIndex: int,
    isTyping: bool,
    showChoices: bool,
    history: seq<HistoryEntry>,
    choicesMade: map<string, string>)

  datatype ChoiceDisplayConfig = ChoiceDisplayConfig(
    showDialogueBox: bool,
    dialogueContent: Option<string>,
    allowDialogueClick: bool,
    allowBackgroundClick: bool)

  /** A character slot of the render-state manager. `position == -1` means unset;
      `visible` becomes true only through a fade-in. */
  datatype CharacterSlot = CharacterSlot(
    slot: string,
    charaGraphId: string,
    baseFace: int,
    displayName: string,
    visible: bool,
    position: int,
    currentFace: int,
    isActive: bool,
    isSilhouette: bool)

  /** The closed union of dialogue components. */
  datatype DialogueComponent =
    | TextPart(text: string, colorHex: Option<string>)
    | NewLine
    | PlayerName(colorHex: Option<string>)
    | Ruby(text: string, ruby: string, colorHex: Option<string>)
    | HiddenName(svtId: int, hiddenName: string, trueName: string, colorHex: Option<string>)
    | Gender(male: seq<DialogueComponent>, female: seq<DialogueComponent>, colorHex: Option<string>)
    | LineRule(length: int, colorHex: Option<string>)

  datatype BgmTrack = BgmTrack(id: string, url: string, volume: real, playing: bool)

  datatype SoundRef = SoundRef(id: string, url: string)

  datatype AudioRenderState = AudioRenderState(
    bgm: Option<BgmTrack>,
    se: seq<SoundRef>,
    voice: Option<SoundRef>,
    bgmMuted: bool,
    seMuted: bool)

  datatype DialogueRenderState = DialogueRenderState(
    speaker: Option<string>,
    speakerSlot: Option<string>,
    components: seq<seq<DialogueComponent>>,
    voice: Option<string>)

  datatype RenderState = RenderState(
    background: Option<string>,
    slots: seq<(string, CharacterSlot)>,
    visibleCharacters: seq<CharacterSlot>,
    currentDialogue: Option<DialogueRenderState>,
    currentChoices: Option<seq<ChoiceOption>>,
    audio: AudioRenderState,
    sceneType: SceneType)
}
