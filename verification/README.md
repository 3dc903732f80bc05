# FGOStory story reader, modelled in Dafny

This project models the core of the FGOStory playground, the part that turns a raw
Fate/Grand Order story script into scenes and plays them back:

- **The script compiler** (`script-parser.ts`) is modelled in four Dafny modules:
  - `Tokenizer`: the line tokenizer.
  - `Directives`: the parsers for command, speaker and choice lines and the
    text formatter.
  - `SceneBuilder`: the scene accumulator.
  - `Compiler`: the driver `parseScript`, which ties the other three together.
- **The story player** (`useStoryPlayer.ts`) is a state machine over `PlayerState`:
  - the reducer for dialogue clicks, background clicks, choice selection and undo;
  - the display configuration;
  - jumping to a scene, resetting, and reporting progress.
  - This is module `Player`.
- **The render-state manager** (`script-state-manager.ts`) is the state that
  script components drive:
  - character slots that stay hidden until a fade-in;
  - the background;
  - the audio channels and their mute flags;
  - the current dialogue and choices;
  - the sorted snapshot handed to the renderer.
  - This is module `StateManager`.
- **The shared types and the interaction table** (`types/index.ts`) are module `Types`.

Shared helpers:
- `Wrappers`: `Option`.
- `Strings`: the JavaScript string operations the source relies on. These are
  `trim` with the ECMAScript white-space set, `split`, `split(/\s+/)`, `toLowerCase`
  on word characters, and `parseInt`.
- `OrderedMap`: a JavaScript `Map` as a sequence of key/value pairs in insertion order.

The source mutates things in place: the scene builder is a class, and the state
manager a class with `Map`s. Both become immutable records here, and every method
becomes a function from the record before to the record after.
- In the scene builder this loses nothing: the builder snapshots every character
  (`{ ...c }`) before it emits a scene.
- In the state manager it does lose something. `getCurrentRenderState` copies the slot
  `Map` but hands out the manager's own `CharacterSlot` objects and its `audio.bgm`
  object. Later handlers change those objects in place (script-state-manager.ts lines
  113-116, 128, 139, 148, 177 and 247), so a render state handed out earlier changes
  afterwards. The model's render state is a value and keeps what it was given.

Regular expressions are written out as deterministic scanners:
- `Run` gives the maximal run of a character class.
- `CloseBracket` gives the first `]` reached before a line terminator. This is what the
  lazy `(.*?)\]` matches.
- `ParseCommand` gives the leftmost position where the command pattern matches. This is
  the unanchored `match`.

Each pattern the source uses has only one way to match once its start is fixed.
So no backtracking behaviour is lost.

## Model

| member | source | states |
|---|---|---|
| Types.InteractionMap | docs/src/playground/types/index.ts:347-372 | Each scene type gives exactly one way to move on. The background is clickable only in a transition, the dialogue box only in a dialogue scene, and choices show only in the two choice types, where no click is allowed. The box is visible exactly for dialogue and choice scenes. |
| Tokenizer.Classify | docs/src/playground/services/script-parser.ts:22-53 | A trimmed line is a script id, command, speaker, choice, choice end or text line. Each kind holds exactly when its own sentinel condition holds (full-width or ASCII). The sentinel is dropped only from script-id and speaker values. |
| Tokenizer.Tokenize | docs/src/playground/services/script-parser.ts:14-57 | Every token comes from a line that is non-blank once trimmed, and is that line's classification. Tokens follow line order. Every non-blank line yields a token. |
| Tokenizer.TokenValuesTrimmed | docs/src/playground/services/script-parser.ts:19-20 | Apart from script-id and speaker values, every token value is non-empty and has no white space at either end. |
| Tokenizer.TokenValuesSingleLine | docs/src/playground/services/script-parser.ts:15 | No token value contains a line break. |
| Strings.Trim | docs/src/playground/services/script-parser.ts:19 | `trim()` returns a contiguous cut of its input with no white space at either end. It is empty exactly when the input is all white space. It leaves an already trimmed string alone. |
| Strings.JoinSplit | docs/src/playground/services/script-parser.ts:15 | Splitting on a separator and joining back with it gives the original string. |
| Strings.SplitJoin | docs/src/playground/services/script-parser.ts:15 | Joining separator-free parts and splitting again gives the parts back. |
| Strings.WordsOfSpaceJoined | docs/src/playground/services/script-parser.ts:63 | Splitting on white space and dropping empty pieces inverts space-joining non-empty words that contain no white space. |
| Strings.ParseIntOfNatToString | docs/src/playground/services/script-parser.ts:139 | `parseInt` reads back the decimal numeral of every natural number. |
| Strings.ParseIntNoDigits | docs/src/playground/services/script-parser.ts:139 | `parseInt` of text without any decimal digit is NaN. This includes text such as `face` whose letters are hex digits, since a hex numeral needs a leading `0x`. |
| Strings.NatToStringInjective | docs/src/playground/services/script-parser.ts:116 | Distinct scene counters give distinct `scene-N` ids. |
| Directives.CloseBracket | docs/src/playground/services/script-parser.ts:61 | The lazy `(.*?)\]` stops at the first `]`, with no line terminator before it. When it fails, every `]` comes after a line terminator. |
| Directives.ParseCommand | docs/src/playground/services/script-parser.ts:60-64 | A result is the command pattern matched at the leftmost position where it matches, and the pattern matches at no earlier position. No result means the pattern matches at no position. |
| Directives.ParseCommandShape | docs/src/playground/services/script-parser.ts:61-63 | A parsed command name is a non-empty lower-case word. Its arguments are non-empty and contain no white space. |
| Directives.ParseCommandNeedsClose | docs/src/playground/services/script-parser.ts:61-62 | A line without `]` is not a command. |
| Directives.CommandRoundTrip | docs/src/playground/services/script-parser.ts:60-64 | Writing `[name a1 … an]` with plain arguments and parsing it back gives the lower-cased name and the same argument list. |
| Directives.ParseSpeaker | docs/src/playground/services/script-parser.ts:67-80 | A slot is reported exactly for the `A`–`H` slot form, and the name is the text after the colon. Otherwise, a line containing the `[%1]` placeholder names the player and any other line is the name itself. |
| Directives.SpeakerRoundTrip | docs/src/playground/services/script-parser.ts:69-72 | A slot letter, a colon and a single-line name parse back to that name in that slot. |
| Directives.SlotFormBeforePlaceholder | docs/src/playground/services/script-parser.ts:69-77 | A line in the slot form, with a single-line name that contains the `[%1]` placeholder anywhere, is read as that name in that slot. The slot form wins over the player placeholder. |
| Directives.PlaceholderNamesPlayer | docs/src/playground/services/script-parser.ts:75-76 | Outside the slot form, a placeholder anywhere in the line names the player. |
| Directives.ParseChoice | docs/src/playground/services/script-parser.ts:83-87 | A parsed choice is the digits between the question mark and the colon, plus the non-empty single-line rest. Together they account for the whole line. |
| Directives.ChoiceRoundTrip | docs/src/playground/services/script-parser.ts:83-87 | `？id：text` parses back to the same id and text. |
| Directives.ChoiceWithoutText | docs/src/playground/services/script-parser.ts:84-86 | A line the tokenizer takes as a choice still fails to parse when nothing follows the colon. |
| Directives.FormatText | docs/src/playground/services/script-parser.ts:90-98 | Formatted text has no white space at either end. |
| Directives.ReplaceAllPlain | docs/src/playground/services/script-parser.ts:92-96 | No tag rewrite touches text without `[`. |
| Directives.FormatPlainText | docs/src/playground/services/script-parser.ts:90-98 | Formatting tag-free text only trims it. |
| Directives.LineBreakExpanded | docs/src/playground/services/script-parser.ts:92 | `[r]` becomes a line break. |
| Directives.PassKeepsPageMarker | docs/src/playground/services/script-parser.ts:92-93 | The `[r]` and `[line]` passes leave a `[k]` marker where it is. |
| Directives.PagePassDeletes | docs/src/playground/services/script-parser.ts:94 | The `[k]` pass deletes the marker. |
| Directives.PageWaitRemoved | docs/src/playground/services/script-parser.ts:90-98 | Formatting text with a `[k]` marker gives the trimmed text without it. |
| Directives.RubyRewritten | docs/src/playground/services/script-parser.ts:95 | `[#base:reading]` becomes `{base|reading}`. |
| Directives.TagReplaced | docs/src/playground/services/script-parser.ts:92-96 | When a tag matches at its `[`, in text with no other `[`, one pass replaces exactly that tag and keeps the text around it. |
| Directives.TagUntouched | docs/src/playground/services/script-parser.ts:92-96 | When a pass does not match at the only `[`, it leaves the text as it is. |
| Directives.LineRuleRemoved | docs/src/playground/services/script-parser.ts:93 | A `[line N]` marker, with any spaces and digits, is deleted from the text, which is then trimmed. |
| Directives.LinePassDeletes | docs/src/playground/services/script-parser.ts:93 | The `[line]` pass deletes a `[line N]` marker and keeps the text around it. |
| Directives.DeletedByLinePass | docs/src/playground/services/script-parser.ts:90-98 | Text that the `[r]` pass keeps and the `[line]` pass turns into text without `[` formats to that text, trimmed. |
| Directives.PlaceholderExpanded | docs/src/playground/services/script-parser.ts:96 | A `[%1]` placeholder in text is replaced by the player's name, and the text is trimmed. |
| Directives.RubyInText | docs/src/playground/services/script-parser.ts:95 | A ruby tag `[#base:reading]` inside text becomes `{base|reading}` in place, and the text is trimmed. |
| SceneBuilder.NewBuilder | docs/src/playground/services/script-parser.ts:100-124 | The fresh builder has no scenes and no characters. Its first scene starts with an empty-string background, and it satisfies the builder invariant. |
| SceneBuilder.SetActiveSpeaker | docs/src/playground/services/script-parser.ts:250-254 | Exactly the character under the given slot is active afterwards. Every other field and the key order are kept. |
| SceneBuilder.AllInactive | docs/src/playground/services/script-parser.ts:143-144 | `charatalk off` leaves every character inactive and changes nothing else. |
| SceneBuilder.SetCharacter | docs/src/playground/services/script-parser.ts:233-243 | The slot maps to a fresh inactive character with face 0 built from the arguments. Other slots are unchanged. A new slot is appended at the end, and an existing one keeps its place. |
| SceneBuilder.HandleCommand | docs/src/playground/services/script-parser.ts:126-192 | Every command preserves the builder invariant: the scene counter, the numbering and ids of emitted scenes, their content and typing, and distinct character keys. `scene` and `sceneset` set both the current and the remembered background to their first argument. No other command changes the remembered background. |
| SceneBuilder.UnknownCommandIgnored | docs/src/playground/services/script-parser.ts:160-186 | `charafadeout`, `messageoff` and unknown command names leave the builder unchanged. |
| SceneBuilder.PageCommandCommits | docs/src/playground/services/script-parser.ts:179-190 | `[k]`, `[page]` and `[end]` commit the current scene. |
| SceneBuilder.AbsentSlotIgnored | docs/src/playground/services/script-parser.ts:152-158 | `charaface` and `charafadein` on a slot that is not loaded change nothing. |
| SceneBuilder.BackgroundInherited | docs/src/playground/services/script-parser.ts:128-132 | A background set by `scene` applies to the current scene and carries over to the next one. |
| SceneBuilder.HandleCommandKeepsBackground | docs/src/playground/services/script-parser.ts:126-192 | A command other than `scene` or `sceneset` keeps the remembered background, keeps the current scene's background equal to it, and gives every scene it emits that background. |
| SceneBuilder.FaceSet | docs/src/playground/services/script-parser.ts:138-140 | `charaface` changes only the face of the named character. The face is the parsed number, or 0 when the argument is missing or not a number. |
| SceneBuilder.CharaSetLoads | docs/src/playground/services/script-parser.ts:134-136 | `charaset` loads the character under its first argument, built from the arguments with face 0 and inactive. Other slots and the rest of the builder are unchanged. |
| SceneBuilder.TalkCommand | docs/src/playground/services/script-parser.ts:142-150 | `charatalk off` makes every character inactive, and `charatalk on` changes nothing. Any other argument leaves exactly the character under that slot active. Only activity changes, and the key order is kept. |
| SceneBuilder.FadeInPlaces | docs/src/playground/services/script-parser.ts:152-158 | `charafadein` with a truthy third argument moves a loaded character to the parsed position. Without that argument it does nothing. Other slots are unchanged. |
| SceneBuilder.ClearUnloads | docs/src/playground/services/script-parser.ts:164-166 | `characlear` unloads every character and changes nothing else, so a scene committed next carries no character. |
| SceneBuilder.BgmCommandSets | docs/src/playground/services/script-parser.ts:168-171 | `bgm` makes its argument the current scene's music. The sound effects and the rest of the builder are unchanged. |
| SceneBuilder.SeCommandAppends | docs/src/playground/services/script-parser.ts:173-177 | `se` appends its argument to the current scene's sound effects. The music and the rest of the builder are unchanged. |
| SceneBuilder.SetSpeaker | docs/src/playground/services/script-parser.ts:194-207 | The speaker and slot are recorded. With a slot, exactly that character is active. Without one, exactly the characters whose display name is the speaker are active. No other field of the builder changes. |
| SceneBuilder.AddDialogue | docs/src/playground/services/script-parser.ts:209-219 | Text that formats to nothing is dropped. Otherwise the formatted line is appended with the current speaker and slot. |
| SceneBuilder.AddChoice | docs/src/playground/services/script-parser.ts:221-223 | The choice is queued and nothing else changes. |
| SceneBuilder.CommitChoices | docs/src/playground/services/script-parser.ts:225-231 | Queued choices move onto the current scene. The scene becomes a choice scene if it has dialogue, and choice-only otherwise. An empty queue changes nothing. Only the current scene and the queue change, and the background stays. |
| SceneBuilder.CommitScene | docs/src/playground/services/script-parser.ts:256-275 | A scene with content (including still-queued choices) is appended, carrying its dialogue, audio, background and choices and a snapshot of all loaded characters. Earlier scenes are kept, and the next scene starts empty with the last background and no speaker. The invariant is preserved. |
| SceneBuilder.Renumber | docs/src/playground/services/script-parser.ts:284-286 | Each scene gets its own position as its index. |
| SceneBuilder.RenumberIdentity | docs/src/playground/services/script-parser.ts:284-286 | On scenes the builder emitted, renumbering changes nothing. |
| SceneBuilder.Build | docs/src/playground/services/script-parser.ts:277-289 | The result extends the emitted scenes by at most one, and every scene is numbered by its position, has content and is well typed. |
| SceneBuilder.BuildEmitsPending | docs/src/playground/services/script-parser.ts:279-281 | Pending dialogue or queued choices are emitted as one more scene. |
| SceneBuilder.BuildDropsClosedChoiceOnlyScene | docs/src/playground/services/script-parser.ts:277-281 | A final scene holding only choices already closed by `？！` has content, yet `build` drops it. |
| Compiler.DefaultId | docs/src/playground/services/script-parser.ts:296 | The id is the supplied id when non-empty, and `unknown` otherwise. |
| Compiler.Flush | docs/src/playground/services/script-parser.ts:309-312 | Buffered text becomes one dialogue line and the buffer empties. An empty buffer changes nothing. |
| Compiler.ChoiceStep | docs/src/playground/services/script-parser.ts:329-334 | A choice line that parses queues a choice whose branch is its own id. One that does not parse changes nothing. |
| Compiler.CommandStep | docs/src/playground/services/script-parser.ts:307-316 | A command line first commits buffered text. If the line does not parse as a command nothing more happens; otherwise the parsed name and arguments go to `handleCommand`. |
| Compiler.SpeakerStep | docs/src/playground/services/script-parser.ts:318-327 | A speaker line commits buffered text and then sets the speaker and slot that the line parses to, for the text that follows. The detected id is kept. |
| Compiler.Step | docs/src/playground/services/script-parser.ts:299-345 | Every token keeps the builder invariant. Only a script-id token changes the detected id, to its own value. |
| Compiler.Feed | docs/src/playground/services/script-parser.ts:299-345 | The token loop keeps the builder invariant. |
| Compiler.ParseScript | docs/src/playground/services/script-parser.ts:293-364 | The id is the value of the last script-id line, or else the supplied or default id. The region is JP, the scene total equals the number of scenes, and every scene is numbered by position, has content and is well typed. |
| Compiler.ParseTokens | docs/src/playground/services/script-parser.ts:295-363 | The same properties as `ParseScript`, stated for any token stream. |
| Compiler.LastScriptId | docs/src/playground/services/script-parser.ts:303-305 | An id is reported exactly when a script-id token exists, and it is the value of one with no later script-id token. |
| Compiler.FeedDetectedId | docs/src/playground/services/script-parser.ts:299-305 | After the loop, the detected id is the last script-id value seen, or else the starting one. |
| Compiler.TextRunMerged | docs/src/playground/services/script-parser.ts:340-350 | Consecutive text lines become a single dialogue line, joined with line breaks. |
| Compiler.TextRunBuffered | docs/src/playground/services/script-parser.ts:340-343 | Text lines only accumulate in the buffer, without touching the builder. |
| Compiler.FlushBeforeCommand | docs/src/playground/services/script-parser.ts:307-327 | Command and speaker lines act on the builder only after the buffered text has been committed. |
| Compiler.FeedAppend | docs/src/playground/services/script-parser.ts:299-345 | Feeding two token runs one after the other equals feeding their concatenation. |
| Compiler.ChoicesKeepBuffer | docs/src/playground/services/script-parser.ts:329-338 | Choice lines and choice ends leave buffered text pending. |
| Compiler.CommandsFlushBuffer | docs/src/playground/services/script-parser.ts:307-327 | After a command or speaker line, the text buffer is empty. |
| Compiler.CommitForgetsSpeaker | docs/src/playground/services/script-parser.ts:179-190 | After any command line that parses to `k`, `page` or `end`, whatever its arguments, there is no current speaker and no queued choice. |
| Compiler.PageCommandParses | docs/src/playground/services/script-parser.ts:60-64 | `[k]`, `[page]` and `[end]` lines parse to that command with no arguments. |
| Compiler.StepKeepsBackground | docs/src/playground/services/script-parser.ts:299-345 | A token that is not a `scene` or `sceneset` command keeps the remembered background and gives every scene emitted on the way that background. |
| Compiler.FeedKeepsBackground | docs/src/playground/services/script-parser.ts:299-345 | Over a run of tokens with no `scene` or `sceneset` command, the remembered background stays, and every scene emitted in the run carries it. |
| Compiler.SceneBackgroundPersists | docs/src/playground/services/script-parser.ts:128-132 | After a `scene` command, every scene emitted until the next `scene` or `sceneset`, across any number of page breaks, carries its background. |
| Player.CurrentScene | docs/src/playground/composables/useStoryPlayer.ts:164-166 | There is a current scene exactly when the index addresses one. |
| Player.GetChoiceDisplayConfig | docs/src/playground/composables/useStoryPlayer.ts:17-41 | With no scene, only the background is clickable. While reading, the current line shows and the box is clickable. While choices show, the last line stays visible and nothing is clickable. |
| Player.AdvanceScene | docs/src/playground/composables/useStoryPlayer.ts:69-83 | The next scene starts at its first line, typing. Past the last scene the index becomes the terminal -1. History and choices are untouched. |
| Player.AdvanceDialogue | docs/src/playground/composables/useStoryPlayer.ts:44-66 | The next line is shown and the line left is recorded. On the last line, the scene's choices are shown if it has any, and otherwise the next scene starts. |
| Player.FindFrom | docs/src/playground/composables/useStoryPlayer.ts:87-91 | The first scene at or after the start whose id contains the branch id, or none. |
| Player.FindBranchScene | docs/src/playground/composables/useStoryPlayer.ts:86-93 | The first scene whose id contains the branch id, or scene 0 when there is none. |
| Player.GoBack | docs/src/playground/composables/useStoryPlayer.ts:96-109 | The last history entry is popped and its position restored, with typing and choices off. With empty history nothing changes. Choices made are kept. |
| Player.Select | docs/src/playground/composables/useStoryPlayer.ts:126-142 | The choice is recorded for the current scene id and the position is pushed onto history. Play continues at the first line of the branch scene. |
| Player.Reduce | docs/src/playground/composables/useStoryPlayer.ts:112-150 | With no current scene every action is ignored. A dialogue click is ignored while choices show and only finishes typing while typing. A background click advances only in a transition. Selecting and going back behave as `Select` and `GoBack`. The script never changes. |
| Player.JumpToScene | docs/src/playground/composables/useStoryPlayer.ts:223-233 | An addressable index starts that scene from its first line. Any other index changes nothing. History and choices are kept. |
| Player.Reset | docs/src/playground/composables/useStoryPlayer.ts:235-245 | Play returns to the state the player started in: the first line of the first scene, with no history and no choices. |
| Player.Progress | docs/src/playground/composables/useStoryPlayer.ts:184-187 | The total is the scene count. While a scene plays, the current number is its 1-based position, between 1 and the total. It is 0 once complete. |
| Player.AdvanceSceneProgress | docs/src/playground/composables/useStoryPlayer.ts:184-187 | Moving to the next scene either completes play exactly when the last scene was showing, or raises the progress number by one. The total stays. |
| Player.IsComplete | docs/src/playground/composables/useStoryPlayer.ts:180-182 | Once complete there is no current scene, and every action leaves the state as it is. |
| Player.InitialState | docs/src/playground/composables/useStoryPlayer.ts:154-162 | Play starts at the first line of the first scene, typing, with no history and no choices. An empty script starts with no current scene. |
| Player.InitialStateValid | docs/src/playground/composables/useStoryPlayer.ts:154-162 | The starting state of a non-empty script is a valid position with empty history. |
| Player.ReducePreservesValid | docs/src/playground/composables/useStoryPlayer.ts:112-150 | Every action keeps the position valid or terminal, and keeps every history entry a valid position. |
| Player.JumpPreservesValid | docs/src/playground/composables/useStoryPlayer.ts:223-233 | Jumping keeps the player state valid. |
| Player.AdvanceThenGoBack | docs/src/playground/composables/useStoryPlayer.ts:96-109 | Going back undoes a line advance exactly and restores the earlier state. |
| Player.SelectThenGoBack | docs/src/playground/composables/useStoryPlayer.ts:96-142 | Going back after a choice restores the position and history, but the choice stays recorded. |
| Player.GoBackPopsOne | docs/src/playground/composables/useStoryPlayer.ts:96-109 | Going back removes exactly the last history entry, and does nothing with empty history. |
| Player.TypingClickOnlyFinishes | docs/src/playground/composables/useStoryPlayer.ts:119 | A click while typing only ends the typing. |
| Player.DisplayAgreesWithInteractionMap | docs/src/playground/composables/useStoryPlayer.ts:17-41 | In a dialogue scene, the clicks the display allows match the interaction table. While choices show, no click is allowed, as the table says for choice scenes. |
| Player.PlayToEnd | docs/src/playground/composables/useStoryPlayer.ts:112-120 | In a script without choices, repeated dialogue clicks from any valid state reach the end and keep the recorded choices. |
| StateManager.NewManager | docs/src/playground/services/script-state-manager.ts:25-42 | The manager starts with no slots, dialogue or choices, in a dialogue scene, with silent audio. |
| StateManager.CharaSetSlot | docs/src/playground/services/script-state-manager.ts:91-104 | The slot is recreated hidden, unplaced, inactive and showing its base face (0 when missing). An empty name becomes `???`. Nothing else changes. |
| StateManager.CharaFadeInSlot | docs/src/playground/services/script-state-manager.ts:109-119 | A loaded slot becomes visible at the given position, and its face changes only when one is given. An absent slot changes nothing. |
| StateManager.CharaFadeOutSlot | docs/src/playground/services/script-state-manager.ts:124-130 | A loaded slot is hidden but kept. An absent slot changes nothing. |
| StateManager.CharaFaceSlot | docs/src/playground/services/script-state-manager.ts:135-141 | Only the current face of a loaded slot changes. |
| StateManager.CharaClearSlots | docs/src/playground/services/script-state-manager.ts:146-150 | `characlear` hides every slot and keeps them all. |
| StateManager.SetActiveSpeaker | docs/src/playground/services/script-state-manager.ts:245-249 | Exactly the slots whose slot code matches are active afterwards. |
| StateManager.ParseDialogueComponents | docs/src/playground/services/script-state-manager.ts:254-295 | Each raw element parses to one component, in order. An unknown element becomes empty text. |
| StateManager.RenderAppend | docs/src/playground/services/script-state-manager.ts:300-317 | Rendering a concatenation renders each part and joins them. |
| StateManager.RenderAgreesWithParse | docs/src/playground/services/script-state-manager.ts:254-317 | Rendering raw elements to text equals taking the text of the parsed components. |
| StateManager.RubyRendersBase | docs/src/playground/services/script-state-manager.ts:309-310 | A ruby element renders as its base text only. |
| StateManager.RenderDialogueToText | docs/src/playground/services/script-state-manager.ts:300-317 | A single part renders as its own text, and parts without text render empty. Together with `RenderAppend`, this fixes the text of every sequence of parts. |
| StateManager.HandleDialogue | docs/src/playground/services/script-state-manager.ts:206-224 | A speaker with a slot code becomes the only active character. The dialogue becomes current, line by line, with the playing voice. Its speaker and slot are the given speaker's name and code, or none without a speaker. The scene turns into a dialogue scene and the choices are cleared. |
| StateManager.HandleChoices | docs/src/playground/services/script-state-manager.ts:229-240 | Each choice gets its number as id and branch and its rendered text. The scene is a choice scene when a dialogue is current, and choice-only otherwise. |
| StateManager.ProcessComponent | docs/src/playground/services/script-state-manager.ts:47-86 | Every component keeps the slot map well formed and leaves the mute flags alone. An unknown component changes nothing. |
| StateManager.OnlyFadeInShows | docs/src/playground/services/script-state-manager.ts:47-150 | No component other than a fade-in makes a character visible. |
| StateManager.ClearShowsNothing | docs/src/playground/services/script-state-manager.ts:146-150 | After `characlear` no slot is shown. |
| StateManager.DialogueShowsNoNew | docs/src/playground/services/script-state-manager.ts:206-224 | Dialogue changes who is active, not who is shown. |
| StateManager.CharaSetHides | docs/src/playground/services/script-state-manager.ts:91-104 | A freshly set character is hidden and unplaced, even if it was shown before. |
| StateManager.DialogueActivatesSpeaker | docs/src/playground/services/script-state-manager.ts:206-249 | After a line from a coded speaker, a loaded slot is active exactly when it is the speaker's. |
| StateManager.BgmStopPauses | docs/src/playground/services/script-state-manager.ts:175-179 | Stopping background music pauses the track and keeps it. With no track nothing changes. |
| StateManager.BackgroundSets | docs/src/playground/services/script-state-manager.ts:155-157 | A background component replaces the background and changes nothing else. |
| StateManager.BgmStarts | docs/src/playground/services/script-state-manager.ts:162-170 | A bgm component starts its track playing. The volume is the given number when it is non-zero, and 1 when it is missing or zero. Only the music changes. |
| StateManager.VoiceSets | docs/src/playground/services/script-state-manager.ts:195-201 | A voice component replaces the voice and changes nothing else. |
| StateManager.SoundEffectAppends | docs/src/playground/services/script-state-manager.ts:184-190 | A sound effect is queued after the earlier ones. |
| StateManager.ClearSoundEffects | docs/src/playground/services/script-state-manager.ts:322-325 | Sound effects and voice are cleared. The music and mute flags are kept. |
| StateManager.SetBgmMuted | docs/src/playground/services/script-state-manager.ts:330-332 | Only the music mute flag changes. |
| StateManager.SetSeMuted | docs/src/playground/services/script-state-manager.ts:337-339 | Only the effect mute flag changes. |
| StateManager.MuteFlagsPersist | docs/src/playground/services/script-state-manager.ts:322-339 | Mute settings survive every component and clearing the effects. Only a reset unmutes. |
| StateManager.Reset | docs/src/playground/services/script-state-manager.ts:361-374 | A reset gives the freshly constructed manager. |
| StateManager.InsertByPosition | docs/src/playground/services/script-state-manager.ts:350 | Insertion adds exactly the new slot to the sequence. |
| StateManager.InsertKeepsSorted | docs/src/playground/services/script-state-manager.ts:350 | Inserting into a position-sorted sequence keeps it sorted. |
| StateManager.SortByPosition | docs/src/playground/services/script-state-manager.ts:350 | The result is a permutation of the input. |
| StateManager.SortByPositionSorted | docs/src/playground/services/script-state-manager.ts:350 | The result is ordered by position. |
| StateManager.VisibleSlots | docs/src/playground/services/script-state-manager.ts:348-349 | The visible characters are exactly the slot values marked visible. |
| StateManager.GetCurrentRenderState | docs/src/playground/services/script-state-manager.ts:344-356 | The visible characters are exactly the visible slots, sorted by position. All other state is passed through unchanged. |
| StateManager.ClearHidesAll | docs/src/playground/services/script-state-manager.ts:344-356 | After `characlear` the renderer is given no visible character, while every slot stays loaded. |
| OrderedMap.Set | docs/src/playground/services/script-parser.ts:235 | `Map.set` binds the key and leaves other keys alone. It appends a new key and keeps an existing key in place. |
| OrderedMap.Update | docs/src/playground/services/script-parser.ts:246-247 | Changing the value under a key changes only that entry. An absent key changes nothing. |

## Left out

- `loadScript` (script-parser.ts) fetches a script over the network and is not modelled. Its parsing step is `parseScript`, which is modelled.
- `renderDialogueToHtml` and `escapeHtml` build HTML markup for the view, not state, so they are left out.
- `copyText` writes to the clipboard (an I/O side effect), so it is left out.
- The Vue wiring (`ref`, `computed`, `readonly`, `dispatch` and the click handlers) only forwards to the reducer and the helpers above.
- The state manager's `region` field and constructor argument are never read by the modelled operations.
- `Date.now()` in history entries becomes a `now` parameter. No property compares timestamps.
- Numbers read from components are given as integers. `NaN` from `Number(...)` is not modelled, and the fade-in `?? 1` fallback can never apply.
- In `handleDialogue`, `speaker?.name` and `speaker?.speakerCode` are `undefined` when the speaker or its code is missing. The model uses `None` for both.
- Slot codes are bare casts (`comp.speakerCode as string`, script-state-manager.ts lines 92, 110, 125 and 136). A component without a code would key a slot under `undefined`. The model takes every slot code as a string and does not model the missing-code case.
- Render states share objects with the manager in the source, and later handlers change them in place. The model does not model this aliasing: a render state keeps the values it was built from.
- StateManager.SortByPosition: states sortedness and permutation but not stability. `Array.prototype.sort` is stable, and so is the insertion the model uses, but no lemma states it.
- Player.DisplayAgreesWithInteractionMap: covers dialogue and choice scenes only. With choices hidden, the display allows a dialogue click in every scene type, including choice and transition scenes, where the interaction table does not. That is what the source does.
- Player.AdvanceDialogue: requires a current scene. The source reads the scene's dialogue without a guard and is reached only through the reducer, which checks for the scene first.
- SceneBuilder.Build: the source renumbers scenes with `indexOf`. Every emitted scene is a distinct object, so this is the scene's position, and the model uses the position.
- The `Transition` scene type is never produced by the parser. Only the player and the interaction table handle it.

Behaviours of the code a reader might not expect, which the model keeps:
- `build()` drops a final scene that holds only choices already closed by `？！` (SceneBuilder.BuildDropsClosedChoiceOnlyScene).
- The scene type is decided when the choices are committed.
- `charafadeout` does nothing in the scene builder.
- `characlear` empties the builder's character map (SceneBuilder.ClearUnloads) but only hides the state manager's slots (StateManager.CharaClearSlots).
- Each emitted scene snapshots every loaded character, not only the visible ones.
