/** The driver of the script compiler (script-parser.ts, `parseScript`): one left to
    right pass over the tokens feeding a `SceneBuilder`, with a text buffer that
    merges consecutive text lines into one dialogue line and a remembered script id. */
module Compiler {
  import opened Wrappers
  import opened Strings
  import opened Types
  import opened Tokenizer
  import opened Directives
  import opened SceneBuilder

  /** The loop state of `parseScript`: the builder, the script id seen so far and the
      text lines not yet handed to the builder. */
  datatype Pass = Pass(builder: Builder, detectedId: string, textBuffer: string)

  /** `scriptId || 'unknown'`: the caller's id unless it is missing or empty. */
  function DefaultId(scriptId: Option<string>): (id: string)
    ensures scriptId.Some? && scriptId.value != "" ==> id == scriptId.value
    ensures scriptId.None? || scriptId.value == "" ==> id == "unknown"
  {
    if scriptId.Some? && scriptId.value != "" then scriptId.value else "unknown"
  }

  /** The state before the first token. */
  function StartPass(scriptId: Option<string>): (p: Pass)
    ensures Valid(p.builder) && p.textBuffer == ""
  {
    Pass(NewBuilder(), DefaultId(scriptId), "")
  }

  /** `if (textBuffer) { builder.addDialogue(textBuffer); textBuffer = '' }` */
  function Flush(p: Pass): (r: Pass)
    ensures r.textBuffer == "" && r.detectedId == p.detectedId
    ensures p.textBuffer == "" ==> r == p
    ensures p.textBuffer != "" ==> r.builder == AddDialogue(p.builder, p.textBuffer)
    ensures Valid(p.builder) ==> Valid(r.builder)
  {
    if p.textBuffer != "" then p.(builder := AddDialogue(p.builder, p.textBuffer), textBuffer := "")
    else p
  }

  /** `textBuffer += (textBuffer ? '\n' : '') + value` */
  function AppendText(buffer: string, value: string): string {
    buffer + (if buffer != "" then "\n" else "") + value
  }

  /** A command token: flush the text, then hand the parsed command (if the line
      parses) to the builder. */
  function CommandStep(p: Pass, line: string): (r: Pass)
    ensures Valid(p.builder) ==> Valid(r.builder)
    ensures r.textBuffer == "" && r.detectedId == p.detectedId
    ensures ParseCommand(line).None? ==> r == Flush(p)
    ensures ParseCommand(line).Some? ==>
      r == Flush(p).(builder := HandleCommand(Flush(p).builder, ParseCommand(line).value.name, ParseCommand(line).value.args))
  {
    var f := Flush(p);
    match ParseCommand(line)
    case Some(cmd) => f.(builder := HandleCommand(f.builder, cmd.name, cmd.args))
    case None => f
  }

  /** A speaker token: flush the text, then set the parsed speaker. */
  function SpeakerStep(p: Pass, line: string): (r: Pass)
    ensures Valid(p.builder) ==> Valid(r.builder)
    ensures r.textBuffer == "" && r.detectedId == p.detectedId
    ensures r.builder == SetSpeaker(Flush(p).builder, ParseSpeaker(line).speaker, ParseSpeaker(line).slot)
  {
    var f := Flush(p);
    var sp := ParseSpeaker(line);
    f.(builder := SetSpeaker(f.builder, sp.speaker, sp.slot))
  }

  /** A choice token: the parsed choice, if any, is queued with its id as target. */
  function ChoiceStep(p: Pass, line: string): (r: Pass)
    ensures Valid(p.builder) ==> Valid(r.builder)
    ensures r.textBuffer == p.textBuffer && r.detectedId == p.detectedId
    ensures ParseChoice(line).None? ==> r == p
    ensures ParseChoice(line).Some? ==>
      var c := ParseChoice(line).value;
      r.builder.pendingChoices == p.builder.pendingChoices + [ChoiceOption(c.id, c.text, c.id)]
  {
    match ParseChoice(line)
    case Some(c) => p.(builder := AddChoice(p.builder, ChoiceOption(c.id, c.text, c.id)))
    case None => p
  }

  /** One iteration of the token loop. */
  function Step(p: Pass, t: Token): (r: Pass)
    ensures Valid(p.builder) ==> Valid(r.builder)
    ensures r.detectedId == (if t.kind == ScriptId then t.value else p.detectedId)
  {
    match t.kind
    case ScriptId => p.(detectedId := t.value)
    case Command => CommandStep(p, t.value)
    case Speaker => SpeakerStep(p, t.value)
    case ChoiceLine => ChoiceStep(p, t.value)
    case ChoiceEnd => p.(builder := CommitChoices(p.builder))
    case TextLine => p.(textBuffer := AppendText(p.textBuffer, t.value))
  }

  /** The token loop over `ts`. */
  function Feed(p: Pass, ts: seq<Token>): (r: Pass)
    ensures Valid(p.builder) ==> Valid(r.builder)
    decreases |ts|
  {
    if |ts| == 0 then p else Feed(Step(p, ts[0]), ts[1..])
  }

  /** `parseScript` after tokenizing: the loop, the final flush and `build()`. */
  function ParseTokens(ts: seq<Token>, scriptId: Option<string>): (s: ParsedScript)
    ensures s.region == "JP"
    ensures s.metadata == ScriptMetadata(0, 0, |s.scenes|)
    ensures EmittedScenes(s.scenes)
    ensures s.id == (match LastScriptId(ts) case Some(v) => v case None => DefaultId(scriptId))
  {
    var p := Flush(Feed(StartPass(scriptId), ts));
    FeedDetectedId(StartPass(scriptId), ts);
    var scenes := Build(p.builder);
    ParsedScript(p.detectedId, "JP", scenes, ScriptMetadata(0, 0, |scenes|))
  }

  /** `parseScript(raw, scriptId)`. */
  function ParseScript(raw: string, scriptId: Option<string>): (s: ParsedScript)
    ensures s.region == "JP" && s.metadata.totalScenes == |s.scenes|
    ensures EmittedScenes(s.scenes)
    ensures s.id == (match LastScriptId(Tokenize(raw)) case Some(v) => v case None => DefaultId(scriptId))
  {
    ParseTokens(Tokenize(raw), scriptId)
  }

  // ---------------------------------------------------------------------------
  // The script id
  // ---------------------------------------------------------------------------

  /** The value of the last script-id token, if there is one. */
  function LastScriptId(ts: seq<Token>): (r: Option<string>)
    ensures r.Some? <==> exists i | 0 <= i < |ts| :: ts[i].kind == ScriptId
    ensures r.Some? ==> exists i | 0 <= i < |ts| :: ts[i].kind == ScriptId && ts[i].value == r.value
                          && forall j | i < j < |ts| :: ts[j].kind != ScriptId
    decreases |ts|
  {
    if |ts| == 0 then None
    else
      var last := ts[|ts| - 1];
      if last.kind == ScriptId then Some(last.value)
      else
        var r := LastScriptId(ts[..|ts| - 1]);
        assert forall i | 0 <= i < |ts| - 1 :: ts[..|ts| - 1][i] == ts[i];
        r
  }

  /** The last script-id token wins over every earlier one and over the caller's id. */
  lemma {:induction false} FeedDetectedId(p: Pass, ts: seq<Token>)
    ensures Feed(p, ts).detectedId == (match LastScriptId(ts) case Some(v) => v case None => p.detectedId)
    decreases |ts|
  {
    if |ts| > 0 {
      var q := Step(p, ts[0]);
      assert Feed(p, ts) == Feed(q, ts[1..]);
      FeedDetectedId(q, ts[1..]);
      LastScriptIdCons(ts);
    }
  }

  /** `LastScriptId` read from the front. */
  lemma {:induction false} LastScriptIdCons(ts: seq<Token>)
    requires |ts| > 0
    ensures LastScriptId(ts) ==
      (match LastScriptId(ts[1..])
       case Some(v) => Some(v)
       case None => if ts[0].kind == ScriptId then Some(ts[0].value) else None)
    decreases |ts|
  {
    if |ts| > 1 {
      var init := ts[..|ts| - 1];
      assert ts[1..][..|ts[1..]| - 1] == init[1..];
      assert ts[1..][|ts[1..]| - 1] == ts[|ts| - 1];
      LastScriptIdCons(init);
      assert init[0] == ts[0];
    }
  }

  // ---------------------------------------------------------------------------
  // Text merging
  // ---------------------------------------------------------------------------

  /** Only text tokens. */
  predicate AllText(ts: seq<Token>) {
    forall i | 0 <= i < |ts| :: ts[i].kind == TextLine
  }

  /** The values of the tokens, in order. */
  function TokenValues(ts: seq<Token>): (vs: seq<string>)
    ensures |vs| == |ts|
    ensures forall i | 0 <= i < |ts| :: vs[i] == ts[i].value
  {
    seq(|ts|, i requires 0 <= i < |ts| => ts[i].value)
  }

  /** A run of non-empty text tokens only grows the buffer: the builder and the id
      are untouched and the lines end up joined by `"\n"` behind what was buffered. */
  lemma {:induction false} TextRunBuffered(p: Pass, ts: seq<Token>)
    requires AllText(ts) && |ts| > 0
    requires forall i | 0 <= i < |ts| :: ts[i].value != ""
    ensures Feed(p, ts).builder == p.builder
    ensures Feed(p, ts).detectedId == p.detectedId
    ensures Feed(p, ts).textBuffer == AppendText(p.textBuffer, Join(TokenValues(ts), '\n'))
    decreases |ts|
  {
    var q := Step(p, ts[0]);
    assert q.textBuffer == AppendText(p.textBuffer, ts[0].value);
    if |ts| == 1 {
      assert Feed(p, ts) == Feed(q, []) == q;
      assert Join(TokenValues(ts), '\n') == ts[0].value;
    } else {
      var rest := ts[1..];
      TextRunBuffered(q, rest);
      assert TokenValues(ts) == [ts[0].value] + TokenValues(rest);
      var j := Join(TokenValues(rest), '\n');
      assert Join(TokenValues(ts), '\n') == ts[0].value + "\n" + j;
      assert q.textBuffer != "";
    }
  }

  /** Consecutive text lines become ONE dialogue line: starting from an empty
      buffer, a run of text tokens leaves the builder untouched, and the next flush
      hands it the lines joined by `"\n"` as a single `addDialogue`. */
  lemma TextRunMerged(p: Pass, ts: seq<Token>)
    requires p.textBuffer == ""
    requires AllText(ts) && |ts| > 0
    requires forall i | 0 <= i < |ts| :: ts[i].value != ""
    ensures Feed(p, ts).builder == p.builder
    ensures Flush(Feed(p, ts)).builder == AddDialogue(p.builder, Join(TokenValues(ts), '\n'))
  {
    TextRunBuffered(p, ts);
    var j := Join(TokenValues(ts), '\n');
    JoinNonEmpty(TokenValues(ts));
    assert AppendText("", j) == j;
  }

  /** The flush happens at the next command or speaker token, before the token
      itself is acted on. */
  lemma FlushBeforeCommand(p: Pass, t: Token)
    requires t.kind == Command || t.kind == Speaker
    ensures Flush(p).textBuffer == "" && Step(p, t) == Step(Flush(p), t)
  {
  }

  /** Joining a non-empty list whose first element is non-empty gives non-empty text. */
  lemma JoinNonEmpty(parts: seq<string>)
    requires |parts| > 0 && parts[0] != ""
    ensures Join(parts, '\n') != ""
  {
    if |parts| > 1 {
      assert Join(parts, '\n') == parts[0] + "\n" + Join(parts[1..], '\n');
    }
  }

  /** The loop over `a + b` is the loop over `a`, then over `b`. */
  lemma {:induction false} FeedAppend(p: Pass, a: seq<Token>, b: seq<Token>)
    ensures Feed(p, a + b) == Feed(Feed(p, a), b)
    decreases |a|
  {
    if |a| > 0 {
      assert (a + b)[0] == a[0];
      assert (a + b)[1..] == a[1..] + b;
      FeedAppend(Step(p, a[0]), a[1..], b);
    } else {
      assert a + b == b;
    }
  }

  /** Choice lines and the choice terminator never flush the text buffer. */
  lemma ChoicesKeepBuffer(p: Pass, t: Token)
    requires t.kind == ChoiceLine || t.kind == ChoiceEnd
    ensures Step(p, t).textBuffer == p.textBuffer
  {
  }

  /** Command and speaker tokens always flush the buffer. */
  lemma CommandsFlushBuffer(p: Pass, t: Token)
    requires t.kind == Command || t.kind == Speaker
    ensures Step(p, t).textBuffer == ""
  {
  }

  /** A command line that parses to `[k]`, `[page]` or `[end]`, with any arguments,
      forgets the current speaker and leaves no choice pending. */
  lemma CommitForgetsSpeaker(p: Pass, line: string, n: nat)
    requires ParseCommand(line).Some?
    requires var name := ParseCommand(line).value.name; name == "k" || name == "page" || name == "end"
    ensures var r := Step(p, Token(Command, line, n));
      r.builder.currentSpeaker == None && r.builder.pendingChoices == []
  {
    var cmd := ParseCommand(line).value;
    assert Step(p, Token(Command, line, n)) == CommandStep(p, line);
    PageCommandCommits(Flush(p).builder, cmd.name, cmd.args);
  }

  /** `[k]`, `[page]` and `[end]` parse to their own name without arguments. */
  lemma PageCommandParses(name: string)
    requires name == "k" || name == "page" || name == "end"
    ensures ParseCommand(CommandLine(name, [])) == Some(CommandCall(name, []))
  {
    assert forall i | 0 <= i < |name| :: 'a' <= name[i] <= 'z';
    assert forall i | 0 <= i < |name| :: IsWordChar(name[i]) && LowerChar(name[i]) == name[i];
    assert ToLowerAscii(name) == name;
    CommandRoundTrip(name, []);
  }

  // ---------------------------------------------------------------------------
  // The background
  // ---------------------------------------------------------------------------

  /** A command line that parses to `scene` or `sceneset`. */
  predicate SetsBackground(t: Token) {
    && t.kind == Command
    && ParseCommand(t.value).Some?
    && (ParseCommand(t.value).value.name == "scene" || ParseCommand(t.value).value.name == "sceneset")
  }

  /** Any token other than a `scene`/`sceneset` command keeps the last background,
      keeps the current scene on it, and emits only scenes showing it. */
  lemma StepKeepsBackground(p: Pass, t: Token)
    requires BackgroundSynced(p.builder) && !SetsBackground(t)
    ensures var r := Step(p, t).builder;
      && r.lastBackground == p.builder.lastBackground
      && BackgroundSynced(r)
      && AddsScenesWith(p.builder, r, p.builder.lastBackground)
  {
    if t.kind == Command {
      var f := Flush(p);
      assert f.builder.scenes == p.builder.scenes && BackgroundSynced(f.builder)
          && f.builder.lastBackground == p.builder.lastBackground;
      match ParseCommand(t.value)
      case Some(cmd) => HandleCommandKeepsBackground(f.builder, cmd.name, cmd.args);
      case None =>
    }
  }

  /** Between two `scene`/`sceneset` commands the background carries over: every
      scene opened or emitted during a run of other tokens shows the last
      background set before the run. */
  lemma {:induction false} FeedKeepsBackground(p: Pass, ts: seq<Token>)
    requires BackgroundSynced(p.builder)
    requires forall i | 0 <= i < |ts| :: !SetsBackground(ts[i])
    ensures var r := Feed(p, ts).builder;
      && r.lastBackground == p.builder.lastBackground
      && BackgroundSynced(r)
      && AddsScenesWith(p.builder, r, p.builder.lastBackground)
    decreases |ts|
  {
    if |ts| > 0 {
      var q := Step(p, ts[0]);
      StepKeepsBackground(p, ts[0]);
      FeedKeepsBackground(q, ts[1..]);
      AddsScenesWithTrans(p.builder, q.builder, Feed(q, ts[1..]).builder, p.builder.lastBackground);
    }
  }

  /** `[scene X]` followed by any tokens that do not set the background: the scene
      current at the command, every scene opened afterwards and every scene
      emitted in the meantime show `X`. */
  lemma SceneBackgroundPersists(p: Pass, t: Token, ts: seq<Token>)
    requires SetsBackground(t)
    requires forall i | 0 <= i < |ts| :: !SetsBackground(ts[i])
    ensures var x := Arg(ParseCommand(t.value).value.args, 0);
      var q := Step(p, t);
      var r := Feed(q, ts).builder;
      && q.builder.current.background == x
      && r.lastBackground == x
      && r.current.background == x
      && AddsScenesWith(q.builder, r, x)
  {
    var q := Step(p, t);
    assert q == CommandStep(p, t.value);
    FeedKeepsBackground(q, ts);
  }
}
