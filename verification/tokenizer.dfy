/** The first stage of the script compiler (script-parser.ts, `tokenize`): the raw
    script is split into lines, each line is trimmed, blank lines are dropped and every
    other line becomes one token classified by its leading sentinel. Full-width
    `＄ ＠ ？ ：` count the same as ASCII `$ @ ? :`. */
module Tokenizer {
  import opened Strings

  datatype TokenType = ScriptId | Command | Speaker | ChoiceLine | ChoiceEnd | TextLine

  /** `line` is the 0-based index of the source line the token came from. */
  datatype Token = Token(kind: TokenType, value: string, line: nat)

  predicate IsDollar(c: char) { c == '$' || c == '\U{FF04}' }     // ＄
  predicate IsAt(c: char) { c == '@' || c == '\U{FF20}' }         // ＠
  predicate IsQuestion(c: char) { c == '?' || c == '\U{FF1F}' }   // ？
  predicate IsColon(c: char) { c == ':' || c == '\U{FF1A}' }      // ：

  /** Length of the leading run of `\d` characters. */
  function DigitRun(s: string): nat { Run(s, IsDigit) }

  /** The line starts like a choice: a question mark, one or more digits, a colon
      (`/^[？?]\d+[：:]/`). */
  predicate StartsLikeChoice(line: string) {
    && |line| > 0
    && IsQuestion(line[0])
    && var n := DigitRun(line[1..]);
       n > 0 && 1 + n < |line| && IsColon(line[1 + n])
  }

  /** The choice terminator `？！` or `?!`, as the whole line. */
  predicate IsChoiceTerminator(line: string) {
    line == "\U{FF1F}\U{FF01}" || line == "?!"
  }

  /** Classification of one trimmed, non-blank line. The six classes are decided by
      disjoint conditions on the line's start, so the source's first-match-wins
      order never has to break a tie; the sentinel is dropped from script-id and
      speaker tokens and kept in all others. */
  function Classify(line: string, i: nat): (t: Token)
    requires line != []
    ensures t.line == i
    ensures t.kind == ScriptId <==> IsDollar(line[0])
    ensures t.kind == Command <==> line[0] == '['
    ensures t.kind == Speaker <==> IsAt(line[0])
    ensures t.kind == ChoiceLine <==> StartsLikeChoice(line)
    ensures t.kind == ChoiceEnd <==> IsChoiceTerminator(line)
    ensures t.kind == TextLine <==>
      !IsDollar(line[0]) && line[0] != '[' && !IsAt(line[0])
      && !StartsLikeChoice(line) && !IsChoiceTerminator(line)
    ensures t.value == (if t.kind == ScriptId || t.kind == Speaker then line[1..] else line)
  {
    if IsDollar(line[0]) then Token(ScriptId, line[1..], i)
    else if line[0] == '[' then Token(Command, line, i)
    else if IsAt(line[0]) then Token(Speaker, line[1..], i)
    else if StartsLikeChoice(line) then Token(ChoiceLine, line, i)
    else if IsChoiceTerminator(line) then Token(ChoiceEnd, line, i)
    else Token(TextLine, line, i)
  }

  /** Every line trimmed. */
  function TrimAll(lines: seq<string>): (t: seq<string>)
    ensures |t| == |lines|
    ensures forall j | 0 <= j < |lines| :: t[j] == Trim(lines[j])
  {
    seq(|lines|, j requires 0 <= j < |lines| => Trim(lines[j]))
  }

  /** Tokens of the trimmed lines `t[i..]`: one per non-empty line. */
  function TokenizeFrom(t: seq<string>, i: nat): seq<Token>
    requires i <= |t|
    decreases |t| - i
  {
    if i == |t| then []
    else if t[i] == [] then TokenizeFrom(t, i + 1)
    else [Classify(t[i], i)] + TokenizeFrom(t, i + 1)
  }

  /** Every token in `ts` comes from a non-empty line of `t` at or after `i` and is
      that line's classification. */
  predicate FromNonEmptyLines(t: seq<string>, i: nat, ts: seq<Token>) {
    forall k | 0 <= k < |ts| ::
      i <= ts[k].line < |t| && t[ts[k].line] != [] && ts[k] == Classify(t[ts[k].line], ts[k].line)
  }

  /** The tokens come in strictly increasing line order. */
  predicate InLineOrder(ts: seq<Token>) {
    forall k, l | 0 <= k < l < |ts| :: ts[k].line < ts[l].line
  }

  /** Line `j` has a token in `ts`. */
  predicate HasTokenFor(ts: seq<Token>, j: nat) {
    exists k | 0 <= k < |ts| :: ts[k].line == j
  }

  lemma {:induction false} TokenizeFromSound(t: seq<string>, i: nat)
    requires i <= |t|
    ensures FromNonEmptyLines(t, i, TokenizeFrom(t, i))
    ensures InLineOrder(TokenizeFrom(t, i))
    decreases |t| - i
  {
    if i < |t| {
      TokenizeFromSound(t, i + 1);
      var rest := TokenizeFrom(t, i + 1);
      if t[i] != [] {
        var ts := [Classify(t[i], i)] + rest;
        assert TokenizeFrom(t, i) == ts;
        assert forall k | 1 <= k < |ts| :: ts[k] == rest[k - 1];
      } else {
        assert TokenizeFrom(t, i) == rest;
      }
    }
  }

  /** Every non-empty line at or after `i` has a token. */
  lemma {:induction false} TokenizeFromComplete(t: seq<string>, i: nat, j: nat)
    requires i <= j < |t| && t[j] != []
    ensures HasTokenFor(TokenizeFrom(t, i), j)
    decreases |t| - i
  {
    var ts := TokenizeFrom(t, i);
    if j == i {
      assert ts == [Classify(t[i], i)] + TokenizeFrom(t, i + 1);
      assert ts[0].line == j;
    } else {
      TokenizeFromComplete(t, i + 1, j);
      var rest := TokenizeFrom(t, i + 1);
      var k :| 0 <= k < |rest| && rest[k].line == j;
      if t[i] != [] {
        assert ts == [Classify(t[i], i)] + rest;
        assert ts[k + 1] == rest[k];
      } else {
        assert ts == rest;
      }
    }
  }

  /** `tokenize(script)`: every line of `script` that is not blank once trimmed
      becomes exactly one token, classified by `Classify` from its trimmed text, and
      the tokens keep the order of the lines. */
  function Tokenize(script: string): (ts: seq<Token>)
    ensures var lines := Split(script, '\n');
      && FromNonEmptyLines(TrimAll(lines), 0, ts)
      && InLineOrder(ts)
      && (forall j | 0 <= j < |lines| && Trim(lines[j]) != [] :: HasTokenFor(ts, j))
  {
    var lines := Split(script, '\n');
    var t := TrimAll(lines);
    TokenizeFromSound(t, 0);
    var ts := TokenizeFrom(t, 0);
    assert forall j | 0 <= j < |lines| && Trim(lines[j]) != [] :: HasTokenFor(ts, j) by {
      forall j | 0 <= j < |lines| && Trim(lines[j]) != [] ensures HasTokenFor(ts, j) {
        TokenizeFromComplete(t, 0, j);
      }
    }
    ts
  }

  /** Every token's value is non-empty unless it is a bare `＄`/`＠` line, and no
      token value starts or ends with white space apart from what follows a
      dropped sentinel. */
  lemma TokenValuesTrimmed(script: string)
    ensures forall t | t in Tokenize(script) ::
      t.kind != ScriptId && t.kind != Speaker ==> t.value != [] && IsTrimmed(t.value)
  {
  }

  /** No token value contains a line break: the script was split on `\n`. */
  lemma TokenValuesSingleLine(script: string)
    ensures forall t | t in Tokenize(script) :: '\n' !in t.value
  {
    var lines := Split(script, '\n');
    var ts := Tokenize(script);
    forall k | 0 <= k < |ts| ensures '\n' !in ts[k].value {
      var line := lines[ts[k].line];
      var r := Trim(line);
      var i :| 0 <= i <= |line| - |r| && CutAt(line, r, i);
      assert forall c | c in r :: c in line;
      assert forall c | c in r[1..] :: c in r;
    }
  }
}
