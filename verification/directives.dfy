/** The second stage of the script compiler (script-parser.ts): decoding the inside of
    one command, speaker or choice line (`parseCommand`, `parseSpeaker`,
    `parseChoice`) and rewriting the inline directives of dialogue text
    (`formatText`). Each regular expression of the source is written out as a
    character-level matcher. None of the source's patterns can succeed after
    backtracking once its greedy first attempt has failed (each greedy run is
    followed by a character its own class excludes), so every matcher here is the
    greedy, deterministic reading of its pattern. */
module Directives {
  import opened Wrappers
  import opened Strings
  import opened Tokenizer

  /** `PLAYER_NAME`, the protagonist's fixed name 藤丸立香. */
  const PlayerName: string := "\U{85E4}\U{4E38}\U{7ACB}\U{9999}"

  /** The placeholder for the protagonist's name, `[%1]`. */
  const PlayerTag: string := "[%1]"

  // ---------------------------------------------------------------------------
  // parseCommand
  // ---------------------------------------------------------------------------

  datatype CommandCall = CommandCall(name: string, args: seq<string>)

  /** Where the lazy `.*?\]` stops: the first `]` of `s`, provided no line
      terminator comes before it. */
  function CloseBracket(s: string): (r: Option<nat>)
    ensures r.Some? ==> r.value < |s| && s[r.value] == ']'
    ensures r.Some? ==> forall i | 0 <= i < r.value :: s[i] != ']' && !IsLineTerminator(s[i])
    ensures r.None? ==> forall k | 0 <= k < |s| && s[k] == ']' :: exists i | 0 <= i < k :: IsLineTerminator(s[i])
  {
    if |s| == 0 then None
    else if s[0] == ']' then Some(0)
    else if IsLineTerminator(s[0]) then None
    else
      match CloseBracket(s[1..])
      case None =>
        assert forall k | 1 <= k < |s| && s[k] == ']' :: s[1..][k - 1] == ']';
        None
      case Some(k) => Some(k + 1)
  }

  /** `/\[(\w+)\s*(.*?)\]/` tried at the first character of `s`: a bracket, a
      maximal run of word characters (the name), optional white space, then
      everything up to the first `]` on the same line (the argument text, split into
      words). */
  function CommandAt(s: string): (r: Option<CommandCall>)
    ensures r.Some? ==> |s| > 0 && s[0] == '['
    ensures r.Some? ==> |r.value.name| > 0 && forall i | 0 <= i < |r.value.name| :: IsWordChar(r.value.name[i]) && !('A' <= r.value.name[i] <= 'Z')
    ensures r.Some? ==> forall i | 0 <= i < |r.value.args| :: |r.value.args[i]| > 0 && NoSpace(r.value.args[i])
  {
    if |s| == 0 || s[0] != '[' then None
    else
      var w := Run(s[1..], IsWordChar);
      if w == 0 then None
      else
        var rest := s[1 + w..];
        CallWith(ToLowerAscii(s[1..1 + w]), rest[Run(rest, IsSpace)..])
  }

  /** The call named `name` whose argument text is `body` up to its first `]` on the
      same line; `None` when there is no such `]`. */
  function CallWith(name: string, body: string): (r: Option<CommandCall>)
    ensures r.Some? ==> r.value.name == name
    ensures r.Some? ==> forall i | 0 <= i < |r.value.args| :: |r.value.args[i]| > 0 && NoSpace(r.value.args[i])
  {
    match CloseBracket(body)
    case None => None
    case Some(k) => Some(CommandCall(name, Words(body[..k])))
  }

  /** `r` is what the unanchored command pattern finds in `s`: the match at the
      leftmost position where it matches, or `None` when it matches nowhere. */
  predicate LeftmostMatch(s: string, r: Option<CommandCall>) {
    && (r.Some? ==> exists p | 0 <= p < |s| ::
         CommandAt(s[p..]) == r && forall q | 0 <= q < p :: CommandAt(s[q..]).None?)
    && (r.None? ==> forall p | 0 <= p < |s| :: CommandAt(s[p..]).None?)
  }

  /** `parseCommand(value)`: the unanchored pattern is searched for from every start
      position, leftmost first; `None` stands for the source's `null`. */
  function ParseCommand(s: string): (r: Option<CommandCall>)
    ensures r.Some? ==> exists p | 0 <= p < |s| ::
      CommandAt(s[p..]) == r && forall q | 0 <= q < p :: CommandAt(s[q..]).None?
    ensures r.None? ==> forall p | 0 <= p < |s| :: CommandAt(s[p..]).None?
    decreases |s|
  {
    if |s| == 0 then None
    else
      match CommandAt(s)
      case Some(c) => assert s[0..] == s; Some(c)
      case None =>
        var r := ParseCommand(s[1..]);
        LeftmostAfterMiss(s, r);
        r
  }

  /** When no match starts at `s[0]`, the leftmost match in `s[1..]` is the
      leftmost match in `s`. */
  lemma LeftmostAfterMiss(s: string, r: Option<CommandCall>)
    requires 0 < |s| && CommandAt(s).None? && LeftmostMatch(s[1..], r)
    ensures LeftmostMatch(s, r)
  {
    if r.Some? {
      var p :| 0 <= p < |s| - 1 && CommandAt(s[1..][p..]) == r
               && forall q | 0 <= q < p :: CommandAt(s[1..][q..]).None?;
      LeftmostShift(s, p, r);
    } else {
      assert forall p | 1 <= p < |s| :: s[p..] == s[1..][p - 1..];
      assert s[0..] == s;
    }
  }

  /** A leftmost match in `s[1..]` is a leftmost match in `s` one position later,
      when no match starts at `s[0]`. */
  lemma LeftmostShift(s: string, p: nat, r: Option<CommandCall>)
    requires 0 < |s| && CommandAt(s).None? && p < |s| - 1
    requires CommandAt(s[1..][p..]) == r && forall q | 0 <= q < p :: CommandAt(s[1..][q..]).None?
    ensures CommandAt(s[p + 1..]) == r && forall q | 0 <= q < p + 1 :: CommandAt(s[q..]).None?
  {
    assert s[1..][p..] == s[p + 1..];
    forall q | 0 <= q < p + 1 ensures CommandAt(s[q..]).None? {
      if q == 0 {
        assert s[0..] == s;
      } else {
        assert s[q..] == s[1..][q - 1..];
      }
    }
  }

  /** A parsed command always has a non-empty lower-case name made of word
      characters, and white-space-free, non-empty arguments. */
  lemma ParseCommandShape(s: string)
    ensures ParseCommand(s).Some? ==>
      var c := ParseCommand(s).value;
      && |c.name| > 0
      && (forall i | 0 <= i < |c.name| :: IsWordChar(c.name[i]) && !('A' <= c.name[i] <= 'Z'))
      && (forall i | 0 <= i < |c.args| :: |c.args[i]| > 0 && NoSpace(c.args[i]))
  {
    if ParseCommand(s).Some? {
      var p :| 0 <= p < |s| && CommandAt(s[p..]) == ParseCommand(s);
    }
  }

  /** No match can start where no `]` follows. */
  lemma CommandAtNeedsClose(t: string)
    requires ']' !in t
    ensures CommandAt(t).None?
  {
    if |t| > 0 && t[0] == '[' {
      var w := Run(t[1..], IsWordChar);
      var rest := t[1 + w..];
      var body := rest[Run(rest, IsSpace)..];
      assert forall c | c in body :: c in t;
      assert CloseBracket(body).None?;
    }
  }

  /** A line without a closing bracket never parses as a command. */
  lemma ParseCommandNeedsClose(s: string)
    requires ']' !in s
    ensures ParseCommand(s) == None
  {
    forall p | 0 <= p < |s| ensures CommandAt(s[p..]).None? {
      assert forall c | c in s[p..] :: c in s;
      CommandAtNeedsClose(s[p..]);
    }
  }

  /** The text of a command line with a name and space-separated arguments. */
  function CommandLine(name: string, args: seq<string>): string {
    "[" + name + SpaceJoined(args) + "]"
  }

  /** A well-formed argument: non-empty, no white space, no `]`. */
  predicate PlainArg(a: string) {
    |a| > 0 && NoSpace(a) && ']' !in a
  }

  lemma {:induction false} CloseBracketAppended(x: string)
    requires ']' !in x
    requires forall i | 0 <= i < |x| :: !IsLineTerminator(x[i])
    ensures CloseBracket(x + "]") == Some(|x|)
  {
    if |x| > 0 {
      assert (x + "]")[1..] == x[1..] + "]";
      CloseBracketAppended(x[1..]);
    }
  }

  lemma {:induction false} SpaceJoinedPlain(args: seq<string>)
    requires forall i | 0 <= i < |args| :: PlainArg(args[i])
    ensures ']' !in SpaceJoined(args)
    ensures forall i | 0 <= i < |SpaceJoined(args)| :: !IsLineTerminator(SpaceJoined(args)[i])
  {
    if |args| > 0 {
      SpaceJoinedPlain(args[1..]);
      var a := args[0];
      assert forall i | 0 <= i < |a| :: !IsLineTerminator(a[i]) by {
        forall i | 0 <= i < |a| ensures !IsLineTerminator(a[i]) {
          assert !IsSpace(a[i]);
        }
      }
    }
  }

  /** `CommandAt` on a bracket followed by a whole word: the name is that word, and
      the arguments are read from what follows it, past any white space. */
  lemma CommandAtWord(name: string, tail: string)
    requires |name| > 0 && forall i | 0 <= i < |name| :: IsWordChar(name[i])
    requires |tail| > 0 && !IsWordChar(tail[0])
    ensures CommandAt("[" + name + tail) == CallWith(ToLowerAscii(name), tail[Run(tail, IsSpace)..])
  {
    var s := "[" + name + tail;
    BracketSplit(name, tail);
    RunOfPrefix(name, tail, IsWordChar);
    CommandAtBracket(s, |name|);
  }

  /** The pieces of `"[" + name + tail`. */
  lemma BracketSplit(name: string, tail: string)
    ensures var s := "[" + name + tail;
      && s[0] == '[' && s[1..] == name + tail
      && s[1..1 + |name|] == name && s[1 + |name|..] == tail
  {
    var s := "[" + name + tail;
    assert s[1..] == name + tail;
  }

  /** `CommandAt` on a bracket followed by a word run of length `w`. */
  lemma CommandAtBracket(s: string, w: nat)
    requires |s| > 0 && s[0] == '[' && 0 < w == Run(s[1..], IsWordChar)
    ensures CommandAt(s) == CallWith(ToLowerAscii(s[1..1 + w]), s[1 + w..][Run(s[1 + w..], IsSpace)..])
  {
  }

  /** With no arguments the name is followed directly by the closing `]`. */
  lemma EmptyArgumentText()
    ensures
      var body := ("" + "]")[Run("" + "]", IsSpace)..];
      CloseBracket(body) == Some(|body| - 1) && Words(body[..|body| - 1]) == []
  {
    assert "" + "]" == "]";
    assert Run("]", IsSpace) == 0;
    assert "]"[0..] == "]";
    assert CloseBracket("]") == Some(0);
    assert "]"[..0] == "";
  }

  /** One space before a non-space character is a white-space run of length one. */
  lemma OneSpace(body: string)
    requires |body| > 0 && !IsSpace(body[0])
    ensures Run(" " + body, IsSpace) == 1
  {
    RunOfPrefix(" ", body, IsSpace);
  }

  /** Text free of `]` and line breaks closes at an appended `]`. */
  lemma ClosesAtEnd(j: string, inner: string)
    requires ']' !in j && forall i | 0 <= i < |j| :: !IsLineTerminator(j[i])
    requires |j| > 0 && inner == j[1..]
    ensures CloseBracket(inner + "]") == Some(|inner|)
  {
    assert forall c | c in inner :: c in j;
    assert forall i | 0 <= i < |inner| :: inner[i] == j[i + 1];
    CloseBracketAppended(inner);
  }

  /** Argument text `j` that starts with one space before a word, and holds neither
      `]` nor a line break: after the name, the space is skipped, the text closes at
      the appended `]`, and its words are read back. */
  lemma SpacedArgumentText(j: string)
    requires ']' !in j && forall i | 0 <= i < |j| :: !IsLineTerminator(j[i])
    requires |j| > 1 && j[0] == ' ' && !IsSpace(j[1])
    ensures
      var body := (j + "]")[Run(j + "]", IsSpace)..];
      CloseBracket(body) == Some(|body| - 1) && Words(body[..|body| - 1]) == Words(j)
  {
    var inner := j[1..];
    var body := inner + "]";
    assert Run(j + "]", IsSpace) == 1 && (j + "]")[1..] == body by {
      assert j + "]" == " " + body;
      assert body[0] == j[1];
      OneSpace(body);
      assert (" " + body)[1..] == body;
    }
    assert CloseBracket(body) == Some(|body| - 1) by { ClosesAtEnd(j, inner); }
    assert body[..|body| - 1] == inner;
    assert Words(j) == Words(inner);
  }

  /** The argument text of a command line, past the white space after the name,
      closes at its `]` and splits back into the arguments. */
  lemma ArgumentsReadBack(args: seq<string>)
    requires forall i | 0 <= i < |args| :: PlainArg(args[i])
    ensures
      var body := (SpaceJoined(args) + "]")[Run(SpaceJoined(args) + "]", IsSpace)..];
      CloseBracket(body) == Some(|body| - 1) && Words(body[..|body| - 1]) == args
  {
    var j := SpaceJoined(args);
    WordsOfSpaceJoined(args);
    if |args| > 0 {
      SpaceJoinedStart(args);
      SpaceJoinedPlain(args);
      SpacedArgumentText(j);
    } else {
      EmptyArgumentText();
    }
  }

  /** A non-empty argument list is written with one space before its first word. */
  lemma SpaceJoinedStart(args: seq<string>)
    requires |args| > 0 && PlainArg(args[0])
    ensures var j := SpaceJoined(args); |j| > 1 && j[0] == ' ' && !IsSpace(j[1])
  {
    var j := SpaceJoined(args);
    assert j == " " + args[0] + SpaceJoined(args[1..]);
    assert j[1] == args[0][0];
  }

  /** Round trip: a command line written from a word-character name and plain
      arguments parses back to the lower-cased name and exactly those arguments. */
  lemma CommandRoundTrip(name: string, args: seq<string>)
    requires |name| > 0 && forall i | 0 <= i < |name| :: IsWordChar(name[i])
    requires forall i | 0 <= i < |args| :: PlainArg(args[i])
    ensures ParseCommand(CommandLine(name, args)) == Some(CommandCall(ToLowerAscii(name), args))
  {
    var s := CommandLine(name, args);
    var tail := SpaceJoined(args) + "]";
    assert s == "[" + name + tail;
    SpaceJoinedPlain(args);
    assert !IsWordChar(tail[0]) by {
      if |args| > 0 {
        assert tail[0] == ' ';
      } else {
        assert tail[0] == ']';
      }
    }
    ArgumentsReadBack(args);
    CommandAtWord(name, tail);
    assert CommandAt(s) == Some(CommandCall(ToLowerAscii(name), args));
  }

  // ---------------------------------------------------------------------------
  // parseSpeaker
  // ---------------------------------------------------------------------------

  datatype SpeakerRef = SpeakerRef(speaker: string, slot: Option<string>)

  predicate IsSlotLetter(c: char) { 'A' <= c <= 'H' }

  /** `/^([A-H])[：:](.+)$/`: a slot letter, a colon, and a non-empty rest free of
      line terminators. */
  predicate IsSlotForm(v: string) {
    && |v| >= 3
    && IsSlotLetter(v[0])
    && IsColon(v[1])
    && forall i | 2 <= i < |v| :: !IsLineTerminator(v[i])
  }

  /** `parseSpeaker(value)`: slot form first, then the player placeholder anywhere
      in the line, else the whole line as the speaker's name. */
  function ParseSpeaker(v: string): (r: SpeakerRef)
    ensures r.slot.Some? <==> IsSlotForm(v)
    ensures r.slot.Some? ==> |r.slot.value| == 1 && IsSlotLetter(r.slot.value[0]) && r.speaker == v[2..]
    ensures r.slot.None? ==> r.speaker == (if Contains(v, PlayerTag) then PlayerName else v)
  {
    assert v == PlayerTag ==> OccursAt(v, PlayerTag, 0);
    if IsSlotForm(v) then SpeakerRef(v[2..], Some([v[0]]))
    else if v == PlayerTag || Contains(v, PlayerTag) then SpeakerRef(PlayerName, None)
    else SpeakerRef(v, None)
  }

  /** Round trip: a speaker line written as slot letter, colon and name parses back
      to that name and slot. */
  lemma SpeakerRoundTrip(letter: char, colon: char, name: string)
    requires IsSlotLetter(letter) && IsColon(colon)
    requires |name| > 0 && forall i | 0 <= i < |name| :: !IsLineTerminator(name[i])
    ensures ParseSpeaker([letter, colon] + name) == SpeakerRef(name, Some([letter]))
  {
    var v := [letter, colon] + name;
    assert forall i | 2 <= i < |v| :: v[i] == name[i - 2];
    assert v[2..] == name;
  }

  /** The slot form wins over the placeholder: `A：…[%1]…` names the speaker
      `…[%1]…` in slot A, not the protagonist. */
  lemma SlotFormBeforePlaceholder(letter: char, colon: char, a: string, b: string)
    requires IsSlotLetter(letter) && IsColon(colon)
    requires forall i | 0 <= i < |a| :: !IsLineTerminator(a[i])
    requires forall i | 0 <= i < |b| :: !IsLineTerminator(b[i])
    ensures ParseSpeaker([letter, colon] + a + PlayerTag + b) == SpeakerRef(a + PlayerTag + b, Some([letter]))
  {
    var name := a + PlayerTag + b;
    assert forall i | 0 <= i < |name| :: !IsLineTerminator(name[i]) by {
      forall i | 0 <= i < |name| ensures !IsLineTerminator(name[i]) {
        if i < |a| { assert name[i] == a[i]; }
        else if i < |a| + |PlayerTag| { assert name[i] == PlayerTag[i - |a|]; }
        else { assert name[i] == b[i - |a| - |PlayerTag|]; }
      }
    }
    SpeakerRoundTrip(letter, colon, name);
    assert [letter, colon] + a + PlayerTag + b == [letter, colon] + name;
  }

  /** A line containing the placeholder but not in slot form names the protagonist. */
  lemma PlaceholderNamesPlayer(a: string, b: string)
    requires !IsSlotForm(a + PlayerTag + b)
    ensures ParseSpeaker(a + PlayerTag + b) == SpeakerRef(PlayerName, None)
  {
    var v := a + PlayerTag + b;
    assert v[|a|..|a| + |PlayerTag|] == PlayerTag;
    assert OccursAt(v, PlayerTag, |a|);
  }

  // ---------------------------------------------------------------------------
  // parseChoice
  // ---------------------------------------------------------------------------

  datatype ChoiceSpec = ChoiceSpec(id: string, text: string)

  /** `/^[？?](\d+)[：:](.+)$/`: `None` stands for `null`. */
  function ParseChoice(v: string): (r: Option<ChoiceSpec>)
    ensures r.Some? ==> StartsLikeChoice(v)
    ensures r.Some? ==> |r.value.id| > 0 && AllDigits(r.value.id) && |r.value.text| > 0
    ensures r.Some? ==> |v| == 2 + |r.value.id| + |r.value.text|
    ensures r.Some? ==> v[1..1 + |r.value.id|] == r.value.id && v[2 + |r.value.id|..] == r.value.text
    ensures r.Some? ==> forall i | 0 <= i < |r.value.text| :: !IsLineTerminator(r.value.text[i])
  {
    if |v| == 0 || !IsQuestion(v[0]) then None
    else
      var n := DigitRun(v[1..]);
      if n == 0 || 2 + n >= |v| || !IsColon(v[1 + n]) then None
      else if exists i | 2 + n <= i < |v| :: IsLineTerminator(v[i]) then None
      else
        Some(ChoiceSpec(v[1..1 + n], v[2 + n..]))
  }

  /** A line the tokenizer takes for a choice but with nothing after the colon is
      dropped by `parseChoice`. */
  lemma ChoiceWithoutText(q: char, id: string, colon: char)
    requires IsQuestion(q) && IsColon(colon) && |id| > 0 && AllDigits(id)
    ensures StartsLikeChoice([q] + id + [colon])
    ensures ParseChoice([q] + id + [colon]) == None
  {
    var v := [q] + id + [colon];
    assert v[1..] == id + [colon];
    RunOfPrefix(id, [colon], IsDigit);
  }

  /** Round trip: a choice line written as question mark, numeric id, colon and
      label is classified as a choice and parses back to that id and label. */
  lemma ChoiceRoundTrip(q: char, id: string, colon: char, text: string)
    requires IsQuestion(q) && IsColon(colon) && |id| > 0 && AllDigits(id)
    requires |text| > 0 && forall i | 0 <= i < |text| :: !IsLineTerminator(text[i])
    ensures StartsLikeChoice([q] + id + [colon] + text)
    ensures ParseChoice([q] + id + [colon] + text) == Some(ChoiceSpec(id, text))
  {
    var v := [q] + id + [colon] + text;
    assert v[1..] == id + ([colon] + text);
    RunOfPrefix(id, [colon] + text, IsDigit);
    assert v[1..1 + |id|] == id;
    assert v[2 + |id|..] == text;
    assert forall i | 2 + |id| <= i < |v| :: v[i] == text[i - 2 - |id|];
  }

  // ---------------------------------------------------------------------------
  // formatText
  // ---------------------------------------------------------------------------

  /** The five inline directives `formatText` rewrites, in the order it applies them. */
  datatype Rewrite =
    | BreakTag    // `/\[r\]/g` becomes a newline
    | LineTag     // `/\[line\s*\d*\]/g` is removed
    | PageTag     // `/\[k\]/g` is removed
    | RubyTag     // `/\[#([^:]+):([^\]]+)\]/g` becomes `{base|reading}`
    | NameTag     // `/\[%1\]/g` becomes the protagonist's name

  /** The directive `d` matched at the first character of `s`: the length of the
      match and its replacement. */
  function RewriteAt(d: Rewrite, s: string): (r: Option<(nat, string)>)
    ensures r.Some? ==> 0 < r.value.0 <= |s| && s[0] == '['
  {
    match d
    case BreakTag => if "[r]" <= s then Some((3, "\n")) else None
    case PageTag => if "[k]" <= s then Some((3, "")) else None
    case NameTag => if PlayerTag <= s then Some((4, PlayerName)) else None
    case LineTag =>
      if !("[line" <= s) then None
      else
        var a := 5 + Run(s[5..], IsSpace);
        var b := a + Run(s[a..], IsDigit);
        if b < |s| && s[b] == ']' then Some((b + 1, "")) else None
    case RubyTag =>
      if |s| < 2 || s[0] != '[' || s[1] != '#' then None
      else
        match IndexOf(s[2..], ':')
        case None => None
        case Some(c) =>
          if c == 0 then None
          else
            var tail := s[3 + c..];
            match IndexOf(tail, ']')
            case None => None
            case Some(e) =>
              if e == 0 then None
              else Some((4 + c + e, "{" + s[2..2 + c] + "|" + tail[..e] + "}"))
  }

  /** `s.replace(<d>, <replacement>)` with the global flag: one left-to-right pass,
      each match replaced and scanning resumed after it. */
  function ReplaceAll(s: string, d: Rewrite): string
    decreases |s|
  {
    if |s| == 0 then ""
    else
      var m := RewriteAt(d, s);
      if m.Some? then m.value.1 + ReplaceAll(s[m.value.0..], d)
      else [s[0]] + ReplaceAll(s[1..], d)
  }

  /** `formatText(text)`: the five rewrites in source order, then `trim()`. */
  function FormatText(text: string): (r: string)
    ensures IsTrimmed(r)
  {
    var s1 := ReplaceAll(text, BreakTag);
    var s2 := ReplaceAll(s1, LineTag);
    var s3 := ReplaceAll(s2, PageTag);
    var s4 := ReplaceAll(s3, RubyTag);
    var s5 := ReplaceAll(s4, NameTag);
    Trim(s5)
  }

  /** Where `d` does not match, the first character is copied. */
  lemma ReplaceAllNoMatch(s: string, d: Rewrite)
    requires |s| > 0 && RewriteAt(d, s).None?
    ensures ReplaceAll(s, d) == [s[0]] + ReplaceAll(s[1..], d)
  {
  }

  /** Text before the first `[` passes through every rewrite untouched. */
  lemma {:induction false} ReplaceAllPlainPrefix(a: string, b: string, d: Rewrite)
    requires '[' !in a
    ensures ReplaceAll(a + b, d) == a + ReplaceAll(b, d)
    decreases |a|
  {
    if |a| > 0 {
      var s := a + b;
      assert s[0] == a[0];
      assert RewriteAt(d, s).None?;
      assert ReplaceAll(s, d) == [s[0]] + ReplaceAll(s[1..], d);
      assert s[1..] == a[1..] + b;
      assert '[' !in a[1..];
      ReplaceAllPlainPrefix(a[1..], b, d);
      assert a == [a[0]] + a[1..];
    } else {
      assert a + b == b;
    }
  }

  /** Text without `[` holds no directive. */
  lemma ReplaceAllPlain(s: string, d: Rewrite)
    requires '[' !in s
    ensures ReplaceAll(s, d) == s
  {
    ReplaceAllPlainPrefix(s, "", d);
    assert s + "" == s;
  }

  /** Dialogue text without directives is only trimmed. */
  lemma FormatPlainText(s: string)
    requires '[' !in s
    ensures FormatText(s) == Trim(s)
  {
    ReplaceAllPlain(s, BreakTag);
    ReplaceAllPlain(s, LineTag);
    ReplaceAllPlain(s, PageTag);
    ReplaceAllPlain(s, RubyTag);
    ReplaceAllPlain(s, NameTag);
  }

  /** `[r]` inside dialogue text becomes a line break, and the break is kept when it
      falls inside the text (it is expanded before trimming). */
  lemma LineBreakExpanded(a: string, b: string)
    requires '[' !in a && '[' !in b
    ensures FormatText(a + "[r]" + b) == Trim(a + "\n" + b)
  {
    var s := a + "[r]" + b;
    assert s == a + ("[r]" + b);
    ReplaceAllPlainPrefix(a, "[r]" + b, BreakTag);
    assert ("[r]" + b)[3..] == b;
    ReplaceAllPlain(b, BreakTag);
    assert ReplaceAll(s, BreakTag) == a + "\n" + b;
    assert '[' !in a + "\n" + b;
    ReplaceAllPlain(a + "\n" + b, LineTag);
    ReplaceAllPlain(a + "\n" + b, PageTag);
    ReplaceAllPlain(a + "\n" + b, RubyTag);
    ReplaceAllPlain(a + "\n" + b, NameTag);
  }

  /** The line-break and rule passes do not match at a `[k]` marker. */
  lemma PageMarkerNotMatched(b: string, d: Rewrite)
    requires d == BreakTag || d == LineTag
    ensures RewriteAt(d, "[k]" + b).None?
  {
    var s := "[k]" + b;
    assert s[1] == 'k';
    if d == BreakTag {
      assert !("[r]" <= s);
    } else {
      assert !("[line" <= s);
    }
  }

  /** The line-break and rule passes copy a `[k]` marker at the start. */
  lemma PageMarkerSurvives(b: string, d: Rewrite)
    requires d == BreakTag || d == LineTag
    ensures ReplaceAll("[k]" + b, d) == "[k]" + ReplaceAll(b, d)
  {
    var s := "[k]" + b;
    PageMarkerNotMatched(b, d);
    ReplaceAllNoMatch(s, d);
    assert s[1..] == "k]" + b;
    ReplaceAllPlainPrefix("k]", b, d);
  }

  /** The line-break and rule passes leave a `[k]` marker inside plain text alone. */
  lemma PassKeepsPageMarker(a: string, b: string, d: Rewrite)
    requires '[' !in a && '[' !in b
    requires d == BreakTag || d == LineTag
    ensures ReplaceAll(a + "[k]" + b, d) == a + "[k]" + b
  {
    assert a + "[k]" + b == a + ("[k]" + b);
    ReplaceAllPlainPrefix(a, "[k]" + b, d);
    PageMarkerSurvives(b, d);
    ReplaceAllPlain(b, d);
  }

  /** The `[k]` marker at the start of the text is dropped by its pass. */
  lemma PageMarkerDropped(b: string)
    ensures ReplaceAll("[k]" + b, PageTag) == ReplaceAll(b, PageTag)
  {
    var t := "[k]" + b;
    assert t[..3] == "[k]";
    assert t[3..] == b;
    assert RewriteAt(PageTag, t) == Some((3, ""));
  }

  /** The `[k]` pass deletes the marker. */
  lemma PagePassDeletes(a: string, b: string)
    requires '[' !in a && '[' !in b
    ensures ReplaceAll(a + "[k]" + b, PageTag) == a + b
  {
    assert a + "[k]" + b == a + ("[k]" + b);
    ReplaceAllPlainPrefix(a, "[k]" + b, PageTag);
    PageMarkerDropped(b);
    ReplaceAllPlain(b, PageTag);
  }

  /** The wait-for-click marker `[k]` is deleted from dialogue text. */
  lemma PageWaitRemoved(a: string, b: string)
    requires '[' !in a && '[' !in b
    ensures FormatText(a + "[k]" + b) == Trim(a + b)
  {
    PassKeepsPageMarker(a, b, BreakTag);
    PassKeepsPageMarker(a, b, LineTag);
    PagePassDeletes(a, b);
    ReplaceAllPlain(a + b, RubyTag);
    ReplaceAllPlain(a + b, NameTag);
  }

  /** A ruby directive `[#base:reading]` becomes the inline marker `{base|reading}`. */
  lemma RubyRewritten(base: string, reading: string)
    requires |base| > 0 && ':' !in base
    requires |reading| > 0 && ']' !in reading
    ensures ReplaceAll("[#" + base + ":" + reading + "]", RubyTag) == "{" + base + "|" + reading + "}"
  {
    var s := "[#" + base + ":" + reading + "]";
    assert s[2..] == base + ":" + reading + "]";
    IndexOfSeparator(base, reading + "]", ':');
    assert base + ":" + reading + "]" == base + [':'] + (reading + "]");
    var c := |base|;
    assert s[2..2 + c] == base;
    var tail := s[3 + c..];
    assert tail == reading + "]";
    IndexOfSeparator(reading, "", ']');
    assert reading + [']'] + "" == tail;
    assert tail[..|reading|] == reading;
    assert s[4 + c + |reading|..] == "";
  }

  /** A directive with no match at its own `[` passes through a rewrite pass
      unchanged when the text around it has no `[`. */
  lemma TagUntouched(a: string, t: string, b: string, d: Rewrite)
    requires '[' !in a && '[' !in b && |t| > 0 && '[' !in t[1..]
    requires RewriteAt(d, t + b).None?
    ensures ReplaceAll(a + t + b, d) == a + t + b
  {
    Regroup(a, t, b);
    ReplaceAllPlainPrefix(a, t + b, d);
    TagStepUntouched(t, b, d);
  }

  /** Concatenation regrouped to the right. */
  lemma Regroup(a: string, t: string, b: string)
    ensures a + t + b == a + (t + b)
  {
  }

  /** `TagUntouched` with nothing before the directive. */
  lemma TagStepUntouched(t: string, b: string, d: Rewrite)
    requires '[' !in b && |t| > 0 && '[' !in t[1..]
    requires RewriteAt(d, t + b).None?
    ensures ReplaceAll(t + b, d) == t + b
  {
    ReplaceAllNoMatch(t + b, d);
    assert (t + b)[1..] == t[1..] + b;
    ReplaceAllPlain(t[1..] + b, d);
    assert t + b == [t[0]] + (t[1..] + b);
  }

  /** A directive matched exactly by a rewrite pass is replaced, and the text
      around it, free of `[`, is copied. */
  lemma TagReplaced(a: string, t: string, b: string, d: Rewrite, rep: string)
    requires '[' !in a && '[' !in b
    requires RewriteAt(d, t + b) == Some((|t|, rep))
    ensures ReplaceAll(a + t + b, d) == a + rep + b
  {
    Regroup(a, t, b);
    Regroup(a, rep, b);
    ReplaceAllPlainPrefix(a, t + b, d);
    TagStepReplaced(t, b, d, rep);
  }

  /** `TagReplaced` with nothing before the directive. */
  lemma TagStepReplaced(t: string, b: string, d: Rewrite, rep: string)
    requires '[' !in b
    requires RewriteAt(d, t + b) == Some((|t|, rep))
    ensures ReplaceAll(t + b, d) == rep + b
  {
    assert (t + b)[|t|..] == b;
    ReplaceAllPlain(b, d);
  }

  /** `/\[line\s*\d*\]/` matches `[line`, white space, digits and `]`. */
  lemma LineTagMatches(ws: string, digits: string, b: string)
    requires AllSpace(ws) && AllDigits(digits)
    ensures var t := "[line" + ws + digits + "]";
      RewriteAt(LineTag, t + b) == Some((|t|, ""))
  {
    var t := "[line" + ws + digits + "]";
    var s := t + b;
    assert s[..5] == "[line";
    assert s[5..] == ws + (digits + "]" + b);
    assert !IsSpace((digits + "]" + b)[0]) by {
      if |digits| > 0 { assert (digits + "]" + b)[0] == digits[0]; }
      else { assert (digits + "]" + b)[0] == ']'; }
    }
    RunOfPrefix(ws, digits + "]" + b, IsSpace);
    assert s[5 + |ws|..] == digits + ("]" + b);
    RunOfPrefix(digits, "]" + b, IsDigit);
    assert s[5 + |ws| + |digits|] == ']';
  }

  /** The `[r]` pass leaves a `[line N]` marker alone. */
  lemma LineTagSurvivesBreakPass(a: string, ws: string, digits: string, b: string)
    requires '[' !in a && '[' !in b
    requires AllSpace(ws) && AllDigits(digits)
    ensures var x := a + ("[line" + ws + digits + "]") + b;
      ReplaceAll(x, BreakTag) == x
  {
    var t := "[line" + ws + digits + "]";
    assert t[1..] == "line" + ws + digits + "]";
    assert forall i | 0 <= i < |ws| :: ws[i] != '[';
    assert forall i | 0 <= i < |digits| :: digits[i] != '[';
    assert (t + b)[1] == 'l';
    TagUntouched(a, t, b, BreakTag);
  }

  /** The `[line]` pass deletes a `[line N]` marker. */
  lemma LinePassDeletes(a: string, ws: string, digits: string, b: string)
    requires '[' !in a && '[' !in b
    requires AllSpace(ws) && AllDigits(digits)
    ensures ReplaceAll(a + ("[line" + ws + digits + "]") + b, LineTag) == a + b
  {
    var t := "[line" + ws + digits + "]";
    assert a + "" + b == a + b;
    LineTagMatches(ws, digits, b);
    TagReplaced(a, t, b, LineTag, "");
  }

  /** Text that the `[r]` pass keeps and the `[line]` pass turns into tag-free text
      formats to that text, trimmed. */
  lemma DeletedByLinePass(x: string, s: string)
    requires '[' !in s
    requires ReplaceAll(x, BreakTag) == x && ReplaceAll(x, LineTag) == s
    ensures FormatText(x) == Trim(s)
  {
    ReplaceAllPlain(s, PageTag);
    ReplaceAllPlain(s, RubyTag);
    ReplaceAllPlain(s, NameTag);
  }

  /** A rule directive `[line N]` is deleted from dialogue text. */
  lemma LineRuleRemoved(a: string, ws: string, digits: string, b: string)
    requires '[' !in a && '[' !in b
    requires AllSpace(ws) && AllDigits(digits)
    ensures FormatText(a + ("[line" + ws + digits + "]") + b) == Trim(a + b)
  {
    LineTagSurvivesBreakPass(a, ws, digits, b);
    LinePassDeletes(a, ws, digits, b);
    DeletedByLinePass(a + ("[line" + ws + digits + "]") + b, a + b);
  }

  /** The placeholder `[%1]` becomes the protagonist's name in dialogue text. */
  lemma PlaceholderExpanded(a: string, b: string)
    requires '[' !in a && '[' !in b
    ensures FormatText(a + PlayerTag + b) == Trim(a + PlayerName + b)
  {
    var t := PlayerTag;
    assert (t + b)[1] == '%';
    assert t[1..] == "%1]";
    TagUntouched(a, t, b, BreakTag);
    TagUntouched(a, t, b, LineTag);
    TagUntouched(a, t, b, PageTag);
    TagUntouched(a, t, b, RubyTag);
    assert (t + b)[..4] == PlayerTag;
    TagReplaced(a, t, b, NameTag, PlayerName);
  }

  /** `/\[#([^:]+):([^\]]+)\]/` matches a ruby directive followed by any text. */
  lemma RubyTagMatches(base: string, reading: string, b: string)
    requires |base| > 0 && ':' !in base
    requires |reading| > 0 && ']' !in reading
    ensures var t := "[#" + base + ":" + reading + "]";
      RewriteAt(RubyTag, t + b) == Some((|t|, "{" + base + "|" + reading + "}"))
  {
    var s := "[#" + base + ":" + reading + "]" + b;
    assert s[2..] == base + [':'] + (reading + "]" + b);
    IndexOfSeparator(base, reading + "]" + b, ':');
    var c := |base|;
    assert s[2..2 + c] == base;
    var tail := s[3 + c..];
    assert tail == reading + [']'] + b;
    IndexOfSeparator(reading, b, ']');
    assert tail[..|reading|] == reading;
  }

  /** The line-break, rule and page passes leave a ruby directive in place. */
  lemma RubyTagUntouched(a: string, t: string, b: string)
    requires '[' !in a && '[' !in b && |t| > 1 && t[1] == '#' && '[' !in t[1..]
    ensures ReplaceAll(a + t + b, BreakTag) == a + t + b
    ensures ReplaceAll(a + t + b, LineTag) == a + t + b
    ensures ReplaceAll(a + t + b, PageTag) == a + t + b
  {
    assert (t + b)[1] == '#';
    TagUntouched(a, t, b, BreakTag);
    TagUntouched(a, t, b, LineTag);
    TagUntouched(a, t, b, PageTag);
  }

  /** A ruby directive inside dialogue text becomes the inline marker
      `{base|reading}`. */
  lemma RubyInText(a: string, base: string, reading: string, b: string)
    requires '[' !in a && '[' !in b && '[' !in base && '[' !in reading
    requires |base| > 0 && ':' !in base
    requires |reading| > 0 && ']' !in reading
    ensures FormatText(a + "[#" + base + ":" + reading + "]" + b)
         == Trim(a + ("{" + base + "|" + reading + "}") + b)
  {
    var t := "[#" + base + ":" + reading + "]";
    var rep := "{" + base + "|" + reading + "}";
    var s := a + t + b;
    assert a + "[#" + base + ":" + reading + "]" + b == s;
    assert ReplaceAll(s, BreakTag) == s && ReplaceAll(s, LineTag) == s && ReplaceAll(s, PageTag) == s by {
      assert t[1..] == "#" + base + ":" + reading + "]";
      RubyTagUntouched(a, t, b);
    }
    assert ReplaceAll(s, RubyTag) == a + rep + b by {
      RubyTagMatches(base, reading, b);
      TagReplaced(a, t, b, RubyTag, rep);
    }
    assert ReplaceAll(a + rep + b, NameTag) == a + rep + b by {
      ReplaceAllPlain(a + rep + b, NameTag);
    }
  }
}
