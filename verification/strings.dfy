/** Character-level models of the JavaScript string operations the script pipeline
    relies on: `trim`, `split`, the `\s`, `\d` and `\w` regex classes, `toLowerCase`
    on ASCII letters, `includes`, decimal rendering of numbers and `parseInt`.
    Strings are sequences of Unicode scalar values; every character the source's
    regexes and sentinels care about lies in the Basic Multilingual Plane, so one
    `char` here is one UTF-16 code unit there. */
module Strings {
  import opened Wrappers

  /** The characters `String.prototype.trim` removes and the regex class `\s`
      matches: the ECMAScript WhiteSpace and LineTerminator characters, including
      the ideographic space U+3000 that full-width script text uses. */
  predicate IsSpace(c: char) {
    || c == '\t' || c == '\n' || c == '\U{000B}' || c == '\U{000C}' || c == '\r' || c == ' '
    || c == '\U{00A0}' || c == '\U{1680}' || ('\U{2000}' <= c <= '\U{200A}')
    || c == '\U{2028}' || c == '\U{2029}' || c == '\U{202F}' || c == '\U{205F}'
    || c == '\U{3000}' || c == '\U{FEFF}'
  }

  predicate NotSpace(c: char) { !IsSpace(c) }

  /** The characters the regex `.` refuses to match (ECMAScript LineTerminator). */
  predicate IsLineTerminator(c: char) {
    c == '\n' || c == '\r' || c == '\U{2028}' || c == '\U{2029}'
  }

  /** The regex class `\d` (ASCII digits only, no `u` flag). */
  predicate IsDigit(c: char) { '0' <= c <= '9' }

  predicate IsHexDigit(c: char) { IsDigit(c) || 'a' <= c <= 'f' || 'A' <= c <= 'F' }

  /** The regex class `\w`. */
  predicate IsWordChar(c: char) { 'a' <= c <= 'z' || 'A' <= c <= 'Z' || IsDigit(c) || c == '_' }

  predicate AllSpace(s: string) { forall i | 0 <= i < |s| :: IsSpace(s[i]) }

  predicate NoSpace(s: string) { forall i | 0 <= i < |s| :: !IsSpace(s[i]) }

  predicate AllDigits(s: string) { forall i | 0 <= i < |s| :: IsDigit(s[i]) }

  /** `s` has no white space at either end: the shape `trim()` returns. */
  predicate IsTrimmed(s: string) { |s| > 0 ==> !IsSpace(s[0]) && !IsSpace(s[|s| - 1]) }

  /** Length of the longest prefix of `s` whose characters all satisfy `p`:
      what a greedy `p+`/`p*` regex step consumes. */
  function Run(s: string, p: char -> bool): (n: nat)
    ensures n <= |s|
    ensures forall i | 0 <= i < n :: p(s[i])
    ensures n < |s| ==> !p(s[n])
  {
    if |s| == 0 || !p(s[0]) then 0 else 1 + Run(s[1..], p)
  }

  /** A prefix whose characters all satisfy `p` followed by one that does not
      is exactly what `Run` consumes. */
  lemma RunOfPrefix(a: string, b: string, p: char -> bool)
    requires forall i | 0 <= i < |a| :: p(a[i])
    requires |b| > 0 ==> !p(b[0])
    ensures Run(a + b, p) == |a|
  {
    assert forall i | 0 <= i < |a| :: (a + b)[i] == a[i];
    assert |b| > 0 ==> (a + b)[|a|] == b[0];
  }

  /** `String.prototype.trimStart`. */
  function TrimStart(s: string): (r: string)
    ensures |r| <= |s| && r == s[|s| - |r|..]
    ensures AllSpace(s[..|s| - |r|])
    ensures |r| > 0 ==> !IsSpace(r[0])
    decreases |s|
  {
    if |s| > 0 && IsSpace(s[0]) then TrimStart(s[1..]) else s
  }

  /** `String.prototype.trimEnd`. */
  function TrimEnd(s: string): (r: string)
    ensures |r| <= |s| && r == s[..|r|]
    ensures AllSpace(s[|r|..])
    ensures |r| > 0 ==> !IsSpace(r[|r| - 1])
    decreases |s|
  {
    if |s| > 0 && IsSpace(s[|s| - 1]) then TrimEnd(s[..|s| - 1]) else s
  }

  /** `String.prototype.trim`: the middle of `s` left after cutting white space off
      both ends. */
  function Trim(s: string): (r: string)
    ensures IsTrimmed(r)
    ensures IsCutOf(s, r)
    ensures r == [] <==> AllSpace(s)
    ensures IsTrimmed(s) ==> r == s
  {
    var t := TrimStart(s);
    var r := TrimEnd(t);
    var i := |s| - |t|;
    assert r == s[i..i + |r|];
    assert s[i + |r|..] == t[|r|..];
    assert CutAt(s, r, i);
    assert s[..|s|] == s && t[0..] == t;
    assert |t| > 0 ==> t[0] == s[i];
    assert |r| > 0 ==> r[0] == t[0];
    r
  }

  /** `r` is `s` with some white space cut off each end. */
  predicate IsCutOf(s: string, r: string) {
    exists i | 0 <= i <= |s| - |r| :: CutAt(s, r, i)
  }

  predicate CutAt(s: string, r: string, i: int)
    requires 0 <= i <= |s| - |r|
  {
    r == s[i..i + |r|] && AllSpace(s[..i]) && AllSpace(s[i + |r|..])
  }

  /** First position of `c` in `s`. */
  function IndexOf(s: string, c: char): (r: Option<nat>)
    ensures r.Some? ==> r.value < |s| && s[r.value] == c && c !in s[..r.value]
    ensures r.None? ==> c !in s
  {
    if |s| == 0 then None
    else if s[0] == c then Some(0)
    else match IndexOf(s[1..], c)
      case None => None
      case Some(k) => assert s[..k + 1] == [s[0]] + s[1..][..k]; Some(k + 1)
  }

  /** `s.split(sep)` for a one-character separator. */
  function Split(s: string, sep: char): (parts: seq<string>)
    ensures |parts| >= 1
    ensures forall i | 0 <= i < |parts| :: sep !in parts[i]
    decreases |s|
  {
    match IndexOf(s, sep)
    case None => [s]
    case Some(k) => [s[..k]] + Split(s[k + 1..], sep)
  }

  /** `parts.join(sep)` for a one-character separator. */
  function Join(parts: seq<string>, sep: char): string
  {
    if |parts| == 0 then ""
    else if |parts| == 1 then parts[0]
    else parts[0] + [sep] + Join(parts[1..], sep)
  }

  /** Splitting loses nothing: joining the pieces back gives the input. */
  lemma {:induction false} JoinSplit(s: string, sep: char)
    ensures Join(Split(s, sep), sep) == s
    decreases |s|
  {
    match IndexOf(s, sep)
    case None =>
    case Some(k) =>
      var rest := Split(s[k + 1..], sep);
      assert Split(s, sep) == [s[..k]] + rest;
      JoinSplit(s[k + 1..], sep);
      assert Join([s[..k]] + rest, sep) == s[..k] + [sep] + Join(rest, sep);
      assert s == s[..k] + [sep] + s[k + 1..];
  }

  lemma IndexOfSeparator(a: string, b: string, c: char)
    requires c !in a
    ensures IndexOf(a + [c] + b, c) == Some(|a|)
  {
    var s := a + [c] + b;
    assert s[|a|] == c;
    assert forall k | 0 <= k < |a| :: s[k] == a[k];
    assert forall k | |a| < k <= |s| :: s[..k][|a|] == c;
  }

  /** Joining pieces free of the separator and splitting again gives the pieces back. */
  lemma {:induction false} SplitJoin(parts: seq<string>, sep: char)
    requires |parts| >= 1
    requires forall i | 0 <= i < |parts| :: sep !in parts[i]
    ensures Split(Join(parts, sep), sep) == parts
  {
    if |parts| > 1 {
      var a := parts[0];
      var rest := Join(parts[1..], sep);
      var s := a + [sep] + rest;
      assert Join(parts, sep) == s;
      assert Split(s, sep) == [a] + Split(rest, sep) by {
        assert sep !in a;
        IndexOfSeparator(a, rest, sep);
        assert s[..|a|] == a;
        assert s[|a| + 1..] == rest;
      }
      assert Split(rest, sep) == parts[1..] by {
        SplitJoin(parts[1..], sep);
      }
      assert parts == [a] + parts[1..];
    }
  }

  /** The maximal runs of non-white-space characters of `s`, in order: what
      `s.trim().split(/\s+/).filter(Boolean)` returns. */
  function Words(s: string): (ws: seq<string>)
    ensures forall i | 0 <= i < |ws| :: |ws[i]| > 0 && NoSpace(ws[i])
    decreases |s|
  {
    if |s| == 0 then []
    else if IsSpace(s[0]) then Words(s[1..])
    else
      var n := Run(s, NotSpace);
      [s[..n]] + Words(s[n..])
  }

  /** Each word preceded by one space: `" a1 a2 a3"`. */
  function SpaceJoined(words: seq<string>): string
  {
    if |words| == 0 then "" else " " + words[0] + SpaceJoined(words[1..])
  }

  /** Splitting a space-separated list of words gives the words back. */
  lemma {:induction false} WordsOfSpaceJoined(words: seq<string>)
    requires forall i | 0 <= i < |words| :: |words[i]| > 0 && NoSpace(words[i])
    ensures Words(SpaceJoined(words)) == words
  {
    if |words| > 0 {
      var a := words[0];
      var x := SpaceJoined(words[1..]);
      var s := " " + a + x;
      assert s[1..] == a + x;
      assert |x| > 0 ==> x[0] == ' ';
      RunOfPrefix(a, x, NotSpace);
      assert (a + x)[..|a|] == a && (a + x)[|a|..] == x;
      WordsOfSpaceJoined(words[1..]);
      assert words == [a] + words[1..];
    }
  }

  /** ASCII upper-case letters to lower case; every other character unchanged. */
  function LowerChar(c: char): char {
    if 'A' <= c <= 'Z' then (c as int + 32) as char else c
  }

  /** `s.toLowerCase()` on text made of `\w` characters (ASCII only). */
  function ToLowerAscii(s: string): (r: string)
    ensures |r| == |s|
    ensures forall i | 0 <= i < |s| :: r[i] == LowerChar(s[i])
  {
    seq(|s|, i requires 0 <= i < |s| => LowerChar(s[i]))
  }

  function DigitChar(d: nat): (c: char)
    requires d < 10
    ensures IsDigit(c)
  {
    (48 + d) as char
  }

  function DigitValue(c: char): nat
    requires IsHexDigit(c)
  {
    if IsDigit(c) then c as int - 48
    else if 'a' <= c <= 'f' then c as int - 87
    else c as int - 55
  }

  /** Template-literal rendering of a non-negative integer (`${n}`). */
  function NatToString(n: nat): (r: string)
    ensures |r| > 0 && AllDigits(r)
    ensures |r| > 1 ==> r[0] != '0'
  {
    if n < 10 then [DigitChar(n)] else NatToString(n / 10) + [DigitChar(n % 10)]
  }

  /** `String(n)` for an integer. */
  function IntToString(n: int): string {
    if n < 0 then "-" + NatToString(-n) else NatToString(n)
  }

  /** Value of a numeral in `base` (10 or 16), most significant digit first. */
  function NumeralValue(s: string, base: nat): nat
    requires forall i | 0 <= i < |s| :: IsHexDigit(s[i])
  {
    if |s| == 0 then 0 else NumeralValue(s[..|s| - 1], base) * base + DigitValue(s[|s| - 1])
  }

  lemma {:induction false} NatToStringValue(n: nat)
    ensures NumeralValue(NatToString(n), 10) == n
  {
    if n >= 10 {
      var s := NatToString(n);
      assert s[..|s| - 1] == NatToString(n / 10);
      NatToStringValue(n / 10);
    }
  }

  /** Decimal renderings of different numbers differ. */
  lemma NatToStringInjective(m: nat, n: nat)
    requires NatToString(m) == NatToString(n)
    ensures m == n
  {
    NatToStringValue(m);
    NatToStringValue(n);
  }

  /** The value of the longest run of base-16 (`hex`) or base-10 digits at the
      start of `body`; `None` when there is none. */
  function LeadingDigits(body: string, hex: bool): (r: Option<nat>)
    ensures r.Some? ==> |body| > 0 && IsHexDigit(body[0])
  {
    var n := if hex then Run(body, IsHexDigit) else Run(body, IsDigit);
    if n == 0 then None
    else Some(NumeralValue(body[..n], if hex then 16 else 10))
  }

  /** A digit at the start of a suffix of `s` is a digit of `s`. */
  lemma SuffixDigit(s: string, k: nat)
    requires k < |s| && IsHexDigit(s[k..][0])
    ensures exists i | 0 <= i < |s| :: IsHexDigit(s[i])
  {
    assert s[k..][0] == s[k];
  }

  /** JavaScript `parseInt(s)` with no radix: leading white space skipped, an optional
      sign, a `0x`/`0X` prefix switching to base 16, then the longest run of digits
      of that base. `None` stands for `NaN` (no digit at all). */
  function ParseInt(s: string): (r: Option<int>)
    ensures r.Some? ==> exists i | 0 <= i < |s| :: IsHexDigit(s[i])
  {
    var t := TrimStart(s);
    var neg := |t| > 0 && t[0] == '-';
    var u := if |t| > 0 && (t[0] == '-' || t[0] == '+') then t[1..] else t;
    var hex := |u| >= 2 && u[0] == '0' && (u[1] == 'x' || u[1] == 'X');
    var body := if hex then u[2..] else u;
    assert body == s[|s| - |body|..];
    match LeadingDigits(body, hex)
    case None => None
    case Some(v) =>
      SuffixDigit(s, |s| - |body|);
      Some(if neg then -(v as int) else v)
  }

  /** `parseInt` reads back the decimal rendering of any natural number. */
  lemma ParseIntOfNatToString(n: nat)
    ensures ParseInt(NatToString(n)) == Some(n)
  {
    var s := NatToString(n);
    assert TrimStart(s) == s;
    RunOfPrefix(s, [], IsDigit);
    assert s + [] == s;
    assert s[..|s|] == s;
    NatToStringValue(n);
  }

  /** `parseInt` of text with no digit is `NaN`. */
  lemma ParseIntNoDigits(s: string)
    requires forall i | 0 <= i < |s| :: !IsDigit(s[i])
    ensures ParseInt(s) == None
  {
  }

  /** `s.includes(sub)`. */
  predicate Contains(s: string, sub: string) {
    exists i | 0 <= i <= |s| - |sub| :: OccursAt(s, sub, i)
  }

  predicate OccursAt(s: string, sub: string, i: int)
    requires 0 <= i <= |s| - |sub|
  {
    s[i..i + |sub|] == sub
  }
}
