/**
  String primitives shared by the TypeScript and Python code: trimming, ASCII case
  folding, substring search, splitting on a separator, whitespace tokenising,
  literal replace-all, and decimal rendering and parsing of numbers.
 */
module Text {
  import opened Wrappers

  /** ASCII whitespace: the characters `trim()`, `strip()` and `\s` remove in this model. */
  predicate IsSpace(c: char) {
    c == ' ' || c == '\t' || c == '\n' || c == '\r' || c == '\U{000B}' || c == '\U{000C}'
  }

  predicate NoSpace(s: string) {
    forall i :: 0 <= i < |s| ==> !IsSpace(s[i])
  }

  predicate AllSpace(s: string) {
    forall i :: 0 <= i < |s| ==> IsSpace(s[i])
  }

  function TrimStart(s: string): string {
    if |s| > 0 && IsSpace(s[0]) then TrimStart(s[1..]) else s
  }

  /** `TrimStart` removes exactly the leading run of whitespace. */
  lemma {:induction false} TrimStartSpec(s: string)
    ensures var r := TrimStart(s);
      |r| <= |s| && r == s[|s| - |r|..] && AllSpace(s[..|s| - |r|]) &&
      (|r| > 0 ==> !IsSpace(r[0])) && (|r| == 0 <==> AllSpace(s))
  {
    if |s| > 0 && IsSpace(s[0]) {
      TrimStartSpec(s[1..]);
      var r := TrimStart(s[1..]);
      assert s[..|s| - |r|] == [s[0]] + s[1..][..|s| - 1 - |r|];
    }
  }

  function TrimEnd(s: string): string {
    if |s| > 0 && IsSpace(s[|s| - 1]) then TrimEnd(s[..|s| - 1]) else s
  }

  /** `TrimEnd` removes exactly the trailing run of whitespace. */
  lemma {:induction false} TrimEndSpec(s: string)
    ensures var r := TrimEnd(s);
      |r| <= |s| && r == s[..|r|] && AllSpace(s[|r|..]) &&
      (|r| > 0 ==> !IsSpace(r[|r| - 1])) && (|r| == 0 <==> AllSpace(s))
  {
    if |s| > 0 && IsSpace(s[|s| - 1]) {
      TrimEndSpec(s[..|s| - 1]);
      var r := TrimEnd(s[..|s| - 1]);
      assert s[|r|..] == s[..|s| - 1][|r|..] + [s[|s| - 1]];
    }
  }

  /** `s.trim()` in JavaScript, `s.strip()` in Python. */
  function Trim(s: string): string {
    TrimEnd(TrimStart(s))
  }

  /**
    Trimming leaves no whitespace at either end, removes only whitespace, is
    empty exactly for blank text, and leaves text without edge whitespace alone.
   */
  lemma TrimSpec(s: string)
    ensures var r := Trim(s);
      |r| <= |s| && (|r| == 0 <==> AllSpace(s)) &&
      (|r| > 0 ==> !IsSpace(r[0]) && !IsSpace(r[|r| - 1])) &&
      ((|s| == 0 || !IsSpace(s[0])) ==> r == s[..|r|]) &&
      ((|s| > 0 && !IsSpace(s[0]) && !IsSpace(s[|s| - 1])) ==> r == s)
  {
    var t := TrimStart(s);
    TrimStartSpec(s);
    TrimEndSpec(t);
    var r := TrimEnd(t);
    if |t| == 0 {
      assert r == t;
    }
    if |r| > 0 {
      assert r[0] == t[0];
    }
  }

  /** The trimmed text is a piece of the text, so it holds no character the text lacks. */
  lemma TrimIsSlice(s: string) returns (i: nat)
    ensures i + |Trim(s)| <= |s| && Trim(s) == s[i..i + |Trim(s)|]
    ensures forall c :: c !in s ==> c !in Trim(s)
  {
    var t := TrimStart(s);
    TrimStartSpec(s);
    TrimEndSpec(t);
    i := |s| - |t|;
    assert Trim(s) == t[..|Trim(s)|];
  }

  lemma TrimIdempotent(s: string)
    ensures Trim(Trim(s)) == Trim(s)
  {
    var r := Trim(s);
    TrimSpec(s);
    TrimSpec(r);
    if |r| == 0 {
      assert AllSpace(r);
    }
  }

  function LowerChar(c: char): char {
    if 'A' <= c <= 'Z' then (c as int + 32) as char else c
  }

  /** `toLowerCase()` / `lower()`, restricted to ASCII letters. */
  function Lower(s: string): string {
    seq(|s|, i requires 0 <= i < |s| => LowerChar(s[i]))
  }

  lemma LowerIdempotent(s: string)
    ensures Lower(Lower(s)) == Lower(s)
  {
  }

  predicate StartsWith(s: string, prefix: string) {
    |prefix| <= |s| && s[..|prefix|] == prefix
  }

  /** Substring test: `needle in hay` in Python, `hay.includes(needle)` in JavaScript. */
  predicate Contains(hay: string, needle: string)
    decreases |hay|
  {
    StartsWith(hay, needle) || (|hay| > 0 && Contains(hay[1..], needle))
  }

  lemma {:induction false} ContainsAt(hay: string, needle: string, i: nat)
    requires i + |needle| <= |hay| && hay[i..i + |needle|] == needle
    ensures Contains(hay, needle)
    decreases i
  {
    if i > 0 {
      assert hay[1..][i - 1..i - 1 + |needle|] == needle;
      ContainsAt(hay[1..], needle, i - 1);
    }
  }

  lemma {:induction false} ContainsWitness(hay: string, needle: string) returns (i: nat)
    requires Contains(hay, needle)
    ensures i + |needle| <= |hay| && hay[i..i + |needle|] == needle
    decreases |hay|
  {
    if StartsWith(hay, needle) {
      i := 0;
    } else {
      var j := ContainsWitness(hay[1..], needle);
      i := j + 1;
      assert hay[i..i + |needle|] == hay[1..][j..j + |needle|];
    }
  }

  function IndexOf(s: string, c: char): (i: nat)
    requires c in s
    ensures i < |s| && s[i] == c && c !in s[..i]
  {
    if s[0] == c then 0 else 1 + IndexOf(s[1..], c)
  }

  function LastIndexOf(s: string, c: char): (i: nat)
    requires c in s
    ensures i < |s| && s[i] == c && c !in s[i + 1..]
  {
    if s[|s| - 1] == c then |s| - 1 else LastIndexOf(s[..|s| - 1], c)
  }

  function Join(parts: seq<string>, sep: char): string
    requires |parts| >= 1
  {
    if |parts| == 1 then parts[0] else parts[0] + [sep] + Join(parts[1..], sep)
  }

  /** `s.split(sep)` for a one-character separator: empty pieces are kept. */
  function Split(s: string, sep: char): (parts: seq<string>)
    ensures |parts| >= 1
    ensures forall i :: 0 <= i < |parts| ==> sep !in parts[i]
    ensures Join(parts, sep) == s
    decreases |s|
  {
    if sep !in s then [s]
    else
      var i := IndexOf(s, sep);
      var rest := Split(s[i + 1..], sep);
      assert s == s[..i] + [sep] + s[i + 1..];
      [s[..i]] + rest
  }

  function Last<T>(s: seq<T>): T
    requires |s| > 0
  {
    s[|s| - 1]
  }

  lemma LastCons<T>(x: T, rest: seq<T>)
    requires |rest| > 0
    ensures Last([x] + rest) == Last(rest)
  {
  }

  /** The text after the last `c`, or all of `s` when it holds no `c`. */
  function AfterLast(s: string, c: char): string
    decreases |s|
  {
    if c !in s then s else AfterLast(s[IndexOf(s, c) + 1..], c)
  }

  /** `AfterLast` is a suffix free of `c`, preceded by a `c` whenever `s` holds one. */
  lemma {:induction false} AfterLastSpec(s: string, c: char)
    ensures var r := AfterLast(s, c);
      |r| <= |s| && r == s[|s| - |r|..] && c !in r &&
      (c in s ==> |r| < |s| && s[|s| - |r| - 1] == c) &&
      (c !in s ==> r == s)
    decreases |s|
  {
    if c in s {
      var u := s[IndexOf(s, c) + 1..];
      AfterLastSpec(u, c);
      var r := AfterLast(u, c);
      assert s[|s| - |r|..] == u[|u| - |r|..];
      if c in u {
        assert s[|s| - |r| - 1] == u[|u| - |r| - 1];
      }
    }
  }

  /** The last piece of `s.split(c)` is the text after the last `c`. */
  lemma {:induction false} SplitLast(s: string, sep: char)
    ensures Last(Split(s, sep)) == AfterLast(s, sep)
    decreases |s|
  {
    if sep in s {
      var i := IndexOf(s, sep);
      var rest := Split(s[i + 1..], sep);
      SplitLast(s[i + 1..], sep);
      assert Split(s, sep) == [s[..i]] + rest;
      LastCons(s[..i], rest);
    } else {
      assert Split(s, sep) == [s];
    }
  }

  /** The longest prefix of `s` without whitespace. */
  function Word(s: string): (w: string)
    ensures |w| <= |s|
    ensures w == s[..|w|] && NoSpace(w)
    ensures |w| == |s| || IsSpace(s[|w|])
    ensures |s| > 0 && !IsSpace(s[0]) ==> |w| > 0
  {
    if |s| == 0 || IsSpace(s[0]) then "" else [s[0]] + Word(s[1..])
  }

  /** The pieces of `s.split(/\s+/)` that are not empty: the maximal runs of non-space characters. */
  function Tokens(s: string): (ts: seq<string>)
    ensures forall i :: 0 <= i < |ts| ==> |ts[i]| > 0 && NoSpace(ts[i])
    decreases |s|
  {
    var t := TrimStart(s);
    TrimStartSpec(s);
    if |t| == 0 then []
    else
      var w := Word(t);
      [w] + Tokens(t[|w|..])
  }

  /** Literal, global, left-to-right `s.replace(/pat/g, rep)`. */
  function ReplaceAll(s: string, pat: string, rep: string): (r: string)
    requires |pat| > 0
    ensures !Contains(s, pat) ==> r == s
    ensures rep == "" ==> |r| <= |s|
    decreases |s|
  {
    if |s| == 0 then ""
    else if StartsWith(s, pat) then rep + ReplaceAll(s[|pat|..], pat, rep)
    else [s[0]] + ReplaceAll(s[1..], pat, rep)
  }

  predicate IsDigit(c: char) {
    '0' <= c <= '9'
  }

  predicate AllDigits(s: string) {
    forall i :: 0 <= i < |s| ==> IsDigit(s[i])
  }

  function DigitChar(d: nat): (c: char)
    requires d < 10
    ensures IsDigit(c)
  {
    ('0' as int + d) as char
  }

  function DigitValue(c: char): (d: nat)
    requires IsDigit(c)
    ensures d < 10 && DigitChar(d) == c
  {
    c as int - '0' as int
  }

  /** Decimal rendering of a natural number: the text of `left-${i}`. */
  function NatToString(n: nat): (s: string)
    ensures |s| > 0 && AllDigits(s)
    ensures n < 10 <==> |s| == 1
    decreases n
  {
    if n < 10 then [DigitChar(n)] else NatToString(n / 10) + [DigitChar(n % 10)]
  }

  function DigitsValue(s: string): nat
    requires AllDigits(s)
  {
    if |s| == 0 then 0 else DigitsValue(s[..|s| - 1]) * 10 + DigitValue(s[|s| - 1])
  }

  function Pow10(k: nat): (p: nat)
    ensures p >= 1
  {
    if k == 0 then 1 else 10 * Pow10(k - 1)
  }

  /**
    A plain decimal literal with an optional sign and an optional fraction
    (`12`, `-3.50`, `.5`, `7.`), the part of JavaScript's `Number(text)` and
    Python's `float(text)` grammar that this model covers.
   */
  function ParseDecimal(t: string): Option<real> {
    if |t| > 0 && (t[0] == '-' || t[0] == '+') then
      match ParseUnsigned(t[1..])
      case None => None
      case Some(x) => Some(if t[0] == '-' then -x else x)
    else ParseUnsigned(t)
  }

  function ParseUnsigned(t: string): (r: Option<real>)
    ensures r.Some? ==> r.value >= 0.0
  {
    if '.' in t then
      var i := IndexOf(t, '.');
      var whole := t[..i];
      var frac := t[i + 1..];
      if AllDigits(whole) && AllDigits(frac) && |whole| + |frac| > 0 then
        Some(DigitsValue(whole) as real + DigitsValue(frac) as real / Pow10(|frac|) as real)
      else None
    else if |t| > 0 && AllDigits(t) then Some(DigitsValue(t) as real)
    else None
  }

  lemma {:induction false} DigitsRoundTrip(n: nat)
    ensures DigitsValue(NatToString(n)) == n
    decreases n
  {
    if n >= 10 {
      DigitsRoundTrip(n / 10);
      var s := NatToString(n);
      assert s[..|s| - 1] == NatToString(n / 10);
    }
  }

  /** Rendering a natural number and reading it back as a decimal gives the number. */
  lemma ParseRendersBack(n: nat)
    ensures ParseDecimal(NatToString(n)) == Some(n as real)
    ensures ParseDecimal("-" + NatToString(n)) == Some(-(n as real))
  {
    var s := NatToString(n);
    DigitsRoundTrip(n);
    forall i | 0 <= i < |s| ensures s[i] != '.' {
      assert IsDigit(s[i]);
    }
    assert '.' !in s;
    assert ("-" + s)[1..] == s;
  }
}
