/**
 * String helpers the Python code gets from `str`, `int`, `str.format` and `re`:
 * decimal rendering and parsing, prefix/suffix/substring tests, ASCII case folding,
 * padding, joining, and the end-anchored "literal tag, then a non-empty digit run"
 * matcher that stands in for every `<tag>\d+$` regular expression of the program.
 */
module Text {
  import opened Wrappers

  predicate IsDigit(c: char) { '0' <= c <= '9' }

  predicate AllDigits(s: string) { forall i :: 0 <= i < |s| ==> IsDigit(s[i]) }

  /** A non-empty run of digits: what `\d+` matches (ASCII digits only). */
  predicate IsDigitRun(s: string) { |s| > 0 && AllDigits(s) }

  function DigitChar(d: nat): (c: char)
    requires d < 10
    ensures IsDigit(c)
  {
    ('0' as int + d) as char
  }

  function DigitValue(c: char): (d: nat)
    requires IsDigit(c)
    ensures d < 10
  {
    c as int - '0' as int
  }

  /** `str(n)` for a non-negative integer: its decimal digits, most significant first. */
  function NatToString(n: nat): (r: string)
    ensures IsDigitRun(r)
    ensures |r| == 1 <==> n < 10
  {
    if n < 10 then [DigitChar(n)] else NatToString(n / 10) + [DigitChar(n % 10)]
  }

  /** `str(i)` for any Python `int`: a minus sign, then the digits of the magnitude. */
  function IntToString(i: int): (r: string)
    ensures |r| > 0
    ensures i >= 0 ==> IsDigitRun(r)
    ensures i < 0 ==> r[0] == '-' && IsDigitRun(r[1..])
  {
    if i < 0 then "-" + NatToString(-i) else NatToString(i)
  }

  /** A word `str` never produces for an integer: it neither starts with a digit nor with '-' and a digit. */
  predicate NotNumberText(w: string)
  {
    w != [] && !IsDigit(w[0]) && (w[0] != '-' || |w| < 2 || !IsDigit(w[1]))
  }

  /** What `str` produces for an integer: a leading digit, or '-' and a digit. */
  predicate IsNumberText(x: string)
  {
    x != [] && (IsDigit(x[0]) || (x[0] == '-' && |x| >= 2 && IsDigit(x[1])))
  }

  lemma IntToStringIsNumber(i: int)
    ensures IsNumberText(IntToString(i))
  {
    var r := IntToString(i);
    if i < 0 {
      assert r[1] == r[1..][0];
    }
  }

  /** A number-like word is none of a list of words that are not. */
  lemma NumberNotAmong(x: string, words: seq<string>)
    requires IsNumberText(x)
    requires forall i :: 0 <= i < |words| ==> NotNumberText(words[i])
    ensures x !in words
  {
  }

  lemma IntToStringNot(i: int, w: string)
    requires NotNumberText(w)
    ensures IntToString(i) != w
  {
    var r := IntToString(i);
    if i < 0 {
      assert r[1] == r[1..][0];
    }
  }

  /** `int(s)` for a run of ASCII digits (leading zeros allowed, as in Python). */
  function DigitsValue(s: string): nat
    requires AllDigits(s)
  {
    if s == [] then 0 else DigitsValue(s[..|s| - 1]) * 10 + DigitValue(s[|s| - 1])
  }

  /** Reading back what `str` wrote gives the number again. */
  lemma {:induction false} DigitsValueOfNatToString(n: nat)
    ensures DigitsValue(NatToString(n)) == n
  {
    var r := NatToString(n);
    if n >= 10 {
      DigitsValueOfNatToString(n / 10);
      assert r[..|r| - 1] == NatToString(n / 10);
    }
  }

  /** Only zero is written "0". */
  lemma IntToStringZero(i: int)
    ensures IntToString(i) == "0" <==> i == 0
  {
    if i > 0 {
      DigitsValueOfNatToString(i);
      assert DigitsValue("0") == 0;
    }
  }

  lemma ConcatAssoc(a: string, b: string, c: string)
    ensures a + b + c == a + (b + c)
  {
  }

  predicate StartsWith(s: string, p: string) { |p| <= |s| && s[..|p|] == p }

  predicate EndsWith(s: string, p: string) { |p| <= |s| && s[|s| - |p|..] == p }

  lemma EndsWithLastChar(s: string, p: string)
    requires EndsWith(s, p) && p != []
    ensures s[|s| - 1] == p[|p| - 1]
  {
    assert s[|s| - |p|..][|p| - 1] == s[|s| - 1];
  }

  lemma EndsWithLastCharImp(s: string, p: string)
    requires p != []
    ensures EndsWith(s, p) ==> s != [] && s[|s| - 1] == p[|p| - 1]
  {
    if EndsWith(s, p) {
      EndsWithLastChar(s, p);
    }
  }

  lemma EndsWithConcat(a: string, b: string)
    ensures EndsWith(a + b, b)
  {
    assert (a + b)[|a + b| - |b|..] == b;
  }

  /** A tail of a tail is a tail, and the character before it is the same in both. */
  lemma EndsWithTrans(a: string, b: string, c: string)
    requires EndsWith(a, b) && EndsWith(b, c)
    ensures EndsWith(a, c)
    ensures |c| < |b| ==> a[|a| - |c| - 1] == b[|b| - |c| - 1]
  {
    assert forall j :: 0 <= j < |b| ==> b[j] == a[|a| - |b| + j];
    assert a[|a| - |c|..] == b[|b| - |c|..];
  }

  /** `t` occurs in `s` starting at index `i`. */
  predicate OccursAt(s: string, t: string, i: int) { 0 <= i && i + |t| <= |s| && s[i..i + |t|] == t }

  /** `s.find(t)`, counting from `from`: the leftmost occurrence at or after `from`. */
  function FindFrom(s: string, t: string, from: nat): (r: Option<nat>)
    ensures r.Some? ==> from <= r.value && OccursAt(s, t, r.value)
    ensures r.Some? ==> forall j :: from <= j < r.value ==> !OccursAt(s, t, j)
    ensures r.None? ==> forall j :: from <= j ==> !OccursAt(s, t, j)
    decreases |s| - from
  {
    if from + |t| > |s| then None
    else if s[from..from + |t|] == t then Some(from)
    else FindFrom(s, t, from + 1)
  }

  /** `s.find(t)`, with `None` for Python's -1. */
  function Find(s: string, t: string): (r: Option<nat>)
    ensures r.Some? ==> OccursAt(s, t, r.value) && forall j :: 0 <= j < r.value ==> !OccursAt(s, t, j)
    ensures r.None? ==> forall j :: !OccursAt(s, t, j)
  {
    FindFrom(s, t, 0)
  }

  /** `t in s` for strings. */
  predicate Contains(s: string, t: string) { Find(s, t).Some? }

  function LowerChar(c: char): char {
    if 'A' <= c <= 'Z' then (c as int + 32) as char else c
  }

  /** `s.lower()` restricted to ASCII letters; every other character is kept. */
  function Lower(s: string): (r: string)
    ensures |r| == |s|
  {
    seq(|s|, i requires 0 <= i < |s| => LowerChar(s[i]))
  }

  lemma LowerConcat(a: string, b: string)
    ensures Lower(a + b) == Lower(a) + Lower(b)
  {
  }

  /** `s.replace(a, b)` for single characters. */
  function ReplaceChar(s: string, a: char, b: char): (r: string)
    ensures |r| == |s|
  {
    seq(|s|, i requires 0 <= i < |s| => if s[i] == a then b else s[i])
  }

  /** Index just after the last occurrence of `c` in `s`, or 0 if there is none. */
  function AfterLast(s: string, c: char): (k: nat)
    ensures k <= |s|
    ensures k > 0 ==> s[k - 1] == c
    ensures forall j :: k <= j < |s| ==> s[j] != c
  {
    if s == [] then 0
    else if s[|s| - 1] == c then |s|
    else AfterLast(s[..|s| - 1], c)
  }

  /** `s.split(c)[-1]`: the text after the last `c`, or all of `s`. */
  function LastPart(s: string, c: char): (r: string)
    ensures forall j :: 0 <= j < |r| ==> r[j] != c
    ensures EndsWith(s, r)
  {
    s[AfterLast(s, c)..]
  }

  /** `LastPart` is all of `s` or starts right after a `c`. */
  lemma LastPartBoundary(s: string, c: char)
    ensures var r := LastPart(s, c); |r| == |s| || s[|s| - |r| - 1] == c
  {
  }

  /** ASCII whitespace, the part of Python's `str.isspace` this model covers. */
  predicate IsSpace(c: char) { c == ' ' || c == '\t' || c == '\n' || c == '\r' || c == '\U{B}' || c == '\U{C}' }

  function StripLeft(s: string): (r: string)
    ensures EndsWith(s, r) && (r != [] ==> !IsSpace(r[0]))
  {
    if s != [] && IsSpace(s[0]) then
      var r := StripLeft(s[1..]);
      assert s[|s| - |r|..] == s[1..][|s| - 1 - |r|..];
      r
    else s
  }

  function StripRight(s: string): (r: string)
    ensures StartsWith(s, r) && (r != [] ==> !IsSpace(r[|r| - 1]))
  {
    if s != [] && IsSpace(s[|s| - 1]) then StripRight(s[..|s| - 1]) else s
  }

  /** `s.strip()`. */
  function Strip(s: string): string { StripRight(StripLeft(s)) }

  function Repeat(c: char, n: nat): (r: string)
    ensures |r| == n && forall i :: 0 <= i < n ==> r[i] == c
  {
    if n == 0 then [] else [c] + Repeat(c, n - 1)
  }

  /** `s.ljust(w)`: pad with spaces on the right up to width `w`; never truncates. */
  function LJust(s: string, w: nat): (r: string)
    ensures |r| == if |s| >= w then |s| else w
    ensures StartsWith(r, s)
  {
    if |s| >= w then s else s + Repeat(' ', w - |s|)
  }

  /** `sep.join(parts)`. */
  function Join(sep: string, parts: seq<string>): string
  {
    if parts == [] then []
    else if |parts| == 1 then parts[0]
    else parts[0] + sep + Join(sep, parts[1..])
  }

  function SumLengths(parts: seq<string>): nat
  {
    if parts == [] then 0 else |parts[0]| + SumLengths(parts[1..])
  }

  /** The joined string holds every part and one separator between neighbours. */
  lemma {:induction false} JoinLength(sep: string, parts: seq<string>)
    requires parts != []
    ensures |Join(sep, parts)| == SumLengths(parts) + |sep| * (|parts| - 1)
  {
    if |parts| > 1 {
      JoinLength(sep, parts[1..]);
    }
  }

  // ---------------------------------------------------------------------------
  // End-anchored "tag, then digits" matching (the `<tag>\d+$` regex shape)
  // ---------------------------------------------------------------------------

  /** Number of digits at the end of `s` (the longest digit run that reaches the end). */
  function TrailingDigitCount(s: string): (k: nat)
    ensures k <= |s|
    ensures AllDigits(s[|s| - k..])
    ensures k < |s| ==> !IsDigit(s[|s| - k - 1])
  {
    if s == [] || !IsDigit(s[|s| - 1]) then 0
    else
      var k' := TrailingDigitCount(s[..|s| - 1]);
      TrailingDigitsGrow(s, k');
      k' + 1
  }

  /** A digit run ending just before a final digit extends over it. */
  lemma TrailingDigitsGrow(s: string, k: nat)
    requires s != [] && IsDigit(s[|s| - 1]) && k <= |s| - 1
    requires AllDigits(s[..|s| - 1][|s| - 1 - k..])
    ensures AllDigits(s[|s| - (k + 1)..])
  {
    var t := s[..|s| - 1][|s| - 1 - k..];
    var u := s[|s| - (k + 1)..];
    forall j | 0 <= j < |u| ensures IsDigit(u[j]) {
      if j < k {
        assert u[j] == t[j];
      }
    }
  }

  /** A tag the matcher accepts: non-empty and not ending in a digit, like every tag in the program. */
  predicate ValidTag(tag: string) { tag != [] && !IsDigit(tag[|tag| - 1]) }

  /** The regex `<tag>\d+$` matches `s` starting at index `i`. */
  predicate TagDigitsMatch(s: string, tag: string, i: int)
  {
    0 <= i && i + |tag| < |s| && s[i..i + |tag|] == tag && AllDigits(s[i + |tag|..])
  }

  /**
   * The start of the (only possible) match of `<tag>\d+$` in `s`: the digit run is the
   * maximal trailing one, because the tag's last character is not a digit.
   */
  function TagDigitsAt(s: string, tag: string): (r: Option<nat>)
    requires ValidTag(tag)
    ensures r.Some? ==> TagDigitsMatch(s, tag, r.value)
    ensures forall i {:trigger TagDigitsMatch(s, tag, i)} :: TagDigitsMatch(s, tag, i) ==> r == Some(i)
  {
    var k := TrailingDigitCount(s);
    if k > 0 && EndsWith(s[..|s| - k], tag) then
      assert s[|s| - k - |tag|..|s| - k] == s[..|s| - k][|s| - k - |tag|..];
      Some(|s| - k - |tag|)
    else
      TagDigitsUnique(s, tag, k);
      None
  }

  lemma TagDigitsUnique(s: string, tag: string, k: nat)
    requires ValidTag(tag) && k == TrailingDigitCount(s)
    ensures forall i {:trigger TagDigitsMatch(s, tag, i)} :: TagDigitsMatch(s, tag, i) ==>
      k > 0 && i == |s| - k - |tag| && EndsWith(s[..|s| - k], tag)
  {
    forall i | TagDigitsMatch(s, tag, i)
      ensures k > 0 && i == |s| - k - |tag| && EndsWith(s[..|s| - k], tag)
    {
      TagDigitsMatchPosition(s, tag, i);
    }
  }

  lemma TagDigitsMatchPosition(s: string, tag: string, i: int)
    requires ValidTag(tag) && TagDigitsMatch(s, tag, i)
    ensures TrailingDigitCount(s) == |s| - i - |tag| > 0
    ensures EndsWith(s[..i + |tag|], tag)
  {
    var k := TrailingDigitCount(s);
    var d := i + |tag|;
    assert !IsDigit(s[d - 1]) by { assert s[d - 1] == s[i..d][|tag| - 1]; }
    assert forall j :: d <= j < |s| ==> IsDigit(s[j]) by {
      forall j | d <= j < |s| ensures IsDigit(s[j]) { assert s[d..][j - d] == s[j]; }
    }
    assert forall j :: |s| - k <= j < |s| ==> IsDigit(s[j]) by {
      forall j | |s| - k <= j < |s| ensures IsDigit(s[j]) { assert s[|s| - k..][j - (|s| - k)] == s[j]; }
    }
    assert k <= |s| - d;
    assert k >= |s| - d;
    assert s[..d][d - |tag|..] == s[i..d];
  }
}
