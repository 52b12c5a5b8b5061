/**
 * The end-anchored parameter-suffix regular expressions of the program, all of the shape
 * `_(tag1\d+|tag2\d+|...|nvidia_qp\d+(_aq)?|...)$`: an alternation of literal tags each
 * followed by a non-empty digit run, where the `nvidia_qp` alternative may also carry a
 * trailing `_aq`. A tag here includes its leading underscore.
 *
 * `re.sub(pattern, "", s)` with such a pattern removes the leftmost match; since every
 * match reaches the end of the string, it removes exactly one suffix or nothing.
 */
module SuffixMatch {
  import opened Wrappers
  import opened Text

  /** Every tag of the alternation is one the digit matcher accepts. */
  predicate ValidTags(tags: seq<string>) { forall t :: t in tags ==> ValidTag(t) }

  /** Some alternative `<tag>\d+$` of `tags` matches `s` at index `i`. */
  predicate AnyTagMatch(s: string, tags: seq<string>, i: int)
  {
    tags != [] && (TagDigitsMatch(s, tags[0], i) || AnyTagMatch(s, tags[1..], i))
  }

  lemma {:induction false} AnyTagMatchIntro(s: string, tags: seq<string>, t: string, i: int)
    requires t in tags && TagDigitsMatch(s, t, i)
    ensures AnyTagMatch(s, tags, i)
  {
    if tags[0] != t {
      AnyTagMatchIntro(s, tags[1..], t, i);
    }
  }

  lemma {:induction false} AnyTagWitness(s: string, tags: seq<string>, i: int) returns (t: string)
    requires AnyTagMatch(s, tags, i)
    ensures t in tags && TagDigitsMatch(s, t, i)
  {
    if TagDigitsMatch(s, tags[0], i) {
      t := tags[0];
    } else {
      t := AnyTagWitness(s, tags[1..], i);
    }
  }

  /** No `<tag>\d+$` alternative matches a string that does not end in a digit. */
  lemma {:induction false} NoTagMatchWithoutDigitEnd(s: string, tags: seq<string>, i: int)
    requires ValidTags(tags) && s != [] && !IsDigit(s[|s| - 1])
    ensures !AnyTagMatch(s, tags, i)
  {
    if tags != [] {
      assert TrailingDigitCount(s) == 0;
      TagDigitsUnique(s, tags[0], 0);
      NoTagMatchWithoutDigitEnd(s, tags[1..], i);
    }
  }

  const AqTag: string := "_aq"

  const QpTag: string := "_nvidia_qp"

  /** The `nvidia_qp\d+_aq$` alternative matches `s` at index `i`. */
  predicate AqMatch(s: string, i: int)
  {
    EndsWith(s, AqTag) && TagDigitsMatch(s[..|s| - |AqTag|], QpTag, i)
  }

  /** The whole pattern matches `s` at index `i` (and, being end-anchored, up to the end). */
  predicate PatternMatch(s: string, tags: seq<string>, i: int)
  {
    AnyTagMatch(s, tags, i) || AqMatch(s, i)
  }

  function Earlier(a: Option<nat>, b: Option<nat>): (r: Option<nat>)
    ensures r == a || r == b
    ensures a.Some? ==> r.Some? && r.value <= a.value
    ensures b.Some? ==> r.Some? && r.value <= b.value
  {
    match (a, b)
    case (None, _) => b
    case (_, None) => a
    case (Some(x), Some(y)) => if x <= y then a else b
  }

  /** Leftmost index where one of the tag alternatives matches. */
  function EarliestTagMatch(s: string, tags: seq<string>): (r: Option<nat>)
    requires ValidTags(tags)
    ensures r.Some? ==> AnyTagMatch(s, tags, r.value)
    ensures forall i {:trigger AnyTagMatch(s, tags, i)} :: AnyTagMatch(s, tags, i) ==> r.Some? && r.value <= i
  {
    if tags == [] then None
    else
      var here := TagDigitsAt(s, tags[0]);
      var later := EarliestTagMatch(s, tags[1..]);
      Earlier(here, later)
  }

  /** Leftmost index where the pattern matches `s`, if anywhere. */
  function EarliestMatch(s: string, tags: seq<string>): (r: Option<nat>)
    requires ValidTags(tags)
    ensures r.Some? ==> PatternMatch(s, tags, r.value)
    ensures forall i {:trigger PatternMatch(s, tags, i)} :: PatternMatch(s, tags, i) ==> r.Some? && r.value <= i
  {
    var aq := if EndsWith(s, AqTag) then TagDigitsAt(s[..|s| - |AqTag|], QpTag) else None;
    Earlier(EarliestTagMatch(s, tags), aq)
  }

  /** A match starts inside the string. */
  lemma PatternMatchInside(s: string, tags: seq<string>, i: int)
    requires PatternMatch(s, tags, i)
    ensures 0 <= i < |s|
  {
    if AnyTagMatch(s, tags, i) {
      var t := AnyTagWitness(s, tags, i);
    }
  }

  /**
   * `re.sub(pattern, "", s)`: the text before the leftmost match, or `s` itself when the
   * pattern matches nowhere.
   */
  function StripPattern(s: string, tags: seq<string>): (r: string)
    requires ValidTags(tags)
    ensures StartsWith(s, r)
    ensures |r| < |s| ==> PatternMatch(s, tags, |r|)
    ensures forall i {:trigger PatternMatch(s, tags, i)} :: PatternMatch(s, tags, i) ==> |r| <= i
  {
    match EarliestMatch(s, tags)
    case Some(i) => PatternMatchInside(s, tags, i); s[..i]
    case None => s
  }

  /** No tag other than `t` ends in the same character as `t`. */
  predicate LastCharUnique(t: string, tags: seq<string>)
    requires t != []
  {
    forall u :: u in tags && u != [] && u[|u| - 1] == t[|t| - 1] ==> u == t
  }

  /** In `stem + t + digits` the pattern can only match where `t` starts. */
  lemma OnlyMatchAtTag(stem: string, t: string, d: string, tags: seq<string>, j: int)
    requires ValidTags(tags) && t in tags && LastCharUnique(t, tags) && IsDigitRun(d)
    requires PatternMatch(stem + t + d, tags, j)
    ensures j == |stem|
  {
    var s := stem + t + d;
    TagAtJoin(stem, t, d);
    TagDigitsMatchPosition(s, t, |stem|);
    assert !AqMatch(s, j) by {
      EndsWithLastCharImp(s, AqTag);
      LastOfJoin(stem + t, d);
    }
    var u := AnyTagWitness(s, tags, j);
    TagDigitsMatchPosition(s, u, j);
    assert j + |u| == |stem| + |t|;
    EndsWithLastChar(s[..j + |u|], u);
    assert s[..j + |u|][j + |u| - 1] == t[|t| - 1];
  }

  lemma LastOfJoin(a: string, d: string)
    requires d != []
    ensures (a + d)[|a + d| - 1] == d[|d| - 1]
  {
  }

  lemma TagAtJoin(stem: string, t: string, d: string)
    requires t != [] && !IsDigit(t[|t| - 1]) && IsDigitRun(d)
    ensures TagDigitsMatch(stem + t + d, t, |stem|)
  {
    var s := stem + t + d;
    assert s[|stem|..|stem| + |t|] == t;
    assert s[|stem| + |t|..] == d;
  }

  /** Stripping undoes appending a tag and digits, when no other tag ends in the same character. */
  lemma StripAppended(stem: string, t: string, d: string, tags: seq<string>)
    requires ValidTags(tags) && t in tags && LastCharUnique(t, tags) && IsDigitRun(d)
    ensures StripPattern(stem + t + d, tags) == stem
  {
    var s := stem + t + d;
    TagAtJoin(stem, t, d);
    AnyTagMatchIntro(s, tags, t, |stem|);
    var r := StripPattern(s, tags);
    assert |r| <= |stem|;
    OnlyMatchAtTag(stem, t, d, tags, |r|);
    assert r == s[..|stem|];
  }

  /**
   * `^(?P<source>.+)<tag>(?P<param>\d+)$`: where the tag starts when the whole string is a
   * non-empty source, the tag and a digit run. Being end-anchored and ending in a non-digit,
   * the tag has at most one such place.
   */
  function TaggedSplit(s: string, tag: string): (r: Option<nat>)
    requires ValidTag(tag)
    ensures r.Some? ==> 1 <= r.value && TagDigitsMatch(s, tag, r.value)
    ensures forall i {:trigger TagDigitsMatch(s, tag, i)} :: 1 <= i && TagDigitsMatch(s, tag, i) ==> r == Some(i)
  {
    match TagDigitsAt(s, tag)
    case Some(i) => if i >= 1 then Some(i) else None
    case None => None
  }

  /** `re.sub(r"_aq$", "", stem)`. */
  function StripAq(stem: string): (r: string)
    ensures EndsWith(stem, "_aq") ==> stem == r + "_aq"
    ensures !EndsWith(stem, "_aq") ==> r == stem
  {
    if EndsWith(stem, "_aq") then stem[..|stem| - 3] else stem
  }

  /** In `stem + t + d` a tag whose last character differs from `t`'s does not match. */
  lemma OtherTagMisses(stem: string, t: string, d: string, u: string)
    requires ValidTag(t) && ValidTag(u) && IsDigitRun(d) && u[|u| - 1] != t[|t| - 1]
    ensures TagDigitsAt(stem + t + d, u).None?
  {
    var s := stem + t + d;
    TagAtJoin(stem, t, d);
    TagDigitsMatchPosition(s, t, |stem|);
    var k := TrailingDigitCount(s);
    assert s[..|s| - k] == stem + t;
    EndsWithLastCharImp(stem + t, u);
    assert (stem + t)[|stem + t| - 1] == t[|t| - 1];
  }
}
