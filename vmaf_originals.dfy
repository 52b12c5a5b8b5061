/**
 * The VMAF batch tool's lookup of a candidate's original from its name
 * (`match_original_from_name`).
 */
module VmafOriginals {
  import opened Wrappers
  import opened Text
  import opened Paths
  import opened SuffixMatch
  import VmafBatch

  // ---------------------------------------------------------------------------
  // match_original_from_name
  // ---------------------------------------------------------------------------

  /** The four `^(?P<base>.+)<tag>\d+$` patterns, by tag, in the order they are tried. */
  const OriginalTags: seq<string> := ["_intel_q", "_nvidia_qmax", "_nvidia_qp", "_mac_qv"]

  lemma OriginalTagsValid()
    ensures ValidTags(OriginalTags)
    ensures forall i, j :: 0 <= i < j < |OriginalTags| ==>
      OriginalTags[i][|OriginalTags[i]| - 1] != OriginalTags[j][|OriginalTags[j]| - 1]
  {
  }

  /** The base of the first pattern that matches, or `s` itself; `.+` makes the base non-empty. */
  function BaseFrom(s: string, tags: seq<string>): (r: string)
    requires ValidTags(tags)
    ensures StartsWith(s, r)
    ensures forall k :: 0 <= k < |tags| && TaggedSplit(s, tags[k]).Some? && FirstSplitAt(s, tags, k) ==>
      r == s[..TaggedSplit(s, tags[k]).value]
    ensures FirstSplitAt(s, tags, |tags|) ==> r == s
  {
    if tags == [] then s
    else
      match TaggedSplit(s, tags[0])
      case Some(i) =>
        assert forall k :: 1 <= k <= |tags| ==> !FirstSplitAt(s, tags, k);
        s[..i]
      case None =>
        assert forall k :: 1 <= k < |tags| ==> tags[1..][k - 1] == tags[k];
        assert forall k :: 1 <= k <= |tags| && FirstSplitAt(s, tags, k) ==> FirstSplitAt(s, tags[1..], k - 1);
        BaseFrom(s, tags[1..])
  }

  /** No pattern before the `k`-th matches `s`. */
  predicate FirstSplitAt(s: string, tags: seq<string>, k: nat)
    requires ValidTags(tags) && k <= |tags|
  {
    forall j :: 0 <= j < k ==> TaggedSplit(s, tags[j]).None?
  }

  /** A name no pattern matches, such as `clip_01`, is its own base. */
  lemma BaseFromNoMatch(s: string, tags: seq<string>)
    requires ValidTags(tags) && forall t :: t in tags ==> TaggedSplit(s, t).None?
    ensures BaseFrom(s, tags) == s
  {
    assert FirstSplitAt(s, tags, |tags|);
  }

  /** The stem the original is looked up by. */
  function BaseStem(stem: string): string
  {
    OriginalTagsValid();
    BaseFrom(StripAq(stem), OriginalTags)
  }

  /** The original's extensions, in the order they are tried. */
  const OriginalExtensions: seq<string> := [".mp4", ".MP4", ".mov", ".MOV"]

  /** The first of `candidates` that exists. */
  function FirstExisting(candidates: seq<string>, files: set<string>): (r: Option<string>)
    ensures r.None? <==> forall i :: 0 <= i < |candidates| ==> candidates[i] !in files
    ensures r.Some? ==> r.value in files && r.value in candidates
    ensures forall k :: 0 <= k < |candidates| && candidates[k] in files && NoneExistBefore(candidates, files, k) ==>
      r == Some(candidates[k])
  {
    if candidates == [] then None
    else if candidates[0] in files then Some(candidates[0])
    else
      var r := FirstExisting(candidates[1..], files);
      assert forall i :: 1 <= i < |candidates| ==> candidates[i] == candidates[1..][i - 1];
      r
  }

  /** None of the first `k` candidates exists. */
  predicate NoneExistBefore(candidates: seq<string>, files: set<string>, k: nat)
    requires k <= |candidates|
  {
    forall j :: 0 <= j < k ==> candidates[j] !in files
  }

  /** The paths tried for an original, in order. */
  function OriginalCandidates(refDir: string, baseStem: string): (r: seq<string>)
    ensures r == [JoinPath(refDir, baseStem + ".mp4"), JoinPath(refDir, baseStem + ".MP4"),
                  JoinPath(refDir, baseStem + ".mov"), JoinPath(refDir, baseStem + ".MOV")]
  {
    seq(|OriginalExtensions|, i requires 0 <= i < |OriginalExtensions| => JoinPath(refDir, baseStem + OriginalExtensions[i]))
  }

  /** `match_original_from_name(ref_dir, comp_file)`, with the files of `ref_dir` given. */
  function MatchOriginal(refDir: string, compFile: string, files: set<string>): (r: Option<string>)
    ensures r.Some? ==> r.value in files && r.value in OriginalCandidates(refDir, BaseStem(Stem(Name(compFile))))
    ensures r.None? <==>
      forall e :: e in OriginalExtensions ==> JoinPath(refDir, BaseStem(Stem(Name(compFile))) + e) !in files
    ensures forall k :: 0 <= k < |OriginalExtensions| && FirstExistingExtension(refDir, BaseStem(Stem(Name(compFile))), files, k) ==>
      r == Some(JoinPath(refDir, BaseStem(Stem(Name(compFile))) + OriginalExtensions[k]))
  {
    var base := BaseStem(Stem(Name(compFile)));
    var c := OriginalCandidates(refDir, base);
    assert forall k :: 0 <= k < |OriginalExtensions| ==> c[k] == JoinPath(refDir, base + OriginalExtensions[k]);
    assert forall k :: 0 <= k < |OriginalExtensions| && FirstExistingExtension(refDir, base, files, k) ==>
      c[k] in files && NoneExistBefore(c, files, k);
    FirstExisting(c, files)
  }

  /** `<base><extension>` exists for the `k`-th extension and for none before it. */
  predicate FirstExistingExtension(refDir: string, base: string, files: set<string>, k: nat)
    requires k < |OriginalExtensions|
  {
    JoinPath(refDir, base + OriginalExtensions[k]) in files
    && forall j :: 0 <= j < k ==> JoinPath(refDir, base + OriginalExtensions[j]) !in files
  }

  lemma {:induction false} BaseFromHits(s: string, tags: seq<string>, t: string, i: nat)
    requires ValidTags(tags) && t in tags && TagDigitsAt(s, t) == Some(i) && i >= 1
    requires forall u :: u in tags && u != t ==> TagDigitsAt(s, u).None?
    ensures BaseFrom(s, tags) == s[..i]
  {
    if tags[0] != t {
      BaseFromHits(s, tags[1..], t, i);
    }
  }

  /**
   * The names the batch scripts write lead back to the original's stem:
   * `<stem><tag><digits>` and `<stem><tag><digits>_aq` both give `<stem>`.
   */
  lemma BaseStemRoundTrip(stem: string, t: string, d: string, aq: bool)
    requires stem != [] && t in OriginalTags && IsDigitRun(d)
    ensures BaseStem(stem + t + d + (if aq then "_aq" else "")) == stem
  {
    OriginalTagsValid();
    var s := stem + t + d;
    var full := s + (if aq then "_aq" else "");
    assert StripAq(full) == s by {
      if aq {
        assert full[..|full| - 3] == s;
      } else {
        assert full == s;
        assert s[|s| - 1] == d[|d| - 1];
        EndsWithLastCharImp(s, "_aq");
      }
    }
    TagAtJoin(stem, t, d);
    forall u | u in OriginalTags && u != t ensures TagDigitsAt(s, u).None? {
      OtherTagMisses(stem, t, d, u);
    }
    BaseFromHits(s, OriginalTags, t, |stem|);
    assert s[..|stem|] == stem;
  }

  lemma {:induction false} BaseFromNoDigits(s: string, tags: seq<string>)
    requires ValidTags(tags) && TrailingDigitCount(s) == 0
    ensures BaseFrom(s, tags) == s
  {
    if tags != [] {
      BaseFromNoDigits(s, tags[1..]);
    }
  }

  /**
   * `_aq` is dropped from every stem here, with or without a parameter tag before it,
   * while the analyser's reference pattern keeps it unless it follows `_nvidia_qp<digits>`.
   */
  lemma AqStrippedEverywhere(x: string)
    requires x != [] && !IsDigit(x[|x| - 1])
    ensures BaseStem(x + "_aq") == x
    ensures VmafBatch.CleanStem(x + "_aq") == x + "_aq"
  {
    var s := x + "_aq";
    assert StripAq(s) == x by { assert s[..|s| - 3] == x; }
    OriginalTagsValid();
    BaseFromNoDigits(x, OriginalTags);
    VmafBatch.ReferenceTagsValid();
    forall i ensures !PatternMatch(s, VmafBatch.ReferenceTags, i) {
      NoTagMatchWithoutDigitEnd(s, VmafBatch.ReferenceTags, i);
      assert s[..|s| - |AqTag|] == x;
      NoTagMatchWithoutDigitEnd(x, [QpTag], i);
    }
  }
}
