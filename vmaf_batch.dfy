/**
 * The VMAF analyser's batch loop: the reference-stem cleaning, the reference-file lookup
 * and `process_files`, which gathers one result row per analysed file.
 */
module VmafBatch {
  import opened Wrappers
  import opened Text
  import opened Paths
  import opened SuffixMatch
  import opened Vmaf

  // ---------------------------------------------------------------------------
  // Reference lookup and the batch loop of process_files
  // ---------------------------------------------------------------------------

  /** The tags of `process_files`' suffix pattern (the `nvidia_qp` one may carry `_aq`). */
  const ReferenceTags: seq<string> := ["_intel_q", "_nvidia_qmax", "_nvidia_qp", "_mac_qv"]

  lemma ReferenceTagsValid()
    ensures ValidTags(ReferenceTags)
  {
  }

  /** The candidate's stem with one trailing parameter suffix removed. */
  function CleanStem(stem: string): (r: string)
    ensures StartsWith(stem, r)
    ensures |r| < |stem| ==> PatternMatch(stem, ReferenceTags, |r|)
    ensures forall i {:trigger PatternMatch(stem, ReferenceTags, i)} :: PatternMatch(stem, ReferenceTags, i) ==> |r| <= i
  {
    ReferenceTagsValid();
    StripPattern(stem, ReferenceTags)
  }

  /** An AQ candidate cleans to its source's stem. */
  lemma CleanStemAq(stem: string, qp: nat)
    ensures CleanStem(stem + "_nvidia_qp" + IntToString(qp) + "_aq") == stem
  {
    var d := IntToString(qp);
    var s := stem + "_nvidia_qp" + d + "_aq";
    ReferenceTagsValid();
    assert s[..|s| - 3] == stem + "_nvidia_qp" + d;
    assert EndsWith(s, AqTag);
    TagAtJoin(stem, "_nvidia_qp", d);
    assert AqMatch(s, |stem|);
    var r := CleanStem(s);
    assert |r| <= |stem|;
    assert PatternMatch(s, ReferenceTags, |r|);
    NoTagMatchWithoutDigitEnd(s, ReferenceTags, |r|);
    TagDigitsMatchPosition(s[..|s| - 3], QpTag, |r|);
    TagDigitsMatchPosition(s[..|s| - 3], QpTag, |stem|);
    assert r == s[..|stem|];
  }

  /** The reference extensions, in the order they are tried. */
  const ReferenceExtensions: seq<string> := [".mp4", ".mkv", ".mov", ".avi"]

  function ReferenceCandidate(refDir: string, cleanStem: string, i: nat): string
    requires i < |ReferenceExtensions|
  {
    JoinPath(refDir, cleanStem + ReferenceExtensions[i])
  }

  /** The first candidate that exists, trying the extensions in order. */
  function FirstReference(refDir: string, cleanStem: string, files: set<string>, from: nat): (r: Option<string>)
    requires from <= |ReferenceExtensions|
    ensures r.None? <==> forall i :: from <= i < |ReferenceExtensions| ==> ReferenceCandidate(refDir, cleanStem, i) !in files
    ensures r.Some? ==> r.value in files
    decreases |ReferenceExtensions| - from
  {
    if from == |ReferenceExtensions| then None
    else if ReferenceCandidate(refDir, cleanStem, from) in files then Some(ReferenceCandidate(refDir, cleanStem, from))
    else FirstReference(refDir, cleanStem, files, from + 1)
  }

  /** The extension loop with its `break`: the first existing candidate, or none. */
  method FindReference(refDir: string, cleanStem: string, files: set<string>) returns (r: Option<string>)
    ensures r == FirstReference(refDir, cleanStem, files, 0)
  {
    r := None;
    var i := 0;
    while i < |ReferenceExtensions|
      invariant 0 <= i <= |ReferenceExtensions|
      invariant forall j :: 0 <= j < i ==> ReferenceCandidate(refDir, cleanStem, j) !in files
      invariant FirstReference(refDir, cleanStem, files, 0) == FirstReference(refDir, cleanStem, files, i)
    {
      var candidate := ReferenceCandidate(refDir, cleanStem, i);
      if candidate in files {
        r := Some(candidate);
        return;
      }
      i := i + 1;
    }
  }

  /** The reference found is the candidate of the first extension that exists. */
  lemma {:induction false} FirstReferenceIsFirst(refDir: string, cleanStem: string, files: set<string>, from: nat)
    requires from <= |ReferenceExtensions|
    requires FirstReference(refDir, cleanStem, files, from).Some?
    ensures exists i :: (from <= i < |ReferenceExtensions|
      && FirstReference(refDir, cleanStem, files, from) == Some(ReferenceCandidate(refDir, cleanStem, i))
      && forall j :: from <= j < i ==> ReferenceCandidate(refDir, cleanStem, j) !in files)
    decreases |ReferenceExtensions| - from
  {
    if ReferenceCandidate(refDir, cleanStem, from) !in files {
      FirstReferenceIsFirst(refDir, cleanStem, files, from + 1);
    }
  }

  /** One row of the results table: `FileSpec`, `VMAF-Value`, `Bitrate`. */
  datatype ResultRow = ResultRow(fileSpec: string, vmaf: real, bitrate: real)

  const CsvHeader: seq<string> := ["FileSpec", "VMAF-Value", "Bitrate"]

  /** `_analyze_single`: a row only when both the score and the bit rate are known. */
  function AnalyzeSingle(compFile: string, vmaf: Option<real>, bitrate: Option<real>): (r: Option<ResultRow>)
    ensures r.Some? <==> vmaf.Some? && bitrate.Some?
    ensures r.Some? ==> r.value == ResultRow(Name(compFile), vmaf.value, bitrate.value)
  {
    if vmaf.Some? && bitrate.Some? then Some(ResultRow(Name(compFile), vmaf.value, bitrate.value)) else None
  }

  /** The row a candidate contributes: none without a reference, else `_analyze_single`'s. */
  function RowFor(refDir: string, compFile: string, files: set<string>,
                  vmafOf: (string, string) -> Option<real>, bitrateOf: string -> Option<real>): Option<ResultRow>
  {
    match FirstReference(refDir, CleanStem(Stem(Name(compFile))), files, 0)
    case None => None
    case Some(ref) => AnalyzeSingle(compFile, vmafOf(ref, compFile), bitrateOf(compFile))
  }

  /** The rows of the results table, in the order the candidates were given. */
  function ExpectedRows(refDir: string, compFiles: seq<string>, files: set<string>,
                        vmafOf: (string, string) -> Option<real>, bitrateOf: string -> Option<real>): (rows: seq<ResultRow>)
    ensures |rows| <= |compFiles|
  {
    if compFiles == [] then []
    else
      var init := ExpectedRows(refDir, compFiles[..|compFiles| - 1], files, vmafOf, bitrateOf);
      match RowFor(refDir, compFiles[|compFiles| - 1], files, vmafOf, bitrateOf)
      case None => init
      case Some(row) => init + [row]
  }

  lemma ExpectedRowsStep(refDir: string, compFiles: seq<string>, k: nat, files: set<string>,
                         vmafOf: (string, string) -> Option<real>, bitrateOf: string -> Option<real>)
    requires k < |compFiles|
    ensures ExpectedRows(refDir, compFiles[..k + 1], files, vmafOf, bitrateOf)
         == match RowFor(refDir, compFiles[k], files, vmafOf, bitrateOf)
            case None => ExpectedRows(refDir, compFiles[..k], files, vmafOf, bitrateOf)
            case Some(row) => ExpectedRows(refDir, compFiles[..k], files, vmafOf, bitrateOf) + [row]
  {
    assert compFiles[..k + 1][..k] == compFiles[..k];
  }

  /**
   * `process_files`: look up each candidate's reference, skip it when there is none,
   * analyse the rest, and keep the rows of those with both a score and a bit rate.
   * `vmafOf(ref, candidate)` and `bitrateOf(candidate)` stand for the two external tools.
   * Returns the table written to the CSV file, header first.
   */
  method ProcessFiles(refDir: string, compFiles: seq<string>, files: set<string>,
                      vmafOf: (string, string) -> Option<real>, bitrateOf: string -> Option<real>)
    returns (header: seq<string>, results: seq<ResultRow>, completedCount: nat)
    ensures header == CsvHeader
    ensures results == ExpectedRows(refDir, compFiles, files, vmafOf, bitrateOf)
    ensures completedCount == |results|
  {
    header := CsvHeader;
    results := [];
    completedCount := 0;
    var k := 0;
    while k < |compFiles|
      invariant 0 <= k <= |compFiles|
      invariant results == ExpectedRows(refDir, compFiles[..k], files, vmafOf, bitrateOf)
      invariant completedCount == |results|
    {
      var compFile := compFiles[k];
      ExpectedRowsStep(refDir, compFiles, k, files, vmafOf, bitrateOf);
      var cleanStem := CleanStem(Stem(Name(compFile)));
      var ref := FindReference(refDir, cleanStem, files);
      if ref.Some? {
        var res := AnalyzeSingle(compFile, vmafOf(ref.value, compFile), bitrateOf(compFile));
        if res.Some? {
          results := results + [res.value];
          completedCount := completedCount + 1;
        }
      }
      k := k + 1;
    }
    assert compFiles[..|compFiles|] == compFiles;
  }

  /** Every row names a candidate whose reference exists and for which both tools answered. */
  lemma {:induction false} ExpectedRowsSound(refDir: string, compFiles: seq<string>, files: set<string>,
                                             vmafOf: (string, string) -> Option<real>, bitrateOf: string -> Option<real>,
                                             row: ResultRow)
    requires row in ExpectedRows(refDir, compFiles, files, vmafOf, bitrateOf)
    ensures exists k :: 0 <= k < |compFiles| && RowFor(refDir, compFiles[k], files, vmafOf, bitrateOf) == Some(row)
  {
    var n := |compFiles| - 1;
    var init := compFiles[..n];
    var prev := ExpectedRows(refDir, init, files, vmafOf, bitrateOf);
    ExpectedRowsStep(refDir, compFiles, n, files, vmafOf, bitrateOf);
    assert compFiles[..n + 1] == compFiles;
    if row in prev {
      ExpectedRowsSound(refDir, init, files, vmafOf, bitrateOf, row);
      var k :| 0 <= k < |init| && RowFor(refDir, init[k], files, vmafOf, bitrateOf) == Some(row);
      assert compFiles[k] == init[k];
    } else {
      assert RowFor(refDir, compFiles[n], files, vmafOf, bitrateOf) == Some(row);
    }
  }

  /** A candidate without a reference in any of the four extensions contributes no row. */
  lemma NoReferenceNoRow(refDir: string, compFile: string, files: set<string>,
                         vmafOf: (string, string) -> Option<real>, bitrateOf: string -> Option<real>)
    requires forall i :: 0 <= i < |ReferenceExtensions| ==>
      ReferenceCandidate(refDir, CleanStem(Stem(Name(compFile))), i) !in files
    ensures RowFor(refDir, compFile, files, vmafOf, bitrateOf).None?
  {
  }
}
