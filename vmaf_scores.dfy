/**
 * The stand-alone VMAF batch tool: the libvmaf command line and score search, the
 * collection of candidates to measure, and the merge of an existing results file with the
 * newly measured rows.
 *
 * ffmpeg and ffprobe are not run here: their outcomes arrive as parameters. The results
 * file is read and written as rows of cells.
 */
module VmafScores {
  import opened Wrappers
  import opened Text
  import opened Paths
  import opened SuffixMatch
  import Vmaf
  import opened VmafKeys
  import opened VmafOriginals
  import opened VmafResults

  // ---------------------------------------------------------------------------
  // run_vmaf
  // ---------------------------------------------------------------------------

  function RunVmafFilter(useNegModel: bool): (f: string)
    ensures f == "libvmaf" <==> !useNegModel
  {
    if useNegModel then "libvmaf=model=version=vmaf_v0.6.1neg" else "libvmaf"
  }

  /** The argv of `run_vmaf`: the distorted file as input 0, the reference as input 1. */
  function RunVmafArgs(ffmpegBin: string, distorted: string, reference: string, useNegModel: bool): seq<string>
  {
    [ffmpegBin, "-i", distorted, "-i", reference, "-lavfi", RunVmafFilter(useNegModel), "-f", "null", "-"]
  }

  /** The input order is the reverse of the analyser's, which passes the reference first. */
  lemma RunVmafArgsInputs(ffmpegBin: string, distorted: string, reference: string, useNegModel: bool)
    requires ffmpegBin != "-i" && distorted != "-i" && reference != "-i"
    ensures Vmaf.Inputs(RunVmafArgs(ffmpegBin, distorted, reference, useNegModel)) == [distorted, reference]
    ensures Vmaf.Inputs(Vmaf.VmafArgs(ffmpegBin, reference, distorted, useNegModel)) == [reference, distorted]
  {
    var f := RunVmafFilter(useNegModel);
    assert f[0] == 'l';
    Vmaf.TwoInputs(ffmpegBin, distorted, reference, "-lavfi", f);
    Vmaf.VmafArgsInputs(ffmpegBin, reference, distorted, useNegModel);
  }

  /**
   * `run_vmaf`'s outcome: `None` on a non-zero exit or when `VMAF score:\s*([0-9.]+)`
   * matches nowhere in the whole diagnostic text; otherwise `float` of the FIRST match
   * (a malformed number raises, and the row is dropped just as for `None`).
   */
  function RunVmaf(returnCode: int, stderrText: string): (r: Option<real>)
    ensures returnCode != 0 ==> r.None?
  {
    if returnCode != 0 then None
    else
      match Vmaf.ScoreSearch(stderrText, 0, false)
      case None => None
      case Some(text) => Vmaf.DecimalValue(text)
  }

  /** A clean exit reads the number captured at the leftmost place `VMAF score:` is followed by one. */
  lemma RunVmafLeftmost(stderrText: string, p: nat)
    requires Vmaf.ScoreMatchesAt(stderrText, p, false)
    requires forall q :: 0 <= q < p ==> !Vmaf.ScoreMatchesAt(stderrText, q, false)
    ensures RunVmaf(0, stderrText) == Vmaf.DecimalValue(Vmaf.ScoreAt(stderrText, p, false).value)
  {
    Vmaf.ScoreSearchLeftmost(stderrText, 0, p, false);
  }

  /** A clean exit yields no score when `VMAF score:` is followed by a number nowhere. */
  lemma RunVmafNoMatch(stderrText: string)
    requires forall p :: !Vmaf.ScoreMatchesAt(stderrText, p, false)
    ensures RunVmaf(0, stderrText).None?
  {
    Vmaf.ScoreSearchNoneIff(stderrText, 0, false);
  }

  /**
   * With two score lines the tool takes the first and the analyser the last.
   */
  lemma FirstScoreVersusLastScore(a: string, b: string)
    requires a != [] && b != [] && Vmaf.AllNumberChars(a) && Vmaf.AllNumberChars(b)
    ensures RunVmaf(0, "VMAF score: " + a + ("\n" + "VMAF score: " + b)) == Vmaf.DecimalValue(a)
    ensures Vmaf.ParseScore(["VMAF score: " + a, "VMAF score: " + b]) == Vmaf.DecimalValue(b)
  {
    Vmaf.ScoreSearchAtStart(a, "\n" + "VMAF score: " + b, false);
    Vmaf.ScoreTextOfScoreLine(b);
    Vmaf.ParseScoreLastWins(["VMAF score: " + a], "VMAF score: " + b);
    assert ["VMAF score: " + a] + ["VMAF score: " + b] == ["VMAF score: " + a, "VMAF score: " + b];
  }

  /** `process_one`: a row only when the bit rate and then the score are both known. */
  datatype Measured = Measured(fileSpec: string, vmaf: real, bitrate: real)

  function ProcessOne(fileSpec: string, bitrate: Option<real>, vmaf: Option<real>): (r: Option<Measured>)
    ensures r.Some? <==> bitrate.Some? && vmaf.Some?
    ensures r.Some? ==> r.value == Measured(fileSpec, vmaf.value, bitrate.value)
  {
    if bitrate.None? then None
    else if vmaf.None? then None
    else Some(Measured(fileSpec, vmaf.value, bitrate.value))
  }

  // ---------------------------------------------------------------------------
  // Collecting the work and writing the merged table
  // ---------------------------------------------------------------------------

  /** A candidate with its original. */
  datatype Task = Task(compFile: string, original: string)

  /**
   * The collecting loop: a candidate without an original is skipped, and so is one whose
   * key is already on file. A candidate's key is `normalize_filespec` of its path.
   */
  function Tasks(compFiles: seq<string>, refDir: string, files: set<string>, existingSpecs: set<string>): (ts: seq<Task>)
  {
    Collect(compFiles, PickFor(refDir, files, existingSpecs))
  }

  /** The candidates `pick` gives an original for, each paired with it, in order. */
  function Collect(compFiles: seq<string>, pick: string -> Option<string>): (ts: seq<Task>)
    ensures |ts| <= |compFiles|
  {
    if compFiles == [] then []
    else
      var init := Collect(compFiles[..|compFiles| - 1], pick);
      var comp := compFiles[|compFiles| - 1];
      match pick(comp)
      case None => init
      case Some(orig) => init + [Task(comp, orig)]
  }

  /** The choice the collecting loop makes for each candidate. */
  function PickFor(refDir: string, files: set<string>, existingSpecs: set<string>): string -> Option<string>
  {
    (comp: string) => OriginalFor(comp, refDir, files, existingSpecs)
  }

  /** The original a candidate is measured against, if it has one and its key is not on file. */
  function OriginalFor(comp: string, refDir: string, files: set<string>, existingSpecs: set<string>): Option<string>
  {
    match MatchOriginal(refDir, comp, files)
    case None => None
    case Some(orig) => if Normalize(comp) in existingSpecs then None else Some(orig)
  }

  /** A candidate gets a task exactly when it has an original and a key not yet on file. */
  lemma OriginalForSpec(comp: string, refDir: string, files: set<string>, existingSpecs: set<string>)
    ensures var r := OriginalFor(comp, refDir, files, existingSpecs);
      (r.Some? <==> MatchOriginal(refDir, comp, files).Some? && Normalize(comp) !in existingSpecs)
      && (r.Some? ==> r == MatchOriginal(refDir, comp, files) && r.value in files)
  {
  }

  /** Every collected task pairs one of the candidates with the original `pick` gives it. */
  lemma {:induction false} CollectSound(compFiles: seq<string>, pick: string -> Option<string>)
    ensures forall t :: t in Collect(compFiles, pick) ==> t.compFile in compFiles && pick(t.compFile) == Some(t.original)
  {
    if compFiles != [] {
      var init := compFiles[..|compFiles| - 1];
      var last := compFiles[|compFiles| - 1];
      CollectSound(init, pick);
      var prev := Collect(init, pick);
      var ts := Collect(compFiles, pick);
      assert ts == prev || (pick(last).Some? && ts == prev + [Task(last, pick(last).value)]);
      forall t | t in ts
        ensures t.compFile in compFiles && pick(t.compFile) == Some(t.original)
      {
        if t in prev {
          var j :| 0 <= j < |init| && init[j] == t.compFile;
          assert compFiles[j] == t.compFile;
        }
      }
    }
  }

  /** A candidate that `pick` gives an original is collected. */
  lemma {:induction false} CollectComplete(compFiles: seq<string>, pick: string -> Option<string>, comp: string)
    requires comp in compFiles && pick(comp).Some?
    ensures Task(comp, pick(comp).value) in Collect(compFiles, pick)
  {
    var init := compFiles[..|compFiles| - 1];
    if comp != compFiles[|compFiles| - 1] {
      assert comp in init by {
        var k :| 0 <= k < |compFiles| && compFiles[k] == comp;
        assert init[k] == comp;
      }
      CollectComplete(init, pick, comp);
    }
  }

  /**
   * The measuring tasks are exactly the candidates that have an original on disk and a key not yet on
   * file, each with that original.
   */
  lemma TasksExact(compFiles: seq<string>, refDir: string, files: set<string>, existingSpecs: set<string>, comp: string)
    requires comp in compFiles
    ensures var orig := MatchOriginal(refDir, comp, files);
      (exists t :: t in Tasks(compFiles, refDir, files, existingSpecs) && t.compFile == comp)
      <==> orig.Some? && Normalize(comp) !in existingSpecs
  {
    var pick := PickFor(refDir, files, existingSpecs);
    var ts := Tasks(compFiles, refDir, files, existingSpecs);
    OriginalForSpec(comp, refDir, files, existingSpecs);
    CollectSound(compFiles, pick);
    if pick(comp).Some? {
      CollectComplete(compFiles, pick, comp);
    }
    if exists t :: t in ts && t.compFile == comp {
      var t :| t in ts && t.compFile == comp;
      assert pick(comp) == Some(t.original);
    }
  }

  /** One more candidate adds its task, if it is given one. */
  lemma CollectStep(compFiles: seq<string>, k: nat, pick: string -> Option<string>)
    requires k < |compFiles|
    ensures Collect(compFiles[..k + 1], pick) ==
      match pick(compFiles[k])
      case None => Collect(compFiles[..k], pick)
      case Some(orig) => Collect(compFiles[..k], pick) + [Task(compFiles[k], orig)]
  {
    assert compFiles[..k + 1][..k] == compFiles[..k];
  }

  method CollectTasks(compFiles: seq<string>, refDir: string, files: set<string>, existingSpecs: set<string>)
    returns (tasks: seq<Task>)
    ensures tasks == Tasks(compFiles, refDir, files, existingSpecs)
  {
    var pick := PickFor(refDir, files, existingSpecs);
    tasks := [];
    var k := 0;
    while k < |compFiles|
      invariant 0 <= k <= |compFiles|
      invariant tasks == Collect(compFiles[..k], pick)
    {
      CollectStep(compFiles, k, pick);
      var orig := pick(compFiles[k]);
      if orig.Some? {
        tasks := tasks + [Task(compFiles[k], orig.value)];
      }
      k := k + 1;
    }
    assert compFiles[..|compFiles|] == compFiles;
  }

  /** The measured rows, in task order. */
  function MeasuredRows(tasks: seq<Task>, bitrateOf: string -> Option<real>, vmafRun: (string, string) -> (int, string)): (rows: seq<Measured>)
    ensures |rows| <= |tasks|
  {
    if tasks == [] then []
    else
      var init := MeasuredRows(tasks[..|tasks| - 1], bitrateOf, vmafRun);
      var t := tasks[|tasks| - 1];
      var run := vmafRun(t.compFile, t.original);
      match ProcessOne(Normalize(t.compFile), bitrateOf(t.compFile), RunVmaf(run.0, run.1))
      case None => init
      case Some(m) => init + [m]
  }

  /** The measuring loop: one `process_one` per task, keeping the rows it returns. */
  method MeasureAll(tasks: seq<Task>, bitrateOf: string -> Option<real>, vmafRun: (string, string) -> (int, string))
    returns (rows: seq<Measured>)
    ensures rows == MeasuredRows(tasks, bitrateOf, vmafRun)
  {
    rows := [];
    var k := 0;
    while k < |tasks|
      invariant 0 <= k <= |tasks|
      invariant rows == MeasuredRows(tasks[..k], bitrateOf, vmafRun)
    {
      var t := tasks[k];
      assert tasks[..k + 1][..k] == tasks[..k];
      var run := vmafRun(t.compFile, t.original);
      var result := ProcessOne(Normalize(t.compFile), bitrateOf(t.compFile), RunVmaf(run.0, run.1));
      if result.Some? {
        rows := rows + [result.value];
      }
      k := k + 1;
    }
    assert tasks[..|tasks|] == tasks;
  }

  /** A cell of the written file: text as read, or a number written with fixed decimals. */
  datatype Cell = Text(text: string) | Fixed(value: real, places: nat)

  const HeaderCells: seq<Cell> := [Text("FileSpec"), Text("VMAF-Value"), Text("Bitrate")]

  function ExistingCells(e: Existing): (rows: seq<seq<Cell>>)
    requires WellFormed(e)
    ensures |rows| == |e.order|
    ensures forall i :: 0 <= i < |rows| ==>
      rows[i] == [Text(e.order[i]), Text(e.values[e.order[i]].0), Text(e.values[e.order[i]].1)]
  {
    seq(|e.order|, i requires 0 <= i < |e.order| =>
      [Text(e.order[i]), Text(e.values[e.order[i]].0), Text(e.values[e.order[i]].1)])
  }

  function MeasuredCells(rows: seq<Measured>): (cells: seq<seq<Cell>>)
    ensures |cells| == |rows|
    ensures forall i :: 0 <= i < |rows| ==>
      cells[i] == [Text(rows[i].fileSpec), Fixed(rows[i].vmaf, 4), Fixed(rows[i].bitrate, 2)]
  {
    seq(|rows|, i requires 0 <= i < |rows| => [Text(rows[i].fileSpec), Fixed(rows[i].vmaf, 4), Fixed(rows[i].bitrate, 2)])
  }

  /** What `main` writes, or `None` when it returns without writing. */
  function Written(e: Existing, tasks: seq<Task>, rows: seq<Measured>): (r: Option<seq<seq<Cell>>>)
    requires WellFormed(e)
    ensures r.None? <==> tasks == [] || (rows == [] && e.order == [])
    ensures r.Some? ==> |r.value| == 1 + |e.order| + |rows| && r.value[0] == HeaderCells
    ensures r.Some? ==> r.value[1..1 + |e.order|] == ExistingCells(e)
    ensures r.Some? ==> r.value[1 + |e.order|..] == MeasuredCells(rows)
  {
    if tasks == [] then None
    else if rows == [] && e.order == [] then
      None
    else
      var table := [HeaderCells] + ExistingCells(e) + MeasuredCells(rows);
      assert table[1..1 + |e.order|] == ExistingCells(e);
      assert table[1 + |e.order|..] == MeasuredCells(rows);
      Some(table)
  }

  /**
   * `main` after argument parsing: read the results file if there is one (its rows, header
   * first), collect the measuring tasks, measure them and write the merged table. `Err` is the
   * `IndexError` a short row raises; `Ok(None)` means nothing was written.
   */
  method MergeResults(existingFile: Option<seq<seq<string>>>, compFiles: seq<string>, refDir: string, files: set<string>,
              bitrateOf: string -> Option<real>, vmafRun: (string, string) -> (int, string))
    returns (r: Result<Option<seq<seq<Cell>>>>)
    ensures existingFile.Some? && ResultsFile(existingFile.value).Err? ==> r.Err?
    ensures r.Ok? ==>
      var e := if existingFile.Some? then ResultsFile(existingFile.value).value else Existing([], map[]);
      var tasks := Tasks(compFiles, refDir, files, e.values.Keys);
      WellFormed(e) && r.value == Written(e, tasks, MeasuredRows(tasks, bitrateOf, vmafRun))
  {
    var e := Existing([], map[]);
    if existingFile.Some? {
      var read := ReadExisting(existingFile.value);
      if read.Err? {
        return Err(read.message);
      }
      e := read.value;
    }
    var tasks := CollectTasks(compFiles, refDir, files, e.values.Keys);
    if tasks == [] {
      return Ok(None);
    }
    var rows := MeasureAll(tasks, bitrateOf, vmafRun);
    if rows == [] && e.order == [] {
      return Ok(None);
    }
    return Ok(Some([HeaderCells] + ExistingCells(e) + MeasuredCells(rows)));
  }

}
