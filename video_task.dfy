/**
 * One video's adaptive quality search (`VideoTask` and the per-task steps of
 * `SmartScheduler`): each turn of the compression worker or of an analysis worker
 * takes a task, works on the files, and hands the video task on to one queue, finalizes
 * it, or raises.
 */
module VideoTasks {
  import opened Wrappers
  import opened Text
  import opened Paths
  import opened FileStore
  import opened Compressor
  import Encoders

  /** `VideoTask`: the fields the scheduler reads and updates. */
  datatype VideoTask = VideoTask(
    input: string, output: string,
    currentQ: int, stepDirection: int, minQ: int, maxQ: int,
    tempFile: Option<string>, bestEffortFile: Option<string>, bestEffortScore: real,
    srcSize: nat, attempts: nat)

  /** Where a turn leaves the video task. */
  datatype Next =
    | Compress  // back on the compression queue
    | Analyze   // on the analysis queue
    | Finished  // `_finalize_task` ran to the end
    | Lost      // a file operation raised: the worker thread ends with the video task unfinished

  datatype Turn = Turn(next: Next, task: VideoTask, disk: Disk)

  // ---------------------------------------------------------------------------
  // Paths next to the output
  // ---------------------------------------------------------------------------

  /** `output.with_name(f"{output.stem}{tag}{output.suffix}")`. */
  function Sibling(output: string, tag: string): string
  {
    WithName(output, Stem(Name(output)) + tag + Suffix(Name(output)))
  }

  /** The candidate encoded at quality `q`: `{stem}_temp_q{q}{suffix}`. */
  function TempPath(output: string, q: int): string
  {
    Sibling(output, "_temp_q" + IntToString(q))
  }

  /** The best candidate so far: `{stem}_best_effort{suffix}`. */
  function BestEffortPath(output: string): string
  {
    Sibling(output, "_best_effort")
  }

  /** A sibling is the output with `tag` inserted between its stem and its suffix. */
  lemma SiblingShape(output: string, tag: string)
    ensures var front := DirPart(output) + Stem(Name(output));
      && Sibling(output, tag) == front + tag + Suffix(Name(output))
      && output == front + Suffix(Name(output))
  {
    var dir, name := DirPart(output), Name(output);
    var stem, suffix := Stem(name), Suffix(name);
    DirPartName(output);
    StemSuffix(name);
    ConcatAssoc(dir, stem, suffix);
    ConcatAssoc(dir, stem + tag, suffix);
    ConcatAssoc(dir, stem, tag);
  }

  /** Inserting a non-empty tag changes a path; so does inserting tags that differ at their second character. */
  lemma InsertedApart(front: string, suffix: string, tag: string, other: string)
    requires |tag| >= 2 && |other| >= 2 && tag[1] != other[1]
    ensures front + tag + suffix != front + suffix
    ensures front + tag + suffix != front + other + suffix
  {
    assert (front + tag + suffix)[|front| + 1] == tag[1];
    assert (front + other + suffix)[|front| + 1] == other[1];
  }

  /** Siblings with tags that differ at their second character differ from each other and from the output. */
  lemma SiblingApart(output: string, tag: string, other: string)
    requires |tag| >= 2 && |other| >= 2 && tag[1] != other[1]
    ensures Sibling(output, tag) != output
    ensures Sibling(output, tag) != Sibling(output, other)
  {
    SiblingShape(output, tag);
    SiblingShape(output, other);
    InsertedApart(DirPart(output) + Stem(Name(output)), Suffix(Name(output)), tag, other);
  }

  /** The candidate, the best-effort file and the output are three different paths. */
  lemma SiblingsApart(output: string, q: int)
    ensures TempPath(output, q) != output
    ensures BestEffortPath(output) != output
    ensures TempPath(output, q) != BestEffortPath(output)
  {
    var tag := "_temp_q" + IntToString(q);
    assert tag[1] == 't';
    SiblingApart(output, tag, "_best_effort");
    SiblingApart(output, "_best_effort", tag);
  }

  // ---------------------------------------------------------------------------
  // Creating a task
  // ---------------------------------------------------------------------------

  /**
   * `_create_and_queue_task` for an existing input of `srcSize` bytes: the search starts
   * one step on the lower-quality side of the encoder's default.
   */
  function NewTask(e: Encoders.Encoder, input: string, output: string, srcSize: nat): VideoTask
  {
    var step := Encoders.QualityStep(e);
    var range := Encoders.QualityRangeOf(e);
    var startQ := if step > 0 then Encoders.DefaultQuality(e) - 1 else Encoders.DefaultQuality(e) + 1;
    VideoTask(input, output, startQ, step, range.lo, range.hi, None, None, -1.0, srcSize, 0)
  }

  // ---------------------------------------------------------------------------
  // The invariants of a queued task
  // ---------------------------------------------------------------------------

  /** The search parameters come from the encoder, and the only best-effort file is the output's. */
  ghost predicate Shaped(e: Encoders.Encoder, t: VideoTask)
  {
    && t.stepDirection == Encoders.QualityStep(e)
    && t.minQ == Encoders.QualityRangeOf(e).lo && t.maxQ == Encoders.QualityRangeOf(e).hi
    && (t.bestEffortFile.None? || t.bestEffortFile == Some(BestEffortPath(t.output)))
  }

  /** A task on the compression queue has not gone more than one step past its range. */
  ghost predicate Waiting(e: Encoders.Encoder, t: VideoTask)
  {
    && Shaped(e, t)
    && (t.stepDirection > 0 ==> t.currentQ <= t.maxQ + 1)
    && (t.stepDirection < 0 ==> t.currentQ >= t.minQ - 1)
  }

  /** A task on the analysis queue holds the candidate encoded at its in-range quality. */
  ghost predicate Encoded(e: Encoders.Encoder, t: VideoTask)
  {
    && Shaped(e, t)
    && t.minQ <= t.currentQ <= t.maxQ
    && t.tempFile == Some(TempPath(t.output, t.currentQ))
  }

  /** How many qualities are left before the search leaves its range. */
  function Budget(t: VideoTask): int
  {
    if t.stepDirection > 0 then t.maxQ + 1 - t.currentQ else t.currentQ - t.minQ + 1
  }

  /** Two snapshots of the same search: only quality, candidate and best effort may differ. */
  predicate SameSearch(a: VideoTask, b: VideoTask)
  {
    && a.input == b.input && a.output == b.output && a.srcSize == b.srcSize
    && a.stepDirection == b.stepDirection && a.minQ == b.minQ && a.maxQ == b.maxQ
  }

  /** The source is none of the files the search writes. */
  predicate PathsApart(t: VideoTask)
  {
    && t.input != t.output
    && t.input != TempPath(t.output, t.currentQ)
    && t.input != BestEffortPath(t.output)
  }

  /** A new task is ready for the compression queue, one step before the default quality. */
  lemma NewTaskWaiting(e: Encoders.Encoder, input: string, output: string, srcSize: nat)
    ensures var t := NewTask(e, input, output, srcSize);
      && Waiting(e, t)
      && t.currentQ + t.stepDirection == Encoders.DefaultQuality(e)
      && (t.stepDirection == 1 || t.stepDirection == -1)
      && t.minQ <= t.currentQ <= t.maxQ
      && t.tempFile.None? && t.bestEffortFile.None? && t.srcSize == srcSize
  {
    match e
    case Intel => Encoders.IntelProfile();
    case Nvidia => Encoders.NvidiaProfile();
    case Mac => Encoders.MacProfile();
  }

  // ---------------------------------------------------------------------------
  // Finalizing
  // ---------------------------------------------------------------------------

  /** Lines 255-263 of the scheduler: the best-effort file when asked for and present, else the source. */
  function FinalSource(d: Disk, t: VideoTask, useBestEffort: bool): string
  {
    if useBestEffort && t.bestEffortFile.Some? && t.bestEffortFile.value in d then t.bestEffortFile.value
    else t.input
  }

  /**
   * `_finalize_task`: delete the output, copy the source over it or move the best-effort
   * file onto it, then delete the best-effort file. `copy2` of a missing source raises.
   */
  function Finalize(d: Disk, t: VideoTask, useBestEffort: bool): (r: Turn)
    ensures r.task == t && (r.next == Finished || r.next == Lost)
  {
    var source := FinalSource(d, t, useBestEffort);
    var cleared := Remove(d, t.output);
    var placed := if source == t.input then Copy(cleared, t.input, t.output) else Rename(cleared, source, t.output);
    match placed
    case None => Turn(Lost, t, cleared)
    case Some(d1) => Turn(Finished, t, if t.bestEffortFile.Some? then Remove(d1, t.bestEffortFile.value) else d1)
  }

  /**
   * Finalizing fails only when it must copy a source that is missing (or is the output);
   * otherwise the output holds the chosen source's content, no best-effort file remains, and
   * no other file changes.
   */
  lemma FinalizeOutcome(d: Disk, t: VideoTask, useBestEffort: bool)
    requires t.bestEffortFile.None? || t.bestEffortFile == Some(BestEffortPath(t.output))
    ensures var r := Finalize(d, t, useBestEffort);
      var source := FinalSource(d, t, useBestEffort);
      && (r.next == Lost <==> source == t.input && (t.input !in d || t.input == t.output))
      && (r.next == Finished ==> source in d && t.output in r.disk && r.disk[t.output] == d[source])
      && (r.next == Finished && t.bestEffortFile.Some? ==> t.bestEffortFile.value !in r.disk)
      && AgreeOutside(r.disk, d, {t.output, BestEffortPath(t.output)})
  {
    SiblingsApart(t.output, 0);
  }

  // ---------------------------------------------------------------------------
  // A compression turn
  // ---------------------------------------------------------------------------

  /** `dst / src`, or 1.0 for an empty source. */
  function Ratio(dst: nat, src: nat): real
  {
    if src > 0 then dst as real / src as real else 1.0
  }

  /** The command a compression turn runs for the video task's current quality. */
  function TurnCommand(e: Encoders.Encoder, t: VideoTask): seq<string>
  {
    Command(e, t.input, TempPath(t.output, t.currentQ), t.currentQ)
  }

  /**
   * `_process_compression`, where `run` is what ffmpeg does with `TurnCommand(e, t)`:
   * finalize with the best effort once the quality has left the
   * range; skip an invalid quality; encode the candidate; retry one step further on
   * failure; finalize with the best effort when the candidate vanished; delete it and
   * finalize with the source when it is too large; otherwise pass it to the analysis.
   */
  function CompressionTurn(e: Encoders.Encoder, sizeLimit: real, d: Disk, t: VideoTask, run: FfmpegRun): Turn
  {
    if !(t.minQ <= t.currentQ <= t.maxQ) then Finalize(d, t, true)
    else if !Encoders.IsValidQuality(e, t.currentQ) then
      Turn(Compress, t.(currentQ := t.currentQ + t.stepDirection), d)
    else
      var temp := TempPath(t.output, t.currentQ);
      var t1 := t.(tempFile := Some(temp));
      var result := CompressWith(d, t.input, temp, run);
      var after := result.0;
      if !result.1 then Turn(Compress, t1.(currentQ := t.currentQ + t.stepDirection), after)
      else if temp !in after then Finalize(after, t1, true)
      else if Ratio(Size(after[temp]), t.srcSize) > sizeLimit then Finalize(Remove(after, temp), t1, false)
      else Turn(Analyze, t1, after)
  }

  /**
   * ffmpeg's run matters only when the quality is in range and valid and the source
   * exists: the candidate is encoded for no other quality.
   */
  lemma OnlyValidQualitiesEncoded(e: Encoders.Encoder, sizeLimit: real, d: Disk, t: VideoTask,
                                  run: FfmpegRun, other: FfmpegRun)
    requires !(t.minQ <= t.currentQ <= t.maxQ && Encoders.IsValidQuality(e, t.currentQ) && t.input in d)
    ensures CompressionTurn(e, sizeLimit, d, t, run) == CompressionTurn(e, sizeLimit, d, t, other)
  {
  }

  /**
   * Back on the compression queue means one step further in the video task's direction from an
   * in-range quality, with the same search; only the candidate's path may have changed
   * on disk (a raised encode can leave it behind).
   */
  lemma CompressionRequeued(e: Encoders.Encoder, sizeLimit: real, d: Disk, t: VideoTask,
                            run: FfmpegRun)
    ensures var r := CompressionTurn(e, sizeLimit, d, t, run);
      r.next == Compress ==>
        && t.minQ <= t.currentQ <= t.maxQ
        && r.task.currentQ == t.currentQ + t.stepDirection
        && SameSearch(r.task, t)
        && r.task.bestEffortFile == t.bestEffortFile && r.task.bestEffortScore == t.bestEffortScore
        && AgreeOutside(r.disk, d, {TempPath(t.output, t.currentQ)})
  {
    var r := CompressionTurn(e, sizeLimit, d, t, run);
    if !(t.minQ <= t.currentQ <= t.maxQ) {
      assert r == Finalize(d, t, true);
    } else if Encoders.IsValidQuality(e, t.currentQ) {
      var temp := TempPath(t.output, t.currentQ);
      var result := CompressWith(d, t.input, temp, run);
      CompressWithFrame(d, t.input, temp, run);
      if result.1 {
        assert r.next != Compress;
      } else {
        assert r.disk == result.0;
      }
    }
  }

  /**
   * On the analysis queue means: an in-range, valid quality was encoded with exit code 0,
   * the candidate is on disk with what ffmpeg wrote, and it is within the size limit.
   */
  lemma CompressionAnalyzed(e: Encoders.Encoder, sizeLimit: real, d: Disk, t: VideoTask,
                            run: FfmpegRun)
    ensures var r := CompressionTurn(e, sizeLimit, d, t, run);
      var temp := TempPath(t.output, t.currentQ);
      r.next == Analyze ==>
        && t.minQ <= t.currentQ <= t.maxQ && Encoders.IsValidQuality(e, t.currentQ)
        && r.task == t.(tempFile := Some(temp))
        && temp in r.disk && run == Exited(0, Some(r.disk[temp]))
        && Ratio(Size(r.disk[temp]), t.srcSize) <= sizeLimit
        && AgreeOutside(r.disk, d, {temp})
  {
    if t.input in d {
      CompressFileOutcome(d, t.input, TempPath(t.output, t.currentQ), run);
    }
  }

  /**
   * A candidate over the size limit is deleted and the output becomes a copy of the
   * source, whatever best effort the video task had; no best-effort file is left.
   */
  lemma SizeBreachFallsBackToSource(e: Encoders.Encoder, sizeLimit: real, d: Disk, t: VideoTask,
                                    run: FfmpegRun, c: Content)
    requires Shaped(e, t) && PathsApart(t) && t.input in d
    requires t.minQ <= t.currentQ <= t.maxQ && Encoders.IsValidQuality(e, t.currentQ)
    requires run == Exited(0, Some(c)) && Ratio(Size(c), t.srcSize) > sizeLimit
    ensures var r := CompressionTurn(e, sizeLimit, d, t, run);
      && r.next == Finished
      && r.disk[t.output] == d[t.input]
      && TempPath(t.output, t.currentQ) !in r.disk
      && (t.bestEffortFile.Some? ==> BestEffortPath(t.output) !in r.disk)
  {
    var temp := TempPath(t.output, t.currentQ);
    var after := CompressWith(d, t.input, temp, run).0;
    CompressFileOutcome(d, t.input, temp, run);
    var t1 := t.(tempFile := Some(temp));
    assert after == d[temp := c];
    assert CompressionTurn(e, sizeLimit, d, t, run) == Finalize(Remove(after, temp), t1, false);
    SiblingsApart(t.output, t.currentQ);
    FinalizeOutcome(Remove(after, temp), t1, false);
  }

  // ---------------------------------------------------------------------------
  // An analysis turn
  // ---------------------------------------------------------------------------

  /**
   * `_process_analysis` with the analyzer's score: no score deletes the candidate and
   * finalizes with the best effort; a score reaching the target moves the candidate onto
   * the output, deletes the best effort and finalizes with the source; a lower score makes
   * the candidate the new best effort and moves one step further.
   */
  function AnalysisTurn(targetVmaf: real, d: Disk, t: VideoTask, score: Option<real>): Turn
    requires t.tempFile.Some?
  {
    var temp := t.tempFile.value;
    match score
    case None => Finalize(Remove(d, temp), t, true)
    case Some(s) =>
      if s >= targetVmaf then
        var cleared := Remove(d, t.output);
        match Rename(cleared, temp, t.output)
        case None => Turn(Lost, t, cleared)
        case Some(placed) =>
          Finalize(if t.bestEffortFile.Some? then Remove(placed, t.bestEffortFile.value) else placed, t, false)
      else
        var bestEffort := BestEffortPath(t.output);
        var cleared := if t.bestEffortFile.Some? then Remove(d, t.bestEffortFile.value) else d;
        var t1 := t.(bestEffortFile := Some(bestEffort));
        match Rename(cleared, temp, bestEffort)
        case None => Turn(Lost, t1, cleared)
        case Some(moved) =>
          Turn(Compress, t1.(bestEffortScore := s, tempFile := None, currentQ := t.currentQ + t.stepDirection), moved)
  }

  /** No score: the candidate is gone and the video task is finalized with its best effort, if any. */
  lemma ScoreMissingFallsBack(e: Encoders.Encoder, targetVmaf: real, d: Disk, t: VideoTask)
    requires Encoded(e, t)
    ensures var r := AnalysisTurn(targetVmaf, d, t, None);
      var source := FinalSource(Remove(d, t.tempFile.value), t, true);
      && (r.next == Finished ==> t.tempFile.value !in r.disk && r.disk[t.output] == d[source])
      && (source != t.input ==> r.next == Finished && source == BestEffortPath(t.output))
  {
    SiblingsApart(t.output, t.currentQ);
    FinalizeOutcome(Remove(d, t.tempFile.value), t, true);
  }

  /**
   * Reaching the target does not keep the candidate: it is moved onto the output, and
   * finalizing with the default `use_best_effort=False` then copies the source over it.
   */
  lemma TargetMetKeepsSource(e: Encoders.Encoder, targetVmaf: real, d: Disk, t: VideoTask, s: real)
    requires Encoded(e, t) && PathsApart(t) && t.input in d && t.tempFile.value in d
    requires s >= targetVmaf
    ensures var r := AnalysisTurn(targetVmaf, d, t, Some(s));
      && r.next == Finished
      && r.disk[t.output] == d[t.input]
      && t.tempFile.value !in r.disk
      && (t.bestEffortFile.Some? ==> BestEffortPath(t.output) !in r.disk)
  {
    var temp := t.tempFile.value;
    SiblingsApart(t.output, t.currentQ);
    var cleared := Remove(d, t.output);
    var placed := Rename(cleared, temp, t.output).value;
    var d1 := if t.bestEffortFile.Some? then Remove(placed, t.bestEffortFile.value) else placed;
    FinalizeOutcome(d1, t, false);
  }

  /**
   * Below the target, the previous best effort is replaced by the candidate, the score
   * recorded is this one (not the best so far), the candidate slot is cleared and the
   * quality moves one step; only a missing candidate makes the rename raise.
   */
  lemma BelowTargetBecomesBestEffort(e: Encoders.Encoder, targetVmaf: real, d: Disk, t: VideoTask, s: real)
    requires Encoded(e, t) && s < targetVmaf
    ensures var r := AnalysisTurn(targetVmaf, d, t, Some(s));
      var temp := t.tempFile.value;
      var bestEffort := BestEffortPath(t.output);
      && (r.next == Lost <==> temp !in d)
      && (r.next != Lost ==>
            && r.next == Compress
            && r.task == t.(bestEffortFile := Some(bestEffort), bestEffortScore := s, tempFile := None,
                            currentQ := t.currentQ + t.stepDirection)
            && bestEffort in r.disk && r.disk[bestEffort] == d[temp] && temp !in r.disk
            && AgreeOutside(r.disk, d, {temp, bestEffort}))
  {
    SiblingsApart(t.output, t.currentQ);
  }

  // ---------------------------------------------------------------------------
  // What the turns preserve
  // ---------------------------------------------------------------------------

  /** Every encoder steps by one, so a quality in range leaves it after at most `Budget` steps. */
  lemma UnitStep(e: Encoders.Encoder)
    ensures Encoders.QualityStep(e) == 1 || Encoders.QualityStep(e) == -1
  {
  }

  /**
   * A compression turn keeps a requeued task waiting with a smaller budget, and hands the
   * analysis a task with its candidate at an in-range quality and the same budget.
   */
  lemma CompressionKeepsInvariant(e: Encoders.Encoder, sizeLimit: real, d: Disk, t: VideoTask,
                                  run: FfmpegRun)
    requires Waiting(e, t)
    ensures Budget(t) >= 0
    ensures var r := CompressionTurn(e, sizeLimit, d, t, run);
      && (r.next == Compress ==> Waiting(e, r.task) && Budget(r.task) < Budget(t))
      && (r.next == Analyze ==> Encoded(e, r.task) && Budget(r.task) == Budget(t))
  {
    UnitStep(e);
    CompressionRequeued(e, sizeLimit, d, t, run);
    CompressionAnalyzed(e, sizeLimit, d, t, run);
  }

  /** An analysis turn sends a task back to compression only one step further, still waiting. */
  lemma AnalysisKeepsInvariant(e: Encoders.Encoder, targetVmaf: real, d: Disk, t: VideoTask, score: Option<real>)
    requires Encoded(e, t)
    ensures Budget(t) >= 1
    ensures var r := AnalysisTurn(targetVmaf, d, t, score);
      && r.next != Analyze
      && (r.next == Compress ==> Waiting(e, r.task) && Budget(r.task) < Budget(t))
  {
    UnitStep(e);
    if score.Some? && score.value < targetVmaf {
      BelowTargetBecomesBestEffort(e, targetVmaf, d, t, score.value);
    }
  }
}
