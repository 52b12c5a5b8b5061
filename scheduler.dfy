/**
 * `SmartScheduler`: one compression worker and several analysis workers share two FIFO
 * queues of tasks. The model runs the workers one turn at a time, in an order chosen by
 * the environment; the files, ffmpeg and the VMAF analyzer are the environment too.
 */
module Scheduler {
  import opened Wrappers
  import opened FileStore
  import opened Compressor
  import opened VideoTasks
  import Encoders

  /** The work left in a queue: two turns per remaining quality of each task, plus `extra`. */
  function QueueWork(q: seq<VideoTask>, extra: int): int
  {
    if q == [] then 0 else 2 * Budget(q[0]) + extra + QueueWork(q[1..], extra)
  }

  lemma {:induction false} QueueWorkAppend(q: seq<VideoTask>, t: VideoTask, extra: int)
    ensures QueueWork(q + [t], extra) == QueueWork(q, extra) + 2 * Budget(t) + extra
  {
    if q != [] {
      assert (q + [t])[1..] == q[1..] + [t];
      QueueWorkAppend(q[1..], t, extra);
    }
  }

  lemma {:induction false} QueueWorkNonNegative(q: seq<VideoTask>, extra: int)
    requires extra >= 0 && forall i :: 0 <= i < |q| ==> Budget(q[i]) >= 0
    ensures QueueWork(q, extra) >= 0
  {
    if q != [] {
      QueueWorkNonNegative(q[1..], extra);
    }
  }

  ghost predicate AllWaiting(e: Encoders.Encoder, q: seq<VideoTask>)
  {
    forall i :: 0 <= i < |q| ==> Waiting(e, q[i])
  }

  ghost predicate AllEncoded(e: Encoders.Encoder, q: seq<VideoTask>)
  {
    forall i :: 0 <= i < |q| ==> Encoded(e, q[i])
  }

  /** Taking the head of the compression queue and placing the video task where its turn says keeps both queues valid and lowers the work. */
  lemma CompressionAdvance(e: Encoders.Encoder, comp: seq<VideoTask>, analyze: seq<VideoTask>, next: Next, task: VideoTask)
    requires comp != [] && AllWaiting(e, comp) && AllEncoded(e, analyze) && Budget(comp[0]) >= 0
    requires next == Compress ==> Waiting(e, task) && Budget(task) < Budget(comp[0])
    requires next == Analyze ==> Encoded(e, task) && Budget(task) == Budget(comp[0])
    ensures var comp' := comp[1..] + (if next == Compress then [task] else []);
      var analyze' := analyze + (if next == Analyze then [task] else []);
      && AllWaiting(e, comp') && AllEncoded(e, analyze')
      && |comp'| + |analyze'| + (if next == Finished || next == Lost then 1 else 0) == |comp| + |analyze|
      && QueueWork(comp', 2) + QueueWork(analyze', 1) < QueueWork(comp, 2) + QueueWork(analyze, 1)
  {
    var comp' := comp[1..] + (if next == Compress then [task] else []);
    var analyze' := analyze + (if next == Analyze then [task] else []);
    assert QueueWork(comp, 2) == 2 * Budget(comp[0]) + 2 + QueueWork(comp[1..], 2);
    if next == Compress {
      QueueWorkAppend(comp[1..], task, 2);
      assert analyze' == analyze;
    } else if next == Analyze {
      QueueWorkAppend(analyze, task, 1);
      assert comp' == comp[1..];
    } else {
      assert comp' == comp[1..] && analyze' == analyze;
    }
  }

  /** The same for the head of the analysis queue, which never returns to that queue. */
  lemma AnalysisAdvance(e: Encoders.Encoder, comp: seq<VideoTask>, analyze: seq<VideoTask>, next: Next, task: VideoTask)
    requires analyze != [] && AllWaiting(e, comp) && AllEncoded(e, analyze) && Budget(analyze[0]) >= 1
    requires next != Analyze
    requires next == Compress ==> Waiting(e, task) && Budget(task) < Budget(analyze[0])
    ensures var comp' := comp + (if next == Compress then [task] else []);
      && AllWaiting(e, comp') && AllEncoded(e, analyze[1..])
      && |comp'| + |analyze[1..]| + (if next == Finished || next == Lost then 1 else 0) == |comp| + |analyze|
      && QueueWork(comp', 2) + QueueWork(analyze[1..], 1) < QueueWork(comp, 2) + QueueWork(analyze, 1)
  {
    var comp' := comp + (if next == Compress then [task] else []);
    assert QueueWork(analyze, 1) == 2 * Budget(analyze[0]) + 1 + QueueWork(analyze[1..], 1);
    if next == Compress {
      QueueWorkAppend(comp, task, 2);
    } else {
      assert comp' == comp;
    }
  }

  /** The video tasks `start` creates, in order: one per pair whose input exists. */
  function NewTasks(e: Encoders.Encoder, d: Disk, videos: seq<(string, string)>): (r: seq<VideoTask>)
    ensures |r| <= |videos|
  {
    if videos == [] then []
    else
      var last := videos[|videos| - 1];
      NewTasks(e, d, videos[..|videos| - 1])
      + (if last.0 in d then [NewTask(e, last.0, last.1, Size(d[last.0]))] else [])
  }

  /** A task is created exactly for each listed pair whose input exists, sized from that input. */
  lemma {:induction false} NewTasksMembers(e: Encoders.Encoder, d: Disk, videos: seq<(string, string)>, t: VideoTask)
    ensures t in NewTasks(e, d, videos) <==>
      exists i :: 0 <= i < |videos| && videos[i].0 in d && t == NewTask(e, videos[i].0, videos[i].1, Size(d[videos[i].0]))
  {
    if videos != [] {
      var front := videos[..|videos| - 1];
      NewTasksMembers(e, d, front, t);
      if t in NewTasks(e, d, front) {
        var i :| 0 <= i < |front| && front[i].0 in d && t == NewTask(e, front[i].0, front[i].1, Size(d[front[i].0]));
        assert videos[i] == front[i];
      }
      if exists i :: 0 <= i < |videos| && videos[i].0 in d && t == NewTask(e, videos[i].0, videos[i].1, Size(d[videos[i].0])) {
        var i :| 0 <= i < |videos| && videos[i].0 in d && t == NewTask(e, videos[i].0, videos[i].1, Size(d[videos[i].0]));
        if i < |front| {
          assert front[i] == videos[i];
        }
      }
    }
  }

  class SmartScheduler {
    const encoder: Encoders.Encoder
    const targetVmaf: real
    const sizeLimit: real
    var compQueue: seq<VideoTask>
    var analyzeQueue: seq<VideoTask>
    var activeTasksCount: int
    var disk: Disk
    /** Tasks whose worker raised: never finalized, so never subtracted from the count. */
    ghost var lost: nat

    /**
     * `active_tasks_count` counts the unfinished tasks; the compression queue holds waiting
     * tasks and the analysis queue tasks with an in-range candidate.
     */
    ghost predicate Valid()
      reads this
    {
      && activeTasksCount == |compQueue| + |analyzeQueue| + lost
      && AllWaiting(encoder, compQueue)
      && AllEncoded(encoder, analyzeQueue)
    }

    /** Every turn lowers this, so the queues drain. */
    ghost function Work(): int
      reads this
    {
      QueueWork(compQueue, 2) + QueueWork(analyzeQueue, 1)
    }

    lemma WorkNonNegative()
      requires Valid()
      ensures Work() >= 0
    {
      forall i | 0 <= i < |compQueue| ensures Budget(compQueue[i]) >= 0 {
        assert Waiting(encoder, compQueue[i]);
        UnitStep(encoder);
      }
      forall i | 0 <= i < |analyzeQueue| ensures Budget(analyzeQueue[i]) >= 0 {
        assert Encoded(encoder, analyzeQueue[i]);
      }
      QueueWorkNonNegative(compQueue, 2);
      QueueWorkNonNegative(analyzeQueue, 1);
    }

    /** `SmartScheduler(compressor, vmaf, target_vmaf, size_limit)` over the files on disk. */
    constructor(encoder: Encoders.Encoder, targetVmaf: real, sizeLimit: real, disk: Disk)
      ensures Valid()
      ensures this.encoder == encoder && this.targetVmaf == targetVmaf && this.sizeLimit == sizeLimit
      ensures compQueue == [] && analyzeQueue == [] && activeTasksCount == 0 && this.disk == disk && lost == 0
    {
      this.encoder := encoder;
      this.targetVmaf := targetVmaf;
      this.sizeLimit := sizeLimit;
      compQueue := [];
      analyzeQueue := [];
      activeTasksCount := 0;
      this.disk := disk;
      lost := 0;
    }

    /** `_create_and_queue_task`: nothing for a missing input; otherwise one more active task. */
    method CreateAndQueueTask(input: string, output: string)
      requires Valid()
      modifies this
      ensures Valid()
      ensures disk == old(disk) && analyzeQueue == old(analyzeQueue) && lost == old(lost)
      ensures input !in disk ==> compQueue == old(compQueue) && activeTasksCount == old(activeTasksCount)
      ensures input in disk ==>
        && compQueue == old(compQueue) + [NewTask(encoder, input, output, Size(disk[input]))]
        && activeTasksCount == old(activeTasksCount) + 1
    {
      if input !in disk {
        return;
      }
      var task := NewTask(encoder, input, output, Size(disk[input]));
      NewTaskWaiting(encoder, input, output, Size(disk[input]));
      activeTasksCount := activeTasksCount + 1;
      compQueue := compQueue + [task];
    }

    /** The loop of `start` over the pairs: one task per existing input, in order. */
    method QueueAll(videos: seq<(string, string)>)
      requires Valid()
      modifies this
      ensures Valid()
      ensures disk == old(disk) && analyzeQueue == old(analyzeQueue) && lost == old(lost)
      ensures compQueue == old(compQueue) + NewTasks(encoder, disk, videos)
      ensures activeTasksCount == old(activeTasksCount) + |NewTasks(encoder, disk, videos)|
    {
      var i := 0;
      while i < |videos|
        invariant 0 <= i <= |videos| && Valid()
        invariant disk == old(disk) && analyzeQueue == old(analyzeQueue) && lost == old(lost)
        invariant compQueue == old(compQueue) + NewTasks(encoder, disk, videos[..i])
        invariant activeTasksCount == old(activeTasksCount) + |NewTasks(encoder, disk, videos[..i])|
      {
        assert videos[..i + 1][..i] == videos[..i];
        CreateAndQueueTask(videos[i].0, videos[i].1);
        i := i + 1;
      }
      assert videos[..i] == videos;
    }

    /** One turn of the compression worker on the video task at the head of its queue. */
    method ProcessCompression(run: FfmpegRun)
      requires Valid() && compQueue != []
      modifies this
      ensures Valid() && Work() < old(Work())
      ensures var turn := CompressionTurn(encoder, sizeLimit, old(disk), old(compQueue[0]), run);
        && disk == turn.disk
        && compQueue == old(compQueue[1..]) + (if turn.next == Compress then [turn.task] else [])
        && analyzeQueue == old(analyzeQueue) + (if turn.next == Analyze then [turn.task] else [])
        && activeTasksCount == old(activeTasksCount) - (if turn.next == Finished then 1 else 0)
        && lost == old(lost) + (if turn.next == Lost then 1 else 0)
    {
      var task := compQueue[0];
      var turn := CompressionTurn(encoder, sizeLimit, disk, task, run);
      CompressionKeepsInvariant(encoder, sizeLimit, disk, task, run);
      CompressionAdvance(encoder, compQueue, analyzeQueue, turn.next, turn.task);
      compQueue := compQueue[1..] + (if turn.next == Compress then [turn.task] else []);
      analyzeQueue := analyzeQueue + (if turn.next == Analyze then [turn.task] else []);
      disk := turn.disk;
      activeTasksCount := activeTasksCount - (if turn.next == Finished then 1 else 0);
      lost := lost + (if turn.next == Lost then 1 else 0);
    }

    /** One turn of an analysis worker on the video task at the head of its queue, with the analyzer's score. */
    method ProcessAnalysis(score: Option<real>)
      requires Valid() && analyzeQueue != []
      modifies this
      ensures Valid() && Work() < old(Work())
      ensures var turn := AnalysisTurn(targetVmaf, old(disk), old(analyzeQueue[0]), score);
        && disk == turn.disk
        && compQueue == old(compQueue) + (if turn.next == Compress then [turn.task] else [])
        && analyzeQueue == old(analyzeQueue[1..])
        && activeTasksCount == old(activeTasksCount) - (if turn.next == Finished then 1 else 0)
        && lost == old(lost) + (if turn.next == Lost then 1 else 0)
    {
      var task := analyzeQueue[0];
      var turn := AnalysisTurn(targetVmaf, disk, task, score);
      AnalysisKeepsInvariant(encoder, targetVmaf, disk, task, score);
      AnalysisAdvance(encoder, compQueue, analyzeQueue, turn.next, turn.task);
      compQueue := compQueue + (if turn.next == Compress then [turn.task] else []);
      analyzeQueue := analyzeQueue[1..];
      disk := turn.disk;
      activeTasksCount := activeTasksCount - (if turn.next == Finished then 1 else 0);
      lost := lost + (if turn.next == Lost then 1 else 0);
    }

    /**
     * The workers until both queues are empty: `preferAnalysis(n)` says which worker takes
     * turn `n` when both have work. The count then equals the video tasks lost to an exception,
     * so `start`'s wait for a zero count ends exactly when none was lost.
     */
    method Drain(ffmpeg: seq<string> -> FfmpegRun, vmaf: (Disk, string, string) -> Option<real>,
                 preferAnalysis: nat -> bool)
      requires Valid()
      modifies this
      ensures Valid() && compQueue == [] && analyzeQueue == [] && activeTasksCount == lost
      ensures lost >= old(lost)
    {
      var n: nat := 0;
      WorkNonNegative();
      while compQueue != [] || analyzeQueue != []
        invariant Valid() && Work() >= 0 && lost >= old(lost)
        decreases Work()
      {
        if analyzeQueue != [] && (compQueue == [] || preferAnalysis(n)) {
          var task := analyzeQueue[0];
          assert Encoded(encoder, task);
          ProcessAnalysis(vmaf(disk, task.input, task.tempFile.value));
        } else {
          ProcessCompression(ffmpeg(TurnCommand(encoder, compQueue[0])));
        }
        WorkNonNegative();
        n := n + 1;
      }
    }

    /** `start(videos)`: nothing for an empty list; otherwise queue the video tasks and run the workers dry. */
    method Start(videos: seq<(string, string)>, ffmpeg: seq<string> -> FfmpegRun,
                 vmaf: (Disk, string, string) -> Option<real>, preferAnalysis: nat -> bool)
      requires Valid()
      modifies this
      ensures Valid()
      ensures videos == [] ==>
        && compQueue == old(compQueue) && analyzeQueue == old(analyzeQueue)
        && activeTasksCount == old(activeTasksCount) && disk == old(disk)
      ensures videos != [] ==> compQueue == [] && analyzeQueue == [] && activeTasksCount == lost
    {
      if videos == [] {
        return;
      }
      QueueAll(videos);
      Drain(ffmpeg, vmaf, preferAnalysis);
    }
  }
}
