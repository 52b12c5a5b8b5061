/**
 * `CompressScript/compress_video.py`: the stand-alone compressor that walks a source tree,
 * encodes every `.mp4` at one calibrated quality per hardware mode, and mirrors the tree
 * under a target root, never leaving an output larger than its original.
 *
 * The file system is a map from path to size; `os.walk` is its listing, given as a
 * sequence of directories relative to the source root; ffmpeg is an oracle from the
 * command line to what the run did.
 */
module CompressVideo {
  import opened Wrappers
  import opened Text
  import opened Argv
  import Paths
  import Encoders

  // ---------------------------------------------------------------------------
  // The command line
  // ---------------------------------------------------------------------------

  /** `build_ffmpeg_cmd(mode, input, output)`: the command for one file, or `ValueError`. */
  function BuildFfmpegCmd(mode: string, input: string, output: string): (r: Result<seq<string>>)
    ensures r.Ok? <==> mode in Encoders.EncoderNames
    ensures r.Err? ==> r.message == "Unknown mode: " + mode
  {
    if mode == "intel" then
      Ok(["ffmpeg", "-hwaccel", "qsv", "-hwaccel_output_format", "qsv", "-i", input,
          "-c:v", "hevc_qsv", "-vtag", "hvc1", "-preset", "veryslow",
          "-global_quality", "21", "-c:a", "copy", "-map_metadata", "0", "-y", output])
    else if mode == "nvidia" then
      Ok(["ffmpeg", "-i", input, "-c:v", "hevc_nvenc", "-vtag", "hvc1", "-preset", "p7",
          "-multipass", "fullres", "-rc", "constqp", "-qp", "24",
          "-c:a", "copy", "-map_metadata", "0", "-y", output])
    else if mode == "mac" then
      Ok(["ffmpeg", "-hwaccel", "videotoolbox", "-i", input, "-c:v", "hevc_videotoolbox",
          "-vtag", "hvc1", "-q:v", "58", "-c:a", "copy", "-map_metadata", "0", "-y", output])
    else Err("Unknown mode: " + mode)
  }

  /** The decimal renderings of the three calibrated qualities. */
  lemma CalibratedDigits()
    ensures IntToString(21) == "21" && IntToString(24) == "24" && IntToString(58) == "58"
  {
    assert NatToString(2) == "2" && NatToString(5) == "5";
    assert NatToString(21) == NatToString(2) + [DigitChar(1)];
    assert NatToString(24) == NatToString(2) + [DigitChar(4)];
    assert NatToString(58) == NatToString(5) + [DigitChar(8)];
  }

  /**
   * The script's command is the encoder profile's own argument list at that profile's
   * keyword default: 21 for Intel (not its search default 25), 24 for Nvidia, 58 for Mac.
   */
  lemma BuildCmdIsProfileDefault(mode: string, input: string, output: string)
    requires mode in Encoders.EncoderNames
    ensures Encoders.GetEncoder(mode).Ok?
    ensures var e := Encoders.GetEncoder(mode).value;
      BuildFfmpegCmd(mode, input, output)
        == Ok(Encoders.FfmpegArgs(e, input, output, Encoders.DefaultArgQuality(e)))
  {
    if mode == "intel" {
      IntelCmd(input, output);
    } else if mode == "nvidia" {
      NvidiaCmd(input, output);
    } else {
      MacCmd(input, output);
    }
  }

  lemma IntelCmd(input: string, output: string)
    ensures BuildFfmpegCmd("intel", input, output) == Ok(Encoders.FfmpegArgs(Encoders.Intel, input, output, 21))
  {
    CalibratedDigits();
    assert Encoders.CodecName(Encoders.Intel) == "hevc_qsv";
    assert Encoders.FfmpegArgs(Encoders.Intel, input, output, 21)
      == ["ffmpeg", "-hwaccel", "qsv", "-hwaccel_output_format", "qsv", "-i", input,
          "-c:v", "hevc_qsv", "-vtag", "hvc1", "-preset", "veryslow",
          "-global_quality", "21", "-c:a", "copy", "-map_metadata", "0", "-y", output];
  }

  lemma NvidiaCmd(input: string, output: string)
    ensures BuildFfmpegCmd("nvidia", input, output) == Ok(Encoders.FfmpegArgs(Encoders.Nvidia, input, output, 24))
  {
    CalibratedDigits();
    assert Encoders.CodecName(Encoders.Nvidia) == "hevc_nvenc";
    assert Encoders.FfmpegArgs(Encoders.Nvidia, input, output, 24)
      == ["ffmpeg", "-i", input, "-c:v", "hevc_nvenc", "-vtag", "hvc1", "-preset", "p7",
          "-multipass", "fullres", "-rc", "constqp", "-qp", "24",
          "-c:a", "copy", "-map_metadata", "0", "-y", output];
  }

  lemma MacCmd(input: string, output: string)
    ensures BuildFfmpegCmd("mac", input, output) == Ok(Encoders.FfmpegArgs(Encoders.Mac, input, output, 58))
  {
    CalibratedDigits();
    assert Encoders.CodecName(Encoders.Mac) == "hevc_videotoolbox";
    assert Encoders.FfmpegArgs(Encoders.Mac, input, output, 58)
      == ["ffmpeg", "-hwaccel", "videotoolbox", "-i", input, "-c:v", "hevc_videotoolbox",
          "-vtag", "hvc1", "-q:v", "58", "-c:a", "copy", "-map_metadata", "0", "-y", output];
  }

  /** Every mode: the input after `-i`, and the command ends with `-y` and the output. */
  lemma BuildCmdShape(mode: string, input: string, output: string)
    requires mode in Encoders.EncoderNames && NotAnOption(input)
    ensures BuildFfmpegCmd(mode, input, output).Ok?
    ensures var args := BuildFfmpegCmd(mode, input, output).value;
      args[0] == "ffmpeg" && ValueAfter(args, "-i") == Some(input) && EndsWithOverwrite(args, output)
  {
    BuildCmdIsProfileDefault(mode, input, output);
    var e := Encoders.GetEncoder(mode).value;
    Encoders.ArgsShape(e, input, output, Encoders.DefaultArgQuality(e));
  }

  /** The quality each mode sets: `-global_quality 21`, `-rc constqp -qp 24`, `-q:v 58`. */
  lemma BuildCmdQuality(mode: string, input: string, output: string)
    requires mode in Encoders.EncoderNames && NotAnOption(input)
    ensures BuildFfmpegCmd(mode, input, output).Ok?
    ensures var args := BuildFfmpegCmd(mode, input, output).value;
      (mode == "intel" ==> ValueAfter(args, "-global_quality") == Some("21"))
      && (mode == "nvidia" ==> ValueAfter(args, "-rc") == Some("constqp") && ValueAfter(args, "-qp") == Some("24"))
      && (mode == "mac" ==> ValueAfter(args, "-q:v") == Some("58"))
  {
    BuildCmdIsProfileDefault(mode, input, output);
    CalibratedDigits();
    if mode == "intel" {
      Encoders.IntelArgs(input, output, 21);
    } else if mode == "nvidia" {
      Encoders.NvidiaArgs(input, output, 24);
    } else {
      Encoders.MacArgs(input, output, 58);
    }
  }

  // ---------------------------------------------------------------------------
  // Which files are compressed, and where to
  // ---------------------------------------------------------------------------

  /** Path to size in bytes. */
  type Disk = map<string, nat>

  /** One directory of the walk: its path relative to the source root (`""` for the root) and its file names. */
  datatype WalkEntry = WalkEntry(rel: string, names: seq<string>)

  /** One file to compress. */
  datatype Job = Job(input: string, output: string)

  /** `root / relative_dir`, where the root itself is relative path `""`. */
  function DirOf(root: string, rel: string): string
  {
    if rel == [] then root else Paths.JoinPath(root, rel)
  }

  /** `current_dir == target_root or target_root in current_dir.parents`, on resolved paths. */
  predicate InsideTarget(dir: string, target: string)
  {
    dir == target || StartsWith(dir, if EndsWith(target, "/") then target else target + "/")
  }

  /** `name.lower().endswith(".mp4")`. */
  predicate IsMp4(name: string)
  {
    EndsWith(Lower(name), ".mp4")
  }

  /** The extension test ignores case. */
  lemma Mp4AnyCase(base: string)
    ensures IsMp4(base + ".mp4") && IsMp4(base + ".MP4") && IsMp4(base + ".Mp4")
    ensures !IsMp4(base + ".mov")
  {
    LowerConcat(base, ".mp4");
    LowerConcat(base, ".MP4");
    LowerConcat(base, ".Mp4");
    LowerConcat(base, ".mov");
    assert Lower(".MP4") == ".mp4" && Lower(".Mp4") == ".mp4" && Lower(".mov") == ".mov";
    var l := Lower(base + ".mov");
    assert l[|l| - 1] == 'v';
  }

  /** The files of one directory that are compressed, in listing order. */
  function DirJobs(sourceDir: string, targetDir: string, names: seq<string>): seq<Job>
  {
    if names == [] then []
    else if IsMp4(names[0]) then
      [Job(Paths.JoinPath(sourceDir, names[0]), Paths.JoinPath(targetDir, names[0]))]
        + DirJobs(sourceDir, targetDir, names[1..])
    else DirJobs(sourceDir, targetDir, names[1..])
  }

  /** Every file the walk compresses, directory by directory; the target tree is skipped. */
  function Jobs(source: string, target: string, walk: seq<WalkEntry>): seq<Job>
  {
    if walk == [] then []
    else
      var dir := DirOf(source, walk[0].rel);
      (if InsideTarget(dir, target) then []
       else DirJobs(dir, DirOf(target, walk[0].rel), walk[0].names))
      + Jobs(source, target, walk[1..])
  }

  /** `name` is a `.mp4` name of the directory and `job` reads and writes it. */
  predicate DirJob(sourceDir: string, targetDir: string, name: string, job: Job)
  {
    IsMp4(name) && job == Job(Paths.JoinPath(sourceDir, name), Paths.JoinPath(targetDir, name))
  }

  /** `job` compresses `name` of the walk entry `e`, whose directory lies outside the target. */
  predicate WalkJob(source: string, target: string, e: WalkEntry, name: string, job: Job)
  {
    !InsideTarget(DirOf(source, e.rel), target) && name in e.names
    && DirJob(DirOf(source, e.rel), DirOf(target, e.rel), name, job)
  }

  /** A directory's jobs are exactly its `.mp4` names, read from the source and written to the target. */
  lemma {:induction false} DirJobsMembers(sourceDir: string, targetDir: string, names: seq<string>, job: Job)
    ensures job in DirJobs(sourceDir, targetDir, names) <==>
      exists name :: name in names && DirJob(sourceDir, targetDir, name, job)
  {
    if names != [] {
      var n0 := names[0];
      var rest := DirJobs(sourceDir, targetDir, names[1..]);
      var here := if IsMp4(n0) then [Job(Paths.JoinPath(sourceDir, n0), Paths.JoinPath(targetDir, n0))] else [];
      assert DirJobs(sourceDir, targetDir, names) == here + rest;
      DirJobsMembers(sourceDir, targetDir, names[1..], job);
      if job in here + rest {
        if job in rest {
          var name :| name in names[1..] && DirJob(sourceDir, targetDir, name, job);
          assert name in names;
        } else {
          assert DirJob(sourceDir, targetDir, n0, job) && n0 in names;
        }
      }
      if exists name :: name in names && DirJob(sourceDir, targetDir, name, job) {
        var name :| name in names && DirJob(sourceDir, targetDir, name, job);
        if name == n0 {
          assert job in here;
        } else {
          assert name in names[1..];
          assert job in rest;
        }
      }
    }
  }

  /** The walk's jobs: `.mp4` names of directories outside the target, mirrored under the target. */
  lemma {:induction false} JobsMembers(source: string, target: string, walk: seq<WalkEntry>, job: Job)
    ensures job in Jobs(source, target, walk) <==>
      exists e, name :: e in walk && WalkJob(source, target, e, name, job)
  {
    if walk != [] {
      var e0 := walk[0];
      var dir := DirOf(source, e0.rel);
      var here := if InsideTarget(dir, target) then [] else DirJobs(dir, DirOf(target, e0.rel), e0.names);
      var rest := Jobs(source, target, walk[1..]);
      assert Jobs(source, target, walk) == here + rest;
      JobsMembers(source, target, walk[1..], job);
      DirJobsMembers(dir, DirOf(target, e0.rel), e0.names, job);
      if job in here + rest {
        if job in rest {
          var e, name :| e in walk[1..] && WalkJob(source, target, e, name, job);
          assert e in walk;
        } else {
          var name :| name in e0.names && DirJob(dir, DirOf(target, e0.rel), name, job);
          assert e0 in walk && WalkJob(source, target, e0, name, job);
        }
      }
      if exists e, name :: e in walk && WalkJob(source, target, e, name, job) {
        var e, name :| e in walk && WalkJob(source, target, e, name, job);
        if e == e0 {
          assert job in here;
        } else {
          assert e in walk[1..];
          assert job in rest;
        }
      }
    }
  }

  /** Every output lies strictly inside the target root. */
  lemma {:induction false} JobsWriteUnderTarget(source: string, target: string, walk: seq<WalkEntry>, job: Job)
    requires job in Jobs(source, target, walk)
    ensures StartsWith(job.output, target + "/")
  {
    JobsMembers(source, target, walk, job);
    var e, name :| e in walk && WalkJob(source, target, e, name, job);
    var p := target + "/";
    assert job.output[..|p|] == p;
  }

  // ---------------------------------------------------------------------------
  // Running the jobs
  // ---------------------------------------------------------------------------

  /** What one ffmpeg run did: fail, maybe leaving a partial output of some size, or write the output. */
  datatype RunOutcome = Failed(partial: Option<nat>) | Succeeded(size: nat)

  /**
   * One file: run ffmpeg; on failure move on with whatever it left; on success compare the
   * sizes and copy the original over an output that is not smaller. `stat` of a missing
   * input raises.
   */
  function CompressFile(disk: Disk, job: Job, mode: string, run: seq<string> -> RunOutcome): (r: Result<Disk>)
  {
    match BuildFfmpegCmd(mode, job.input, job.output)
    case Err(m) => Err(m)
    case Ok(cmd) =>
      match run(cmd)
      case Failed(None) => Ok(disk)
      case Failed(Some(n)) => Ok(disk[job.output := n])
      case Succeeded(n) =>
        var written := disk[job.output := n];
        if job.input !in written then Err("No such file: " + job.input)
        else if n >= written[job.input] then Ok(written[job.output := written[job.input]])
        else Ok(written)
  }

  /** The jobs in order; the first error ends the run. */
  function RunJobs(disk: Disk, jobs: seq<Job>, mode: string, run: seq<string> -> RunOutcome): Result<Disk>
    decreases |jobs|
  {
    if jobs == [] then Ok(disk)
    else match CompressFile(disk, jobs[0], mode, run)
      case Err(m) => Err(m)
      case Ok(d) => RunJobs(d, jobs[1..], mode, run)
  }

  lemma {:induction false} RunJobsConcat(disk: Disk, a: seq<Job>, b: seq<Job>, mode: string, run: seq<string> -> RunOutcome)
    ensures RunJobs(disk, a + b, mode, run) ==
      match RunJobs(disk, a, mode, run)
      case Err(m) => Err(m)
      case Ok(d) => RunJobs(d, b, mode, run)
    decreases |a|
  {
    if a == [] {
      assert a + b == b;
    } else {
      assert (a + b)[0] == a[0] && (a + b)[1..] == a[1..] + b;
      match CompressFile(disk, a[0], mode, run)
      case Err(m) =>
      case Ok(d) => RunJobsConcat(d, a[1..], b, mode, run);
    }
  }

  /** The inner loop of `compress_all_videos`: the `.mp4` files of one directory. */
  method CompressDir(disk: Disk, sourceDir: string, targetDir: string, names: seq<string>,
                     mode: string, run: seq<string> -> RunOutcome)
    returns (r: Result<Disk>)
    ensures r == RunJobs(disk, DirJobs(sourceDir, targetDir, names), mode, run)
  {
    var cur := disk;
    var j := 0;
    while j < |names|
      invariant 0 <= j <= |names|
      invariant RunJobs(disk, DirJobs(sourceDir, targetDir, names), mode, run)
        == RunJobs(cur, DirJobs(sourceDir, targetDir, names[j..]), mode, run)
    {
      assert names[j..][1..] == names[j + 1..];
      var name := names[j];
      if IsMp4(name) {
        var job := Job(Paths.JoinPath(sourceDir, name), Paths.JoinPath(targetDir, name));
        var step := CompressFile(cur, job, mode, run);
        if step.Err? {
          return Err(step.message);
        }
        cur := step.value;
      }
      j := j + 1;
    }
    return Ok(cur);
  }

  /** The walk from directory `i` on: that directory's jobs, then the rest. */
  lemma JobsStep(source: string, target: string, walk: seq<WalkEntry>, i: nat)
    requires i < |walk|
    ensures var dir := DirOf(source, walk[i].rel);
      Jobs(source, target, walk[i..]) ==
        (if InsideTarget(dir, target) then [] else DirJobs(dir, DirOf(target, walk[i].rel), walk[i].names))
        + Jobs(source, target, walk[i + 1..])
  {
    assert walk[i..][0] == walk[i];
    assert walk[i..][1..] == walk[i + 1..];
  }

  /** `compress_all_videos(source_root, target_root, mode)` over the walk of the source root. */
  method CompressAllVideos(disk: Disk, source: string, target: string, mode: string,
                           walk: seq<WalkEntry>, run: seq<string> -> RunOutcome)
    returns (r: Result<Disk>)
    ensures r == RunJobs(disk, Jobs(source, target, walk), mode, run)
  {
    var cur := disk;
    var i := 0;
    while i < |walk|
      invariant 0 <= i <= |walk|
      invariant RunJobs(disk, Jobs(source, target, walk), mode, run)
        == RunJobs(cur, Jobs(source, target, walk[i..]), mode, run)
    {
      JobsStep(source, target, walk, i);
      var dir := DirOf(source, walk[i].rel);
      if !InsideTarget(dir, target) {
        var here := DirJobs(dir, DirOf(target, walk[i].rel), walk[i].names);
        RunJobsConcat(cur, here, Jobs(source, target, walk[i + 1..]), mode, run);
        var step := CompressDir(cur, dir, DirOf(target, walk[i].rel), walk[i].names, mode, run);
        if step.Err? {
          return Err(step.message);
        }
        cur := step.value;
      } else {
        assert Jobs(source, target, walk[i..]) == Jobs(source, target, walk[i + 1..]);
      }
      i := i + 1;
    }
    return Ok(cur);
  }

  // ---------------------------------------------------------------------------
  // What a run guarantees
  // ---------------------------------------------------------------------------

  /**
   * A successful encode leaves the output at the smaller of the two sizes, so never larger
   * than the original, and the original itself is unchanged.
   */
  lemma CompressedNotLarger(disk: Disk, job: Job, mode: string, run: seq<string> -> RunOutcome)
    requires job.input != job.output && job.input in disk
    requires BuildFfmpegCmd(mode, job.input, job.output).Ok?
    requires run(BuildFfmpegCmd(mode, job.input, job.output).value).Succeeded?
    ensures CompressFile(disk, job, mode, run).Ok?
    ensures var d := CompressFile(disk, job, mode, run).value;
      var n := run(BuildFfmpegCmd(mode, job.input, job.output).value).size;
      job.output in d && d[job.output] <= d[job.input] == disk[job.input]
      && d[job.output] == (if n >= disk[job.input] then disk[job.input] else n)
  {
  }

  /** A failed encode removes nothing: an output already there, or a partial one, stays. */
  lemma FailedRunKeepsOutput(disk: Disk, job: Job, mode: string, run: seq<string> -> RunOutcome)
    requires BuildFfmpegCmd(mode, job.input, job.output).Ok?
    requires run(BuildFfmpegCmd(mode, job.input, job.output).value).Failed?
    ensures CompressFile(disk, job, mode, run).Ok?
    ensures var d := CompressFile(disk, job, mode, run).value;
      var p := run(BuildFfmpegCmd(mode, job.input, job.output).value).partial;
      (p.Some? ==> job.output in d && d[job.output] == p.value)
      && (p.None? ==> d == disk)
      && (forall x :: x in disk ==> x in d)
  {
  }

  /** Only the job's output path can change. */
  lemma CompressFileFrame(disk: Disk, job: Job, mode: string, run: seq<string> -> RunOutcome, x: string)
    requires CompressFile(disk, job, mode, run).Ok? && x != job.output
    ensures var d := CompressFile(disk, job, mode, run).value;
      (x in d <==> x in disk) && (x in disk ==> d[x] == disk[x])
  {
  }

  /** Paths that no job writes keep their presence and size. */
  lemma {:induction false} RunJobsFrame(disk: Disk, jobs: seq<Job>, mode: string, run: seq<string> -> RunOutcome, x: string)
    requires RunJobs(disk, jobs, mode, run).Ok?
    requires forall k :: 0 <= k < |jobs| ==> jobs[k].output != x
    ensures var d := RunJobs(disk, jobs, mode, run).value;
      (x in d <==> x in disk) && (x in disk ==> d[x] == disk[x])
    decreases |jobs|
  {
    if jobs != [] {
      CompressFileFrame(disk, jobs[0], mode, run, x);
      var d := CompressFile(disk, jobs[0], mode, run).value;
      RunJobsFrame(d, jobs[1..], mode, run, x);
    }
  }

  /** Nothing outside the target tree changes, the original videos included. */
  lemma SourceTreeUntouched(disk: Disk, source: string, target: string, mode: string,
                            walk: seq<WalkEntry>, run: seq<string> -> RunOutcome, x: string)
    requires RunJobs(disk, Jobs(source, target, walk), mode, run).Ok?
    requires !StartsWith(x, target + "/")
    ensures var d := RunJobs(disk, Jobs(source, target, walk), mode, run).value;
      (x in d <==> x in disk) && (x in disk ==> d[x] == disk[x])
  {
    var jobs := Jobs(source, target, walk);
    forall k | 0 <= k < |jobs| ensures jobs[k].output != x {
      JobsWriteUnderTarget(source, target, walk, jobs[k]);
    }
    RunJobsFrame(disk, jobs, mode, run, x);
  }

  /** An unknown mode raises at the first file to compress, and only if there is one. */
  lemma UnknownModeFails(disk: Disk, jobs: seq<Job>, mode: string, run: seq<string> -> RunOutcome)
    requires mode !in Encoders.EncoderNames
    ensures RunJobs(disk, jobs, mode, run) == if jobs == [] then Ok(disk) else Err("Unknown mode: " + mode)
  {
  }
}
