/**
 * `batch_nvidia_constqp.py`: every `.mp4` of the source directory encoded with
 * `hevc_nvenc` in constant-QP rate control at each `-qp` of an inclusive range, into
 * `<stem>_nvidia_qp<qp>.mp4`.
 */
module BatchConstQp {
  import opened Wrappers
  import opened Text
  import opened Paths
  import opened Argv
  import opened Sweep
  import Plotting

  /** The option pairs of `build_nvidia_constqp_cmd`, after the program name. */
  function CmdPairs(input: string, output: string, qp: int): seq<(string, string)>
  {
    [("-i", input), ("-c:v", "hevc_nvenc"), ("-vtag", "hvc1"), ("-rc", "constqp"),
     ("-preset", "p7"), ("-multipass", "fullres"), ("-qp", IntToString(qp)), ("-c:a", "copy"),
     ("-map_metadata", "0"), ("-y", output)]
  }

  /** `build_nvidia_constqp_cmd(input, output, qp)`. */
  function BuildCmd(input: string, output: string, qp: int): seq<string>
  {
    ["ffmpeg"] + Flatten(CmdPairs(input, output, qp))
  }

  /** No value of the vector can be taken for an option. */
  lemma Avoids(input: string, output: string, qp: int, flag: string)
    requires NotAnOption(input) && NotAnOption(output)
    requires NotNumberText(flag) && flag[0] == '-'
    ensures ValuesAvoid(CmdPairs(input, output, qp), flag)
  {
    IntToStringNot(qp, flag);
  }

  /**
   * ffmpeg reads every option with the value written after it: among them the
   * codec, the `constqp` rate control and the QP; the vector
   * ends with `-y` and the output.
   */
  lemma BuildCmdReads(input: string, output: string, qp: int)
    requires NotAnOption(input) && NotAnOption(output)
    ensures var pairs := CmdPairs(input, output, qp);
      forall i :: 0 <= i < |pairs| ==> ValueAfter(BuildCmd(input, output, qp), pairs[i].0) == Some(pairs[i].1)
    ensures var cmd := BuildCmd(input, output, qp);
      ValueAfter(cmd, "-i") == Some(input)
      && ValueAfter(cmd, "-c:v") == Some("hevc_nvenc")
      && ValueAfter(cmd, "-rc") == Some("constqp")
      && ValueAfter(cmd, "-qp") == Some(IntToString(qp))
      && EndsWithOverwrite(cmd, output)
  {
    var pairs := CmdPairs(input, output, qp);
    ReadsEveryPair(input, output, qp);
    assert pairs[0].0 == "-i" && pairs[1].0 == "-c:v" && pairs[3].0 == "-rc" && pairs[6].0 == "-qp";
    EndsWithLastPair("ffmpeg", pairs, output);
  }

  lemma ReadsEveryPair(input: string, output: string, qp: int)
    requires NotAnOption(input) && NotAnOption(output)
    ensures var pairs := CmdPairs(input, output, qp);
      forall i :: 0 <= i < |pairs| ==> ValueAfter(BuildCmd(input, output, qp), pairs[i].0) == Some(pairs[i].1)
  {
    var pairs := CmdPairs(input, output, qp);
    assert DistinctFlags(pairs);
    forall i | 0 <= i < |pairs|
      ensures ValueAfter(BuildCmd(input, output, qp), pairs[i].0) == Some(pairs[i].1)
    {
      Avoids(input, output, qp, pairs[i].0);
      ReadsPair("ffmpeg", pairs, i);
    }
  }

  /** `f"{stem}_nvidia_qp{qp}.mp4"`. */
  function OutName(stem: string, qp: int): string
  {
    stem + "_nvidia_qp" + IntToString(qp) + ".mp4"
  }

  /** The plotting reads an output back as an Nvidia (QP) point at its QP, for the right source. */
  lemma OutNameParses(dir: string, stem: string, qp: nat)
    requires stem != [] && forall j :: 0 <= j < |stem| ==> stem[j] != '/'
    ensures Plotting.ExtractInfo(JoinPath(dir, OutName(stem, qp))) == Plotting.Info("Nvidia (QP)", qp, stem, false)
  {
    assert OutName(stem, qp) == stem + Plotting.Patterns[4].tag + IntToString(qp) + (if false then "_aq" else "") + ".mp4";
    Plotting.ExtractInfoOfMp4(dir, stem, 4, qp, false);
  }

  /** The sweep's configuration for the two directories and ffmpeg's behaviour. */
  function ConfigOf(sourceDir: string, outputDir: string, ok: seq<string> -> bool): Config
  {
    Config(sourceDir, outputDir, OutName, BuildCmd, ok)
  }

  /** `compress_with_qp_range`: the nested loops over the sorted videos and the QPs. */
  method CompressWithQpRange(sourceDir: string, outputDir: string, qpMin: int, qpMax: int,
                             listing: seq<Entry>, files: set<string>, ok: seq<string> -> bool)
    returns (s: State)
    ensures s == Run(ConfigOf(sourceDir, outputDir, ok), State(files, []), Jobs(Videos(listing), qpMin, qpMax))
  {
    var videos := Videos(listing);
    s := RunAll(ConfigOf(sourceDir, outputDir, ok), files, videos, qpMin, qpMax);
  }

  /**
   * Every file the sweep creates is the output of a video at a QP of the range, and
   * the plotting reads it back as an Nvidia (QP) point at that QP.
   */
  lemma CreatedFilesParse(c: Config, files: set<string>, videos: seq<string>, qpMin: int, qpMax: int, out: string)
    requires c.name == OutName && PlainStems(videos) && 0 <= qpMin
    requires out in Run(c, State(files, []), Jobs(videos, qpMin, qpMax)).files && out !in files
    ensures exists j: Job ::
              && j.video in videos && qpMin <= j.q <= qpMax
              && Plotting.ExtractInfo(out) == Plotting.Info("Nvidia (QP)", j.q, Stem(j.video), false)
  {
    NewOutputs(c, files, videos, qpMin, qpMax, out);
    var j: Job :| j.video in videos && qpMin <= j.q <= qpMax && OutputPath(c, j) == out && c.ok(CommandOf(c, j));
    JobParses(c, j);
  }

  /** The output of one job of the sweep reads back at the job's value and stem. */
  lemma JobParses(c: Config, j: Job)
    requires c.name == OutName
    requires Stem(j.video) != [] && forall k :: 0 <= k < |Stem(j.video)| ==> Stem(j.video)[k] != '/'
    requires 0 <= j.q
    ensures Plotting.ExtractInfo(OutputPath(c, j)) == Plotting.Info("Nvidia (QP)", j.q, Stem(j.video), false)
  {
    OutNameParses(c.outDir, Stem(j.video), j.q);
  }

  /** `main`: the range check before the sweep. */
  function CheckRange(qpMin: int, qpMax: int): (r: Option<string>)
    ensures r.Some? <==> qpMin > qpMax
    ensures r.Some? ==> r.value == "qp-min 不能大于 qp-max"
  {
    Sweep.CheckRange(qpMin, qpMax, "qp-min 不能大于 qp-max")
  }
}
