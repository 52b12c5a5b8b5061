/**
 * `batch_nvidia_qmax.py`: every `.mp4` of the source directory encoded with
 * `hevc_nvenc` at `-cq 27 -qmin 0` and each `-qmax` of an inclusive range, into
 * `<stem>_nvidia_qmax<qmax>.mp4`.
 */
module BatchQmax {
  import opened Wrappers
  import opened Text
  import opened Paths
  import opened Argv
  import opened Sweep
  import Plotting

  /** The option pairs of `build_nvidia_cmd`, after the program name. */
  function CmdPairs(input: string, output: string, qmax: int): seq<(string, string)>
  {
    [("-i", input), ("-c:v", "hevc_nvenc"), ("-vtag", "hvc1"), ("-preset", "p7"),
     ("-multipass", "fullres"), ("-cq", "27"), ("-qmin", "0"), ("-qmax", IntToString(qmax)),
     ("-c:a", "copy"), ("-map_metadata", "0"), ("-y", output)]
  }

  /** `build_nvidia_cmd(input, output, qmax)`. */
  function BuildCmd(input: string, output: string, qmax: int): seq<string>
  {
    ["ffmpeg"] + Flatten(CmdPairs(input, output, qmax))
  }

  /** No value of the vector can be taken for an option. */
  lemma Avoids(input: string, output: string, qmax: int, flag: string)
    requires NotAnOption(input) && NotAnOption(output)
    requires NotNumberText(flag) && flag[0] == '-'
    ensures ValuesAvoid(CmdPairs(input, output, qmax), flag)
  {
    IntToStringNot(qmax, flag);
  }

  /**
   * ffmpeg reads every option with the value written after it: among them the
   * codec, the fixed `-cq 27` and `-qmin 0`, and the swept `-qmax`; the vector
   * ends with `-y` and the output.
   */
  lemma BuildCmdReads(input: string, output: string, qmax: int)
    requires NotAnOption(input) && NotAnOption(output)
    ensures var pairs := CmdPairs(input, output, qmax);
      forall i :: 0 <= i < |pairs| ==> ValueAfter(BuildCmd(input, output, qmax), pairs[i].0) == Some(pairs[i].1)
    ensures var cmd := BuildCmd(input, output, qmax);
      ValueAfter(cmd, "-i") == Some(input)
      && ValueAfter(cmd, "-c:v") == Some("hevc_nvenc")
      && ValueAfter(cmd, "-cq") == Some("27")
      && ValueAfter(cmd, "-qmin") == Some("0")
      && ValueAfter(cmd, "-qmax") == Some(IntToString(qmax))
      && EndsWithOverwrite(cmd, output)
  {
    var pairs := CmdPairs(input, output, qmax);
    ReadsEveryPair(input, output, qmax);
    assert pairs[0].0 == "-i" && pairs[1].0 == "-c:v" && pairs[5].0 == "-cq" && pairs[6].0 == "-qmin" && pairs[7].0 == "-qmax";
    EndsWithLastPair("ffmpeg", pairs, output);
  }

  lemma ReadsEveryPair(input: string, output: string, qmax: int)
    requires NotAnOption(input) && NotAnOption(output)
    ensures var pairs := CmdPairs(input, output, qmax);
      forall i :: 0 <= i < |pairs| ==> ValueAfter(BuildCmd(input, output, qmax), pairs[i].0) == Some(pairs[i].1)
  {
    var pairs := CmdPairs(input, output, qmax);
    assert DistinctFlags(pairs);
    forall i | 0 <= i < |pairs|
      ensures ValueAfter(BuildCmd(input, output, qmax), pairs[i].0) == Some(pairs[i].1)
    {
      Avoids(input, output, qmax, pairs[i].0);
      ReadsPair("ffmpeg", pairs, i);
    }
  }

  /** `f"{stem}_nvidia_qmax{qmax}.mp4"`. */
  function OutName(stem: string, qmax: int): string
  {
    stem + "_nvidia_qmax" + IntToString(qmax) + ".mp4"
  }

  /** The plotting reads an output back as an Nvidia (qmax) point at its qmax, for the right source. */
  lemma OutNameParses(dir: string, stem: string, qmax: nat)
    requires stem != [] && forall j :: 0 <= j < |stem| ==> stem[j] != '/'
    ensures Plotting.ExtractInfo(JoinPath(dir, OutName(stem, qmax))) == Plotting.Info("Nvidia (qmax)", qmax, stem, false)
  {
    assert OutName(stem, qmax) == stem + Plotting.Patterns[2].tag + IntToString(qmax) + (if false then "_aq" else "") + ".mp4";
    Plotting.ExtractInfoOfMp4(dir, stem, 2, qmax, false);
  }

  /** The sweep's configuration for the two directories and ffmpeg's behaviour. */
  function ConfigOf(sourceDir: string, outputDir: string, ok: seq<string> -> bool): Config
  {
    Config(sourceDir, outputDir, OutName, BuildCmd, ok)
  }

  /** `compress_with_qmax_range`: the nested loops over the sorted videos and the qmaxs. */
  method CompressWithQmaxRange(sourceDir: string, outputDir: string, qmaxMin: int, qmaxMax: int,
                               listing: seq<Entry>, files: set<string>, ok: seq<string> -> bool)
    returns (s: State)
    ensures s == Run(ConfigOf(sourceDir, outputDir, ok), State(files, []), Jobs(Videos(listing), qmaxMin, qmaxMax))
  {
    var videos := Videos(listing);
    s := RunAll(ConfigOf(sourceDir, outputDir, ok), files, videos, qmaxMin, qmaxMax);
  }

  /**
   * Every file the sweep creates is the output of a video at a qmax of the range, and
   * the plotting reads it back as an Nvidia (qmax) point at that qmax.
   */
  lemma CreatedFilesParse(c: Config, files: set<string>, videos: seq<string>, qmaxMin: int, qmaxMax: int, out: string)
    requires c.name == OutName && PlainStems(videos) && 0 <= qmaxMin
    requires out in Run(c, State(files, []), Jobs(videos, qmaxMin, qmaxMax)).files && out !in files
    ensures exists j: Job ::
              && j.video in videos && qmaxMin <= j.q <= qmaxMax
              && Plotting.ExtractInfo(out) == Plotting.Info("Nvidia (qmax)", j.q, Stem(j.video), false)
  {
    NewOutputs(c, files, videos, qmaxMin, qmaxMax, out);
    var j: Job :| j.video in videos && qmaxMin <= j.q <= qmaxMax && OutputPath(c, j) == out && c.ok(CommandOf(c, j));
    JobParses(c, j);
  }

  /** The output of one job of the sweep reads back at the job's value and stem. */
  lemma JobParses(c: Config, j: Job)
    requires c.name == OutName
    requires Stem(j.video) != [] && forall k :: 0 <= k < |Stem(j.video)| ==> Stem(j.video)[k] != '/'
    requires 0 <= j.q
    ensures Plotting.ExtractInfo(OutputPath(c, j)) == Plotting.Info("Nvidia (qmax)", j.q, Stem(j.video), false)
  {
    OutNameParses(c.outDir, Stem(j.video), j.q);
  }

  /** `main`: the range check before the sweep. */
  function CheckRange(qmaxMin: int, qmaxMax: int): (r: Option<string>)
    ensures r.Some? <==> qmaxMin > qmaxMax
    ensures r.Some? ==> r.value == "qmax-min 不能大于 qmax-max"
  {
    Sweep.CheckRange(qmaxMin, qmaxMax, "qmax-min 不能大于 qmax-max")
  }
}
