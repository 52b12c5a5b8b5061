/**
 * `batch_mac_qv.py`: every `.mp4` of the source directory encoded with
 * `hevc_videotoolbox` at each `-q:v` of an inclusive range, into `<stem>_mac_qv<qv>.mp4`.
 */
module BatchMac {
  import opened Wrappers
  import opened Text
  import opened Paths
  import opened Argv
  import opened Sweep
  import Plotting

  /** The option pairs of `build_mac_cmd`, after the program name. */
  function CmdPairs(input: string, output: string, qv: int): seq<(string, string)>
  {
    [("-hwaccel", "videotoolbox"), ("-i", input), ("-c:v", "hevc_videotoolbox"), ("-vtag", "hvc1"),
     ("-q:v", IntToString(qv)), ("-c:a", "copy"), ("-map_metadata", "0"), ("-y", output)]
  }

  /** `build_mac_cmd(input, output, qv)`. */
  function BuildCmd(input: string, output: string, qv: int): seq<string>
  {
    ["ffmpeg"] + Flatten(CmdPairs(input, output, qv))
  }

  /** No value of the vector can be taken for an option. */
  lemma Avoids(input: string, output: string, qv: int, flag: string)
    requires NotAnOption(input) && NotAnOption(output)
    requires NotNumberText(flag) && flag[0] == '-'
    ensures ValuesAvoid(CmdPairs(input, output, qv), flag)
  {
    IntToStringNot(qv, flag);
  }

  /**
   * ffmpeg reads every option with the value written after it: among them the
   * VideoToolbox decoder, the codec and the quality; the vector
   * ends with `-y` and the output.
   */
  lemma BuildCmdReads(input: string, output: string, qv: int)
    requires NotAnOption(input) && NotAnOption(output)
    ensures var pairs := CmdPairs(input, output, qv);
      forall i :: 0 <= i < |pairs| ==> ValueAfter(BuildCmd(input, output, qv), pairs[i].0) == Some(pairs[i].1)
    ensures var cmd := BuildCmd(input, output, qv);
      ValueAfter(cmd, "-hwaccel") == Some("videotoolbox")
      && ValueAfter(cmd, "-i") == Some(input)
      && ValueAfter(cmd, "-c:v") == Some("hevc_videotoolbox")
      && ValueAfter(cmd, "-q:v") == Some(IntToString(qv))
      && EndsWithOverwrite(cmd, output)
  {
    var pairs := CmdPairs(input, output, qv);
    ReadsEveryPair(input, output, qv);
    assert pairs[0].0 == "-hwaccel" && pairs[1].0 == "-i" && pairs[2].0 == "-c:v" && pairs[4].0 == "-q:v";
    EndsWithLastPair("ffmpeg", pairs, output);
  }

  lemma ReadsEveryPair(input: string, output: string, qv: int)
    requires NotAnOption(input) && NotAnOption(output)
    ensures var pairs := CmdPairs(input, output, qv);
      forall i :: 0 <= i < |pairs| ==> ValueAfter(BuildCmd(input, output, qv), pairs[i].0) == Some(pairs[i].1)
  {
    var pairs := CmdPairs(input, output, qv);
    assert DistinctFlags(pairs);
    forall i | 0 <= i < |pairs|
      ensures ValueAfter(BuildCmd(input, output, qv), pairs[i].0) == Some(pairs[i].1)
    {
      Avoids(input, output, qv, pairs[i].0);
      ReadsPair("ffmpeg", pairs, i);
    }
  }

  /** `f"{stem}_mac_qv{qv}.mp4"`. */
  function OutName(stem: string, qv: int): string
  {
    stem + "_mac_qv" + IntToString(qv) + ".mp4"
  }

  /** The plotting reads an output back as a MAC point at its quality, for the right source. */
  lemma OutNameParses(dir: string, stem: string, qv: nat)
    requires stem != [] && forall j :: 0 <= j < |stem| ==> stem[j] != '/'
    ensures Plotting.ExtractInfo(JoinPath(dir, OutName(stem, qv))) == Plotting.Info("MAC", qv, stem, false)
  {
    assert OutName(stem, qv) == stem + Plotting.Patterns[5].tag + IntToString(qv) + (if false then "_aq" else "") + ".mp4";
    Plotting.ExtractInfoOfMp4(dir, stem, 5, qv, false);
  }

  /** The sweep's configuration for the two directories and ffmpeg's behaviour. */
  function ConfigOf(sourceDir: string, outputDir: string, ok: seq<string> -> bool): Config
  {
    Config(sourceDir, outputDir, OutName, BuildCmd, ok)
  }

  /** `compress_with_qv_range`: the nested loops over the sorted videos and the qualitys. */
  method CompressWithQvRange(sourceDir: string, outputDir: string, qvMin: int, qvMax: int,
                             listing: seq<Entry>, files: set<string>, ok: seq<string> -> bool)
    returns (s: State)
    ensures s == Run(ConfigOf(sourceDir, outputDir, ok), State(files, []), Jobs(Videos(listing), qvMin, qvMax))
  {
    var videos := Videos(listing);
    s := RunAll(ConfigOf(sourceDir, outputDir, ok), files, videos, qvMin, qvMax);
  }

  /**
   * Every file the sweep creates is the output of a video at a quality of the range, and
   * the plotting reads it back as a MAC point at that quality.
   */
  lemma CreatedFilesParse(c: Config, files: set<string>, videos: seq<string>, qvMin: int, qvMax: int, out: string)
    requires c.name == OutName && PlainStems(videos) && 0 <= qvMin
    requires out in Run(c, State(files, []), Jobs(videos, qvMin, qvMax)).files && out !in files
    ensures exists j: Job ::
              && j.video in videos && qvMin <= j.q <= qvMax
              && Plotting.ExtractInfo(out) == Plotting.Info("MAC", j.q, Stem(j.video), false)
  {
    NewOutputs(c, files, videos, qvMin, qvMax, out);
    var j: Job :| j.video in videos && qvMin <= j.q <= qvMax && OutputPath(c, j) == out && c.ok(CommandOf(c, j));
    JobParses(c, j);
  }

  /** The output of one job of the sweep reads back at the job's value and stem. */
  lemma JobParses(c: Config, j: Job)
    requires c.name == OutName
    requires Stem(j.video) != [] && forall k :: 0 <= k < |Stem(j.video)| ==> Stem(j.video)[k] != '/'
    requires 0 <= j.q
    ensures Plotting.ExtractInfo(OutputPath(c, j)) == Plotting.Info("MAC", j.q, Stem(j.video), false)
  {
    OutNameParses(c.outDir, Stem(j.video), j.q);
  }

  /** `main`: the range check before the sweep. */
  function CheckRange(qvMin: int, qvMax: int): (r: Option<string>)
    ensures r.Some? <==> qvMin > qvMax
    ensures r.Some? ==> r.value == "qv-min 不能大于 qv-max"
  {
    Sweep.CheckRange(qvMin, qvMax, "qv-min 不能大于 qv-max")
  }
}
