/**
 * `batch_intel_qsv_gq.py`: every `.mp4` of the source directory encoded with `hevc_qsv`
 * at each `global_quality` of an inclusive range, into `<stem>_intel_q<gq>.mp4`.
 */
module BatchIntel {
  import opened Wrappers
  import opened Text
  import opened Paths
  import opened Argv
  import opened Sweep
  import Plotting

  /** The option pairs of `build_intel_qsv_cmd`, after the program name. */
  function CmdPairs(input: string, output: string, gq: int): seq<(string, string)>
  {
    [("-hwaccel", "qsv"), ("-hwaccel_output_format", "qsv"), ("-i", input), ("-c:v", "hevc_qsv"),
     ("-vtag", "hvc1"), ("-preset", "veryslow"), ("-global_quality", IntToString(gq)),
     ("-c:a", "copy"), ("-map_metadata", "0"), ("-y", output)]
  }

  /** `build_intel_qsv_cmd(input, output, gq)`. */
  function BuildCmd(input: string, output: string, gq: int): seq<string>
  {
    ["ffmpeg"] + Flatten(CmdPairs(input, output, gq))
  }

  /** No value of the vector can be taken for an option. */
  lemma Avoids(input: string, output: string, gq: int, flag: string)
    requires NotAnOption(input) && NotAnOption(output)
    requires NotNumberText(flag) && flag[0] == '-'
    ensures ValuesAvoid(CmdPairs(input, output, gq), flag)
  {
    IntToStringNot(gq, flag);
  }

  /**
   * ffmpeg reads every option with the value written after it: among them the QSV
   * decoder, the codec, the `veryslow` preset and the quality; the vector
   * ends with `-y` and the output.
   */
  lemma BuildCmdReads(input: string, output: string, gq: int)
    requires NotAnOption(input) && NotAnOption(output)
    ensures var pairs := CmdPairs(input, output, gq);
      forall i :: 0 <= i < |pairs| ==> ValueAfter(BuildCmd(input, output, gq), pairs[i].0) == Some(pairs[i].1)
    ensures var cmd := BuildCmd(input, output, gq);
      ValueAfter(cmd, "-hwaccel") == Some("qsv")
      && ValueAfter(cmd, "-i") == Some(input)
      && ValueAfter(cmd, "-c:v") == Some("hevc_qsv")
      && ValueAfter(cmd, "-preset") == Some("veryslow")
      && ValueAfter(cmd, "-global_quality") == Some(IntToString(gq))
      && EndsWithOverwrite(cmd, output)
  {
    var pairs := CmdPairs(input, output, gq);
    ReadsEveryPair(input, output, gq);
    assert pairs[0].0 == "-hwaccel" && pairs[2].0 == "-i" && pairs[3].0 == "-c:v" && pairs[5].0 == "-preset" && pairs[6].0 == "-global_quality";
    EndsWithLastPair("ffmpeg", pairs, output);
  }

  lemma ReadsEveryPair(input: string, output: string, gq: int)
    requires NotAnOption(input) && NotAnOption(output)
    ensures var pairs := CmdPairs(input, output, gq);
      forall i :: 0 <= i < |pairs| ==> ValueAfter(BuildCmd(input, output, gq), pairs[i].0) == Some(pairs[i].1)
  {
    var pairs := CmdPairs(input, output, gq);
    assert DistinctFlags(pairs);
    forall i | 0 <= i < |pairs|
      ensures ValueAfter(BuildCmd(input, output, gq), pairs[i].0) == Some(pairs[i].1)
    {
      Avoids(input, output, gq, pairs[i].0);
      ReadsPair("ffmpeg", pairs, i);
    }
  }

  /** `f"{stem}_intel_q{gq}.mp4"`. */
  function OutName(stem: string, gq: int): string
  {
    stem + "_intel_q" + IntToString(gq) + ".mp4"
  }

  /** The plotting reads an output back as an Intel point at its quality, for the right source. */
  lemma OutNameParses(dir: string, stem: string, gq: nat)
    requires stem != [] && forall j :: 0 <= j < |stem| ==> stem[j] != '/'
    ensures Plotting.ExtractInfo(JoinPath(dir, OutName(stem, gq))) == Plotting.Info("Intel", gq, stem, false)
  {
    assert OutName(stem, gq) == stem + Plotting.Patterns[0].tag + IntToString(gq) + (if false then "_aq" else "") + ".mp4";
    Plotting.ExtractInfoOfMp4(dir, stem, 0, gq, false);
  }

  /** The sweep's configuration for the two directories and ffmpeg's behaviour. */
  function ConfigOf(sourceDir: string, outputDir: string, ok: seq<string> -> bool): Config
  {
    Config(sourceDir, outputDir, OutName, BuildCmd, ok)
  }

  /** `compress_with_gq_range`: the nested loops over the sorted videos and the qualitys. */
  method CompressWithGqRange(sourceDir: string, outputDir: string, gqMin: int, gqMax: int,
                             listing: seq<Entry>, files: set<string>, ok: seq<string> -> bool)
    returns (s: State)
    ensures s == Run(ConfigOf(sourceDir, outputDir, ok), State(files, []), Jobs(Videos(listing), gqMin, gqMax))
  {
    var videos := Videos(listing);
    s := RunAll(ConfigOf(sourceDir, outputDir, ok), files, videos, gqMin, gqMax);
  }

  /**
   * Every file the sweep creates is the output of a video at a quality of the range, and
   * the plotting reads it back as an Intel point at that quality.
   */
  lemma CreatedFilesParse(c: Config, files: set<string>, videos: seq<string>, gqMin: int, gqMax: int, out: string)
    requires c.name == OutName && PlainStems(videos) && 0 <= gqMin
    requires out in Run(c, State(files, []), Jobs(videos, gqMin, gqMax)).files && out !in files
    ensures exists j: Job ::
              && j.video in videos && gqMin <= j.q <= gqMax
              && Plotting.ExtractInfo(out) == Plotting.Info("Intel", j.q, Stem(j.video), false)
  {
    NewOutputs(c, files, videos, gqMin, gqMax, out);
    var j: Job :| j.video in videos && gqMin <= j.q <= gqMax && OutputPath(c, j) == out && c.ok(CommandOf(c, j));
    JobParses(c, j);
  }

  /** The output of one job of the sweep reads back at the job's value and stem. */
  lemma JobParses(c: Config, j: Job)
    requires c.name == OutName
    requires Stem(j.video) != [] && forall k :: 0 <= k < |Stem(j.video)| ==> Stem(j.video)[k] != '/'
    requires 0 <= j.q
    ensures Plotting.ExtractInfo(OutputPath(c, j)) == Plotting.Info("Intel", j.q, Stem(j.video), false)
  {
    OutNameParses(c.outDir, Stem(j.video), j.q);
  }

  /** `main`: the range check before the sweep. */
  function CheckRange(gqMin: int, gqMax: int): (r: Option<string>)
    ensures r.Some? <==> gqMin > gqMax
    ensures r.Some? ==> r.value == "gq-min 不能大于 gq-max"
  {
    Sweep.CheckRange(gqMin, gqMax, "gq-min 不能大于 gq-max")
  }
}
