/**
 * `batch_nvidia_constqp_aq.py`: the constant-QP sweep of `batch_nvidia_constqp.py` with
 * optional spatial and temporal adaptive quantisation. Outputs with AQ on carry `_aq`
 * after the QP, and go to their own directory unless another one was asked for.
 */
module BatchConstQpAq {
  import opened Wrappers
  import opened Text
  import opened Paths
  import opened Argv
  import opened Sweep
  import Plotting
  import BatchConstQp

  /** The options before the AQ switches: input, codec, rate control and the QP. */
  function PrefixPairs(input: string, qp: int): seq<(string, string)>
  {
    [("-i", input), ("-c:v", "hevc_nvenc"), ("-vtag", "hvc1"), ("-rc", "constqp"),
     ("-preset", "p7"), ("-multipass", "fullres"), ("-qp", IntToString(qp))]
  }

  /** The optional AQ switches; the strength goes out only with spatial AQ. */
  function AqPairs(spatialAq: bool, strength: Option<int>, temporalAq: bool): seq<(string, string)>
  {
    (if spatialAq then
       [("-spatial-aq", "1")] + (if strength.Some? then [("-aq-strength", IntToString(strength.value))] else [])
     else [])
    + (if temporalAq then [("-temporal-aq", "1")] else [])
  }

  /** The tail every command ends with: audio copied, metadata kept, output overwritten. */
  function TailPairs(output: string): seq<(string, string)>
  {
    [("-c:a", "copy"), ("-map_metadata", "0"), ("-y", output)]
  }

  function CmdPairs(input: string, output: string, qp: int, spatialAq: bool, strength: Option<int>, temporalAq: bool)
    : seq<(string, string)>
  {
    PrefixPairs(input, qp) + AqPairs(spatialAq, strength, temporalAq) + TailPairs(output)
  }

  /** `build_nvidia_constqp_aq_cmd(input, output, qp, spatial_aq, spatial_aq_strength, temporal_aq)`. */
  function BuildCmd(input: string, output: string, qp: int, spatialAq: bool, strength: Option<int>, temporalAq: bool)
    : seq<string>
  {
    ["ffmpeg"] + Flatten(CmdPairs(input, output, qp, spatialAq, strength, temporalAq))
  }

  /** No value of the vector can be taken for an option. */
  lemma Avoids(input: string, output: string, qp: int, spatialAq: bool, strength: Option<int>, temporalAq: bool,
               flag: string)
    requires NotAnOption(input) && NotAnOption(output)
    requires NotNumberText(flag) && flag[0] == '-'
    ensures ValuesAvoid(CmdPairs(input, output, qp, spatialAq, strength, temporalAq), flag)
  {
    var pre := PrefixPairs(input, qp);
    var aq := AqPairs(spatialAq, strength, temporalAq);
    IntToStringNot(qp, flag);
    assert ValuesAvoid(pre, flag);
    AqAvoids(spatialAq, strength, temporalAq, flag);
    assert ValuesAvoid(TailPairs(output), flag);
    ValuesAvoidConcat(pre, aq, flag);
    ValuesAvoidConcat(pre + aq, TailPairs(output), flag);
  }

  lemma AqAvoids(spatialAq: bool, strength: Option<int>, temporalAq: bool, flag: string)
    requires NotNumberText(flag) && flag[0] == '-'
    ensures ValuesAvoid(AqPairs(spatialAq, strength, temporalAq), flag)
  {
    if strength.Some? {
      IntToStringNot(strength.value, flag);
    }
    var s := if spatialAq then
               [("-spatial-aq", "1")] + (if strength.Some? then [("-aq-strength", IntToString(strength.value))] else [])
             else [];
    assert ValuesAvoid(s, flag);
    assert ValuesAvoid(if temporalAq then [("-temporal-aq", "1")] else [], flag);
    ValuesAvoidConcat(s, if temporalAq then [("-temporal-aq", "1")] else [], flag);
  }

  /** ffmpeg finds an option in the prefix first, then among the AQ switches, then in the tail. */
  lemma ReadThrough(input: string, output: string, qp: int, spatialAq: bool, strength: Option<int>, temporalAq: bool,
                    flag: string)
    requires NotAnOption(input) && NotAnOption(output)
    requires NotNumberText(flag) && flag[0] == '-'
    ensures var p := Lookup(PrefixPairs(input, qp), flag);
      var a := Lookup(AqPairs(spatialAq, strength, temporalAq), flag);
      ValueAfter(BuildCmd(input, output, qp, spatialAq, strength, temporalAq), flag)
      == (if p.Some? then p else if a.Some? then a else Lookup(TailPairs(output), flag))
  {
    var p := PrefixPairs(input, qp);
    var a := AqPairs(spatialAq, strength, temporalAq);
    Avoids(input, output, qp, spatialAq, strength, temporalAq, flag);
    ValueAfterFlatten("ffmpeg", p + a + TailPairs(output), flag);
    LookupConcat(p + a, TailPairs(output), flag);
    LookupConcat(p, a, flag);
  }

  /** The prefix gives the input, the rate control and the QP. */
  lemma PrefixLookups(input: string, qp: int)
    ensures Lookup(PrefixPairs(input, qp), "-i") == Some(input)
    ensures Lookup(PrefixPairs(input, qp), "-rc") == Some("constqp")
    ensures Lookup(PrefixPairs(input, qp), "-qp") == Some(IntToString(qp))
  {
    var p := PrefixPairs(input, qp);
    assert DistinctFlags(p);
    LookupDistinct(p, 0);
    LookupDistinct(p, 3);
    LookupDistinct(p, 6);
  }

  /** Neither the prefix nor the tail has an AQ switch. */
  lemma NoSwitchOutsideAq(input: string, output: string, qp: int, flag: string)
    requires flag == "-spatial-aq" || flag == "-aq-strength" || flag == "-temporal-aq"
    ensures Lookup(PrefixPairs(input, qp), flag).None? && Lookup(TailPairs(output), flag).None?
  {
    var p := PrefixPairs(input, qp);
    var t := TailPairs(output);
    assert forall i :: 0 <= i < |p| ==> |p[i].0| <= 10;
    assert forall i :: 0 <= i < |t| ==> t[i].0[1] in "cmy";
    assert flag[1] in "sat" && |flag| >= 11;
  }

  /** ffmpeg reads an AQ switch from the AQ pairs alone, and it occurs exactly when it is read. */
  lemma SwitchReads(input: string, output: string, qp: int, spatialAq: bool, strength: Option<int>, temporalAq: bool,
                    flag: string)
    requires NotAnOption(input) && NotAnOption(output)
    requires flag == "-spatial-aq" || flag == "-aq-strength" || flag == "-temporal-aq"
    ensures var cmd := BuildCmd(input, output, qp, spatialAq, strength, temporalAq);
      && ValueAfter(cmd, flag) == Lookup(AqPairs(spatialAq, strength, temporalAq), flag)
      && (flag in cmd <==> ValueAfter(cmd, flag).Some?)
  {
    NoSwitchOutsideAq(input, output, qp, flag);
    ReadThrough(input, output, qp, spatialAq, strength, temporalAq, flag);
    SwitchPresent(input, output, qp, spatialAq, strength, temporalAq, flag);
  }

  /** What the AQ switches give for each of their options. */
  lemma AqLookups(spatialAq: bool, strength: Option<int>, temporalAq: bool)
    ensures Lookup(AqPairs(spatialAq, strength, temporalAq), "-spatial-aq") == if spatialAq then Some("1") else None
    ensures Lookup(AqPairs(spatialAq, strength, temporalAq), "-aq-strength")
         == if spatialAq && strength.Some? then Some(IntToString(strength.value)) else None
    ensures Lookup(AqPairs(spatialAq, strength, temporalAq), "-temporal-aq") == if temporalAq then Some("1") else None
  {
    var a := AqPairs(spatialAq, strength, temporalAq);
    assert forall i :: 0 <= i < |a| ==> a[i] in {("-spatial-aq", "1"), ("-temporal-aq", "1")} || a[i].0 == "-aq-strength";
    if spatialAq {
      assert a[0] == ("-spatial-aq", "1");
      if strength.Some? {
        assert a[1] == ("-aq-strength", IntToString(strength.value));
        assert a[1..][0] == a[1];
      }
    }
    if temporalAq {
      assert a[|a| - 1] == ("-temporal-aq", "1");
      assert forall i :: 0 <= i < |a| - 1 ==> a[i].0 != "-temporal-aq";
      LookupDistinctLast(a);
    }
  }

  /** The last pair is found when no earlier pair has its flag. */
  lemma {:induction false} LookupDistinctLast(pairs: seq<(string, string)>)
    requires pairs != [] && forall i :: 0 <= i < |pairs| - 1 ==> pairs[i].0 != pairs[|pairs| - 1].0
    ensures Lookup(pairs, pairs[|pairs| - 1].0) == Some(pairs[|pairs| - 1].1)
  {
    if |pairs| > 1 {
      assert pairs[1..][|pairs| - 2] == pairs[|pairs| - 1];
      LookupDistinctLast(pairs[1..]);
    }
  }

  /**
   * The fixed prefix carries the input, `-rc constqp` and the QP; `-spatial-aq 1` is there exactly
   * when spatial AQ is on, `-aq-strength` exactly when spatial AQ is on and a strength is
   * given, `-temporal-aq 1` exactly when temporal AQ is on; the vector ends with `-y` and
   * the output.
   */
  lemma AqSwitches(input: string, output: string, qp: int, spatialAq: bool, strength: Option<int>, temporalAq: bool)
    requires NotAnOption(input) && NotAnOption(output)
    ensures var cmd := BuildCmd(input, output, qp, spatialAq, strength, temporalAq);
      && ValueAfter(cmd, "-i") == Some(input)
      && ValueAfter(cmd, "-rc") == Some("constqp")
      && ValueAfter(cmd, "-qp") == Some(IntToString(qp))
      && ("-spatial-aq" in cmd <==> spatialAq)
      && ValueAfter(cmd, "-spatial-aq") == (if spatialAq then Some("1") else None)
      && ("-aq-strength" in cmd <==> spatialAq && strength.Some?)
      && ValueAfter(cmd, "-aq-strength") == (if spatialAq && strength.Some? then Some(IntToString(strength.value)) else None)
      && ("-temporal-aq" in cmd <==> temporalAq)
      && ValueAfter(cmd, "-temporal-aq") == (if temporalAq then Some("1") else None)
      && EndsWithOverwrite(cmd, output)
  {
    PrefixLookups(input, qp);
    AqLookups(spatialAq, strength, temporalAq);
    ReadThrough(input, output, qp, spatialAq, strength, temporalAq, "-i");
    ReadThrough(input, output, qp, spatialAq, strength, temporalAq, "-rc");
    ReadThrough(input, output, qp, spatialAq, strength, temporalAq, "-qp");
    SwitchReads(input, output, qp, spatialAq, strength, temporalAq, "-spatial-aq");
    SwitchReads(input, output, qp, spatialAq, strength, temporalAq, "-aq-strength");
    SwitchReads(input, output, qp, spatialAq, strength, temporalAq, "-temporal-aq");
    var pairs := CmdPairs(input, output, qp, spatialAq, strength, temporalAq);
    assert pairs[|pairs| - 1] == ("-y", output);
    EndsWithLastPair("ffmpeg", pairs, output);
  }

  /** An option occurs in the command exactly when ffmpeg finds a value for it. */
  lemma SwitchPresent(input: string, output: string, qp: int, spatialAq: bool, strength: Option<int>, temporalAq: bool,
                      flag: string)
    requires NotAnOption(input) && NotAnOption(output)
    requires NotNumberText(flag) && flag[0] == '-'
    ensures var cmd := BuildCmd(input, output, qp, spatialAq, strength, temporalAq);
      flag in cmd <==> ValueAfter(cmd, flag).Some?
  {
    var pairs := CmdPairs(input, output, qp, spatialAq, strength, temporalAq);
    var cmd := BuildCmd(input, output, qp, spatialAq, strength, temporalAq);
    Avoids(input, output, qp, spatialAq, strength, temporalAq, flag);
    ValueAfterFlatten("ffmpeg", pairs, flag);
    if ValueAfter(cmd, flag).Some? {
      ValueAfterFound(cmd, flag);
    } else {
      AbsentFlag(pairs, flag);
    }
  }

  /** Without AQ the command is exactly the one of the plain constant-QP script. */
  lemma NoAqIsConstQp(input: string, output: string, qp: int, strength: Option<int>)
    ensures BuildCmd(input, output, qp, false, strength, false) == BatchConstQp.BuildCmd(input, output, qp)
  {
    assert CmdPairs(input, output, qp, false, strength, false) == BatchConstQp.CmdPairs(input, output, qp);
  }

  /** `f"{stem}_nvidia_qp{qp}{aq_suffix}.mp4"`, `aq_suffix` being `_aq` when either AQ is on. */
  function OutName(stem: string, qp: int, aq: bool): string
  {
    stem + "_nvidia_qp" + IntToString(qp) + (if aq then "_aq" else "") + ".mp4"
  }

  /** Without AQ the name is exactly the one of the plain constant-QP script. */
  lemma NoAqName(stem: string, qp: int)
    ensures OutName(stem, qp, false) == BatchConstQp.OutName(stem, qp)
  {
  }

  /** The plotting reads an output back at its QP, as an AQ point exactly when `_aq` was written. */
  lemma OutNameParses(dir: string, stem: string, qp: nat, aq: bool)
    requires stem != [] && forall j :: 0 <= j < |stem| ==> stem[j] != '/'
    ensures Plotting.ExtractInfo(JoinPath(dir, OutName(stem, qp, aq)))
         == Plotting.Info(if aq then "Nvidia (QP+AQ)" else "Nvidia (QP)", qp, stem, aq)
  {
    assert OutName(stem, qp, aq) == stem + Plotting.Patterns[4].tag + IntToString(qp) + (if aq then "_aq" else "") + ".mp4";
    Plotting.ExtractInfoOfMp4(dir, stem, 4, qp, aq);
  }

  /** The sweep's configuration for the directories, the AQ settings and ffmpeg's behaviour. */
  function ConfigOf(sourceDir: string, outputDir: string, spatialAq: bool, strength: Option<int>, temporalAq: bool,
                    ok: seq<string> -> bool): Config
  {
    Config(sourceDir, outputDir,
           (stem, qp) => OutName(stem, qp, spatialAq || temporalAq),
           (input, output, qp) => BuildCmd(input, output, qp, spatialAq, strength, temporalAq),
           ok)
  }

  /** `compress_with_qp_range`: the nested loops over the sorted videos and the QPs. */
  method CompressWithQpRange(sourceDir: string, outputDir: string, qpMin: int, qpMax: int,
                             spatialAq: bool, strength: Option<int>, temporalAq: bool,
                             listing: seq<Entry>, files: set<string>, ok: seq<string> -> bool)
    returns (s: State)
    ensures s == Run(ConfigOf(sourceDir, outputDir, spatialAq, strength, temporalAq, ok), State(files, []),
                     Jobs(Videos(listing), qpMin, qpMax))
  {
    var videos := Videos(listing);
    s := RunAll(ConfigOf(sourceDir, outputDir, spatialAq, strength, temporalAq, ok), files, videos, qpMin, qpMax);
  }

  /**
   * Every file the sweep creates is the output of a video at a QP of the range, and the
   * plotting reads it back at that QP, as an AQ point exactly when AQ was on.
   */
  lemma CreatedFilesParse(c: Config, aq: bool, files: set<string>, videos: seq<string>, qpMin: int, qpMax: int,
                          out: string)
    requires forall stem, qp :: c.name(stem, qp) == OutName(stem, qp, aq)
    requires PlainStems(videos) && 0 <= qpMin
    requires out in Run(c, State(files, []), Jobs(videos, qpMin, qpMax)).files && out !in files
    ensures exists j: Job ::
              && j.video in videos && qpMin <= j.q <= qpMax
              && Plotting.ExtractInfo(out)
                 == Plotting.Info(if aq then "Nvidia (QP+AQ)" else "Nvidia (QP)", j.q, Stem(j.video), aq)
  {
    NewOutputs(c, files, videos, qpMin, qpMax, out);
    var j: Job :| j.video in videos && qpMin <= j.q <= qpMax && OutputPath(c, j) == out && c.ok(CommandOf(c, j));
    JobParses(c, aq, j);
  }

  /** The output of one job of the sweep reads back at the job's QP and stem. */
  lemma JobParses(c: Config, aq: bool, j: Job)
    requires forall stem, qp :: c.name(stem, qp) == OutName(stem, qp, aq)
    requires Stem(j.video) != [] && forall k :: 0 <= k < |Stem(j.video)| ==> Stem(j.video)[k] != '/'
    requires 0 <= j.q
    ensures Plotting.ExtractInfo(OutputPath(c, j))
            == Plotting.Info(if aq then "Nvidia (QP+AQ)" else "Nvidia (QP)", j.q, Stem(j.video), aq)
  {
    OutNameParses(c.outDir, Stem(j.video), j.q, aq);
  }

  /** `Path("./NVENC_QP_Compressed")`, the default output directory (pathlib drops the `./`). */
  const DefaultOutputDir := "NVENC_QP_Compressed"

  /** `Path("./NVENC_QP_AQ_Compressed")`, where AQ outputs go by default. */
  const AqOutputDir := "NVENC_QP_AQ_Compressed"

  /** The command line of the script, as parsed. */
  datatype Args = Args(sourceDir: string, outputDir: string, qpMin: int, qpMax: int,
                       spatialAq: bool, strength: int, temporalAq: bool)

  /**
   * `main` before the sweep: the range check, the strength check (only with spatial AQ),
   * and the output directory, switched to the AQ one when AQ is on and the requested
   * directory resolves to the default. `resolve` is `Path.resolve` in the current
   * directory.
   */
  function Validate(a: Args, resolve: string -> string): (r: Result<string>)
    ensures r.Err? <==> a.qpMin > a.qpMax || (a.spatialAq && !(1 <= a.strength <= 15))
    ensures r.Err? && a.qpMin > a.qpMax ==> r.message == "qp-min 不能大于 qp-max"
    ensures r.Err? && a.qpMin <= a.qpMax ==> r.message == "spatial-aq-strength/aq-strength 建议范围为 1-15"
    ensures r.Ok? && !(a.spatialAq || a.temporalAq) ==> r.value == a.outputDir
    ensures r.Ok? && resolve(a.outputDir) != resolve(DefaultOutputDir) ==> r.value == a.outputDir
    ensures r.Ok? && (a.spatialAq || a.temporalAq) && resolve(a.outputDir) == resolve(DefaultOutputDir)
            ==> r.value == AqOutputDir
  {
    if a.qpMin > a.qpMax then Err("qp-min 不能大于 qp-max")
    else if a.spatialAq && !(1 <= a.strength <= 15) then Err("spatial-aq-strength/aq-strength 建议范围为 1-15")
    else if (a.spatialAq || a.temporalAq) && resolve(a.outputDir) == resolve(DefaultOutputDir) then Ok(AqOutputDir)
    else Ok(a.outputDir)
  }

  /**
   * `main`: validate, then sweep with the chosen output directory and the parsed strength
   * (always present when the script is run from its command line).
   */
  method Launch(a: Args, resolve: string -> string, listing: seq<Entry>, files: set<string>, ok: seq<string> -> bool)
    returns (r: Result<State>)
    ensures r.Err? <==> Validate(a, resolve).Err?
    ensures r.Err? ==> r.message == Validate(a, resolve).message
    ensures r.Ok? ==> r.value == Run(ConfigOf(a.sourceDir, Validate(a, resolve).value, a.spatialAq, Some(a.strength),
                                             a.temporalAq, ok),
                                    State(files, []), Jobs(Videos(listing), a.qpMin, a.qpMax))
  {
    var v := Validate(a, resolve);
    if v.Err? {
      return Err(v.message);
    }
    var s := CompressWithQpRange(a.sourceDir, v.value, a.qpMin, a.qpMax, a.spatialAq, Some(a.strength), a.temporalAq,
                                 listing, files, ok);
    return Ok(s);
  }
}
