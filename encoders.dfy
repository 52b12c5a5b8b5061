/**
 * The encoder profiles: `BaseEncoder` with its inherited defaults, the three concrete
 * profiles (Intel QSV, Nvidia NVENC, macOS VideoToolbox), their ffmpeg argument
 * vectors, and the `get_encoder` factory.
 *
 * A profile is a constant table. Inheritance is modelled explicitly: each profile may
 * override the base class's quality range, codec name and validity predicate; where it
 * does not, the base default applies.
 */
module Encoders {
  import opened Wrappers
  import opened Text
  import opened Argv

  datatype Encoder = Intel | Nvidia | Mac

  /** An inclusive range `(min, max)` of quality values. */
  datatype QualityRange = QualityRange(lo: int, hi: int)

  // ---------------------------------------------------------------------------
  // BaseEncoder defaults
  // ---------------------------------------------------------------------------

  const BaseQualityRange: QualityRange := QualityRange(0, 100)

  const BaseCodecName: string := ""

  /** The base class accepts every quality value. */
  predicate BaseIsValidQuality(q: int) { true }

  // ---------------------------------------------------------------------------
  // Per-profile constants and overrides
  // ---------------------------------------------------------------------------

  function Name(e: Encoder): string
  {
    match e
    case Intel => "intel"
    case Nvidia => "nvidia"
    case Mac => "mac"
  }

  function DefaultQuality(e: Encoder): int
  {
    match e
    case Intel => 25
    case Nvidia => 24
    case Mac => 58
  }

  /** Positive: a larger value means better quality; negative: a smaller value does. */
  function QualityStep(e: Encoder): int
  {
    match e
    case Intel => -1
    case Nvidia => -1
    case Mac => 1
  }

  function RangeOverride(e: Encoder): Option<QualityRange>
  {
    match e
    case Intel => Some(QualityRange(1, 51))
    case Nvidia => Some(QualityRange(0, 51))
    case Mac => Some(QualityRange(1, 100))
  }

  function CodecOverride(e: Encoder): Option<string>
  {
    match e
    case Intel => Some("hevc_qsv")
    case Nvidia => Some("hevc_nvenc")
    case Mac => Some("hevc_videotoolbox")
  }

  /** `q:v` values VideoToolbox maps onto the same output as a neighbouring value (one set per source line). */
  const MacDuplicateQualities: set<int> :=
    MacDuplicatesA + MacDuplicatesB + MacDuplicatesC + MacDuplicatesD + MacDuplicatesE + MacDuplicatesF

  const MacDuplicatesA: set<int> := {3, 4, 6, 7, 9, 10, 12, 13, 15, 16}
  const MacDuplicatesB: set<int> := {18, 20, 21, 23, 24, 26, 27, 29, 31, 32}
  const MacDuplicatesC: set<int> := {34, 35, 37, 39, 40}
  const MacDuplicatesD: set<int> := {42, 44, 45, 47, 49, 50}
  const MacDuplicatesE: set<int> := {52, 54, 56, 58, 59, 61, 63, 65, 67, 69}
  const MacDuplicatesF: set<int> := {71, 73, 75, 77, 80, 82, 85}

  /** Only the Mac profile overrides `is_valid_quality`: it rejects its known duplicates. */
  function SkipOverride(e: Encoder): Option<set<int>>
  {
    if e == Mac then Some(MacDuplicateQualities) else None
  }

  /** `encoder.quality_range`: the override, else the base default. */
  function QualityRangeOf(e: Encoder): QualityRange
  {
    RangeOverride(e).GetOr(BaseQualityRange)
  }

  /** `encoder.codec_name`: the override, else the base default. */
  function CodecName(e: Encoder): string
  {
    CodecOverride(e).GetOr(BaseCodecName)
  }

  /** `encoder.is_valid_quality(q)`: the override, else the base default. */
  predicate IsValidQuality(e: Encoder, q: int)
  {
    match SkipOverride(e)
    case Some(skip) => q !in skip
    case None => BaseIsValidQuality(q)
  }

  /** The default of the `quality` keyword of `get_ffmpeg_args`. */
  function DefaultArgQuality(e: Encoder): int
  {
    match e
    case Intel => 21
    case Nvidia => 24
    case Mac => 58
  }

  /** `encoder.get_ffmpeg_args(input, output, quality=q)`, written as its option pairs. */
  function FfmpegArgs(e: Encoder, input: string, output: string, q: int): seq<string>
  {
    match e
    case Intel =>
      ["ffmpeg"]
      + ["-hwaccel", "qsv"]
      + ["-hwaccel_output_format", "qsv"]
      + ["-i", input]
      + ["-c:v", CodecName(e)]
      + ["-vtag", "hvc1"]
      + ["-preset", "veryslow"]
      + ["-global_quality", IntToString(q)]
      + ["-c:a", "copy"]
      + ["-map_metadata", "0"]
      + ["-y", output]
    case Nvidia =>
      ["ffmpeg"]
      + ["-i", input]
      + ["-c:v", CodecName(e)]
      + ["-vtag", "hvc1"]
      + ["-preset", "p7"]
      + ["-multipass", "fullres"]
      + ["-rc", "constqp"]
      + ["-qp", IntToString(q)]
      + ["-c:a", "copy"]
      + ["-map_metadata", "0"]
      + ["-y", output]
    case Mac =>
      ["ffmpeg"]
      + ["-hwaccel", "videotoolbox"]
      + ["-i", input]
      + ["-c:v", CodecName(e)]
      + ["-vtag", "hvc1"]
      + ["-q:v", IntToString(q)]
      + ["-c:a", "copy"]
      + ["-map_metadata", "0"]
      + ["-y", output]
  }

  /** The names the factory knows. */
  const EncoderNames: set<string> := {"intel", "nvidia", "mac"}

  /** `get_encoder(name)`: the profile registered under `name`, or `ValueError`. */
  function GetEncoder(name: string): (r: Result<Encoder>)
    ensures r.Ok? <==> name in EncoderNames
    ensures r.Ok? ==> Name(r.value) == name
  {
    if name == "intel" then Ok(Intel)
    else if name == "nvidia" then Ok(Nvidia)
    else if name == "mac" then Ok(Mac)
    else Err("Unknown encoder: " + name + ". Available: ['intel', 'nvidia', 'mac']")
  }

  // ---------------------------------------------------------------------------
  // Facts about the profiles
  // ---------------------------------------------------------------------------

  /** A profile that overrides nothing gets the base class's range, codec and validity. */
  lemma BaseDefaults(e: Encoder, q: int)
    ensures RangeOverride(e).None? ==> QualityRangeOf(e) == QualityRange(0, 100)
    ensures CodecOverride(e).None? ==> CodecName(e) == ""
    ensures SkipOverride(e).None? ==> IsValidQuality(e, q)
  {
  }

  /** Intel and Nvidia keep the base validity predicate: every value is valid. */
  lemma IntelNvidiaAcceptEveryQuality(q: int)
    ensures IsValidQuality(Intel, q) && IsValidQuality(Nvidia, q)
  {
  }

  lemma IntelProfile()
    ensures Name(Intel) == "intel" && CodecName(Intel) == "hevc_qsv"
    ensures DefaultQuality(Intel) == 25 && QualityStep(Intel) == -1
    ensures QualityRangeOf(Intel) == QualityRange(1, 51)
    ensures QualityRangeOf(Intel).lo <= DefaultQuality(Intel) <= QualityRangeOf(Intel).hi
    ensures DefaultArgQuality(Intel) == 21 != DefaultQuality(Intel)
  {
  }

  lemma NvidiaProfile()
    ensures Name(Nvidia) == "nvidia" && CodecName(Nvidia) == "hevc_nvenc"
    ensures DefaultQuality(Nvidia) == 24 && QualityStep(Nvidia) == -1
    ensures QualityRangeOf(Nvidia) == QualityRange(0, 51)
    ensures QualityRangeOf(Nvidia).lo <= DefaultQuality(Nvidia) <= QualityRangeOf(Nvidia).hi
    ensures DefaultArgQuality(Nvidia) == DefaultQuality(Nvidia)
  {
  }

  lemma MacProfile()
    ensures Name(Mac) == "mac" && CodecName(Mac) == "hevc_videotoolbox"
    ensures DefaultQuality(Mac) == 58 && QualityStep(Mac) == 1
    ensures QualityRangeOf(Mac) == QualityRange(1, 100)
    ensures DefaultArgQuality(Mac) == DefaultQuality(Mac)
  {
  }

  /** Mac validity: false exactly on the skip table, true everywhere else, even outside the range. */
  lemma MacValidity(q: int)
    ensures !IsValidQuality(Mac, q) <==> q in MacDuplicateQualities
    ensures (q < QualityRangeOf(Mac).lo || q > QualityRangeOf(Mac).hi) ==> IsValidQuality(Mac, q)
  {
    MacSkipTableInRange();
  }

  /** The Mac default is one of its own known duplicates, so the scheduler never encodes it. */
  lemma MacDefaultSkipped()
    ensures DefaultQuality(Mac) in MacDuplicateQualities
    ensures !IsValidQuality(Mac, DefaultQuality(Mac))
  {
  }

  /** Every skipped value lies inside the Mac range. */
  lemma MacSkipTableInRange()
    ensures forall q :: q in MacDuplicateQualities ==> QualityRangeOf(Mac).lo <= q <= QualityRangeOf(Mac).hi
  {
    assert QualityRangeOf(Mac) == QualityRange(1, 100);
    forall q | q in MacDuplicateQualities ensures 1 <= q <= 100 {
      if q in MacDuplicatesA {
      } else if q in MacDuplicatesB {
      } else if q in MacDuplicatesC {
      } else if q in MacDuplicatesD {
      } else if q in MacDuplicatesE {
      } else {
        assert q in MacDuplicatesF;
      }
    }
  }

  /** Every profile moves one unit per step; only the Mac profile improves upwards. */
  lemma StepIsUnit(e: Encoder)
    ensures QualityStep(e) == 1 || QualityStep(e) == -1
    ensures QualityStep(e) > 0 <==> e == Mac
  {
  }

  /** The factory and `name` are inverse: each profile is found under its own name. */
  lemma GetEncoderByName(e: Encoder)
    ensures GetEncoder(Name(e)) == Ok(e)
  {
  }

  // ---------------------------------------------------------------------------
  // Facts about the argument vectors
  // ---------------------------------------------------------------------------

  /** Every profile: input after `-i`, the profile's codec after `-c:v`, and `-y output` last. */
  lemma ArgsShape(e: Encoder, input: string, output: string, q: int)
    requires NotAnOption(input)
    ensures var args := FfmpegArgs(e, input, output, q);
      args[0] == "ffmpeg"
      && ValueAfter(args, "-i") == Some(input)
      && ValueAfter(args, "-c:v") == Some(CodecName(e))
      && ValueAfter(args, "-vtag") == Some("hvc1")
      && EndsWithOverwrite(args, output)
  {
    match e
    case Intel => IntelArgs(input, output, q);
    case Nvidia => NvidiaArgs(input, output, q);
    case Mac => MacArgs(input, output, q);
  }

  /** Intel: the quality follows `-global_quality`, after the `veryslow` preset. */
  lemma IntelArgs(input: string, output: string, q: int)
    requires NotAnOption(input)
    ensures var args := FfmpegArgs(Intel, input, output, q);
      ValueAfter(args, "-i") == Some(input)
      && ValueAfter(args, "-c:v") == Some("hevc_qsv")
      && ValueAfter(args, "-vtag") == Some("hvc1")
      && ValueAfter(args, "-global_quality") == Some(IntToString(q))
      && ValueAfter(args, "-preset") == Some("veryslow")
      && ValueAfter(args, "-hwaccel") == Some("qsv")
      && EndsWithOverwrite(args, output)
  {
    IntelArgsRates(input, output, q);
    var a0 := ["ffmpeg"] + ["-hwaccel", "qsv"];
    var a1 := a0 + ["-hwaccel_output_format", "qsv"];
    var a2 := a1 + ["-i", input];
    var a3 := a2 + ["-c:v", CodecName(Intel)];
    var a4 := a3 + ["-vtag", "hvc1"];
    var a5 := a4 + ["-preset", "veryslow"];
    var a6 := a5 + ["-global_quality", IntToString(q)];
    var a7 := a6 + ["-c:a", "copy"];
    var a8 := a7 + ["-map_metadata", "0"];
    var a9 := a8 + ["-y", output];
    assert a9 == FfmpegArgs(Intel, input, output, q);
    ValueAfterPair(a1, "-i", input);
    ValueAfterExtend(a2, ["-c:v", CodecName(Intel)], "-i");
    ValueAfterExtend(a3, ["-vtag", "hvc1"], "-i");
    ValueAfterExtend(a4, ["-preset", "veryslow"], "-i");
    ValueAfterExtend(a5, ["-global_quality", IntToString(q)], "-i");
    ValueAfterExtend(a6, ["-c:a", "copy"], "-i");
    ValueAfterExtend(a7, ["-map_metadata", "0"], "-i");
    ValueAfterExtend(a8, ["-y", output], "-i");
    ValueAfterPair(a2, "-c:v", CodecName(Intel));
    ValueAfterExtend(a3, ["-vtag", "hvc1"], "-c:v");
    ValueAfterExtend(a4, ["-preset", "veryslow"], "-c:v");
    ValueAfterExtend(a5, ["-global_quality", IntToString(q)], "-c:v");
    ValueAfterExtend(a6, ["-c:a", "copy"], "-c:v");
    ValueAfterExtend(a7, ["-map_metadata", "0"], "-c:v");
    ValueAfterExtend(a8, ["-y", output], "-c:v");
    ValueAfterPair(a3, "-vtag", "hvc1");
    ValueAfterExtend(a4, ["-preset", "veryslow"], "-vtag");
    ValueAfterExtend(a5, ["-global_quality", IntToString(q)], "-vtag");
    ValueAfterExtend(a6, ["-c:a", "copy"], "-vtag");
    ValueAfterExtend(a7, ["-map_metadata", "0"], "-vtag");
    ValueAfterExtend(a8, ["-y", output], "-vtag");
  }

  /** The Intel quality, preset and hardware decoder. */
  lemma IntelArgsRates(input: string, output: string, q: int)
    requires NotAnOption(input)
    ensures var args := FfmpegArgs(Intel, input, output, q);
      ValueAfter(args, "-global_quality") == Some(IntToString(q))
      && ValueAfter(args, "-preset") == Some("veryslow")
      && ValueAfter(args, "-hwaccel") == Some("qsv")
  {
    var a0 := ["ffmpeg"] + ["-hwaccel", "qsv"];
    var a1 := a0 + ["-hwaccel_output_format", "qsv"];
    var a2 := a1 + ["-i", input];
    var a3 := a2 + ["-c:v", CodecName(Intel)];
    var a4 := a3 + ["-vtag", "hvc1"];
    var a5 := a4 + ["-preset", "veryslow"];
    var a6 := a5 + ["-global_quality", IntToString(q)];
    var a7 := a6 + ["-c:a", "copy"];
    var a8 := a7 + ["-map_metadata", "0"];
    var a9 := a8 + ["-y", output];
    assert a9 == FfmpegArgs(Intel, input, output, q);
    ValueAfterPair(a5, "-global_quality", IntToString(q));
    ValueAfterExtend(a6, ["-c:a", "copy"], "-global_quality");
    ValueAfterExtend(a7, ["-map_metadata", "0"], "-global_quality");
    ValueAfterExtend(a8, ["-y", output], "-global_quality");
    ValueAfterPair(a4, "-preset", "veryslow");
    ValueAfterExtend(a5, ["-global_quality", IntToString(q)], "-preset");
    ValueAfterExtend(a6, ["-c:a", "copy"], "-preset");
    ValueAfterExtend(a7, ["-map_metadata", "0"], "-preset");
    ValueAfterExtend(a8, ["-y", output], "-preset");
    ValueAfterPair(["ffmpeg"], "-hwaccel", "qsv");
    ValueAfterExtend(a0, ["-hwaccel_output_format", "qsv"], "-hwaccel");
    ValueAfterExtend(a1, ["-i", input], "-hwaccel");
    ValueAfterExtend(a2, ["-c:v", CodecName(Intel)], "-hwaccel");
    ValueAfterExtend(a3, ["-vtag", "hvc1"], "-hwaccel");
    ValueAfterExtend(a4, ["-preset", "veryslow"], "-hwaccel");
    ValueAfterExtend(a5, ["-global_quality", IntToString(q)], "-hwaccel");
    ValueAfterExtend(a6, ["-c:a", "copy"], "-hwaccel");
    ValueAfterExtend(a7, ["-map_metadata", "0"], "-hwaccel");
    ValueAfterExtend(a8, ["-y", output], "-hwaccel");
  }

  /** Nvidia: constant-QP rate control, with the quality after the only `-qp`. */
  lemma NvidiaArgs(input: string, output: string, q: int)
    requires NotAnOption(input)
    ensures var args := FfmpegArgs(Nvidia, input, output, q);
      ValueAfter(args, "-i") == Some(input)
      && ValueAfter(args, "-c:v") == Some("hevc_nvenc")
      && ValueAfter(args, "-vtag") == Some("hvc1")
      && ValueAfter(args, "-rc") == Some("constqp")
      && ValueAfter(args, "-qp") == Some(IntToString(q))
      && ValueAfter(args, "-preset") == Some("p7")
      && ValueAfter(args, "-multipass") == Some("fullres")
      && EndsWithOverwrite(args, output)
  {
    NvidiaArgsRates(input, output, q);
    var a0 := ["ffmpeg"] + ["-i", input];
    var a1 := a0 + ["-c:v", CodecName(Nvidia)];
    var a2 := a1 + ["-vtag", "hvc1"];
    var a3 := a2 + ["-preset", "p7"];
    var a4 := a3 + ["-multipass", "fullres"];
    var a5 := a4 + ["-rc", "constqp"];
    var a6 := a5 + ["-qp", IntToString(q)];
    var a7 := a6 + ["-c:a", "copy"];
    var a8 := a7 + ["-map_metadata", "0"];
    var a9 := a8 + ["-y", output];
    assert a9 == FfmpegArgs(Nvidia, input, output, q);
    ValueAfterPair(["ffmpeg"], "-i", input);
    ValueAfterExtend(a0, ["-c:v", CodecName(Nvidia)], "-i");
    ValueAfterExtend(a1, ["-vtag", "hvc1"], "-i");
    ValueAfterExtend(a2, ["-preset", "p7"], "-i");
    ValueAfterExtend(a3, ["-multipass", "fullres"], "-i");
    ValueAfterExtend(a4, ["-rc", "constqp"], "-i");
    ValueAfterExtend(a5, ["-qp", IntToString(q)], "-i");
    ValueAfterExtend(a6, ["-c:a", "copy"], "-i");
    ValueAfterExtend(a7, ["-map_metadata", "0"], "-i");
    ValueAfterExtend(a8, ["-y", output], "-i");
    ValueAfterPair(a0, "-c:v", CodecName(Nvidia));
    ValueAfterExtend(a1, ["-vtag", "hvc1"], "-c:v");
    ValueAfterExtend(a2, ["-preset", "p7"], "-c:v");
    ValueAfterExtend(a3, ["-multipass", "fullres"], "-c:v");
    ValueAfterExtend(a4, ["-rc", "constqp"], "-c:v");
    ValueAfterExtend(a5, ["-qp", IntToString(q)], "-c:v");
    ValueAfterExtend(a6, ["-c:a", "copy"], "-c:v");
    ValueAfterExtend(a7, ["-map_metadata", "0"], "-c:v");
    ValueAfterExtend(a8, ["-y", output], "-c:v");
    ValueAfterPair(a1, "-vtag", "hvc1");
    ValueAfterExtend(a2, ["-preset", "p7"], "-vtag");
    ValueAfterExtend(a3, ["-multipass", "fullres"], "-vtag");
    ValueAfterExtend(a4, ["-rc", "constqp"], "-vtag");
    ValueAfterExtend(a5, ["-qp", IntToString(q)], "-vtag");
    ValueAfterExtend(a6, ["-c:a", "copy"], "-vtag");
    ValueAfterExtend(a7, ["-map_metadata", "0"], "-vtag");
    ValueAfterExtend(a8, ["-y", output], "-vtag");
  }

  /** The Nvidia rate control, quality, preset and multipass mode. */
  lemma NvidiaArgsRates(input: string, output: string, q: int)
    requires NotAnOption(input)
    ensures var args := FfmpegArgs(Nvidia, input, output, q);
      ValueAfter(args, "-rc") == Some("constqp")
      && ValueAfter(args, "-qp") == Some(IntToString(q))
      && ValueAfter(args, "-preset") == Some("p7")
      && ValueAfter(args, "-multipass") == Some("fullres")
  {
    var a0 := ["ffmpeg"] + ["-i", input];
    var a1 := a0 + ["-c:v", CodecName(Nvidia)];
    var a2 := a1 + ["-vtag", "hvc1"];
    var a3 := a2 + ["-preset", "p7"];
    var a4 := a3 + ["-multipass", "fullres"];
    var a5 := a4 + ["-rc", "constqp"];
    var a6 := a5 + ["-qp", IntToString(q)];
    var a7 := a6 + ["-c:a", "copy"];
    var a8 := a7 + ["-map_metadata", "0"];
    var a9 := a8 + ["-y", output];
    assert a9 == FfmpegArgs(Nvidia, input, output, q);
    ValueAfterPair(a4, "-rc", "constqp");
    ValueAfterExtend(a5, ["-qp", IntToString(q)], "-rc");
    ValueAfterExtend(a6, ["-c:a", "copy"], "-rc");
    ValueAfterExtend(a7, ["-map_metadata", "0"], "-rc");
    ValueAfterExtend(a8, ["-y", output], "-rc");
    ValueAfterPair(a5, "-qp", IntToString(q));
    ValueAfterExtend(a6, ["-c:a", "copy"], "-qp");
    ValueAfterExtend(a7, ["-map_metadata", "0"], "-qp");
    ValueAfterExtend(a8, ["-y", output], "-qp");
    ValueAfterPair(a2, "-preset", "p7");
    ValueAfterExtend(a3, ["-multipass", "fullres"], "-preset");
    ValueAfterExtend(a4, ["-rc", "constqp"], "-preset");
    ValueAfterExtend(a5, ["-qp", IntToString(q)], "-preset");
    ValueAfterExtend(a6, ["-c:a", "copy"], "-preset");
    ValueAfterExtend(a7, ["-map_metadata", "0"], "-preset");
    ValueAfterExtend(a8, ["-y", output], "-preset");
    ValueAfterPair(a3, "-multipass", "fullres");
    ValueAfterExtend(a4, ["-rc", "constqp"], "-multipass");
    ValueAfterExtend(a5, ["-qp", IntToString(q)], "-multipass");
    ValueAfterExtend(a6, ["-c:a", "copy"], "-multipass");
    ValueAfterExtend(a7, ["-map_metadata", "0"], "-multipass");
    ValueAfterExtend(a8, ["-y", output], "-multipass");
  }

  /** `-qp` occurs once in the Nvidia vector. */
  lemma NvidiaQpOnce(input: string, output: string, q: int)
    requires NotAnOption(input) && NotAnOption(output)
    ensures Count(FfmpegArgs(Nvidia, input, output, q), "-qp") == 1
  {
    IntToStringNot(q, "-qp");
    var a0 := ["ffmpeg"] + ["-i", input];
    var a1 := a0 + ["-c:v", CodecName(Nvidia)];
    var a2 := a1 + ["-vtag", "hvc1"];
    var a3 := a2 + ["-preset", "p7"];
    var a4 := a3 + ["-multipass", "fullres"];
    var a5 := a4 + ["-rc", "constqp"];
    var a6 := a5 + ["-qp", IntToString(q)];
    var a7 := a6 + ["-c:a", "copy"];
    var a8 := a7 + ["-map_metadata", "0"];
    var a9 := a8 + ["-y", output];
    assert a9 == FfmpegArgs(Nvidia, input, output, q);
    CountPair("ffmpeg", "ffmpeg", "-qp");
    CountPair("-i", input, "-qp");
    CountPair("-c:v", CodecName(Nvidia), "-qp");
    CountPair("-vtag", "hvc1", "-qp");
    CountPair("-preset", "p7", "-qp");
    CountPair("-multipass", "fullres", "-qp");
    CountPair("-rc", "constqp", "-qp");
    CountPair("-qp", IntToString(q), "-qp");
    CountPair("-c:a", "copy", "-qp");
    CountPair("-map_metadata", "0", "-qp");
    CountPair("-y", output, "-qp");
    CountConcat(["ffmpeg"], ["-i", input], "-qp");
    CountConcat(a0, ["-c:v", CodecName(Nvidia)], "-qp");
    CountConcat(a1, ["-vtag", "hvc1"], "-qp");
    CountConcat(a2, ["-preset", "p7"], "-qp");
    CountConcat(a3, ["-multipass", "fullres"], "-qp");
    CountConcat(a4, ["-rc", "constqp"], "-qp");
    CountConcat(a5, ["-qp", IntToString(q)], "-qp");
    CountConcat(a6, ["-c:a", "copy"], "-qp");
    CountConcat(a7, ["-map_metadata", "0"], "-qp");
    CountConcat(a8, ["-y", output], "-qp");
  }

  /**
   * The Nvidia quality value occurs once in the vector, unless it is 0: then it is
   * also the value of `-map_metadata`.
   */
  lemma NvidiaQualityOccurrences(input: string, output: string, q: int)
    requires input != IntToString(q) && output != IntToString(q)
    ensures q != 0 ==> Count(FfmpegArgs(Nvidia, input, output, q), IntToString(q)) == 1
    ensures q == 0 ==> Count(FfmpegArgs(Nvidia, input, output, q), IntToString(q)) == 2
  {
    var x := IntToString(q);
    IntToStringIsNumber(q);
    IntToStringZero(q);
    NvidiaCount(input, output, x);
    assert FfmpegArgs(Nvidia, input, output, q) == NvidiaHead(input) + [x] + (NvidiaTail1() + ["0"] + NvidiaTail2(output));
  }

  function NvidiaHead(input: string): seq<string>
  {
    ["ffmpeg", "-i"] + [input] + NvidiaFixed()
  }

  function NvidiaFixed(): seq<string>
  {
    ["-c:v", "hevc_nvenc", "-vtag", "hvc1", "-preset", "p7", "-multipass", "fullres", "-rc", "constqp", "-qp"]
  }

  function NvidiaTail1(): seq<string> { ["-c:a", "copy", "-map_metadata"] }

  function NvidiaTail2(output: string): seq<string> { ["-y", output] }

  /** Counting a number-like word in the Nvidia vector: once, and once more as the metadata index when it is "0". */
  lemma NvidiaCount(input: string, output: string, x: string)
    requires IsNumberText(x) && input != x && output != x
    ensures Count(NvidiaHead(input) + [x] + (NvidiaTail1() + ["0"] + NvidiaTail2(output)), x)
            == if x == "0" then 2 else 1
  {
    var head, tail1, tail2 := NvidiaHead(input), NvidiaTail1(), NvidiaTail2(output);
    NumberNotAmong(x, ["ffmpeg", "-i"]);
    NumberNotAmong(x, NvidiaFixed());
    NumberNotAmong(x, tail1);
    CountAbsent(["ffmpeg", "-i"], x);
    CountAbsent(NvidiaFixed(), x);
    CountAbsent(tail1, x);
    CountPair(input, input, x);
    CountPair("-y", output, x);
    CountPair(x, x, x);
    CountPair("0", "0", x);
    CountConcat(["ffmpeg", "-i"], [input], x);
    CountConcat(["ffmpeg", "-i"] + [input], NvidiaFixed(), x);
    CountConcat(tail1, ["0"], x);
    CountConcat(tail1 + ["0"], tail2, x);
    CountConcat(head, [x], x);
    CountConcat(head + [x], tail1 + ["0"] + tail2, x);
  }

  /** Mac: the quality follows `-q:v`. */
  lemma MacArgs(input: string, output: string, q: int)
    requires NotAnOption(input)
    ensures var args := FfmpegArgs(Mac, input, output, q);
      ValueAfter(args, "-i") == Some(input)
      && ValueAfter(args, "-c:v") == Some("hevc_videotoolbox")
      && ValueAfter(args, "-vtag") == Some("hvc1")
      && ValueAfter(args, "-q:v") == Some(IntToString(q))
      && ValueAfter(args, "-hwaccel") == Some("videotoolbox")
      && EndsWithOverwrite(args, output)
  {
    var a0 := ["ffmpeg"] + ["-hwaccel", "videotoolbox"];
    var a1 := a0 + ["-i", input];
    var a2 := a1 + ["-c:v", CodecName(Mac)];
    var a3 := a2 + ["-vtag", "hvc1"];
    var a4 := a3 + ["-q:v", IntToString(q)];
    var a5 := a4 + ["-c:a", "copy"];
    var a6 := a5 + ["-map_metadata", "0"];
    var a7 := a6 + ["-y", output];
    assert a7 == FfmpegArgs(Mac, input, output, q);
    ValueAfterPair(a0, "-i", input);
    ValueAfterExtend(a1, ["-c:v", CodecName(Mac)], "-i");
    ValueAfterExtend(a2, ["-vtag", "hvc1"], "-i");
    ValueAfterExtend(a3, ["-q:v", IntToString(q)], "-i");
    ValueAfterExtend(a4, ["-c:a", "copy"], "-i");
    ValueAfterExtend(a5, ["-map_metadata", "0"], "-i");
    ValueAfterExtend(a6, ["-y", output], "-i");
    ValueAfterPair(a1, "-c:v", CodecName(Mac));
    ValueAfterExtend(a2, ["-vtag", "hvc1"], "-c:v");
    ValueAfterExtend(a3, ["-q:v", IntToString(q)], "-c:v");
    ValueAfterExtend(a4, ["-c:a", "copy"], "-c:v");
    ValueAfterExtend(a5, ["-map_metadata", "0"], "-c:v");
    ValueAfterExtend(a6, ["-y", output], "-c:v");
    ValueAfterPair(a2, "-vtag", "hvc1");
    ValueAfterExtend(a3, ["-q:v", IntToString(q)], "-vtag");
    ValueAfterExtend(a4, ["-c:a", "copy"], "-vtag");
    ValueAfterExtend(a5, ["-map_metadata", "0"], "-vtag");
    ValueAfterExtend(a6, ["-y", output], "-vtag");
    ValueAfterPair(a3, "-q:v", IntToString(q));
    ValueAfterExtend(a4, ["-c:a", "copy"], "-q:v");
    ValueAfterExtend(a5, ["-map_metadata", "0"], "-q:v");
    ValueAfterExtend(a6, ["-y", output], "-q:v");
    ValueAfterPair(["ffmpeg"], "-hwaccel", "videotoolbox");
    ValueAfterExtend(a0, ["-i", input], "-hwaccel");
    ValueAfterExtend(a1, ["-c:v", CodecName(Mac)], "-hwaccel");
    ValueAfterExtend(a2, ["-vtag", "hvc1"], "-hwaccel");
    ValueAfterExtend(a3, ["-q:v", IntToString(q)], "-hwaccel");
    ValueAfterExtend(a4, ["-c:a", "copy"], "-hwaccel");
    ValueAfterExtend(a5, ["-map_metadata", "0"], "-hwaccel");
    ValueAfterExtend(a6, ["-y", output], "-hwaccel");
  }
}
