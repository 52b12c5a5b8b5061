/**
 * Output-file naming: the parameter suffix an encoder's output carries
 * (`_intel_q{q}`, `_nvidia_qp{q}`, `_mac_qv{q}`), its removal, and the output file name.
 */
module Naming {
  import opened Wrappers
  import opened Text
  import opened Paths
  import opened SuffixMatch

  /** The alternatives of the suffix pattern, in the pattern's order, legacy tags included. */
  const ParamTags: seq<string> :=
    ["_intel_q", "_qsv_", "_nvidia_qmax", "_max_", "_nvidia_qp", "_mac_qv", "_mac_"]

  lemma ParamTagsValid()
    ensures ValidTags(ParamTags)
  {
  }

  /** `strip_param_suffix(stem)`: remove the one end-anchored parameter suffix, if any. */
  function StripParamSuffix(stem: string): (r: string)
    ensures StartsWith(stem, r)
    ensures |r| < |stem| ==> PatternMatch(stem, ParamTags, |r|)
    ensures forall i {:trigger PatternMatch(stem, ParamTags, i)} :: PatternMatch(stem, ParamTags, i) ==> |r| <= i
  {
    ParamTagsValid();
    StripPattern(stem, ParamTags)
  }

  /** The tag `build_param_suffix` writes for a known encoder name. */
  function EncoderTag(encoderName: string): Option<string>
  {
    if encoderName == "intel" then Some("_intel_q")
    else if encoderName == "mac" then Some("_mac_qv")
    else if encoderName == "nvidia" then Some("_nvidia_qp")
    else None
  }

  /** `build_param_suffix(encoder_name, quality)`, or the `ValueError` for an unknown name. */
  function BuildParamSuffix(encoderName: string, quality: int): (r: Result<string>)
    ensures r.Ok? <==> encoderName in {"intel", "mac", "nvidia"}
    ensures r.Ok? ==> EncoderTag(encoderName).Some? && r.value == EncoderTag(encoderName).value + IntToString(quality)
  {
    match EncoderTag(encoderName)
    case Some(tag) => Ok(tag + IntToString(quality))
    case None => Err("未知编码器: " + encoderName)
  }

  /** The frozen `OutputName` record. */
  datatype OutputName = OutputName(filename: string, suffix: string)

  /** `build_output_filename(input_file, encoder_name, quality)`: stem, parameter suffix, extension. */
  function BuildOutputFilename(inputFile: string, encoderName: string, quality: int): (r: Result<OutputName>)
    ensures r.Ok? <==> BuildParamSuffix(encoderName, quality).Ok?
    ensures r.Ok? ==> r.value.suffix == BuildParamSuffix(encoderName, quality).value
    ensures r.Ok? ==> r.value.filename == Stem(Name(inputFile)) + r.value.suffix + Suffix(Name(inputFile))
  {
    match BuildParamSuffix(encoderName, quality)
    case Ok(suffix) => Ok(OutputName(Stem(Name(inputFile)) + suffix + Suffix(Name(inputFile)), suffix))
    case Err(e) => Err(e)
  }

  // ---------------------------------------------------------------------------
  // Round trips
  // ---------------------------------------------------------------------------

  /** Each of the three suffixes `build_param_suffix` writes ends in a character no other tag ends in. */
  lemma EncoderTagUnique(encoderName: string)
    requires EncoderTag(encoderName).Some?
    ensures EncoderTag(encoderName).value in ParamTags
    ensures LastCharUnique(EncoderTag(encoderName).value, ParamTags)
  {
  }

  /** Stripping undoes building: `strip_param_suffix(stem + build_param_suffix(e, q)) == stem` for q >= 0. */
  lemma StripBuiltSuffix(stem: string, encoderName: string, quality: nat)
    requires encoderName in {"intel", "mac", "nvidia"}
    ensures StripParamSuffix(stem + BuildParamSuffix(encoderName, quality).value) == stem
  {
    var d := IntToString(quality);
    ParamTagsValid();
    if encoderName == "intel" {
      EncoderTagUnique("intel");
      StripAppended(stem, "_intel_q", d, ParamTags);
      ConcatAssoc(stem, "_intel_q", d);
    } else if encoderName == "mac" {
      EncoderTagUnique("mac");
      StripAppended(stem, "_mac_qv", d, ParamTags);
      ConcatAssoc(stem, "_mac_qv", d);
    } else {
      EncoderTagUnique("nvidia");
      StripAppended(stem, "_nvidia_qp", d, ParamTags);
      ConcatAssoc(stem, "_nvidia_qp", d);
    }
  }

  /** Only one suffix goes: a doubly-suffixed stem keeps its inner suffix. */
  lemma StripRemovesOneSuffix(stem: string, q1: nat, q2: nat)
    ensures StripParamSuffix(stem + "_intel_q" + IntToString(q1) + "_intel_q" + IntToString(q2))
         == stem + "_intel_q" + IntToString(q1)
  {
    StripBuiltSuffix(stem + "_intel_q" + IntToString(q1), "intel", q2);
    assert stem + "_intel_q" + IntToString(q1) + "_intel_q" + IntToString(q2)
        == stem + "_intel_q" + IntToString(q1) + BuildParamSuffix("intel", q2).value;
  }

  /** A stem the pattern does not match is returned unchanged. */
  lemma StripNoMatch(stem: string)
    requires forall i :: !PatternMatch(stem, ParamTags, i)
    ensures StripParamSuffix(stem) == stem
  {
  }

  /** The documented examples of `strip_param_suffix`, one lemma each. */
  lemma StripDocExampleIntel()
    ensures StripParamSuffix("demo_intel_q25") == "demo"
  {
    assert "demo_intel_q25" == "demo" + BuildParamSuffix("intel", 25).value;
    StripBuiltSuffix("demo", "intel", 25);
  }

  lemma StripDocExampleNvidia()
    ensures StripParamSuffix("demo_nvidia_qp24") == "demo"
  {
    assert "demo_nvidia_qp24" == "demo" + BuildParamSuffix("nvidia", 24).value;
    StripBuiltSuffix("demo", "nvidia", 24);
  }

  lemma StripDocExampleMac()
    ensures StripParamSuffix("demo_mac_qv58") == "demo"
  {
    assert "demo_mac_qv58" == "demo" + BuildParamSuffix("mac", 58).value;
    StripBuiltSuffix("demo", "mac", 58);
  }

  /**
   * The output file name keeps the input's extension and its stem strips back to the
   * input's stem (for an input with an extension and a non-negative quality).
   */
  lemma OutputFilenameRoundTrip(inputFile: string, encoderName: string, quality: nat)
    requires encoderName in {"intel", "mac", "nvidia"}
    requires Suffix(Name(inputFile)) != []
    ensures var out := BuildOutputFilename(inputFile, encoderName, quality).value;
      Suffix(out.filename) == Suffix(Name(inputFile))
      && StripParamSuffix(Stem(out.filename)) == Stem(Name(inputFile))
  {
    var name := Name(inputFile);
    var out := BuildOutputFilename(inputFile, encoderName, quality).value;
    var base := Stem(name) + out.suffix;
    StemSuffix(name);
    StemWithSuffix(base, Suffix(name));
    StripBuiltSuffix(Stem(name), encoderName, quality);
  }
}
