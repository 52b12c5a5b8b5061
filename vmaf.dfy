/**
 * The VMAF analyser: the libvmaf command line, the reading of the score from ffmpeg's
 * diagnostic output and the bitrate text checks.
 *
 * ffmpeg and ffprobe are not run here: what they print, or whether they fail, arrives
 * as a parameter.
 */
module Vmaf {
  import opened Wrappers
  import opened Text
  import opened Paths
  import opened SuffixMatch

  // ---------------------------------------------------------------------------
  // The libvmaf command line
  // ---------------------------------------------------------------------------

  /** The libvmaf model option: the "neg" variant exactly when asked for. */
  function ModelString(useNegModel: bool): (m: string)
    ensures m == "version=vmaf_v0.6.1neg" <==> useNegModel
    ensures StartsWith(m, "version=vmaf_v0.6.1")
  {
    if useNegModel then "version=vmaf_v0.6.1neg" else "version=vmaf_v0.6.1"
  }

  /** The filter graph: distorted stream `[1:v]` first, reference `[0:v]` second. */
  function FilterComplex(useNegModel: bool): string
  {
    "[1:v][0:v]libvmaf=model=" + ModelString(useNegModel) + ":n_threads=4"
  }

  /** The argv of `calculate_vmaf`: reference as input 0, candidate as input 1, output discarded. */
  function VmafArgs(ffmpegBin: string, refFile: string, mainFile: string, useNegModel: bool): seq<string>
  {
    [ffmpegBin, "-i", refFile, "-i", mainFile, "-filter_complex", FilterComplex(useNegModel), "-f", "null", "-"]
  }

  /** The inputs of an ffmpeg command line, in order: every value that follows an `-i`. */
  function Inputs(args: seq<string>): seq<string>
  {
    if |args| < 2 then []
    else if args[0] == "-i" then [args[1]] + Inputs(args[2..])
    else Inputs(args[1..])
  }

  lemma InputsSkip(x: string, rest: seq<string>)
    requires x != "-i"
    ensures Inputs([x] + rest) == Inputs(rest)
  {
    assert ([x] + rest)[1..] == rest;
  }

  lemma InputsTake(v: string, rest: seq<string>)
    ensures Inputs(["-i", v] + rest) == [v] + Inputs(rest)
  {
    assert (["-i", v] + rest)[2..] == rest;
  }

  /**
   * The reference is ffmpeg's input 0 and the candidate its input 1, so the filter's
   * `[1:v][0:v]` feeds libvmaf the candidate first and the reference second.
   */
  lemma VmafArgsInputs(ffmpegBin: string, refFile: string, mainFile: string, useNegModel: bool)
    requires ffmpegBin != "-i" && refFile != "-i" && mainFile != "-i"
    ensures Inputs(VmafArgs(ffmpegBin, refFile, mainFile, useNegModel)) == [refFile, mainFile]
  {
    FilterComplexOpening(useNegModel);
    TwoInputs(ffmpegBin, refFile, mainFile, "-filter_complex", FilterComplex(useNegModel));
  }

  /** `bin -i a -i b <flag> <filter> -f null -` reads `a` and then `b`. */
  lemma TwoInputs(bin: string, a: string, b: string, flag: string, filter: string)
    requires bin != "-i" && a != "-i" && b != "-i" && flag != "-i" && filter != "-i"
    ensures Inputs([bin, "-i", a, "-i", b, flag, filter, "-f", "null", "-"]) == [a, b]
  {
    var t0 := ["-"];
    var t1 := ["null"] + t0;
    var t2 := ["-f"] + t1;
    var t3 := [filter] + t2;
    var t4 := [flag] + t3;
    var t5 := ["-i", b] + t4;
    var t6 := ["-i", a] + t5;
    assert [bin] + t6 == [bin, "-i", a, "-i", b, flag, filter, "-f", "null", "-"];
    assert Inputs(t0) == [];
    InputsSkip("null", t0);
    InputsSkip("-f", t1);
    InputsSkip(filter, t2);
    InputsSkip(flag, t3);
    InputsTake(b, t4);
    InputsTake(a, t5);
    InputsSkip(bin, t6);
  }

  /** The filter graph opens with the two stream labels, candidate first. */
  lemma FilterComplexOpening(useNegModel: bool)
    ensures StartsWith(FilterComplex(useNegModel), "[1:v][0:v]libvmaf=model=")
    ensures FilterComplex(useNegModel) != "-i"
  {
    var fc := FilterComplex(useNegModel);
    assert fc[0] == '[';
    assert fc[..|"[1:v][0:v]libvmaf=model="|] == "[1:v][0:v]libvmaf=model=";
  }

  // ---------------------------------------------------------------------------
  // Reading the score: re.search(r"VMAF score[:=]\s*([0-9.]+)", line)
  // ---------------------------------------------------------------------------

  const ScoreKey: string := "VMAF score"

  predicate IsNumberChar(c: char) { IsDigit(c) || c == '.' }

  predicate AllNumberChars(s: string) { forall i :: 0 <= i < |s| ==> IsNumberChar(s[i]) }

  /** The first index at or after `from` that is not whitespace (`\s*`, greedy). */
  function SkipSpaces(s: string, from: nat): (e: nat)
    requires from <= |s|
    ensures from <= e <= |s|
    ensures forall i :: from <= i < e ==> IsSpace(s[i])
    ensures e < |s| ==> !IsSpace(s[e])
    decreases |s| - from
  {
    if from < |s| && IsSpace(s[from]) then SkipSpaces(s, from + 1) else from
  }

  /** The end of the longest run of `[0-9.]` starting at `from` (`[0-9.]+`, greedy). */
  function SkipNumber(s: string, from: nat): (e: nat)
    requires from <= |s|
    ensures from <= e <= |s|
    ensures AllNumberChars(s[from..e])
    ensures e < |s| ==> !IsNumberChar(s[e])
    decreases |s| - from
  {
    if from < |s| && IsNumberChar(s[from]) then
      var e := SkipNumber(s, from + 1);
      assert s[from..e] == [s[from]] + s[from + 1..e];
      e
    else from
  }

  /**
   * The captured number when the pattern matches at an occurrence `p` of the key: a ':'
   * (or, when `equalsToo`, a '='), any whitespace, then at least one of `[0-9.]`.
   * Backtracking cannot help the pattern here: giving back whitespace leaves a whitespace
   * character where a digit or '.' is needed.
   */
  function ScoreAt(line: string, p: nat, equalsToo: bool): (r: Option<string>)
    requires OccursAt(line, ScoreKey, p)
    ensures r.Some? ==> r.value != [] && AllNumberChars(r.value)
    ensures r.Some? <==> Separator(line, p + |ScoreKey|, equalsToo) && NumberFollows(line, p + |ScoreKey|)
    ensures r.Some? ==> CapturedAfter(line, p + |ScoreKey|, r.value)
  {
    var c := p + |ScoreKey|;
    if Separator(line, c, equalsToo) then
      var b := SkipSpaces(line, c + 1);
      var e := SkipNumber(line, b);
      assert forall b' :: SpacesThenNumber(line, c, b') ==> b' == b;
      if b < e then
        assert SpacesThenNumber(line, c, b) && CaptureAt(line, b, line[b..e]);
        Some(line[b..e])
      else None
    else None
  }

  /** `[:=]` (or `:` alone) at index `c`. */
  predicate Separator(line: string, c: nat, equalsToo: bool) {
    c < |line| && (line[c] == ':' || (equalsToo && line[c] == '='))
  }

  /** `\s*` after the separator at `c` up to `b`, and a digit or '.' at `b`. */
  predicate SpacesThenNumber(line: string, c: nat, b: nat) {
    c < b < |line| && (forall i :: c < i < b ==> IsSpace(line[i])) && IsNumberChar(line[b])
  }

  /** `\s*[0-9.]` matches right after the separator at `c`. */
  ghost predicate NumberFollows(line: string, c: nat) {
    exists b :: SpacesThenNumber(line, c, b)
  }

  /** `\s*([0-9.]+)` after the separator at `c` captures `number`. */
  ghost predicate CapturedAfter(line: string, c: nat, number: string) {
    exists b :: SpacesThenNumber(line, c, b) && CaptureAt(line, b, number)
  }

  /** `number` is the whole run of `[0-9.]` that starts at `b`. */
  predicate CaptureAt(line: string, b: nat, number: string) {
    b + |number| <= |line| && line[b..b + |number|] == number && AllNumberChars(number)
    && (b + |number| == |line| || !IsNumberChar(line[b + |number|]))
  }

  /** The pattern matches at an occurrence `p` of the key. */
  predicate ScoreMatchesAt(line: string, p: nat, equalsToo: bool) {
    OccursAt(line, ScoreKey, p) && ScoreAt(line, p, equalsToo).Some?
  }

  /** `re.search` from position `from`: the leftmost occurrence of the key where the pattern matches. */
  function ScoreSearch(line: string, from: nat, equalsToo: bool): (r: Option<string>)
    ensures r.Some? ==> r.value != [] && AllNumberChars(r.value)
    ensures r.Some? ==> Contains(line, ScoreKey)
    decreases |line| - from
  {
    if from + |ScoreKey| > |line| then None
    else if OccursAt(line, ScoreKey, from) && ScoreAt(line, from, equalsToo).Some? then ScoreAt(line, from, equalsToo)
    else ScoreSearch(line, from + 1, equalsToo)
  }

  /** The number `VMAF score[:=]\s*([0-9.]+)` captures in `line`, if it matches anywhere. */
  function ScoreText(line: string): (r: Option<string>)
    ensures r.Some? ==> r.value != [] && AllNumberChars(r.value)
    ensures r.Some? ==> Contains(line, ScoreKey)
  {
    ScoreSearch(line, 0, true)
  }

  /** The search returns the capture at the leftmost position from `from` where the pattern matches. */
  lemma {:induction false} ScoreSearchLeftmost(line: string, from: nat, p: nat, equalsToo: bool)
    requires from <= p && ScoreMatchesAt(line, p, equalsToo)
    requires forall q :: from <= q < p ==> !ScoreMatchesAt(line, q, equalsToo)
    ensures ScoreSearch(line, from, equalsToo) == ScoreAt(line, p, equalsToo)
    decreases p - from
  {
    if from < p {
      assert !ScoreMatchesAt(line, from, equalsToo);
      ScoreSearchLeftmost(line, from + 1, p, equalsToo);
    }
  }

  /** The search finds nothing exactly when the pattern matches nowhere from `from` on. */
  lemma {:induction false} ScoreSearchNoneIff(line: string, from: nat, equalsToo: bool)
    ensures ScoreSearch(line, from, equalsToo).None? <==> forall p :: from <= p ==> !ScoreMatchesAt(line, p, equalsToo)
    decreases |line| - from
  {
    if from + |ScoreKey| > |line| {
      assert forall p :: from <= p ==> !OccursAt(line, ScoreKey, p);
    } else if ScoreMatchesAt(line, from, equalsToo) {
    } else {
      ScoreSearchNoneIff(line, from + 1, equalsToo);
    }
  }

  /** `ScoreText` is the capture at the leftmost match of the pattern with either separator. */
  lemma ScoreTextLeftmost(line: string, p: nat)
    requires ScoreMatchesAt(line, p, true)
    requires forall q :: 0 <= q < p ==> !ScoreMatchesAt(line, q, true)
    ensures ScoreText(line) == ScoreAt(line, p, true)
  {
    ScoreSearchLeftmost(line, 0, p, true);
  }

  /** `ScoreText` finds nothing exactly when the pattern matches nowhere in the line. */
  lemma ScoreTextNoneIff(line: string)
    ensures ScoreText(line).None? <==> forall p :: !ScoreMatchesAt(line, p, true)
  {
    ScoreSearchNoneIff(line, 0, true);
  }

  /** Text that opens with the key, a colon and a number captures that number, whatever follows it. */
  lemma ScoreSearchAtStart(number: string, rest: string, equalsToo: bool)
    requires number != [] && AllNumberChars(number)
    requires rest == [] || !IsNumberChar(rest[0])
    ensures ScoreSearch("VMAF score: " + number + rest, 0, equalsToo) == Some(number)
  {
    var line := "VMAF score: " + number + rest;
    var b := |ScoreKey| + 2;
    assert line[..|ScoreKey|] == ScoreKey;
    assert line[|ScoreKey|] == ':' && line[|ScoreKey| + 1] == ' ';
    assert OccursAt(line, ScoreKey, 0);
    assert line[b] == number[0];
    assert SkipSpaces(line, b) == b;
    assert SkipSpaces(line, |ScoreKey| + 1) == b;
    assert forall i :: b <= i < b + |number| ==> line[i] == number[i - b];
    assert b + |number| < |line| ==> line[b + |number|] == rest[0];
    var e := SkipNumber(line, b);
    assert e == b + |number|;
    assert line[b..e] == number;
    assert ScoreAt(line, 0, equalsToo) == Some(number);
  }

  /** A line that is the key, a colon and a number yields that number. */
  lemma ScoreTextOfScoreLine(number: string)
    requires number != [] && AllNumberChars(number)
    ensures ScoreText("VMAF score: " + number) == Some(number)
  {
    ScoreSearchAtStart(number, "", true);
    assert "VMAF score: " + number + "" == "VMAF score: " + number;
  }

  /** A line without a ':' or '=' right after the key (and the key only once) yields nothing. */
  lemma ScoreTextWithoutSeparator()
    ensures ScoreText("VMAF score 95.1") == None
  {
    var line := "VMAF score 95.1";
    assert line[|ScoreKey|] == ' ';
    assert ScoreSearch(line, 1, true) == None by {
      forall p | 1 <= p ensures !OccursAt(line, ScoreKey, p) {
        if p + |ScoreKey| <= |line| {
          assert line[p..p + |ScoreKey|][0] == line[p] != 'V';
        }
      }
      ScoreSearchNone(line, 1, true);
    }
  }

  /** The search finds nothing where the key does not occur. */
  lemma {:induction false} ScoreSearchNone(line: string, from: nat, equalsToo: bool)
    requires forall p :: from <= p ==> !OccursAt(line, ScoreKey, p)
    ensures ScoreSearch(line, from, equalsToo) == None
    decreases |line| - from
  {
    if from + |ScoreKey| <= |line| {
      ScoreSearchNone(line, from + 1, equalsToo);
    }
  }

  // ---------------------------------------------------------------------------
  // float() of the captured text
  // ---------------------------------------------------------------------------

  predicate HasDigit(s: string) { exists i :: 0 <= i < |s| && IsDigit(s[i]) }

  predicate TwoDots(s: string) { exists i, j :: 0 <= i < j < |s| && s[i] == '.' && s[j] == '.' }

  function Pow10(n: nat): (p: nat)
    ensures p >= 1
  {
    if n == 0 then 1 else 10 * Pow10(n - 1)
  }

  /** Index of the first '.', or the length when there is none. */
  function FirstDot(s: string): (k: nat)
    ensures k <= |s|
    ensures forall i :: 0 <= i < k ==> s[i] != '.'
    ensures k < |s| ==> s[k] == '.'
  {
    if s == [] || s[0] == '.' then 0 else 1 + FirstDot(s[1..])
  }

  predicate NoDot(s: string) { forall i :: 0 <= i < |s| ==> s[i] != '.' }

  /**
   * `float(text)` for a run of digits and dots: defined for at most one dot and at least
   * one digit (`"5."` and `".5"` are numbers, `"."` and `"9.5.1"` raise `ValueError`).
   * The value is the exact decimal; binary rounding is not modelled.
   */
  function DecimalValue(text: string): Option<real>
    requires AllNumberChars(text)
  {
    var k := FirstDot(text);
    if k == |text| then
      if text == [] then None else Some(DigitsValue(text) as real)
    else
      var whole := text[..k];
      var frac := text[k + 1..];
      if !NoDot(frac) || (whole == [] && frac == []) then None
      else Some(Decimal(whole, frac))
  }

  /** The decimal `whole.frac`. */
  function Decimal(whole: string, frac: string): real
    requires AllDigits(whole) && AllDigits(frac)
  {
    DigitsValue(whole) as real + DigitsValue(frac) as real / Pow10(|frac|) as real
  }

  /** `float` accepts the captured text exactly when it has at most one dot and some digit. */
  lemma DecimalValueDefined(text: string)
    requires AllNumberChars(text)
    ensures DecimalValue(text).Some? <==> !TwoDots(text) && HasDigit(text)
  {
    var k := FirstDot(text);
    if k < |text| {
      var frac := text[k + 1..];
      if NoDot(frac) {
        forall i | 0 <= i < |text| && i != k ensures text[i] != '.' {
          if i > k { assert text[i] == frac[i - k - 1]; }
        }
        if text[..k] != [] { assert IsDigit(text[0]); }
        else if frac != [] { assert text[k + 1] == frac[0]; }
      } else {
        var j :| 0 <= j < |frac| && frac[j] == '.';
        assert text[k + 1 + j] == '.';
      }
    } else if text != [] {
      assert IsDigit(text[0]);
    }
  }

  /** An integer and a fraction joined by one dot read back as that decimal. */
  lemma DecimalValueOf(whole: string, frac: string)
    requires AllDigits(whole) && AllDigits(frac) && (whole != [] || frac != [])
    ensures AllNumberChars(whole + "." + frac)
    ensures DecimalValue(whole + "." + frac) == Some(Decimal(whole, frac))
  {
    var text := whole + "." + frac;
    assert AllNumberChars(text) by {
      forall i | 0 <= i < |text| ensures IsNumberChar(text[i]) {
        if i < |whole| { assert text[i] == whole[i]; } else if i > |whole| { assert text[i] == frac[i - |whole| - 1]; }
      }
    }
    assert text[|whole|] == '.';
    assert forall i :: 0 <= i < |whole| ==> text[i] == whole[i];
    FirstDotAt(text, |whole|);
    assert text[..|whole|] == whole;
    assert text[|whole| + 1..] == frac;
    assert NoDot(frac);
  }

  /** The first dot is at `k` when there is none before `k` and one at `k` (or `k` is the end). */
  lemma {:induction false} FirstDotAt(s: string, k: nat)
    requires k <= |s| && (forall i :: 0 <= i < k ==> s[i] != '.') && (k < |s| ==> s[k] == '.')
    ensures FirstDot(s) == k
  {
    if k > 0 {
      FirstDotAt(s[1..], k - 1);
    }
  }

  /** What `str` writes for a natural number reads back as that number. */
  lemma DecimalValueOfNat(n: nat)
    ensures AllNumberChars(NatToString(n))
    ensures DecimalValue(NatToString(n)) == Some(n as real)
  {
    var text := NatToString(n);
    FirstDotAt(text, |text|);
    DigitsValueOfNatToString(n);
  }

  lemma DecimalExample()
    ensures DecimalValue("95.5") == Some(95.5)
  {
    assert DigitsValue("95") == 95 by { assert "95"[..1] == "9"; assert "9"[..0] == ""; }
    assert DigitsValue("5") == 5 by { assert "5"[..0] == ""; }
    DecimalValueOf("95", "5");
    assert "95" + "." + "5" == "95.5";
  }

  /** A number with two dots raises, which the analyser turns into "no score". */
  lemma DecimalValueTwoDots()
    ensures DecimalValue("9.5.1") == None
  {
    var text := "9.5.1";
    FirstDotAt(text, 1);
    assert text[2..][1] == '.';
  }

  // ---------------------------------------------------------------------------
  // calculate_vmaf's parse
  // ---------------------------------------------------------------------------

  /**
   * Scan the diagnostic lines from last to first; the first line that contains the key and
   * matches the pattern decides: its number, or `None` when `float` rejects it (the
   * exception ends the scan). Lines with the key that do not match are passed over.
   */
  function ParseScore(lines: seq<string>): Option<real>
  {
    if lines == [] then None
    else
      var line := lines[|lines| - 1];
      if Contains(line, ScoreKey) && ScoreText(line).Some? then DecimalValue(ScoreText(line).value)
      else ParseScore(lines[..|lines| - 1])
  }

  /** `calculate_vmaf`: `None` when running ffmpeg raised, otherwise the parse of its diagnostics. */
  function CalculateVmaf(stderrLines: Option<seq<string>>): (r: Option<real>)
    ensures stderrLines.None? ==> r.None?
    ensures stderrLines.Some? ==> r == ParseScore(stderrLines.value)
  {
    match stderrLines
    case None => None
    case Some(lines) => ParseScore(lines)
  }

  /** The last score line wins over every earlier one, and a malformed last number gives `None`. */
  lemma ParseScoreLastWins(lines: seq<string>, line: string)
    requires ScoreText(line).Some?
    ensures ParseScore(lines + [line]) == DecimalValue(ScoreText(line).value)
  {
    assert (lines + [line])[|lines|] == line;
  }

  /** Lines after the score line that the pattern does not match leave the score unchanged. */
  lemma {:induction false} ParseScoreIgnoresTrailingNoise(lines: seq<string>, noise: seq<string>)
    requires forall i :: 0 <= i < |noise| ==> ScoreText(noise[i]).None?
    ensures ParseScore(lines + noise) == ParseScore(lines)
    decreases |noise|
  {
    if noise != [] {
      var all := lines + noise;
      assert all[..|all| - 1] == lines + noise[..|noise| - 1];
      assert all[|all| - 1] == noise[|noise| - 1];
      ParseScoreIgnoresTrailingNoise(lines, noise[..|noise| - 1]);
    } else {
      assert lines + noise == lines;
    }
  }

  /** Output without any matching line gives `None`. */
  lemma {:induction false} ParseScoreNoMatch(lines: seq<string>)
    requires forall i :: 0 <= i < |lines| ==> ScoreText(lines[i]).None?
    ensures ParseScore(lines) == None
  {
    if lines != [] {
      var init := lines[..|lines| - 1];
      assert forall i :: 0 <= i < |init| ==> init[i] == lines[i];
      ParseScoreNoMatch(init);
    }
  }

  /** A last line of the documented shape `VMAF score: <whole>.<frac>` reads as that decimal. */
  lemma ParseScoreOfScoreLine(earlier: seq<string>, whole: string, frac: string)
    requires AllDigits(whole) && AllDigits(frac) && (whole != [] || frac != [])
    ensures ParseScore(earlier + ["VMAF score: " + (whole + "." + frac)]) == Some(Decimal(whole, frac))
  {
    var number := whole + "." + frac;
    DecimalValueOf(whole, frac);
    ScoreTextOfScoreLine(number);
    ParseScoreLastWins(earlier, "VMAF score: " + number);
  }

  // ---------------------------------------------------------------------------
  // get_bitrate
  // ---------------------------------------------------------------------------

  /**
   * `get_bitrate`: `None` when ffprobe raised, printed nothing but whitespace, printed
   * `N/A`, or printed something `float` rejects; otherwise the bit rate in kbit/s.
   * `toFloat` stands for Python's `float` on the stripped text.
   */
  function GetBitrate(probeOutput: Option<string>, toFloat: string -> Option<real>): (r: Option<real>)
    ensures probeOutput.None? ==> r.None?
    ensures probeOutput.Some? && Strip(probeOutput.value) in {"", "N/A"} ==> r.None?
    ensures probeOutput.Some? && Strip(probeOutput.value) !in {"", "N/A"} ==>
      (r.Some? <==> toFloat(Strip(probeOutput.value)).Some?)
    ensures r.Some? ==> r.value * 1000.0 == toFloat(Strip(probeOutput.value)).value
  {
    match probeOutput
    case None => None
    case Some(raw) =>
      var text := Strip(raw);
      if text == "" || text == "N/A" then None
      else
        match toFloat(text)
        case None => None
        case Some(bits) => Some(bits / 1000.0)
  }
}
