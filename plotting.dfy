/**
 * The efficiency plotter's file-name parsing, device colours, the rows it keeps and the
 * charts it draws. Reading the tab-separated results and the drawing itself are not
 * modelled; a results row arrives as its three cells.
 */
module Plotting {
  import opened Wrappers
  import opened Text
  import opened Paths
  import opened SuffixMatch
  import Naming

  /** The device (and mode) of a name no pattern recognises. */
  const Unknown: string := "未知"

  /** One `(device, mode, ^(?P<source>.+)<tag>(?P<param>\d+)$)` entry of the pattern list. */
  datatype Pattern = Pattern(device: string, mode: string, tag: string)

  /** The patterns, in the order they are tried. */
  const Patterns: seq<Pattern> := [
    Pattern("Intel", "qsv", "_intel_q"),
    Pattern("Intel", "qsv", "_qsv_"),
    Pattern("Nvidia", "qmax", "_nvidia_qmax"),
    Pattern("Nvidia", "qmax", "_max_"),
    Pattern("Nvidia", "constqp", "_nvidia_qp"),
    Pattern("MAC", "videotoolbox", "_mac_qv"),
    Pattern("MAC", "videotoolbox", "_mac_")
  ]

  predicate ValidPatterns(pats: seq<Pattern>)
  {
    forall k :: 0 <= k < |pats| ==> ValidTag(pats[k].tag)
  }

  lemma PatternsValid()
    ensures ValidPatterns(Patterns)
  {
  }

  /** Where pattern `k` splits `stem`, if it matches. */
  function SplitBy(stem: string, pats: seq<Pattern>, k: nat): (r: Option<nat>)
    requires ValidPatterns(pats) && k < |pats|
    ensures r.Some? ==> 1 <= r.value && TagDigitsMatch(stem, pats[k].tag, r.value)
  {
    TaggedSplit(stem, pats[k].tag)
  }

  /** The first pattern at or after `from` that matches `stem`. */
  function FirstMatch(stem: string, pats: seq<Pattern>, from: nat): (r: Option<nat>)
    requires ValidPatterns(pats) && from <= |pats|
    ensures r.Some? ==> from <= r.value < |pats| && SplitBy(stem, pats, r.value).Some?
    ensures r.Some? ==> forall j :: from <= j < r.value ==> SplitBy(stem, pats, j).None?
    ensures r.None? ==> forall j :: from <= j < |pats| ==> SplitBy(stem, pats, j).None?
    decreases |pats| - from
  {
    if from == |pats| then None
    else if SplitBy(stem, pats, from).Some? then Some(from)
    else FirstMatch(stem, pats, from + 1)
  }

  /** The display name: Nvidia devices are told apart by mode, and constant QP by AQ. */
  function DisplayDevice(p: Pattern, aq: bool): string
  {
    if p.device == "Nvidia" then
      if p.mode == "qmax" then "Nvidia (qmax)"
      else if p.mode == "constqp" then (if aq then "Nvidia (QP+AQ)" else "Nvidia (QP)")
      else p.device
    else p.device
  }

  /** What `extract_info` returns: device, parameter, source and the AQ flag. */
  datatype Info = Info(device: string, param: nat, source: string, aq: bool)

  /** The pattern loop on a stem already without `_aq`. */
  function Parse(stem: string, pats: seq<Pattern>, aq: bool): (r: Info)
    requires ValidPatterns(pats)
    ensures r.aq == aq
  {
    match FirstMatch(stem, pats, 0)
    case None => Info(Unknown, 0, stem, aq)
    case Some(k) =>
      var i := SplitBy(stem, pats, k).value;
      Info(DisplayDevice(pats[k], aq), DigitsValue(stem[i + |pats[k].tag|..]), stem[..i], aq)
  }

  /**
   * `extract_info(filename)`: the stem loses a trailing `_aq` (which sets the flag), then
   * the first matching pattern gives device, `int(param)` and source.
   */
  function ExtractInfo(filename: string): (r: Info)
    ensures r.aq <==> EndsWith(Stem(Name(filename)), "_aq")
  {
    var stem := Stem(Name(filename));
    PatternsValid();
    Parse(StripAq(stem), Patterns, EndsWith(stem, "_aq"))
  }

  /** Without a match the result is the unknown device, parameter 0 and the stem itself. */
  lemma ParseNoMatch(stem: string, pats: seq<Pattern>, aq: bool)
    requires ValidPatterns(pats)
    requires forall k :: 0 <= k < |pats| ==> SplitBy(stem, pats, k).None?
    ensures Parse(stem, pats, aq) == Info(Unknown, 0, stem, aq)
  {
    assert FirstMatch(stem, pats, 0).None?;
  }

  /**
   * The first matching pattern decides: the stem is the source, the pattern's tag and the
   * digits the parameter is read from.
   */
  lemma ParseFirstMatch(stem: string, pats: seq<Pattern>, aq: bool, k: nat)
    requires ValidPatterns(pats) && k < |pats|
    requires SplitBy(stem, pats, k).Some?
    requires forall j :: 0 <= j < k ==> SplitBy(stem, pats, j).None?
    ensures Parse(stem, pats, aq).device == DisplayDevice(pats[k], aq)
    ensures Parse(stem, pats, aq).source != [] && |Parse(stem, pats, aq).source| + |pats[k].tag| < |stem|
    ensures var r := Parse(stem, pats, aq);
      var d := stem[|r.source| + |pats[k].tag|..];
      stem == r.source + pats[k].tag + d && IsDigitRun(d) && r.param == DigitsValue(d)
  {
    var i := SplitBy(stem, pats, k).value;
    var t := pats[k].tag;
    assert FirstMatch(stem, pats, 0) == Some(k);
    assert stem[i..i + |t|] == t;
    assert stem == stem[..i] + stem[i..i + |t|] + stem[i + |t|..];
  }

  /** `_get_color(device_name)`: by substring of the lowered name, nvidia before intel before mac. */
  function GetColor(deviceName: string): (r: Option<string>)
    ensures r.None? <==> !Contains(Lower(deviceName), "nvidia") && !Contains(Lower(deviceName), "intel")
                         && !Contains(Lower(deviceName), "mac")
  {
    var lower := Lower(deviceName);
    if Contains(lower, "nvidia") then Some("tab:green")
    else if Contains(lower, "intel") then Some("tab:blue")
    else if Contains(lower, "mac") then Some("tab:orange")
    else None
  }

  /** A lowered name that opens with `t` contains it. */
  lemma ContainsAtStart(name: string, t: string)
    requires StartsWith(Lower(name), t)
    ensures Contains(Lower(name), t)
  {
    assert OccursAt(Lower(name), t, 0);
  }

  /** A name shorter than `t` cannot contain it. */
  lemma ShortMisses(s: string, t: string)
    requires |s| < |t|
    ensures !Contains(s, t)
  {
  }

  /** Each device a pattern yields has its colour; the unknown device has none. */
  lemma DeviceColors()
    ensures GetColor("Intel") == Some("tab:blue")
    ensures GetColor("MAC") == Some("tab:orange")
    ensures GetColor("Nvidia (qmax)") == Some("tab:green")
    ensures GetColor("Nvidia (QP)") == Some("tab:green")
    ensures GetColor("Nvidia (QP+AQ)") == Some("tab:green")
    ensures GetColor(Unknown) == None
  {
    ShortMisses(Lower("Intel"), "nvidia");
    assert StartsWith(Lower("Intel"), "intel");
    ContainsAtStart("Intel", "intel");
    ShortMisses(Lower("MAC"), "nvidia");
    ShortMisses(Lower("MAC"), "intel");
    assert StartsWith(Lower("MAC"), "mac");
    ContainsAtStart("MAC", "mac");
    assert StartsWith(Lower("Nvidia (qmax)"), "nvidia");
    ContainsAtStart("Nvidia (qmax)", "nvidia");
    assert StartsWith(Lower("Nvidia (QP)"), "nvidia");
    ContainsAtStart("Nvidia (QP)", "nvidia");
    assert StartsWith(Lower("Nvidia (QP+AQ)"), "nvidia");
    ContainsAtStart("Nvidia (QP+AQ)", "nvidia");
    ShortMisses(Lower(Unknown), "nvidia");
    ShortMisses(Lower(Unknown), "intel");
    ShortMisses(Lower(Unknown), "mac");
  }

  /** The device of pattern `k`, refined. */
  lemma PatternDevice(k: nat, aq: bool)
    requires k < |Patterns|
    ensures DisplayDevice(Patterns[k], aq) in {"Intel", "Nvidia (qmax)", "Nvidia (QP+AQ)", "Nvidia (QP)", "MAC"}
  {
  }

  /** The plotter colours exactly the rows it recognises: a colour is missing only for the unknown device. */
  lemma ExtractedColor(filename: string)
    ensures GetColor(ExtractInfo(filename).device).None? <==> ExtractInfo(filename).device == Unknown
  {
    var stem := Stem(Name(filename));
    var aq := EndsWith(stem, "_aq");
    PatternsValid();
    DeviceColors();
    match FirstMatch(StripAq(stem), Patterns, 0)
    case None =>
    case Some(k) =>
      PatternDevice(k, aq);
  }

  // ---------------------------------------------------------------------------
  // Names written by the encoders parse back
  // ---------------------------------------------------------------------------

  /** `stem + tag + digits` parses by pattern `k` when no earlier tag ends in the tag's last character. */
  lemma ParseTagged(stem: string, k: nat, d: string, aq: bool)
    requires stem != [] && k < |Patterns| && IsDigitRun(d)
    requires forall j :: 0 <= j < k ==> Patterns[j].tag[|Patterns[j].tag| - 1] != Patterns[k].tag[|Patterns[k].tag| - 1]
    ensures Parse(stem + Patterns[k].tag + d, Patterns, aq) == Info(DisplayDevice(Patterns[k], aq), DigitsValue(d), stem, aq)
  {
    PatternsValid();
    var t := Patterns[k].tag;
    var s := stem + t + d;
    TagAtJoin(stem, t, d);
    forall j | 0 <= j < k ensures SplitBy(s, Patterns, j).None? {
      OtherTagMisses(stem, t, d, Patterns[j].tag);
    }
    ParseAt(s, Patterns, aq, k, |stem|);
    assert s[..|stem|] == stem;
    assert s[|stem| + |t|..] == d;
  }

  /** When pattern `k` is the first to match, splitting at `i`, the parse is read off that split. */
  lemma ParseAt(s: string, pats: seq<Pattern>, aq: bool, k: nat, i: nat)
    requires ValidPatterns(pats) && k < |pats| && 1 <= i
    requires TagDigitsMatch(s, pats[k].tag, i)
    requires forall j :: 0 <= j < k ==> SplitBy(s, pats, j).None?
    ensures Parse(s, pats, aq) == Info(DisplayDevice(pats[k], aq), DigitsValue(s[i + |pats[k].tag|..]), s[..i], aq)
  {
    assert SplitBy(s, pats, k) == Some(i);
    assert FirstMatch(s, pats, 0) == Some(k);
  }

  /** The device `extract_info` reports for an encoder's output without AQ. */
  function DeviceOf(encoderName: string): string
  {
    if encoderName == "intel" then "Intel" else if encoderName == "mac" then "MAC" else "Nvidia (QP)"
  }

  /**
   * A file `<stem><tag k><digits>[_aq]<ext>` parses by pattern `k`, when no earlier tag ends
   * in the same character as tag `k`.
   */
  lemma ExtractInfoOfTagged(stem: string, k: nat, d: string, aq: bool, ext: string)
    requires stem != [] && k < |Patterns| && IsDigitRun(d) && IsExtension(ext)
    requires forall j :: 0 <= j < k ==> Patterns[j].tag[|Patterns[j].tag| - 1] != Patterns[k].tag[|Patterns[k].tag| - 1]
    requires forall j :: 0 <= j < |stem| ==> stem[j] != '/'
    requires forall j :: 0 <= j < |ext| ==> ext[j] != '/'
    ensures ExtractInfo(stem + Patterns[k].tag + d + (if aq then "_aq" else "") + ext)
         == Info(DisplayDevice(Patterns[k], aq), DigitsValue(d), stem, aq)
  {
    var t := Patterns[k].tag;
    var base := stem + t + d;
    var named := base + (if aq then "_aq" else "");
    assert forall j :: 0 <= j < |t| ==> t[j] != '/';
    assert forall j :: 0 <= j < |d| ==> d[j] != '/';
    assert stem + t + d + (if aq then "_aq" else "") + ext == named + ext;
    StemOfFile(named, ext);
    assert EndsWith(named, "_aq") == aq && StripAq(named) == base by {
      if aq {
        assert named[..|named| - 3] == base;
      } else {
        EndsWithLastCharImp(base, "_aq");
        assert base[|base| - 1] == d[|d| - 1];
      }
    }
    ParseTagged(stem, k, d, aq);
  }

  /**
   * A name built by `build_output_filename` parses back: the encoder's device, the quality
   * and the input's stem, with no AQ flag.
   */
  lemma ExtractInfoOfBuiltName(stem: string, encoderName: string, quality: nat, ext: string)
    requires stem != [] && IsExtension(ext) && encoderName in {"intel", "mac", "nvidia"}
    requires forall j :: 0 <= j < |stem| ==> stem[j] != '/'
    requires forall j :: 0 <= j < |ext| ==> ext[j] != '/'
    ensures var f := stem + Naming.BuildParamSuffix(encoderName, quality).value + ext;
      ExtractInfo(f) == Info(DeviceOf(encoderName), quality, stem, false)
  {
    var d := IntToString(quality);
    var k := if encoderName == "intel" then 0 else if encoderName == "nvidia" then 4 else 5;
    assert Patterns[k].tag == Naming.EncoderTag(encoderName).value;
    assert stem + Naming.BuildParamSuffix(encoderName, quality).value + ext
        == stem + Patterns[k].tag + d + (if false then "_aq" else "") + ext;
    ExtractInfoOfTagged(stem, k, d, false, ext);
    DigitsValueOfNatToString(quality);
  }

  /** The AQ batch script's names, `<stem>_nvidia_qp<q>_aq<ext>`, parse as constant QP with AQ. */
  lemma ExtractInfoOfAqName(stem: string, quality: nat, ext: string)
    requires stem != [] && IsExtension(ext)
    requires forall j :: 0 <= j < |stem| ==> stem[j] != '/'
    requires forall j :: 0 <= j < |ext| ==> ext[j] != '/'
    ensures ExtractInfo(stem + "_nvidia_qp" + IntToString(quality) + "_aq" + ext)
         == Info("Nvidia (QP+AQ)", quality, stem, true)
  {
    var d := IntToString(quality);
    assert stem + "_nvidia_qp" + d + "_aq" + ext == stem + Patterns[4].tag + d + (if true then "_aq" else "") + ext;
    ExtractInfoOfTagged(stem, 4, d, true, ext);
    DigitsValueOfNatToString(quality);
  }

  /**
   * An `.mp4` written by a batch script, `<dir>/<stem><tag><q>[_aq].mp4` with the tag of
   * pattern 0, 2, 4 or 5, parses by that pattern: its device, `q` and the stem.
   */
  lemma ExtractInfoOfMp4(dir: string, stem: string, k: nat, q: nat, aq: bool)
    requires k == 0 || k == 2 || k == 4 || k == 5
    requires stem != [] && forall j :: 0 <= j < |stem| ==> stem[j] != '/'
    ensures ExtractInfo(JoinPath(dir, stem + Patterns[k].tag + IntToString(q) + (if aq then "_aq" else "") + ".mp4"))
         == Info(DisplayDevice(Patterns[k], aq), q, stem, aq)
  {
    Mp4NameComponent(stem, k, IntToString(q), aq);
    NameOfJoin(dir, stem + Patterns[k].tag + IntToString(q) + (if aq then "_aq" else "") + ".mp4");
    TagsEndApart(k);
    ExtractInfoOfTagged(stem, k, IntToString(q), aq, ".mp4");
    DigitsValueOfNatToString(q);
  }

  /** Such a name is a single path component. */
  lemma Mp4NameComponent(stem: string, k: nat, d: string, aq: bool)
    requires k < |Patterns| && AllDigits(d)
    requires forall j :: 0 <= j < |stem| ==> stem[j] != '/'
    ensures var name := stem + Patterns[k].tag + d + (if aq then "_aq" else "") + ".mp4";
      forall j :: 0 <= j < |name| ==> name[j] != '/'
  {
    var t := Patterns[k].tag;
    assert forall j :: 0 <= j < |t| ==> t[j] != '/';
    assert forall j :: 0 <= j < |d| ==> d[j] != '/';
  }

  /** No tag before tag 0, 2, 4 or 5 ends in that tag's last character. */
  lemma TagsEndApart(k: nat)
    requires k == 0 || k == 2 || k == 4 || k == 5
    ensures forall j :: 0 <= j < k ==> Patterns[j].tag[|Patterns[j].tag| - 1] != Patterns[k].tag[|Patterns[k].tag| - 1]
  {
    var last := seq(|Patterns|, j requires 0 <= j < |Patterns| => Patterns[j].tag[|Patterns[j].tag| - 1]);
    assert last == ['q', '_', 'x', '_', 'p', 'v', '_'];
  }

  // ---------------------------------------------------------------------------
  // plot: the rows kept and the charts drawn
  // ---------------------------------------------------------------------------

  /** A row of the results file: `FileSpec`, `VMAF-Value`, `Bitrate`, as read. */
  datatype CsvRow = CsvRow(fileSpec: string, vmaf: string, bitrate: string)

  /** A row of the cleaned table. */
  datatype DataRow = DataRow(device: string, param: nat, source: string, vmaf: string, bitrate: string, aq: bool)

  function ToData(row: CsvRow): DataRow
  {
    var info := ExtractInfo(row.fileSpec);
    DataRow(info.device, info.param, info.source, row.vmaf, row.bitrate, info.aq)
  }

  /** The cleaned table: every row whose name parses to a known device, in file order. */
  function DataRows(rows: seq<CsvRow>): (data: seq<DataRow>)
    ensures |data| <= |rows|
    ensures forall i :: 0 <= i < |data| ==> data[i].device != Unknown
  {
    if rows == [] then []
    else
      var init := DataRows(rows[..|rows| - 1]);
      var d := ToData(rows[|rows| - 1]);
      if d.device != Unknown then init + [d] else init
  }

  /** Every row with a recognised name reaches the cleaned table. */
  lemma {:induction false} DataRowsComplete(rows: seq<CsvRow>, k: nat)
    requires k < |rows| && ExtractInfo(rows[k].fileSpec).device != Unknown
    ensures ToData(rows[k]) in DataRows(rows)
  {
    if k < |rows| - 1 {
      DataRowsComplete(rows[..|rows| - 1], k);
    }
  }

  /** The loop of `plot` that fills `data_rows`. */
  method CollectRows(rows: seq<CsvRow>) returns (data: seq<DataRow>)
    ensures data == DataRows(rows)
  {
    data := [];
    var k := 0;
    while k < |rows|
      invariant 0 <= k <= |rows|
      invariant data == DataRows(rows[..k])
    {
      assert rows[..k + 1][..k] == rows[..k];
      var info := ExtractInfo(rows[k].fileSpec);
      if info.device != Unknown {
        data := data + [DataRow(info.device, info.param, info.source, rows[k].vmaf, rows[k].bitrate, info.aq)];
      }
      k := k + 1;
    }
    assert rows[..|rows|] == rows;
  }

  /** `Series.unique()`: each value once, in order of first appearance. */
  function Unique(xs: seq<string>): (r: seq<string>)
    ensures forall i, j :: 0 <= i < j < |r| ==> r[i] != r[j]
    ensures forall x :: x in r <==> x in xs
  {
    if xs == [] then []
    else
      var u := Unique(xs[..|xs| - 1]);
      assert forall x :: x in xs <==> x in xs[..|xs| - 1] || x == xs[|xs| - 1];
      if xs[|xs| - 1] in u then u else u + [xs[|xs| - 1]]
  }

  /** Two distinct values give at least two unique values, and vice versa. */
  lemma UniqueMany(xs: seq<string>)
    ensures |Unique(xs)| > 1 <==> exists i, j :: 0 <= i < |xs| && 0 <= j < |xs| && xs[i] != xs[j]
  {
    var u := Unique(xs);
    if |u| > 1 {
      assert u[0] in xs && u[1] in xs;
      var i :| 0 <= i < |xs| && xs[i] == u[0];
      var j :| 0 <= j < |xs| && xs[j] == u[1];
      assert xs[i] != xs[j];
    }
    if exists i, j :: 0 <= i < |xs| && 0 <= j < |xs| && xs[i] != xs[j] {
      var i, j :| 0 <= i < |xs| && 0 <= j < |xs| && xs[i] != xs[j];
      assert xs[i] in u && xs[j] in u;
    }
  }

  function SourcesOf(data: seq<DataRow>): (r: seq<string>)
    ensures |r| == |data| && forall i :: 0 <= i < |data| ==> r[i] == data[i].source
  {
    seq(|data|, i requires 0 <= i < |data| => data[i].source)
  }

  /** `clean_df[clean_df["Source"].isin(sources)]`. */
  function KeepSources(data: seq<DataRow>, sources: seq<string>): (r: seq<DataRow>)
    ensures forall d :: d in r <==> d in data && d.source in sources
  {
    if data == [] then []
    else
      var init := KeepSources(data[..|data| - 1], sources);
      var d := data[|data| - 1];
      assert forall x :: x in data <==> x in data[..|data| - 1] || x == d;
      if d.source in sources then init + [d] else init
  }

  /** The rows charted: all of them, or those of the named sources when any are named. */
  function Kept(data: seq<DataRow>, sources: seq<string>): seq<DataRow>
  {
    if sources != [] then KeepSources(data, sources) else data
  }

  /** A source is charted iff some recognised row has it (and it is named, when any are). */
  lemma KeptSources(data: seq<DataRow>, sources: seq<string>, src: string)
    ensures src in SourcesOf(Kept(data, sources)) <==>
      exists d :: d in data && d.source == src && (sources == [] || src in sources)
  {
    var kept := Kept(data, sources);
    var srcs := SourcesOf(kept);
    if src in srcs {
      var i :| 0 <= i < |srcs| && srcs[i] == src;
      assert kept[i] in data;
    }
    if exists d :: d in data && d.source == src && (sources == [] || src in sources) {
      var d :| d in data && d.source == src && (sources == [] || src in sources);
      assert d in kept;
      var i :| 0 <= i < |kept| && kept[i] == d;
      assert srcs[i] == src;
    }
  }

  /** What `plot` ends in. */
  datatype PlotOutcome =
    | NoCsv               // the file is missing or unreadable
    | NoData              // no row has a recognised name
    | Charts(perSource: seq<string>, overall: bool)

  /** The charts for a non-empty cleaned table. */
  function Charted(data: seq<DataRow>, sources: seq<string>): (r: PlotOutcome)
    ensures r.Charts?
  {
    var unique := Unique(SourcesOf(Kept(data, sources)));
    Charts(unique, |unique| > 1)
  }

  /**
   * `plot(sources)`: one chart per source (in order of first appearance) among the
   * recognised rows, narrowed to `sources` when that list is non-empty, and the overall
   * chart only when more than one source is charted.
   */
  function Plot(csv: Option<seq<CsvRow>>, sources: seq<string>): (r: PlotOutcome)
    ensures r == NoCsv <==> csv.None?
    ensures r == NoData <==> csv.Some? && DataRows(csv.value) == []
  {
    match csv
    case None => NoCsv
    case Some(rows) =>
      var data := DataRows(rows);
      if data == [] then NoData else Charted(data, sources)
  }

  /**
   * The charted sources are exactly the sources of the rows (within `sources` when given),
   * each once; the overall chart is drawn iff two charted rows differ in source.
   */
  lemma ChartedSources(data: seq<DataRow>, sources: seq<string>)
    ensures var p := Charted(data, sources);
      forall i, j :: 0 <= i < j < |p.perSource| ==> p.perSource[i] != p.perSource[j]
    ensures var p := Charted(data, sources);
      forall src :: src in p.perSource <==>
        exists d :: d in data && d.source == src && (sources == [] || src in sources)
  {
    forall src {
      KeptSources(data, sources, src);
    }
  }

  lemma ChartedOverall(data: seq<DataRow>, sources: seq<string>)
    ensures var kept := Kept(data, sources);
      Charted(data, sources).overall <==>
        exists i, j :: 0 <= i < |kept| && 0 <= j < |kept| && kept[i].source != kept[j].source
  {
    var kept := Kept(data, sources);
    var srcs := SourcesOf(kept);
    UniqueMany(srcs);
    if exists i, j :: 0 <= i < |kept| && 0 <= j < |kept| && kept[i].source != kept[j].source {
      var i, j :| 0 <= i < |kept| && 0 <= j < |kept| && kept[i].source != kept[j].source;
      assert srcs[i] != srcs[j];
    }
    if exists i, j :: 0 <= i < |srcs| && 0 <= j < |srcs| && srcs[i] != srcs[j] {
      var i, j :| 0 <= i < |srcs| && 0 <= j < |srcs| && srcs[i] != srcs[j];
      assert kept[i].source != kept[j].source;
    }
  }

  /** `safe_source`: every backslash and slash of a source becomes '_'. */
  function SafeSource(source: string): (r: string)
    ensures |r| == |source|
    ensures forall i :: 0 <= i < |r| ==> r[i] != '\\' && r[i] != '/'
    ensures forall i :: 0 <= i < |r| && source[i] != '\\' && source[i] != '/' ==> r[i] == source[i]
  {
    ReplaceChar(ReplaceChar(source, '\\', '_'), '/', '_')
  }

  /** Making a name safe twice changes nothing more. */
  lemma SafeSourceIdempotent(source: string)
    ensures SafeSource(SafeSource(source)) == SafeSource(source)
  {
  }
}
