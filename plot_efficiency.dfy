/**
 * The stand-alone efficiency plot: its own `extract_info` (same patterns as the plotter,
 * without display names), the device-name aliases, and the row filters applied before
 * drawing. Reading the results file, probing the originals and drawing are not modelled.
 */
module PlotEfficiency {
  import opened Wrappers
  import opened Text
  import opened SuffixMatch
  import Paths
  import Plotting

  /** The device of a name no pattern recognises. */
  const Unknown: string := "Unknown"

  /** `filepath.split("\\")[-1].split("/")[-1]`. */
  function FileName(filepath: string): (r: string)
    ensures forall j :: 0 <= j < |r| ==> r[j] != '\\' && r[j] != '/'
    ensures EndsWith(filepath, r)
  {
    var afterBackslash := LastPart(filepath, '\\');
    var r := LastPart(afterBackslash, '/');
    EndsWithTrans(filepath, afterBackslash, r);
    r
  }

  /** `FileName` stops at a separator: it is the whole path or follows a '\\' or a '/'. */
  lemma FileNameBoundary(filepath: string)
    ensures var r := FileName(filepath);
      |r| == |filepath| || filepath[|filepath| - |r| - 1] == '\\' || filepath[|filepath| - |r| - 1] == '/'
  {
    var afterBackslash := LastPart(filepath, '\\');
    var r := LastPart(afterBackslash, '/');
    LastPartBoundary(filepath, '\\');
    LastPartBoundary(afterBackslash, '/');
    EndsWithTrans(filepath, afterBackslash, r);
  }

  /** Two separator-free tails of `p` that both start right after a separator (or at 0) agree. */
  lemma SeparatorFreeTail(p: string, r: string, name: string)
    requires EndsWith(p, r) && EndsWith(p, name) && |name| < |p|
    requires forall j :: 0 <= j < |r| ==> r[j] != '\\' && r[j] != '/'
    requires forall j :: 0 <= j < |name| ==> name[j] != '\\' && name[j] != '/'
    requires |r| == |p| || p[|p| - |r| - 1] == '\\' || p[|p| - |r| - 1] == '/'
    requires p[|p| - |name| - 1] == '\\' || p[|p| - |name| - 1] == '/'
    ensures r == name
  {
    assert |r| == |name| by {
      if |r| > |name| {
        assert false;
      } else if |r| < |name| {
        assert false;
      }
    }
  }

  /** The name after the last separator is exactly what `FileName` keeps. */
  lemma FileNameAfterSeparator(dir: string, sep: char, name: string)
    requires sep == '\\' || sep == '/'
    requires forall j :: 0 <= j < |name| ==> name[j] != '\\' && name[j] != '/'
    ensures FileName(dir + [sep] + name) == name
  {
    var p := dir + [sep] + name;
    EndsWithConcat(dir + [sep], name);
    assert p[|p| - |name| - 1] == sep;
    FileNameOfTail(p, name);
  }

  lemma FileNameOfTail(p: string, name: string)
    requires EndsWith(p, name) && |name| < |p|
    requires forall j :: 0 <= j < |name| ==> name[j] != '\\' && name[j] != '/'
    requires p[|p| - |name| - 1] == '\\' || p[|p| - |name| - 1] == '/'
    ensures FileName(p) == name
  {
    FileNameBoundary(p);
    SeparatorFreeTail(p, FileName(p), name);
  }

  /** `filename.rsplit(".", 1)[0]`: the text before the last '.', or the whole name. */
  function DotStem(filename: string): (r: string)
    ensures StartsWith(filename, r)
    ensures r == filename <==> forall j :: 0 <= j < |filename| ==> filename[j] != '.'
    ensures r != filename ==>
      |r| < |filename| && filename[|r|] == '.' && forall j :: |r| < j < |filename| ==> filename[j] != '.'
  {
    var k := AfterLast(filename, '.');
    if k == 0 then filename else filename[..k - 1]
  }

  /** The pattern loop on a stem; `_aq` is set and stripped first, and kept in a default source. */
  function ParseOwn(stem: string, pats: seq<Plotting.Pattern>): (r: Plotting.Info)
    requires Plotting.ValidPatterns(pats)
    ensures r.aq <==> EndsWith(stem, "_aq")
  {
    var aq := EndsWith(stem, "_aq");
    match Plotting.FirstMatch(StripAq(stem), pats, 0)
    case None => Plotting.Info(Unknown, 0, stem, aq)
    case Some(k) => Plotting.Parse(StripAq(stem), pats, aq).(device := pats[k].device)
  }

  /**
   * `extract_info(filepath)`: like the plotter's, but the device is the pattern's own
   * (`Intel`, `Nvidia`, `MAC`) and a name no pattern matches keeps its `_aq` in the source.
   */
  function ExtractInfo(filepath: string): (r: Plotting.Info)
    ensures r.aq <==> EndsWith(DotStem(FileName(filepath)), "_aq")
  {
    Plotting.PatternsValid();
    ParseOwn(DotStem(FileName(filepath)), Plotting.Patterns)
  }

  /** Without a match: the unknown device, parameter 0, and the stem with its `_aq`. */
  lemma ParseOwnUnknown(stem: string, pats: seq<Plotting.Pattern>)
    requires Plotting.ValidPatterns(pats)
    requires forall k :: 0 <= k < |pats| ==> Plotting.SplitBy(StripAq(stem), pats, k).None?
    ensures ParseOwn(stem, pats) == Plotting.Info(Unknown, 0, stem, EndsWith(stem, "_aq"))
  {
    assert Plotting.FirstMatch(StripAq(stem), pats, 0).None?;
  }

  /** With a first match at `k`: that pattern's device, and the source, tag and digits it splits into. */
  lemma ParseOwnMatched(stem: string, pats: seq<Plotting.Pattern>, k: nat)
    requires Plotting.ValidPatterns(pats) && k < |pats|
    requires Plotting.SplitBy(StripAq(stem), pats, k).Some?
    requires forall j :: 0 <= j < k ==> Plotting.SplitBy(StripAq(stem), pats, j).None?
    ensures ParseOwn(stem, pats).device == pats[k].device
    ensures ParseOwn(stem, pats).source == Plotting.Parse(StripAq(stem), pats, EndsWith(stem, "_aq")).source
    ensures ParseOwn(stem, pats).param == Plotting.Parse(StripAq(stem), pats, EndsWith(stem, "_aq")).param
  {
    assert Plotting.FirstMatch(StripAq(stem), pats, 0) == Some(k);
  }

  /** A name without either separator is its own file name. */
  lemma FileNamePlain(p: string)
    requires forall j :: 0 <= j < |p| ==> p[j] != '\\' && p[j] != '/'
    ensures FileName(p) == p
  {
    assert AfterLast(p, '\\') == 0;
    assert AfterLast(p, '/') == 0;
  }

  /** The text before an extension is what `rsplit` keeps. */
  lemma DotStemOf(base: string, ext: string)
    requires Paths.IsExtension(ext)
    ensures DotStem(base + ext) == base
  {
    var name := base + ext;
    assert name[|base|] == '.';
    assert forall j :: |base| < j < |name| ==> name[j] != '.' by {
      forall j | |base| < j < |name| ensures name[j] != '.' { assert name[j] == ext[j - |base|]; }
    }
    assert AfterLast(name, '.') == |base| + 1;
  }

  /** `<x>_aq.mp4` for a plain `x`: both copies see the stem `<x>_aq`. */
  lemma AqFileStems(x: string)
    requires forall j :: 0 <= j < |x| ==> x[j] != '\\' && x[j] != '/'
    ensures DotStem(FileName(x + "_aq.mp4")) == x + "_aq"
    ensures Paths.Stem(Paths.Name(x + "_aq.mp4")) == x + "_aq"
    ensures StripAq(x + "_aq") == x
  {
    Mp4Plain();
    AqStem(x);
    assert x + "_aq.mp4" == (x + "_aq") + ".mp4";
    PlainStem(x + "_aq", ".mp4");
  }

  /** `.mp4` is an extension without separators. */
  lemma Mp4Plain()
    ensures Paths.IsExtension(".mp4")
    ensures forall j :: 0 <= j < |".mp4"| ==> ".mp4"[j] != '\\' && ".mp4"[j] != '/'
  {
  }

  /** `<x>_aq` has no separators when `x` has none, and `StripAq` gives `x` back. */
  lemma AqStem(x: string)
    requires forall j :: 0 <= j < |x| ==> x[j] != '\\' && x[j] != '/'
    ensures forall j :: 0 <= j < |x + "_aq"| ==> (x + "_aq")[j] != '\\' && (x + "_aq")[j] != '/'
    ensures StripAq(x + "_aq") == x
  {
    var stem := x + "_aq";
    assert EndsWith(stem, "_aq");
    assert stem[..|stem| - 3] == x;
    forall j | 0 <= j < |stem| ensures stem[j] != '\\' && stem[j] != '/' {
      if j >= |x| { assert stem[j] == "_aq"[j - |x|]; }
    }
  }

  /** A plain name's stem is the same for both ways of taking it. */
  lemma PlainStem(stem: string, ext: string)
    requires stem != [] && Paths.IsExtension(ext)
    requires forall j :: 0 <= j < |stem| ==> stem[j] != '\\' && stem[j] != '/'
    requires forall j :: 0 <= j < |ext| ==> ext[j] != '\\' && ext[j] != '/'
    ensures DotStem(FileName(stem + ext)) == stem
    ensures Paths.Stem(Paths.Name(stem + ext)) == stem
  {
    var name := stem + ext;
    assert forall j :: 0 <= j < |name| ==> name[j] != '\\' && name[j] != '/' by {
      forall j | 0 <= j < |name| ensures name[j] != '\\' && name[j] != '/' {
        if j >= |stem| { assert name[j] == ext[j - |stem|]; }
      }
    }
    FileNamePlain(name);
    DotStemOf(stem, ext);
    Paths.StemOfFile(stem, ext);
  }

  /**
   * The two copies differ on unrecognised AQ names: the plotter's source drops `_aq`, this
   * one keeps it.
   */
  lemma DefaultSourceKeepsAq(x: string)
    requires x != [] && !IsDigit(x[|x| - 1])
    requires forall j :: 0 <= j < |x| ==> x[j] != '\\' && x[j] != '/'
    ensures ExtractInfo(x + "_aq.mp4").source == x + "_aq"
    ensures Plotting.ExtractInfo(x + "_aq.mp4").source == x
  {
    AqFileStems(x);
    Plotting.PatternsValid();
    NoPatternWithoutDigitEnd(x, Plotting.Patterns);
    ParseOwnUnknown(x + "_aq", Plotting.Patterns);
    Plotting.ParseNoMatch(x, Plotting.Patterns, true);
  }

  /** No pattern matches a stem that does not end in a digit. */
  lemma NoPatternWithoutDigitEnd(s: string, pats: seq<Plotting.Pattern>)
    requires Plotting.ValidPatterns(pats) && s != [] && !IsDigit(s[|s| - 1])
    ensures forall k :: 0 <= k < |pats| ==> Plotting.SplitBy(s, pats, k).None?
  {
    assert TrailingDigitCount(s) == 0;
    forall k | 0 <= k < |pats| ensures Plotting.SplitBy(s, pats, k).None? {
      TagDigitsUnique(s, pats[k].tag, 0);
    }
  }

  // ---------------------------------------------------------------------------
  // normalize_device_name
  // ---------------------------------------------------------------------------

  /** The device a trimmed, lowered alias stands for. */
  function Alias(key: string): (r: Option<string>)
    ensures r == Some("Intel") <==> key == "intel" || key == "qsv"
    ensures r == Some("Nvidia") <==> key == "nvidia" || key == "nvenc"
    ensures r == Some("MAC") <==> key == "mac" || key == "macos" || key == "videotoolbox"
    ensures r.Some? ==> r.value in {"Intel", "Nvidia", "MAC"}
  {
    if key == "intel" || key == "qsv" then Some("Intel")
    else if key == "nvidia" || key == "nvenc" then Some("Nvidia")
    else if key == "mac" || key == "macos" || key == "videotoolbox" then Some("MAC")
    else None
  }

  /** `normalize_device_name(name)`: the device an alias stands for, or the name as given. */
  function NormalizeDeviceName(name: string): (r: string)
    ensures Lower(Strip(name)) in {"intel", "qsv"} ==> r == "Intel"
    ensures Lower(Strip(name)) in {"nvidia", "nvenc"} ==> r == "Nvidia"
    ensures Lower(Strip(name)) in {"mac", "macos", "videotoolbox"} ==> r == "MAC"
    ensures Lower(Strip(name)) !in {"intel", "qsv", "nvidia", "nvenc", "mac", "macos", "videotoolbox"} ==> r == name
  {
    match Alias(Lower(Strip(name)))
    case Some(device) => device
    case None => name
  }

  lemma IntelFixed() ensures NormalizeDeviceName("Intel") == "Intel"
  {
    assert Strip("Intel") == "Intel";
    assert Lower("Intel") == "intel";
  }

  lemma NvidiaFixed() ensures NormalizeDeviceName("Nvidia") == "Nvidia"
  {
    assert Strip("Nvidia") == "Nvidia";
    assert Lower("Nvidia") == "nvidia";
  }

  lemma MacFixed() ensures NormalizeDeviceName("MAC") == "MAC"
  {
    assert Strip("MAC") == "MAC";
    assert Lower("MAC") == "mac";
  }

  /** Normalising twice is normalising once. */
  lemma NormalizeDeviceNameIdempotent(name: string)
    ensures NormalizeDeviceName(NormalizeDeviceName(name)) == NormalizeDeviceName(name)
  {
    IntelFixed();
    NvidiaFixed();
    MacFixed();
  }

  // ---------------------------------------------------------------------------
  // The row filters of main
  // ---------------------------------------------------------------------------

  /** A results row: `FileSpec`, `VMAF-Value`, `Bitrate`. */
  datatype Row = Row(fileSpec: string, vmaf: string, bitrate: string)

  /** A row with the columns `extract_info` adds. */
  datatype Parsed = Parsed(row: Row, info: Plotting.Info)

  /** The old qmax results: `nvidia_qmax` or `_max_` in the FileSpec, ignoring case. */
  predicate OldNvidia(fileSpec: string)
  {
    Contains(Lower(fileSpec), "nvidia_qmax") || Contains(Lower(fileSpec), "_max_")
  }

  /** Whether a parsed row survives the filters for the given options. */
  predicate Selected(p: Parsed, sources: seq<string>, devices: seq<string>, withAq: bool)
  {
    !OldNvidia(p.row.fileSpec)
    && (sources == [] || p.info.source in sources)
    && (devices == [] || exists d :: d in devices && NormalizeDeviceName(d) == p.info.device)
    && (withAq || !p.info.aq)
  }

  /** `df.loc[mask]` on a list of rows: the rows `keep` accepts, in order. */
  function Where(rows: seq<Parsed>, keep: Parsed -> bool): (r: seq<Parsed>)
    ensures |r| <= |rows|
    ensures forall p :: p in r <==> p in rows && keep(p)
  {
    if rows == [] then []
    else
      var init := Where(rows[..|rows| - 1], keep);
      var p := rows[|rows| - 1];
      assert forall x :: x in rows <==> x in rows[..|rows| - 1] || x == p;
      if keep(p) then init + [p] else init
  }

  const EmptyMessage: string := "筛选后没有任何可绘制数据，请检查 --sources / --devices 参数是否正确。"

  /** Every row with its parsed columns. */
  function ParseAll(rows: seq<Row>): (r: seq<Parsed>)
    ensures forall p :: p in r <==> p.row in rows && p.info == ExtractInfo(p.row.fileSpec)
  {
    var r := seq(|rows|, i requires 0 <= i < |rows| => Parsed(rows[i], ExtractInfo(rows[i].fileSpec)));
    assert forall p: Parsed | p.row in rows && p.info == ExtractInfo(p.row.fileSpec) :: p in r by {
      forall p: Parsed | p.row in rows && p.info == ExtractInfo(p.row.fileSpec) ensures p in r {
        var i :| 0 <= i < |rows| && rows[i] == p.row;
        assert r[i] == p;
      }
    }
    r
  }

  /**
   * The filtering in `main`: old qmax rows go, every FileSpec is parsed, then the source,
   * device and AQ filters narrow the table in turn; an empty result stops with a message.
   */
  method SelectRows(rows: seq<Row>, sources: seq<string>, devices: seq<string>, withAq: bool)
    returns (r: Result<seq<Parsed>>)
    ensures r.Ok? ==> r.value != [] && forall p :: p in r.value <==>
      p in ParseAll(rows) && Selected(p, sources, devices, withAq)
    ensures r.Err? ==> r.message == EmptyMessage && forall p :: p in ParseAll(rows) ==>
      !Selected(p, sources, devices, withAq)
  {
    var all := ParseAll(rows);
    var df := Where(all, (p: Parsed) => !OldNvidia(p.row.fileSpec));
    assert forall p :: p in df <==> p in all && !OldNvidia(p.row.fileSpec);
    if sources != [] {
      df := Where(df, (p: Parsed) => p.info.source in sources);
    }
    assert forall p :: p in df <==> (p in all && !OldNvidia(p.row.fileSpec)
      && (sources == [] || p.info.source in sources));
    if devices != [] {
      var wanted := Wanted(devices);
      df := Where(df, (p: Parsed) => p.info.device in wanted);
    }
    assert forall p :: p in df <==> (p in all && !OldNvidia(p.row.fileSpec)
      && (sources == [] || p.info.source in sources)
      && (devices == [] || p.info.device in Wanted(devices)));
    if !withAq {
      df := Where(df, (p: Parsed) => !p.info.aq);
    }
    assert forall p :: p in df <==> (p in all && !OldNvidia(p.row.fileSpec)
      && (sources == [] || p.info.source in sources)
      && (devices == [] || p.info.device in Wanted(devices))
      && (withAq || !p.info.aq));
    if df == [] {
      return Err(EmptyMessage);
    }
    return Ok(df);
  }

  /** `{normalize_device_name(d) for d in devices}`. */
  function Wanted(devices: seq<string>): (r: set<string>)
    ensures forall x :: x in r <==> exists d :: d in devices && NormalizeDeviceName(d) == x
  {
    set d | d in devices :: NormalizeDeviceName(d)
  }

  // ---------------------------------------------------------------------------
  // After the qmax filter, Nvidia rows are constant-QP rows
  // ---------------------------------------------------------------------------

  /** A lower-case text found in `s` is found at the same place in `Lower(s)`. */
  lemma LowerOccurs(s: string, t: string, j: nat)
    requires OccursAt(s, t, j) && Lower(t) == t
    ensures OccursAt(Lower(s), t, j)
  {
    assert Lower(s)[j..j + |t|] == Lower(s[j..j + |t|]);
  }

  /** The stem the patterns see sits inside the FileSpec, after the directories. */
  lemma StemInside(filepath: string)
    ensures var s := StripAq(DotStem(FileName(filepath)));
      var a := |filepath| - |FileName(filepath)|;
      a + |s| <= |filepath| && filepath[a..a + |s|] == s
  {
    var name := FileName(filepath);
    var s := StripAq(DotStem(name));
    var a := |filepath| - |name|;
    assert filepath[a..] == name;
    assert name[..|s|] == s;
  }

  /** Whether the plotter's pattern `k` matches `s`. */
  predicate PatternMatches(s: string, k: nat)
    requires k < |Plotting.Patterns|
  {
    Plotting.PatternsValid();
    Plotting.SplitBy(s, Plotting.Patterns, k).Some?
  }

  /** A lower-case piece of a tag that matches inside the FileSpec shows in the lowered FileSpec. */
  lemma TagPieceFound(fileSpec: string, s: string, a: nat, tag: string, i: nat, piece: string, off: nat)
    requires a + |s| <= |fileSpec| && fileSpec[a..a + |s|] == s
    requires TagDigitsMatch(s, tag, i)
    requires off + |piece| <= |tag| && tag[off..off + |piece|] == piece && Lower(piece) == piece
    ensures Contains(Lower(fileSpec), piece)
  {
    var j := a + i + off;
    forall m | 0 <= m < |piece| ensures fileSpec[j + m] == piece[m] {
      assert fileSpec[a..a + |s|][i + off + m] == s[i + off + m];
      assert s[i..i + |tag|][off + m] == tag[off + m];
      assert tag[off..off + |piece|][m] == piece[m];
    }
    assert fileSpec[j..j + |piece|] == piece;
    LowerOccurs(fileSpec, piece, j);
  }

  lemma QmaxPieces()
    ensures Plotting.Patterns[2].tag == "_nvidia_qmax" && Plotting.Patterns[3].tag == "_max_"
    ensures "_nvidia_qmax"[1..12] == "nvidia_qmax" && Lower("nvidia_qmax") == "nvidia_qmax"
    ensures "_max_"[0..5] == "_max_" && Lower("_max_") == "_max_"
  {
  }

  /**
   * A row that passes the qmax filter never parses through the qmax patterns, so every
   * Nvidia row left is a constant-QP one.
   */
  lemma NoQmaxAfterFilter(fileSpec: string)
    requires !OldNvidia(fileSpec)
    ensures var s := StripAq(DotStem(FileName(fileSpec)));
      !PatternMatches(s, 2) && !PatternMatches(s, 3)
  {
    var s := StripAq(DotStem(FileName(fileSpec)));
    var a := |fileSpec| - |FileName(fileSpec)|;
    StemInside(fileSpec);
    Plotting.PatternsValid();
    QmaxPieces();
    TagMisses(fileSpec, s, a, Plotting.Patterns, 2, "nvidia_qmax", 1);
    TagMisses(fileSpec, s, a, Plotting.Patterns, 3, "_max_", 0);
  }

  /** A pattern whose tag holds a lower-case piece absent from the lowered FileSpec cannot match a stem inside it. */
  lemma TagMisses(fileSpec: string, s: string, a: nat, pats: seq<Plotting.Pattern>, k: nat, piece: string, off: nat)
    requires a + |s| <= |fileSpec| && fileSpec[a..a + |s|] == s
    requires Plotting.ValidPatterns(pats) && k < |pats|
    requires off + |piece| <= |pats[k].tag| && pats[k].tag[off..off + |piece|] == piece && Lower(piece) == piece
    requires !Contains(Lower(fileSpec), piece)
    ensures Plotting.SplitBy(s, pats, k).None?
  {
    if Plotting.SplitBy(s, pats, k).Some? {
      var i := Plotting.SplitBy(s, pats, k).value;
      TagPieceFound(fileSpec, s, a, pats[k].tag, i, piece, off);
    }
  }
}
