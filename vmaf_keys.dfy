/**
 * The `FileSpec` key of the VMAF batch tool: `normalize_filespec`, which reduces a
 * candidate's path to the part after its compressed-output directory.
 */
module VmafKeys {
  import opened Wrappers
  import opened Text
  import opened Paths
  import opened SuffixMatch

  // ---------------------------------------------------------------------------
  // normalize_filespec
  // ---------------------------------------------------------------------------

  /** The compressed-output directory names, in the order they are tried. */
  const KnownCompDirNames: seq<string> :=
    ["QSV_Compressed", "NVENC_Compressed", "NVENC_QP_Compressed", "NVENC_QP_AQ_Compressed", "MAC_Compressed", "Compressed"]

  /** `\dir\` as a token. */
  function Token(dir: string): string { "\\" + dir + "\\" }

  /** The key starts, ignoring ASCII case, with the directory name and a backslash. */
  predicate OpensWithDir(s: string, dir: string) { StartsWith(Lower(s), Lower(dir) + "\\") }

  /**
   * The directory loop on a backslash-separated path: for each name in turn, the text
   * after the first `\name\` (ignoring case), or the path itself when it already opens
   * with `name\`; after the last name, the final component.
   */
  function NormalizeWith(s: string, dirs: seq<string>): (r: string)
    ensures EndsWith(s, r)
  {
    if dirs == [] then LastPart(s, '\\')
    else
      match Find(Lower(s), Lower(Token(dirs[0])))
      case Some(idx) =>
        assert s[idx + 1..] == s[|s| - |s[idx + 1..]|..];
        s[idx + 1..]
      case None =>
        if OpensWithDir(s, dirs[0]) then
          assert s[|s| - |s|..] == s;
          s
        else NormalizeWith(s, dirs[1..])
  }

  /** `normalize_filespec`: '/' becomes '\', then the directory loop. */
  function Normalize(filespec: string): (r: string)
    ensures forall i :: 0 <= i < |r| ==> r[i] != '/'
  {
    var s := ReplaceChar(filespec, '/', '\\');
    var r := NormalizeWith(s, KnownCompDirNames);
    assert forall i :: 0 <= i < |r| ==> r[i] == s[|s| - |r| + i];
    r
  }

  /** The key opens, ignoring case, with one of `dirs` and a backslash. */
  predicate OpensWithAny(r: string, dirs: seq<string>)
  {
    exists k :: 0 <= k < |dirs| && OpensWithDir(r, dirs[k])
  }

  /**
   * A key with a known directory (as a `\dir\` token or as its opening) comes out opening
   * with a known directory name; otherwise it comes out as the bare final component.
   */
  lemma {:induction false} NormalizeWithShape(s: string, dirs: seq<string>)
    ensures var r := NormalizeWith(s, dirs);
      OpensWithAny(r, dirs) || (r == LastPart(s, '\\') && forall j :: 0 <= j < |r| ==> r[j] != '\\')
  {
    if dirs != [] {
      var r := NormalizeWith(s, dirs);
      match Find(Lower(s), Lower(Token(dirs[0])))
      case Some(idx) =>
        FoundOpensWithDir(s, dirs[0], idx);
        assert OpensWithDir(r, dirs[0]);
      case None =>
        if OpensWithDir(s, dirs[0]) {
          assert OpensWithDir(r, dirs[0]);
        } else {
          NormalizeWithShape(s, dirs[1..]);
          assert r == NormalizeWith(s, dirs[1..]);
          if OpensWithAny(r, dirs[1..]) {
            OpensWithAnyTail(r, dirs);
          }
        }
    }
  }

  /** Directory `dir` decides the key: its `\dir\` token is found, or the key opens with `dir\`. */
  predicate DirApplies(s: string, dir: string) {
    Find(Lower(s), Lower(Token(dir))).Some? || OpensWithDir(s, dir)
  }

  /**
   * The first directory name that applies decides the key: the text after the first
   * backslash of its first `\dir\` token (ignoring case), or the whole key when it only
   * opens with `dir\`.
   */
  lemma {:induction false} NormalizeWithFirst(s: string, dirs: seq<string>, k: nat)
    requires k < |dirs| && DirApplies(s, dirs[k])
    requires forall j :: 0 <= j < k ==> !DirApplies(s, dirs[j])
    ensures Find(Lower(s), Lower(Token(dirs[k]))).Some? ==>
      NormalizeWith(s, dirs) == s[Find(Lower(s), Lower(Token(dirs[k]))).value + 1..]
    ensures Find(Lower(s), Lower(Token(dirs[k]))).None? ==> NormalizeWith(s, dirs) == s
    decreases k
  {
    if k > 0 {
      assert !DirApplies(s, dirs[0]);
      assert forall j :: 0 <= j < k - 1 ==> dirs[1..][j] == dirs[j + 1];
      NormalizeWithFirst(s, dirs[1..], k - 1);
    }
  }

  /** When no directory name applies, the key is the final component. */
  lemma {:induction false} NormalizeWithNoDir(s: string, dirs: seq<string>)
    requires forall j :: 0 <= j < |dirs| ==> !DirApplies(s, dirs[j])
    ensures NormalizeWith(s, dirs) == LastPart(s, '\\')
  {
    if dirs != [] {
      assert !DirApplies(s, dirs[0]);
      assert forall j :: 0 <= j < |dirs| - 1 ==> dirs[1..][j] == dirs[j + 1];
      NormalizeWithNoDir(s, dirs[1..]);
    }
  }

  lemma OpensWithAnyTail(r: string, dirs: seq<string>)
    requires dirs != [] && OpensWithAny(r, dirs[1..])
    ensures OpensWithAny(r, dirs)
  {
    var k :| 0 <= k < |dirs| - 1 && OpensWithDir(r, dirs[1..][k]);
    assert OpensWithDir(r, dirs[k + 1]);
  }

  /** The text after the first backslash of a found `\dir\` opens with `dir\`, ignoring case. */
  lemma FoundOpensWithDir(s: string, dir: string, idx: nat)
    requires Find(Lower(s), Lower(Token(dir))) == Some(idx)
    ensures OpensWithDir(s[idx + 1..], dir)
  {
    var r := s[idx + 1..];
    var t := Lower(Token(dir));
    assert t[1..] == Lower(dir) + "\\" by { LowerConcat("\\", dir + "\\"); LowerConcat(dir, "\\"); }
    assert Lower(r) == Lower(s)[idx + 1..];
    assert Lower(s)[idx + 1..idx + |t|] == t[1..];
    assert Lower(r)[..|t| - 1] == t[1..];
  }

  /** A bare file name (no separator of either kind) is its own key. */
  lemma {:induction false} NormalizePlainName(f: string)
    requires forall i :: 0 <= i < |f| ==> f[i] != '\\' && f[i] != '/'
    ensures Normalize(f) == f
  {
    assert ReplaceChar(f, '/', '\\') == f;
    NormalizeWithPlain(f, KnownCompDirNames);
  }

  lemma {:induction false} NormalizeWithPlain(f: string, dirs: seq<string>)
    requires forall i :: 0 <= i < |f| ==> f[i] != '\\'
    ensures NormalizeWith(f, dirs) == f
  {
    if dirs != [] {
      var t := Lower(Token(dirs[0]));
      assert t[0] == '\\';
      forall j | 0 <= j ensures !OccursAt(Lower(f), t, j) {
        if j + |t| <= |f| {
          assert Lower(f)[j..j + |t|][0] == Lower(f)[j] != '\\';
        }
      }
      var p := Lower(dirs[0]) + "\\";
      if |p| <= |f| {
        assert Lower(f)[..|p|][|p| - 1] == Lower(f)[|p| - 1] != '\\';
      }
      NormalizeWithPlain(f, dirs[1..]);
    }
    assert AfterLast(f, '\\') == 0;
  }

  /** No directory name containing '_' is found in a key without '_'. */
  lemma UnderscoreDirMisses(s: string, dir: string, p: nat)
    requires p < |dir| && dir[p] == '_'
    requires forall i :: 0 <= i < |s| ==> s[i] != '_'
    ensures Find(Lower(s), Lower(Token(dir))).None?
    ensures !OpensWithDir(s, dir)
  {
    var t := Lower(Token(dir));
    assert Token(dir)[p + 1] == '_';
    assert t[p + 1] == '_';
    forall j | 0 <= j ensures !OccursAt(Lower(s), t, j) {
      if j + |t| <= |s| {
        assert Lower(s)[j..j + |t|][p + 1] == Lower(s)[j + p + 1] != '_';
      }
    }
    var q := Lower(dir) + "\\";
    assert q[p] == '_';
    if |q| <= |s| {
      assert Lower(s)[..|q|][p] == Lower(s)[p] != '_';
    }
  }

  /** The first five names hold '_'; the last one is `Compressed`. */
  lemma KnownCompDirNamesShape()
    ensures |KnownCompDirNames| == 6
    ensures forall k :: 0 <= k < 5 ==> '_' in KnownCompDirNames[k]
    ensures KnownCompDirNames[5..] == ["Compressed"]
  {
    var d := KnownCompDirNames;
    assert d[0][3] == '_' && d[1][5] == '_' && d[2][5] == '_' && d[3][5] == '_' && d[4][3] == '_';
  }

  /** Without '_' in the key, only the last name, `Compressed`, can apply. */
  lemma NormalizeWithoutUnderscore(s: string)
    requires forall i :: 0 <= i < |s| ==> s[i] != '_'
    ensures NormalizeWith(s, KnownCompDirNames) == NormalizeWith(s, ["Compressed"])
  {
    KnownCompDirNamesShape();
    SkipUnderscoreDirs(s, KnownCompDirNames, 5);
  }

  /** Names holding '_' at the front of the list are all passed over. */
  lemma {:induction false} SkipUnderscoreDirs(s: string, dirs: seq<string>, n: nat)
    requires forall i :: 0 <= i < |s| ==> s[i] != '_'
    requires n <= |dirs|
    requires forall k :: 0 <= k < n ==> '_' in dirs[k]
    ensures NormalizeWith(s, dirs) == NormalizeWith(s, dirs[n..])
  {
    if n > 0 {
      var p :| 0 <= p < |dirs[0]| && dirs[0][p] == '_';
      UnderscoreDirMisses(s, dirs[0], p);
      SkipUnderscoreDirs(s, dirs[1..], n - 1);
      assert dirs[1..][n - 1..] == dirs[n..];
    }
  }

  /**
   * Normalisation is not idempotent when the matched directory name recurs: the key
   * written for `/Compressed/Compressed/f` is `Compressed\Compressed\f`, and reading that
   * key back normalises it to `Compressed\f`, so the skip check never recognises the file.
   */
  lemma NormalizeNotIdempotent(f: string)
    requires forall i :: 0 <= i < |f| ==> f[i] != '\\' && f[i] != '/' && f[i] != '_'
    ensures Normalize("/Compressed/" + "Compressed/" + f) == "Compressed\\" + "Compressed\\" + f
    ensures Normalize("Compressed\\" + "Compressed\\" + f) == "Compressed\\" + f
  {
    NormalizeNestedSlashes(f);
    NormalizeNestedKey(f);
  }

  lemma NormalizeNestedSlashes(f: string)
    requires forall i :: 0 <= i < |f| ==> f[i] != '\\' && f[i] != '/' && f[i] != '_'
    ensures Normalize("/Compressed/" + "Compressed/" + f) == "Compressed\\" + "Compressed\\" + f
  {
    var rest := "Compressed\\" + f;
    SlashesReplaced(f);
    NoUnderscoreAfterDir(f);
    NoUnderscoreAround("", rest);
    NormalizeWithoutUnderscoreKey("/Compressed/" + "Compressed/" + f, "" + Token("Compressed") + rest);
    NormalizeCompressedToken("", rest);
  }

  lemma NormalizeNestedKey(f: string)
    requires forall i :: 0 <= i < |f| ==> f[i] != '\\' && f[i] != '/' && f[i] != '_'
    ensures Normalize("Compressed\\" + "Compressed\\" + f) == "Compressed\\" + f
  {
    var y := "Compressed\\" + "Compressed\\" + f;
    var s := "Compressed" + Token("Compressed") + f;
    assert y == s;
    NoSlashKey(y);
    NoUnderscoreAround("Compressed", f);
    NormalizeWithoutUnderscoreKey(y, s);
    NormalizeCompressedToken("Compressed", f);
  }

  lemma NoUnderscoreAfterDir(f: string)
    requires forall i :: 0 <= i < |f| ==> f[i] != '_'
    ensures forall i :: 0 <= i < |"Compressed\\" + f| ==> ("Compressed\\" + f)[i] != '_'
  {
    var c := "Compressed\\";
    assert forall i :: 0 <= i < |c| ==> c[i] != '_';
  }

  /** A key without '/' is left as it is by the separator replacement. */
  lemma NoSlashKey(y: string)
    requires forall i :: 0 <= i < |y| ==> y[i] != '/'
    ensures ReplaceChar(y, '/', '\\') == y
  {
  }

  lemma SlashesReplaced(f: string)
    requires forall i :: 0 <= i < |f| ==> f[i] != '/'
    ensures ReplaceChar("/Compressed/" + "Compressed/" + f, '/', '\\') == "" + Token("Compressed") + "Compressed\\" + f
  {
    var x := "/Compressed/" + "Compressed/" + f;
    var s := "" + Token("Compressed") + "Compressed\\" + f;
    var n := |"/Compressed/" + "Compressed/"|;
    forall i | 0 <= i < |x| ensures ReplaceChar(x, '/', '\\')[i] == s[i] {
      if i >= n {
        assert x[i] == f[i - n] && s[i] == f[i - n];
      }
    }
  }

  /** A key without '_' is normalised by the `Compressed` step alone. */
  lemma NormalizeWithoutUnderscoreKey(x: string, s: string)
    requires ReplaceChar(x, '/', '\\') == s
    requires forall i :: 0 <= i < |s| ==> s[i] != '_'
    ensures Normalize(x) == NormalizeWith(s, ["Compressed"])
  {
    NormalizeWithoutUnderscore(s);
  }

  lemma LowerCompressedToken()
    ensures Lower(Token("Compressed")) == "\\compressed\\"
  {
  }

  /**
   * A key whose first backslash opens the token `\Compressed\` is cut just after that
   * backslash.
   */
  lemma NormalizeCompressedToken(pre: string, rest: string)
    requires forall i :: 0 <= i < |pre| ==> pre[i] != '\\'
    ensures NormalizeWith(pre + Token("Compressed") + rest, ["Compressed"]) == "Compressed\\" + rest
  {
    var s := pre + Token("Compressed") + rest;
    LowerCompressedToken();
    CompressedTokenFound(pre, rest);
    NormalizeWithFound(s, "Compressed", |pre|);
    AfterTokenOpening(pre, "Compressed", rest);
  }

  lemma AfterTokenOpening(pre: string, dir: string, rest: string)
    ensures (pre + Token(dir) + rest)[|pre| + 1..] == dir + "\\" + rest
  {
  }

  lemma NoUnderscoreAround(pre: string, rest: string)
    requires forall i :: 0 <= i < |pre| ==> pre[i] != '_'
    requires forall i :: 0 <= i < |rest| ==> rest[i] != '_'
    ensures var s := pre + Token("Compressed") + rest; forall i :: 0 <= i < |s| ==> s[i] != '_'
  {
    var tok := Token("Compressed");
    assert forall i :: 0 <= i < |tok| ==> tok[i] != '_';
  }

  /** The first `\compressed\` in the lowered key is the token after a backslash-free prefix. */
  lemma CompressedTokenFound(pre: string, rest: string)
    requires forall i :: 0 <= i < |pre| ==> pre[i] != '\\'
    ensures Find(Lower(pre + Token("Compressed") + rest), "\\compressed\\") == Some(|pre|)
  {
    var tok := Token("Compressed");
    var s := pre + tok + rest;
    var t := "\\compressed\\";
    LowerCompressedToken();
    LowerConcat(pre + tok, rest);
    LowerConcat(pre, tok);
    assert Lower(s)[|pre|..|pre| + |t|] == t;
    assert OccursAt(Lower(s), t, |pre|);
    forall j | 0 <= j < |pre| ensures !OccursAt(Lower(s), t, j) {
      if j + |t| <= |s| {
        assert Lower(s)[j..j + |t|][0] == Lower(s)[j] == LowerChar(pre[j]) != '\\';
      }
    }
  }

  /** After a backslash-free prefix, the first `\dir\` in the lowered key is the token itself. */
  lemma TokenFoundAfterPrefix(pre: string, dir: string, rest: string)
    requires forall i :: 0 <= i < |pre| ==> pre[i] != '\\'
    ensures Find(Lower(pre + Token(dir) + rest), Lower(Token(dir))) == Some(|pre|)
  {
    var tok := Token(dir);
    var s := pre + tok + rest;
    var t := Lower(tok);
    LowerConcat(pre + tok, rest);
    LowerConcat(pre, tok);
    LowerConcat("\\", dir + "\\");
    assert t[0] == '\\';
    assert Lower(s)[|pre|..|pre| + |t|] == t;
    assert OccursAt(Lower(s), t, |pre|);
    forall j | 0 <= j < |pre| ensures !OccursAt(Lower(s), t, j) {
      if j + |t| <= |s| {
        assert Lower(s)[j..j + |t|][0] == Lower(s)[j] == LowerChar(pre[j]) != '\\';
      }
    }
  }

  /** A key whose first backslash opens the token of the first known name keeps that name on. */
  lemma NormalizeFirstToken(pre: string, rest: string)
    requires forall i :: 0 <= i < |pre| ==> pre[i] != '\\'
    requires ReplaceChar(pre + Token(KnownCompDirNames[0]) + rest, '/', '\\') == pre + Token(KnownCompDirNames[0]) + rest
    ensures Normalize(pre + Token(KnownCompDirNames[0]) + rest) == KnownCompDirNames[0] + "\\" + rest
  {
    var s := pre + Token(KnownCompDirNames[0]) + rest;
    TokenFoundAfterPrefix(pre, KnownCompDirNames[0], rest);
    NormalizeWithFirst(s, KnownCompDirNames, 0);
    AfterTokenOpening(pre, KnownCompDirNames[0], rest);
  }

  lemma NoSlashInQsvToken()
    ensures forall i :: 0 <= i < |Token("QSV_Compressed")| ==> Token("QSV_Compressed")[i] != '/'
    ensures forall i :: 0 <= i < |"Compressed\\"| ==> "Compressed\\"[i] != '/'
  {
  }

  lemma FreeOfChar(a: string, b: string, c: string, ch: char)
    requires forall i :: 0 <= i < |a| ==> a[i] != ch
    requires forall i :: 0 <= i < |b| ==> b[i] != ch
    requires forall i :: 0 <= i < |c| ==> c[i] != ch
    ensures forall i :: 0 <= i < |a + b + c| ==> (a + b + c)[i] != ch
  {
  }

  /**
   * The outermost known directory wins even when another known name follows it:
   * `x\QSV_Compressed\Compressed\f` is keyed as `QSV_Compressed\Compressed\f`.
   */
  lemma NormalizeNestedQsv(x: string, f: string)
    requires forall i :: 0 <= i < |x| ==> x[i] != '\\' && x[i] != '/'
    requires forall i :: 0 <= i < |f| ==> f[i] != '/'
    ensures Normalize(x + Token("QSV_Compressed") + ("Compressed\\" + f)) == "QSV_Compressed\\" + ("Compressed\\" + f)
  {
    var rest := "Compressed\\" + f;
    var tok := Token(KnownCompDirNames[0]);
    var s := x + tok + rest;
    assert ReplaceChar(s, '/', '\\') == s by {
      NoSlashInQsvToken();
      FreeOfChar("Compressed\\", f, [], '/');
      FreeOfChar(x, tok, rest, '/');
      NoSlashKey(s);
    }
    NormalizeFirstToken(x, rest);
  }

  lemma NormalizeWithFound(s: string, dir: string, idx: nat)
    requires Find(Lower(s), Lower(Token(dir))) == Some(idx)
    ensures NormalizeWith(s, [dir]) == s[idx + 1..]
  {
  }
}
