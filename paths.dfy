/**
 * The part of `pathlib.PurePosixPath` the program relies on: the final component
 * (`name`), its `stem` and `suffix`, `with_name`, and `/` joining. Paths are plain
 * strings whose components are separated by '/'.
 */
module Paths {
  import opened Text

  /** `p.name`: the text after the last '/'. */
  function Name(p: string): (r: string)
    ensures forall j :: 0 <= j < |r| ==> r[j] != '/'
  {
    LastPart(p, '/')
  }

  /** Everything up to and including the last '/': the directory `with_name` keeps. */
  function DirPart(p: string): string
  {
    p[..AfterLast(p, '/')]
  }

  lemma DirPartName(p: string)
    ensures DirPart(p) + Name(p) == p
  {
  }

  /** `p.with_name(n)`: the same directory, another final component. */
  function WithName(p: string, n: string): string
  {
    DirPart(p) + n
  }

  /** `dir / name`. */
  function JoinPath(dir: string, name: string): string
  {
    dir + "/" + name
  }

  /**
   * Where `name.suffix` starts: at the last '.', provided that dot is neither the
   * first nor the last character; otherwise at the end (no suffix).
   */
  function SuffixStart(name: string): (i: nat)
    ensures i <= |name|
    ensures i < |name| ==> 0 < i < |name| - 1 && name[i] == '.'
    ensures i < |name| ==> forall j :: i < j < |name| ==> name[j] != '.'
  {
    var k := AfterLast(name, '.');
    if k >= 2 && k < |name| then k - 1 else |name|
  }

  /** `Path(name).stem`. */
  function Stem(name: string): string
  {
    name[..SuffixStart(name)]
  }

  /** `Path(name).suffix`. */
  function Suffix(name: string): string
  {
    name[SuffixStart(name)..]
  }

  /** A non-empty suffix: a '.', then at least one character, none of them a '.'. */
  predicate IsExtension(ext: string)
  {
    |ext| >= 2 && ext[0] == '.' && forall j :: 0 < j < |ext| ==> ext[j] != '.'
  }

  /** The stem followed by the suffix is the whole name, and the suffix is empty or an extension. */
  lemma StemSuffix(name: string)
    ensures Stem(name) + Suffix(name) == name
    ensures Suffix(name) == [] || (IsExtension(Suffix(name)) && Stem(name) != [])
  {
  }

  /** Appending an extension to a non-empty base makes that base the stem and the extension the suffix. */
  lemma StemWithSuffix(base: string, ext: string)
    requires base != [] && IsExtension(ext)
    ensures Stem(base + ext) == base && Suffix(base + ext) == ext
  {
    var name := base + ext;
    assert name[|base|] == '.';
    assert forall j :: |base| < j < |name| ==> name[j] != '.' by {
      forall j | |base| < j < |name| ensures name[j] != '.' { assert name[j] == ext[j - |base|]; }
    }
    assert AfterLast(name, '.') == |base| + 1;
  }

  /** A path without '/' is its own name. */
  lemma NamePlain(p: string)
    requires forall j :: 0 <= j < |p| ==> p[j] != '/'
    ensures Name(p) == p
  {
    assert AfterLast(p, '/') == 0;
  }

  /** The stem of a plain file name made of a non-empty base and an extension is the base. */
  lemma StemOfFile(base: string, ext: string)
    requires base != [] && IsExtension(ext)
    requires forall j :: 0 <= j < |base + ext| ==> (base + ext)[j] != '/'
    ensures Stem(Name(base + ext)) == base
  {
    NamePlain(base + ext);
    StemWithSuffix(base, ext);
  }
  /** The name of `dir / name` is `name`, for a name without '/'. */
  lemma NameOfJoin(dir: string, name: string)
    requires forall j :: 0 <= j < |name| ==> name[j] != '/'
    ensures Name(JoinPath(dir, name)) == name
  {
    var p := JoinPath(dir, name);
    assert p[|dir|] == '/';
    assert forall j :: |dir| < j < |p| ==> p[j] == name[j - |dir| - 1];
    assert AfterLast(p, '/') == |dir| + 1;
  }
}
