/**
 * The files the scheduler and the compressor touch: a map from path to content, with
 * the `pathlib` and `shutil` operations they use. An operation that raises in Python
 * (renaming or copying a missing file) gives `None`.
 */
module FileStore {
  import opened Wrappers

  datatype Content = Content(bytes: seq<bv8>)

  /** `stat().st_size`. */
  function Size(c: Content): nat
  {
    |c.bytes|
  }

  type Disk = map<string, Content>

  /** The two disks agree on every path outside `touched`. */
  ghost predicate AgreeOutside(a: Disk, b: Disk, touched: set<string>)
  {
    forall x :: x !in touched ==> (x in a <==> x in b) && (x in a ==> a[x] == b[x])
  }

  /** `if p.exists(): p.unlink()`. */
  function Remove(d: Disk, p: string): (r: Disk)
    ensures p !in r
  {
    d - {p}
  }

  /** `src.rename(dst)`: replaces `dst`; raises when `src` does not exist. */
  function Rename(d: Disk, src: string, dst: string): (r: Option<Disk>)
    ensures r.Some? <==> src in d
    ensures r.Some? ==> dst in r.value && r.value[dst] == d[src]
    ensures r.Some? && src != dst ==> src !in r.value
  {
    if src in d then Some((d - {src})[dst := d[src]]) else None
  }

  /** `shutil.copy2(src, dst)`: raises when `src` does not exist or is `dst` itself. */
  function Copy(d: Disk, src: string, dst: string): (r: Option<Disk>)
    ensures r.Some? <==> src in d && src != dst
    ensures r.Some? ==> dst in r.value && r.value[dst] == d[src]
    ensures r.Some? ==> src in r.value && r.value[src] == d[src]
  {
    if src in d && src != dst then Some(d[dst := d[src]]) else None
  }
}
