/**
 * The loop shared by the five batch scripts (`compress_with_*_range`): every `.mp4` file of
 * the source directory, in sorted order, is encoded once for each value of an inclusive
 * range. An output that already exists is skipped, and a failed encode's partial output is
 * deleted.
 *
 * The file system is the set of paths that exist. Whether ffmpeg exits with status 0 is an
 * oracle on the command line; a successful run leaves its output behind.
 */
module Sweep {
  import opened Wrappers
  import opened Text
  import opened Paths

  // ---------------------------------------------------------------------------
  // The sorted `.mp4` listing
  // ---------------------------------------------------------------------------

  /** An entry of the source directory as `iterdir` yields it. */
  datatype Entry = Entry(name: string, isFile: bool)

  /** `p.is_file() and p.suffix.lower() == ".mp4"`. */
  predicate IsMp4Entry(e: Entry)
  {
    e.isFile && Lower(Suffix(e.name)) == ".mp4"
  }

  /** The names of the entries `keep` accepts, in listing order. */
  function Kept(listing: seq<Entry>, keep: Entry -> bool): (names: seq<string>)
    ensures |names| <= |listing|
  {
    if listing == [] then []
    else
      var init := Kept(listing[..|listing| - 1], keep);
      var e := listing[|listing| - 1];
      if keep(e) then init + [e.name] else init
  }

  /** A name is kept exactly when some accepted entry carries it. */
  lemma {:induction false} KeptMembers(listing: seq<Entry>, keep: Entry -> bool, x: string)
    ensures x in Kept(listing, keep) <==> exists i :: 0 <= i < |listing| && keep(listing[i]) && listing[i].name == x
  {
    if listing != [] {
      var n := |listing| - 1;
      var init := listing[..n];
      KeptMembers(init, keep, x);
      if exists i :: 0 <= i < |listing| && keep(listing[i]) && listing[i].name == x {
        var i :| 0 <= i < |listing| && keep(listing[i]) && listing[i].name == x;
        if i < n {
          assert init[i] == listing[i];
        }
      }
    }
  }

  /** The names of the `.mp4` files, in listing order. */
  function Mp4Names(listing: seq<Entry>): (names: seq<string>)
    ensures |names| <= |listing|
  {
    Kept(listing, IsMp4Entry)
  }

  /** Exactly the `.mp4` files of the listing are kept, each as often as it is listed. */
  lemma {:induction false} Mp4NamesCount(listing: seq<Entry>, x: string)
    ensures multiset(Mp4Names(listing))[x] == multiset(Filter(listing, x))[x]
  {
    if listing != [] {
      var init := listing[..|listing| - 1];
      var e := listing[|listing| - 1];
      Mp4NamesCount(init, x);
      assert listing == init + [e];
    }
  }

  /** The listed `.mp4` entries named `x`, as names. */
  function Filter(listing: seq<Entry>, x: string): seq<string>
  {
    if listing == [] then []
    else
      var init := Filter(listing[..|listing| - 1], x);
      var e := listing[|listing| - 1];
      if IsMp4Entry(e) && e.name == x then init + [x] else init
  }

  /** A name is kept exactly when some listed `.mp4` file carries it. */
  lemma Mp4NamesMembers(listing: seq<Entry>, x: string)
    ensures x in Mp4Names(listing) <==> exists i :: 0 <= i < |listing| && IsMp4Entry(listing[i]) && listing[i].name == x
  {
    KeptMembers(listing, IsMp4Entry, x);
  }

  /** Python's `<` on strings: code point by code point, a proper prefix first. */
  predicate Below(a: string, b: string)
  {
    b != [] && (a == [] || a[0] < b[0] || (a[0] == b[0] && Below(a[1..], b[1..])))
  }

  predicate AtMost(a: string, b: string) { a == b || Below(a, b) }

  /** Any two strings are ordered one way or the other. */
  lemma {:induction false} BelowTotal(a: string, b: string)
    ensures AtMost(a, b) || AtMost(b, a)
  {
    if a != [] && b != [] && a[0] == b[0] {
      BelowTotal(a[1..], b[1..]);
      if a[1..] == b[1..] {
        assert a == [a[0]] + a[1..] && b == [b[0]] + b[1..];
      }
    }
  }

  predicate Sorted(s: seq<string>)
  {
    forall i :: 0 <= i < |s| - 1 ==> AtMost(s[i], s[i + 1])
  }

  /** `x` placed before the first element it does not exceed. */
  function Insert(x: string, s: seq<string>): (r: seq<string>)
    ensures multiset(r) == multiset(s) + multiset{x}
    ensures |r| == |s| + 1
  {
    if s == [] then [x]
    else if AtMost(x, s[0]) then [x] + s
    else
      var r := [s[0]] + Insert(x, s[1..]);
      assert s == [s[0]] + s[1..];
      r
  }

  lemma {:induction false} InsertSorted(x: string, s: seq<string>)
    requires Sorted(s)
    ensures Sorted(Insert(x, s))
    ensures Insert(x, s)[0] == x || (s != [] && Insert(x, s)[0] == s[0])
  {
    if s != [] && !AtMost(x, s[0]) {
      BelowTotal(x, s[0]);
      var t := s[1..];
      assert Sorted(t) by {
        forall i | 0 <= i < |t| - 1 ensures AtMost(t[i], t[i + 1]) { assert t[i] == s[i + 1] && t[i + 1] == s[i + 2]; }
      }
      InsertSorted(x, t);
      var r := Insert(x, s);
      forall i | 0 <= i < |r| - 1 ensures AtMost(r[i], r[i + 1]) {
        if i == 0 {
          if t != [] && r[1] == t[0] {
            assert AtMost(s[0], s[1]);
          }
        } else {
          assert r[i] == Insert(x, t)[i - 1] && r[i + 1] == Insert(x, t)[i];
        }
      }
    }
  }

  /** `sorted(...)`, by insertion. */
  function Sort(s: seq<string>): (r: seq<string>)
    ensures multiset(r) == multiset(s)
  {
    if s == [] then []
    else
      var r := Insert(s[|s| - 1], Sort(s[..|s| - 1]));
      assert s == s[..|s| - 1] + [s[|s| - 1]];
      r
  }

  lemma {:induction false} SortSorted(s: seq<string>)
    ensures Sorted(Sort(s))
  {
    if s != [] {
      SortSorted(s[..|s| - 1]);
      InsertSorted(s[|s| - 1], Sort(s[..|s| - 1]));
    }
  }

  /** The videos of one run: the `.mp4` files of the listing, sorted. */
  function Videos(listing: seq<Entry>): seq<string>
  {
    Sort(Mp4Names(listing))
  }

  /** The videos are sorted and are the listing's `.mp4` files, each as often as it is listed. */
  lemma VideosSpec(listing: seq<Entry>, x: string)
    ensures Sorted(Videos(listing))
    ensures multiset(Videos(listing))[x] == |Filter(listing, x)|
  {
    SortSorted(Mp4Names(listing));
    Mp4NamesCount(listing, x);
    FilterAllX(listing, x);
  }

  /** Every video is a listed `.mp4` file, and every listed `.mp4` file is a video. */
  lemma VideosMembers(listing: seq<Entry>, x: string)
    ensures x in Videos(listing) <==> exists i :: 0 <= i < |listing| && IsMp4Entry(listing[i]) && listing[i].name == x
  {
    Mp4NamesMembers(listing, x);
    assert x in Videos(listing) <==> x in multiset(Videos(listing));
    assert x in Mp4Names(listing) <==> x in multiset(Mp4Names(listing));
  }

  /** Directory entries are single path components. */
  predicate PlainNames(listing: seq<Entry>)
  {
    forall i, j :: 0 <= i < |listing| && 0 <= j < |listing[i].name| ==> listing[i].name[j] != '/'
  }

  /** A video's stem is a non-empty single path component: the `.mp4` suffix is not all of it. */
  lemma VideoStem(listing: seq<Entry>, v: string)
    requires PlainNames(listing) && v in Videos(listing)
    ensures Stem(v) != [] && forall j :: 0 <= j < |Stem(v)| ==> Stem(v)[j] != '/'
  {
    VideosMembers(listing, v);
    var i :| 0 <= i < |listing| && IsMp4Entry(listing[i]) && listing[i].name == v;
    StemSuffix(v);
    assert |Suffix(v)| == |Lower(Suffix(v))| == 4;
    assert forall j :: 0 <= j < |Stem(v)| ==> Stem(v)[j] == v[j];
  }

  /** Every video's stem is a non-empty single path component. */
  predicate PlainStems(videos: seq<string>)
  {
    forall v :: v in videos ==> Stem(v) != [] && forall j :: 0 <= j < |Stem(v)| ==> Stem(v)[j] != '/'
  }

  lemma VideosPlainStems(listing: seq<Entry>)
    requires PlainNames(listing)
    ensures PlainStems(Videos(listing))
  {
    forall v | v in Videos(listing)
      ensures Stem(v) != [] && forall j :: 0 <= j < |Stem(v)| ==> Stem(v)[j] != '/'
    {
      VideoStem(listing, v);
    }
  }

  lemma {:induction false} FilterAllX(listing: seq<Entry>, x: string)
    ensures multiset(Filter(listing, x))[x] == |Filter(listing, x)|
  {
    if listing != [] {
      FilterAllX(listing[..|listing| - 1], x);
    }
  }

  // ---------------------------------------------------------------------------
  // The jobs: every video, every value of the inclusive range
  // ---------------------------------------------------------------------------

  /** One encode of the sweep: a video of the source directory at one parameter value. */
  datatype Job = Job(video: string, q: int)

  /** `range(lo, hi + 1)` for one video. */
  function QRange(video: string, lo: int, hi: int): (r: seq<Job>)
    ensures |r| == if hi >= lo then hi - lo + 1 else 0
    ensures forall i :: 0 <= i < |r| ==> r[i] == Job(video, lo + i)
  {
    seq(if hi >= lo then hi - lo + 1 else 0, i => Job(video, lo + i))
  }

  /** The nested loops, flattened: videos in order, each over the whole range. */
  function Jobs(videos: seq<string>, lo: int, hi: int): seq<Job>
  {
    if videos == [] then []
    else Jobs(videos[..|videos| - 1], lo, hi) + QRange(videos[|videos| - 1], lo, hi)
  }

  /** The range is inclusive at both ends, and every video gets all of it. */
  lemma {:induction false} JobsExact(videos: seq<string>, lo: int, hi: int, j: Job)
    ensures j in Jobs(videos, lo, hi) <==> j.video in videos && lo <= j.q <= hi
  {
    if videos != [] {
      var init := videos[..|videos| - 1];
      var v := videos[|videos| - 1];
      JobsExact(init, lo, hi, j);
      assert videos == init + [v];
      if j.video == v && lo <= j.q <= hi {
        assert QRange(v, lo, hi)[j.q - lo] == j;
      }
    }
  }

  // ---------------------------------------------------------------------------
  // Running the jobs
  // ---------------------------------------------------------------------------

  /**
   * What a batch script fixes: the two directories, the output name for a stem and a
   * value, the command line for an input, an output and a value, and whether ffmpeg
   * exits with status 0 on a command line.
   */
  datatype Config = Config(sourceDir: string, outDir: string,
                           name: (string, int) -> string,
                           cmd: (string, string, int) -> seq<string>,
                           ok: seq<string> -> bool)

  /** The paths that exist, and the jobs ffmpeg was run for, in order. */
  datatype State = State(files: set<string>, encoded: seq<Job>)

  function InputPath(c: Config, j: Job): string { JoinPath(c.sourceDir, j.video) }

  function OutputPath(c: Config, j: Job): string { JoinPath(c.outDir, c.name(Stem(j.video), j.q)) }

  function CommandOf(c: Config, j: Job): seq<string> { c.cmd(InputPath(c, j), OutputPath(c, j), j.q) }

  /** One turn of the inner loop: skip, or encode and keep or delete the output. */
  function Step(c: Config, s: State, j: Job): State
  {
    var out := OutputPath(c, j);
    if out in s.files then s
    else if c.ok(CommandOf(c, j)) then State(s.files + {out}, s.encoded + [j])
    else State(s.files - {out}, s.encoded + [j])
  }

  /** The jobs run one after the other. */
  function Run(c: Config, s: State, jobs: seq<Job>): State
  {
    if jobs == [] then s else Step(c, Run(c, s, jobs[..|jobs| - 1]), jobs[|jobs| - 1])
  }

  lemma {:induction false} RunConcat(c: Config, s: State, a: seq<Job>, b: seq<Job>)
    ensures Run(c, s, a + b) == Run(c, Run(c, s, a), b)
  {
    if b == [] {
      assert a + b == a;
    } else {
      var n := |b| - 1;
      RunConcat(c, s, a, b[..n]);
      assert (a + b)[..|a + b| - 1] == a + b[..n];
    }
  }

  /** Some job of `jobs` writes `out` and its encode succeeds. */
  predicate Produces(c: Config, jobs: seq<Job>, out: string)
  {
    exists j :: j in jobs && OutputPath(c, j) == out && c.ok(CommandOf(c, j))
  }

  /**
   * After the sweep a path exists exactly when it existed before or some job for it
   * encoded successfully: skipped outputs are kept, failed ones leave nothing behind, and
   * no other path is touched.
   */
  lemma {:induction false} RunFiles(c: Config, s: State, jobs: seq<Job>, out: string)
    ensures out in Run(c, s, jobs).files <==> out in s.files || Produces(c, jobs, out)
  {
    if jobs != [] {
      var init := jobs[..|jobs| - 1];
      var j := jobs[|jobs| - 1];
      RunFiles(c, s, init, out);
      StepFiles(c, Run(c, s, init), j, out);
      ProducesSnoc(c, init, j, out);
      assert jobs == init + [j];
    }
  }

  /** One turn adds its output when the encode succeeds and touches no other path. */
  lemma StepFiles(c: Config, s: State, j: Job, out: string)
    ensures out in Step(c, s, j).files <==> out in s.files || (OutputPath(c, j) == out && c.ok(CommandOf(c, j)))
  {
  }

  /** A job appended to the list produces what it writes on success, besides what the list produced. */
  lemma ProducesSnoc(c: Config, init: seq<Job>, j: Job, out: string)
    ensures Produces(c, init + [j], out) <==> Produces(c, init, out) || (OutputPath(c, j) == out && c.ok(CommandOf(c, j)))
  {
    if Produces(c, init + [j], out) && !Produces(c, init, out) {
      var k :| k in init + [j] && OutputPath(c, k) == out && c.ok(CommandOf(c, k));
      assert k == j;
    }
    if OutputPath(c, j) == out && c.ok(CommandOf(c, j)) {
      assert j in init + [j];
    }
    if Produces(c, init, out) {
      var k :| k in init && OutputPath(c, k) == out && c.ok(CommandOf(c, k));
      assert k in init + [j];
    }
  }

  /** Every file the sweep creates is the output of a job of the sweep whose encode succeeded. */
  lemma NewOutputs(c: Config, files: set<string>, videos: seq<string>, lo: int, hi: int, out: string)
    requires out in Run(c, State(files, []), Jobs(videos, lo, hi)).files && out !in files
    ensures exists j: Job :: j.video in videos && lo <= j.q <= hi && OutputPath(c, j) == out && c.ok(CommandOf(c, j))
  {
    RunFiles(c, State(files, []), Jobs(videos, lo, hi), out);
    var j :| j in Jobs(videos, lo, hi) && OutputPath(c, j) == out && c.ok(CommandOf(c, j));
    JobsExact(videos, lo, hi, j);
  }

  /** Files only appear: nothing that existed is removed. */
  lemma RunKeepsFiles(c: Config, s: State, jobs: seq<Job>)
    ensures s.files <= Run(c, s, jobs).files
  {
    forall out | out in s.files ensures out in Run(c, s, jobs).files {
      RunFiles(c, s, jobs, out);
    }
  }

  /** ffmpeg runs only for jobs whose output did not exist when the sweep began. */
  lemma {:induction false} RunSkipsExisting(c: Config, s: State, jobs: seq<Job>)
    ensures var r := Run(c, s, jobs);
      |s.encoded| <= |r.encoded| && r.encoded[..|s.encoded|] == s.encoded
      && forall k :: |s.encoded| <= k < |r.encoded| ==> r.encoded[k] in jobs && OutputPath(c, r.encoded[k]) !in s.files
  {
    if jobs != [] {
      var init := jobs[..|jobs| - 1];
      var j := jobs[|jobs| - 1];
      RunSkipsExisting(c, s, init);
      RunKeepsFiles(c, s, init);
      var p := Run(c, s, init);
      var r := Run(c, s, jobs);
      assert r.encoded == p.encoded || r.encoded == p.encoded + [j];
      assert forall k :: |s.encoded| <= k < |p.encoded| ==> p.encoded[k] in init ==> p.encoded[k] in jobs;
    }
  }

  /** The inner loop of one video. */
  method RunVideo(c: Config, s0: State, video: string, lo: int, hi: int) returns (s: State)
    ensures s == Run(c, s0, QRange(video, lo, hi))
  {
    s := s0;
    var q := lo;
    ghost var done: seq<Job> := [];
    while q <= hi
      invariant hi >= lo ==> lo <= q <= hi + 1
      invariant hi < lo ==> q == lo
      invariant done == QRange(video, lo, q - 1)
      invariant s == Run(c, s0, done)
      decreases hi - q
    {
      var j := Job(video, q);
      var out := OutputPath(c, j);
      if out !in s.files {
        var cmd := CommandOf(c, j);
        if c.ok(cmd) {
          s := State(s.files + {out}, s.encoded + [j]);
        } else {
          s := State(s.files - {out}, s.encoded + [j]);
        }
      }
      assert done + [j] == QRange(video, lo, q);
      done := done + [j];
      q := q + 1;
    }
  }

  /** `compress_with_*_range` after the listing: the outer loop over the sorted videos. */
  method RunAll(c: Config, files: set<string>, videos: seq<string>, lo: int, hi: int) returns (s: State)
    ensures s == Run(c, State(files, []), Jobs(videos, lo, hi))
  {
    s := State(files, []);
    var i := 0;
    while i < |videos|
      invariant 0 <= i <= |videos|
      invariant s == Run(c, State(files, []), Jobs(videos[..i], lo, hi))
    {
      assert videos[..i + 1][..i] == videos[..i];
      RunConcat(c, State(files, []), Jobs(videos[..i], lo, hi), QRange(videos[i], lo, hi));
      s := RunVideo(c, s, videos[i], lo, hi);
      i := i + 1;
    }
    assert videos[..|videos|] == videos;
  }

  /** The `main` check every script makes before sweeping. */
  function CheckRange(lo: int, hi: int, message: string): (r: Option<string>)
    ensures r.Some? <==> lo > hi
    ensures r.Some? ==> r.value == message
  {
    if lo > hi then Some(message) else None
  }
}
