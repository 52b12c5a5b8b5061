/** Reading an ffmpeg argument vector the way ffmpeg does: an option's value is the next element. */
module Argv {
  import opened Wrappers
  import opened Text

  /** A path ffmpeg would not mistake for an option. */
  predicate NotAnOption(p: string) { p == [] || p[0] != '-' }

  /** Number of elements of `args` equal to `x`. */
  function Count(args: seq<string>, x: string): nat
  {
    if args == [] then 0 else (if args[0] == x then 1 else 0) + Count(args[1..], x)
  }

  lemma {:induction false} CountConcat(a: seq<string>, b: seq<string>, x: string)
    ensures Count(a + b, x) == Count(a, x) + Count(b, x)
  {
    if a == [] {
      assert a + b == b;
    } else {
      assert (a + b)[1..] == a[1..] + b;
      CountConcat(a[1..], b, x);
    }
  }

  lemma {:induction false} CountAbsent(args: seq<string>, x: string)
    requires x !in args
    ensures Count(args, x) == 0
  {
    if args != [] {
      assert x !in args[1..] by {
        forall i | 0 <= i < |args| - 1 ensures args[1..][i] != x { assert args[1..][i] == args[i + 1]; }
      }
      CountAbsent(args[1..], x);
    }
  }

  lemma CountPair(a: string, b: string, x: string)
    ensures Count([a, b], x) == (if a == x then 1 else 0) + (if b == x then 1 else 0)
    ensures Count([a], x) == (if a == x then 1 else 0)
  {
    assert [a, b][1..] == [b];
    assert [b][1..] == [];
    assert [a][1..] == [];
    assert Count([b], x) == (if b == x then 1 else 0);
  }

  /** The element after the first occurrence of `flag`, if there is one. */
  function ValueAfter(args: seq<string>, flag: string): Option<string>
  {
    if |args| < 2 then None
    else if args[0] == flag then Some(args[1])
    else ValueAfter(args[1..], flag)
  }

  /** When `flag` does not occur in `pre`, the lookup skips `pre` entirely. */
  lemma {:induction false} ValueAfterSkip(pre: seq<string>, rest: seq<string>, flag: string)
    requires flag !in pre
    ensures ValueAfter(pre + rest, flag) == ValueAfter(rest, flag)
  {
    if pre != [] {
      assert (pre + rest)[1..] == pre[1..] + rest;
      assert flag !in pre[1..] by {
        forall j | 0 <= j < |pre| - 1 ensures pre[1..][j] != flag { assert pre[1..][j] == pre[j + 1]; }
      }
      ValueAfterSkip(pre[1..], rest, flag);
    } else {
      assert pre + rest == rest;
    }
  }

  /** An option pair at the end, with no earlier occurrence of its flag, is what the lookup finds. */
  lemma ValueAfterPair(pre: seq<string>, flag: string, v: string)
    requires flag !in pre
    ensures ValueAfter(pre + [flag, v], flag) == Some(v)
  {
    ValueAfterSkip(pre, [flag, v], flag);
  }

  /** Appending elements does not change a lookup that already succeeds. */
  lemma {:induction false} ValueAfterExtend(a: seq<string>, b: seq<string>, flag: string)
    requires ValueAfter(a, flag).Some?
    ensures ValueAfter(a + b, flag) == ValueAfter(a, flag)
  {
    assert (a + b)[0] == a[0] && (a + b)[1] == a[1];
    if a[0] != flag {
      assert (a + b)[1..] == a[1..] + b;
      ValueAfterExtend(a[1..], b, flag);
    }
  }

  /** The vector ends with ffmpeg's overwrite switch and the output path. */
  predicate EndsWithOverwrite(args: seq<string>, output: string)
  {
    |args| >= 2 && args[|args| - 2] == "-y" && args[|args| - 1] == output
  }

  // ---------------------------------------------------------------------------
  // Vectors written as option pairs
  // ---------------------------------------------------------------------------

  /** `[flag, value]` pairs laid end to end. */
  function Flatten(pairs: seq<(string, string)>): (args: seq<string>)
    ensures |args| == 2 * |pairs|
  {
    if pairs == [] then [] else [pairs[0].0, pairs[0].1] + Flatten(pairs[1..])
  }

  /** The value of the first pair whose flag is `flag`. */
  function Lookup(pairs: seq<(string, string)>, flag: string): (r: Option<string>)
    ensures r.Some? ==> exists i :: 0 <= i < |pairs| && pairs[i] == (flag, r.value)
    ensures r.None? ==> forall i :: 0 <= i < |pairs| ==> pairs[i].0 != flag
  {
    if pairs == [] then None
    else if pairs[0].0 == flag then Some(pairs[0].1)
    else
      var r := Lookup(pairs[1..], flag);
      assert forall i :: 1 <= i < |pairs| ==> pairs[i] == pairs[1..][i - 1];
      r
  }

  /** No pair carries `flag` as its value. */
  predicate ValuesAvoid(pairs: seq<(string, string)>, flag: string)
  {
    forall i :: 0 <= i < |pairs| ==> pairs[i].1 != flag
  }

  lemma ValuesAvoidConcat(a: seq<(string, string)>, b: seq<(string, string)>, flag: string)
    requires ValuesAvoid(a, flag) && ValuesAvoid(b, flag)
    ensures ValuesAvoid(a + b, flag)
  {
    forall i | 0 <= i < |a + b| ensures (a + b)[i].1 != flag {
      if i < |a| {
        assert (a + b)[i] == a[i];
      } else {
        assert (a + b)[i] == b[i - |a|];
      }
    }
  }

  /**
   * On `prog` followed by option pairs, ffmpeg's reading of a flag is the first pair with
   * that flag, provided no value is spelled like the flag.
   */
  lemma {:induction false} ValueAfterFlatten(prog: string, pairs: seq<(string, string)>, flag: string)
    requires prog != flag && ValuesAvoid(pairs, flag)
    ensures ValueAfter([prog] + Flatten(pairs), flag) == Lookup(pairs, flag)
    decreases |pairs|
  {
    var args := [prog] + Flatten(pairs);
    assert args[1..] == Flatten(pairs);
    if pairs != [] {
      var k := pairs[0].0;
      var v := pairs[0].1;
      var rest := Flatten(pairs[1..]);
      assert Flatten(pairs) == [k, v] + rest;
      if k != flag {
        assert ValuesAvoid(pairs[1..], flag) by {
          forall i | 0 <= i < |pairs| - 1 ensures pairs[1..][i].1 != flag { assert pairs[1..][i] == pairs[i + 1]; }
        }
        ValueAfterFlatten(v, pairs[1..], flag);
        assert ([k, v] + rest)[1..] == [v] + rest;
      }
    }
  }

  lemma {:induction false} FlattenConcat(a: seq<(string, string)>, b: seq<(string, string)>)
    ensures Flatten(a + b) == Flatten(a) + Flatten(b)
  {
    if a != [] {
      assert (a + b)[1..] == a[1..] + b;
      FlattenConcat(a[1..], b);
    } else {
      assert a + b == b;
    }
  }

  /** Looking a flag up in `a + b` finds it in `a` first. */
  lemma {:induction false} LookupConcat(a: seq<(string, string)>, b: seq<(string, string)>, flag: string)
    ensures Lookup(a + b, flag) == if Lookup(a, flag).Some? then Lookup(a, flag) else Lookup(b, flag)
  {
    if a != [] {
      assert (a + b)[0] == a[0];
      assert (a + b)[1..] == a[1..] + b;
      LookupConcat(a[1..], b, flag);
    } else {
      assert a + b == b;
    }
  }

  /** A vector whose last pair is `("-y", output)` ends with the overwrite switch and `output`. */
  lemma EndsWithLastPair(prog: string, pairs: seq<(string, string)>, output: string)
    requires pairs != [] && pairs[|pairs| - 1] == ("-y", output)
    ensures EndsWithOverwrite([prog] + Flatten(pairs), output)
  {
    var n := |pairs| - 1;
    assert pairs == pairs[..n] + [("-y", output)];
    FlattenConcat(pairs[..n], [("-y", output)]);
    assert Flatten([("-y", output)]) == ["-y", output] by {
      assert [("-y", output)][1..] == [];
    }
  }
  /** No flag is given twice. */
  predicate DistinctFlags(pairs: seq<(string, string)>)
  {
    forall i, j :: 0 <= i < j < |pairs| ==> pairs[i].0 != pairs[j].0
  }

  /** With distinct flags every pair is the one its flag finds. */
  lemma {:induction false} LookupDistinct(pairs: seq<(string, string)>, i: nat)
    requires DistinctFlags(pairs) && i < |pairs|
    ensures Lookup(pairs, pairs[i].0) == Some(pairs[i].1)
  {
    if i > 0 {
      assert pairs[0].0 != pairs[i].0;
      assert DistinctFlags(pairs[1..]) by {
        forall a, b | 0 <= a < b < |pairs| - 1 ensures pairs[1..][a].0 != pairs[1..][b].0 {
          assert pairs[1..][a] == pairs[a + 1] && pairs[1..][b] == pairs[b + 1];
        }
      }
      LookupDistinct(pairs[1..], i - 1);
    }
  }

  /** ffmpeg reads every option of a vector of distinct option pairs with its own value. */
  lemma ReadsPair(prog: string, pairs: seq<(string, string)>, i: nat)
    requires DistinctFlags(pairs) && i < |pairs|
    requires prog != pairs[i].0 && ValuesAvoid(pairs, pairs[i].0)
    ensures ValueAfter([prog] + Flatten(pairs), pairs[i].0) == Some(pairs[i].1)
  {
    ValueAfterFlatten(prog, pairs, pairs[i].0);
    LookupDistinct(pairs, i);
  }

  /** A flag that is neither a pair's flag nor a pair's value does not occur at all. */
  lemma {:induction false} AbsentFlag(pairs: seq<(string, string)>, flag: string)
    requires Lookup(pairs, flag).None? && ValuesAvoid(pairs, flag)
    ensures flag !in Flatten(pairs)
  {
    if pairs != [] {
      assert ValuesAvoid(pairs[1..], flag) by {
        forall i | 0 <= i < |pairs| - 1 ensures pairs[1..][i].1 != flag { assert pairs[1..][i] == pairs[i + 1]; }
      }
      AbsentFlag(pairs[1..], flag);
    }
  }
  /** A flag whose value ffmpeg finds occurs in the vector. */
  lemma {:induction false} ValueAfterFound(args: seq<string>, flag: string)
    requires ValueAfter(args, flag).Some?
    ensures flag in args
  {
    if args[0] != flag {
      ValueAfterFound(args[1..], flag);
    }
  }
}
