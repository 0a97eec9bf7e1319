/** Models of the standard-library sequence operations the matrix code is
    built from: `concat`, `chunks`, `split`, `join` and an integer `sum`. */
module Sequences {

  /** All members of `ss` have length `w`. */
  predicate Uniform<T>(ss: seq<seq<T>>, w: nat) {
    forall i :: 0 <= i < |ss| ==> |ss[i]| == w
  }

  /** Concatenation of a sequence of sequences (slice `concat`). */
  function Flatten<T>(ss: seq<seq<T>>): seq<T> {
    if |ss| == 0 then [] else ss[0] + Flatten(ss[1..])
  }

  lemma {:induction false} FlattenAppend<T>(ss: seq<seq<T>>, s: seq<T>)
    ensures Flatten(ss + [s]) == Flatten(ss) + s
  {
    if |ss| == 0 {
      assert ss + [s] == [s];
      assert Flatten([s]) == s + Flatten([s][1..]);
    } else {
      assert (ss + [s])[1..] == ss[1..] + [s];
      FlattenAppend(ss[1..], s);
    }
  }

  lemma {:induction false} FlattenLength<T>(ss: seq<seq<T>>, w: nat)
    requires Uniform(ss, w)
    ensures |Flatten(ss)| == |ss| * w
  {
    if |ss| > 0 {
      FlattenLength(ss[1..], w);
    }
  }

  /** Row-major addressing: element `j` of member `i` sits at `i * w + j`. */
  lemma {:induction false} FlattenAt<T>(ss: seq<seq<T>>, w: nat, i: nat, j: nat)
    requires Uniform(ss, w) && i < |ss| && j < w
    ensures |Flatten(ss)| == |ss| * w
    ensures i * w + j < |Flatten(ss)| && Flatten(ss)[i * w + j] == ss[i][j]
  {
    FlattenLength(ss, w);
    if i > 0 {
      FlattenAt(ss[1..], w, i - 1, j);
      assert i * w + j == w + ((i - 1) * w + j);
    }
  }

  /** Slice `chunks(w)`: consecutive pieces of length `w`, the last one
      possibly shorter. `w == 0` panics in the source. */
  function Chunks<T>(s: seq<T>, w: nat): seq<seq<T>>
    requires w > 0
    decreases |s|
  {
    if |s| == 0 then []
    else if |s| <= w then [s]
    else [s[..w]] + Chunks(s[w..], w)
  }

  /** On a sequence of `n * w` elements `chunks(w)` yields exactly `n` full
      pieces whose concatenation is the sequence again. */
  lemma {:induction false} ChunksExact<T>(s: seq<T>, w: nat, n: nat)
    requires w > 0 && |s| == n * w
    ensures |Chunks(s, w)| == n && Uniform(Chunks(s, w), w)
    ensures Flatten(Chunks(s, w)) == s
  {
    if n == 1 {
      assert Flatten(Chunks(s, w)) == s + Flatten([s][1..]);
    } else if n > 1 {
      assert n * w == (n - 1) * w + w;
      ChunksExact(s[w..], w, n - 1);
      ChunksCons(s, w);
    }
  }

  /** One step of `chunks` on more than `w` elements. */
  lemma ChunksCons<T>(s: seq<T>, w: nat)
    requires 0 < w < |s| && Uniform(Chunks(s[w..], w), w)
    ensures |Chunks(s, w)| == 1 + |Chunks(s[w..], w)| && Uniform(Chunks(s, w), w)
    ensures Flatten(Chunks(s, w)) == s[..w] + Flatten(Chunks(s[w..], w))
  {
    var rest := Chunks(s[w..], w);
    var all := Chunks(s, w);
    assert all == [s[..w]] + rest;
    assert all[1..] == rest;
    forall i | 0 <= i < |all| ensures |all[i]| == w {
      if i > 0 {
        assert all[i] == rest[i - 1];
      }
    }
  }

  /** Cutting a concatenation of full pieces gives the pieces back. */
  lemma {:induction false} ChunksFlatten<T>(ss: seq<seq<T>>, w: nat)
    requires w > 0 && Uniform(ss, w)
    ensures Chunks(Flatten(ss), w) == ss
  {
    FlattenLength(ss, w);
    if |ss| == 1 {
      assert Flatten(ss) == ss[0] + Flatten(ss[1..]);
      assert Flatten(ss) == ss[0];
    } else if |ss| > 1 {
      var s := Flatten(ss);
      FlattenLength(ss[1..], w);
      assert s[..w] == ss[0];
      assert s[w..] == Flatten(ss[1..]);
      ChunksFlatten(ss[1..], w);
      assert [ss[0]] + ss[1..] == ss;
    }
  }

  /** No element of `s` is a separator. */
  predicate NoSep<T>(s: seq<T>, isSep: T -> bool) {
    forall k :: 0 <= k < |s| ==> !isSep(s[k])
  }

  /** `split` at every element satisfying `isSep`: `n` separators give
      `n + 1` pieces, empty ones included. */
  function Split<T>(s: seq<T>, isSep: T -> bool): (r: seq<seq<T>>)
    ensures |r| > 0
    ensures forall i :: 0 <= i < |r| ==> NoSep(r[i], isSep)
  {
    if |s| == 0 then [[]]
    else
      var rest := Split(s[1..], isSep);
      if isSep(s[0]) then [[]] + rest
      else [[s[0]] + rest[0]] + rest[1..]
  }

  lemma {:induction false} SplitNoSep<T>(s: seq<T>, isSep: T -> bool)
    requires NoSep(s, isSep)
    ensures Split(s, isSep) == [s]
  {
    if |s| > 0 {
      SplitNoSep(s[1..], isSep);
      assert [s[0]] + s[1..] == s;
    }
  }

  /** A separator after a separator-free prefix cuts exactly there. */
  lemma {:induction false} SplitAtSep<T>(x: seq<T>, c: T, y: seq<T>, isSep: T -> bool)
    requires NoSep(x, isSep) && isSep(c)
    ensures Split(x + [c] + y, isSep) == [x] + Split(y, isSep)
  {
    var s := x + [c] + y;
    if |x| == 0 {
      assert s == [c] + y;
      assert s[1..] == y;
    } else {
      assert s[1..] == x[1..] + [c] + y;
      SplitAtSep(x[1..], c, y, isSep);
      assert [x[0]] + x[1..] == x;
    }
  }

  /** `join(sep)`: the parts with one `sep` between neighbours. */
  function Join<T>(parts: seq<seq<T>>, sep: T): seq<T> {
    if |parts| == 0 then []
    else if |parts| == 1 then parts[0]
    else parts[0] + [sep] + Join(parts[1..], sep)
  }

  /** Splitting a join of separator-free parts on its separator returns the parts. */
  lemma {:induction false} SplitJoin<T>(parts: seq<seq<T>>, sep: T, isSep: T -> bool)
    requires |parts| > 0 && isSep(sep)
    requires forall i :: 0 <= i < |parts| ==> NoSep(parts[i], isSep)
    ensures Split(Join(parts, sep), isSep) == parts
  {
    if |parts| == 1 {
      SplitNoSep(parts[0], isSep);
    } else {
      SplitJoin(parts[1..], sep, isSep);
      SplitAtSep(parts[0], sep, Join(parts[1..], sep), isSep);
      assert [parts[0]] + parts[1..] == parts;
    }
  }

  /** Every element of a join is a part's element or the separator. */
  lemma {:induction false} JoinElements<T>(parts: seq<seq<T>>, sep: T, ok: T -> bool)
    requires ok(sep)
    requires forall i, k :: 0 <= i < |parts| && 0 <= k < |parts[i]| ==> ok(parts[i][k])
    ensures forall k :: 0 <= k < |Join(parts, sep)| ==> ok(Join(parts, sep)[k])
  {
    if |parts| > 1 {
      JoinElements(parts[1..], sep, ok);
      var j := Join(parts, sep);
      assert j == parts[0] + [sep] + Join(parts[1..], sep);
      forall k | 0 <= k < |j| ensures ok(j[k]) {
        if k < |parts[0]| {
        } else if k == |parts[0]| {
        } else {
          assert j[k] == Join(parts[1..], sep)[k - |parts[0]| - 1];
        }
      }
    }
  }

  /** The `filter(|word| !word.is_empty())` step. */
  function DropEmpty<T>(ps: seq<seq<T>>): (r: seq<seq<T>>)
    ensures forall i :: 0 <= i < |r| ==> |r[i]| > 0 && r[i] in ps
  {
    if |ps| == 0 then []
    else if |ps[0]| == 0 then DropEmpty(ps[1..])
    else [ps[0]] + DropEmpty(ps[1..])
  }

  lemma {:induction false} DropEmptyKeeps<T>(ps: seq<seq<T>>)
    requires forall i :: 0 <= i < |ps| ==> |ps[i]| > 0
    ensures DropEmpty(ps) == ps
  {
    if |ps| > 0 {
      DropEmptyKeeps(ps[1..]);
      assert [ps[0]] + ps[1..] == ps;
    }
  }

  /** The filter distributes over concatenation: it keeps the non-empty words
      of both halves, in order. */
  lemma {:induction false} DropEmptyAppend<T>(a: seq<seq<T>>, b: seq<seq<T>>)
    ensures DropEmpty(a + b) == DropEmpty(a) + DropEmpty(b)
  {
    if |a| > 0 {
      assert (a + b)[0] == a[0];
      assert (a + b)[1..] == a[1..] + b;
      DropEmptyAppend(a[1..], b);
    } else {
      assert a + b == b;
    }
  }

  /** On one word the filter drops it exactly when it is empty. */
  lemma DropEmptyOne<T>(w: seq<T>)
    ensures DropEmpty([w]) == if |w| == 0 then [] else [w]
  {
    assert [w][1..] == [];
  }

  /** Iterator `sum`, accumulating left to right from zero. */
  function Sum(s: seq<int>): int {
    if |s| == 0 then 0 else Sum(s[..|s| - 1]) + s[|s| - 1]
  }
}
