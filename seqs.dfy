/**
  Sequence folds shared by both scripts: the order-preserving filter that
  a Python "append when the test passes" loop builds, and the cutting of a
  list into consecutive slices `xs[i:i + size]` for `i in range(0, len(xs), size)`.
 */
module Seqs {

  /** The elements of `s` that pass `keep`, in their order in `s`. */
  function Filter<T>(s: seq<T>, keep: T -> bool): (r: seq<T>)
    ensures |r| <= |s|
  {
    if s == [] then []
    else Filter(s[..|s| - 1], keep) + (if keep(s[|s| - 1]) then [s[|s| - 1]] else [])
  }

  /** An element is kept exactly when it is in `s` and passes the test. */
  lemma {:induction false} FilterMembership<T>(s: seq<T>, keep: T -> bool, x: T)
    ensures x in Filter(s, keep) <==> x in s && keep(x)
    decreases |s|
  {
    if s != [] {
      FilterMembership(s[..|s| - 1], keep, x);
      assert s == s[..|s| - 1] + [s[|s| - 1]];
    }
  }

  /** Filtering distributes over concatenation: the filter keeps order. */
  lemma {:induction false} FilterAppend<T>(a: seq<T>, b: seq<T>, keep: T -> bool)
    ensures Filter(a + b, keep) == Filter(a, keep) + Filter(b, keep)
    decreases |b|
  {
    if b == [] {
      assert a + b == a;
    } else {
      FilterAppend(a, b[..|b| - 1], keep);
      assert (a + b)[..|a + b| - 1] == a + b[..|b| - 1];
    }
  }

  /** Filtering by a test and by its negation splits `s` in two: every
      element, duplicates included, lands in exactly one of the parts. */
  lemma {:induction false} FilterPartition<T>(s: seq<T>, keep: T -> bool, drop: T -> bool)
    requires forall x :: drop(x) == !keep(x)
    ensures multiset(Filter(s, keep)) + multiset(Filter(s, drop)) == multiset(s)
    ensures |Filter(s, keep)| + |Filter(s, drop)| == |s|
    decreases |s|
  {
    if s != [] {
      var init, x := s[..|s| - 1], s[|s| - 1];
      FilterPartition(init, keep, drop);
      assert s == init + [x];
      assert multiset(s) == multiset(init) + multiset{x};
      if keep(x) {
        assert Filter(s, keep) == Filter(init, keep) + [x];
        assert Filter(s, drop) == Filter(init, drop);
      } else {
        assert Filter(s, keep) == Filter(init, keep);
        assert Filter(s, drop) == Filter(init, drop) + [x];
      }
    }
  }

  /** The concatenation of a sequence of slices. */
  function Flatten<T>(bs: seq<seq<T>>): seq<T> {
    if bs == [] then [] else bs[0] + Flatten(bs[1..])
  }

  /** The consecutive slices of `size` elements, the last possibly
      shorter; together they are `s`. */
  function Batches<T>(s: seq<T>, size: nat): seq<seq<T>>
    requires size > 0
    decreases |s|
  {
    if |s| <= size then
      (if s == [] then [] else [s])
    else
      [s[..size]] + Batches(s[size..], size)
  }

  /** Together the batches are `s`; there are ceil(|s| / size) of them,
      none is empty, and all but the last hold exactly `size` elements. */
  lemma {:induction false} BatchesShape<T>(s: seq<T>, size: nat)
    requires size > 0
    ensures var r := Batches(s, size);
      && Flatten(r) == s
      && |r| == (|s| + size - 1) / size
      && (forall i :: 0 <= i < |r| ==> 0 < |r[i]| <= size)
      && (forall i :: 0 <= i < |r| - 1 ==> |r[i]| == size)
    decreases |s|
  {
    if |s| > size {
      BatchesShape(s[size..], size);
      DivPlusOne(|s| - 1, size);
      var r := Batches(s, size);
      assert r == [s[..size]] + Batches(s[size..], size);
      assert r[1..] == Batches(s[size..], size);
      assert s == s[..size] + s[size..];
      assert (|s| + size - 1) / size == (|s| - 1) / size + 1;
    } else if s != [] {
      DivUnique(|s| + size - 1, size, 1, |s| - 1);
    }
  }

  lemma DivPlusOne(y: nat, d: nat)
    requires d > 0
    ensures (y + d) / d == y / d + 1
  {
    var q := y / d;
    DivUnique(y + d, d, q + 1, y % d);
  }

  /** Euclidean division has one quotient. */
  lemma DivUnique(x: nat, d: nat, q: nat, r: nat)
    requires d > 0 && r < d && x == q * d + r
    ensures x / d == q
  {
    var q' := x / d;
    if q' > q {
      MulStep(q + 1, q', d);
    } else if q' < q {
      MulStep(q' + 1, q, d);
    }
  }

  lemma MulStep(a: nat, b: nat, d: nat)
    requires a <= b
    ensures a * d <= b * d
  {
  }

  /** The first slice, and the slices of what follows it. */
  lemma BatchesUnfold<T>(s: seq<T>, size: nat)
    requires size > 0 && s != []
    ensures var hi := if size <= |s| then size else |s|;
      Batches(s, size) == [s[..hi]] + Batches(s[hi..], size)
  {
    if |s| <= size {
      assert s[..|s|] == s && s[|s|..] == [];
    }
  }

  /** The slice `s[lo:hi]` is the next batch after `lo`. */
  lemma NextBatch<T>(s: seq<T>, lo: nat, hi: nat, size: nat)
    requires size > 0 && lo < |s| && hi == (if lo + size <= |s| then lo + size else |s|)
    ensures Batches(s[lo..], size) == [s[lo..hi]] + Batches(s[hi..], size)
  {
    BatchesUnfold(s[lo..], size);
    assert s[lo..][..hi - lo] == s[lo..hi] && s[lo..][hi - lo..] == s[hi..];
  }

  /** Taking the next batch keeps "batches so far + batches of the rest"
      equal to the batches of the whole. */
  lemma BatchProgress<T>(s: seq<T>, lo: nat, hi: nat, size: nat, done: seq<seq<T>>)
    requires size > 0 && lo < |s| && hi == (if lo + size <= |s| then lo + size else |s|)
    requires done + Batches(s[lo..], size) == Batches(s, size)
    ensures (done + [s[lo..hi]]) + Batches(s[hi..], size) == Batches(s, size)
  {
    NextBatch(s, lo, hi, size);
    calc {
      Batches(s, size);
      done + Batches(s[lo..], size);
      done + ([s[lo..hi]] + Batches(s[hi..], size));
      (done + [s[lo..hi]]) + Batches(s[hi..], size);
    }
  }

  lemma SliceJoin<T>(s: seq<T>, lo: nat, hi: nat)
    requires lo <= hi <= |s|
    ensures s[..lo] + s[lo..hi] == s[..hi]
  {
  }

  /** `[f(x) for x in s]`. */
  function MapSeq<A, B>(s: seq<A>, f: A -> B): (r: seq<B>)
    ensures |r| == |s| && forall i :: 0 <= i < |s| ==> r[i] == f(s[i])
  {
    if s == [] then [] else MapSeq(s[..|s| - 1], f) + [f(s[|s| - 1])]
  }

  lemma MapSeqAppend<A, B>(a: seq<A>, b: seq<A>, f: A -> B)
    ensures MapSeq(a + b, f) == MapSeq(a, f) + MapSeq(b, f)
  {
  }
}
