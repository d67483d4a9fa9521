/**
 * Row selection with a boolean mask, `df[~mask]`: the rows whose mask entry
 * is false are kept, in their original order. A generic `Filter` over
 * sequences, and its characterisation as the largest order-preserving
 * selection of kept elements.
 */
module Filters {

  /** `a` can be obtained from `b` by deleting elements: an order-preserving selection. */
  predicate IsSubseq<T(==)>(a: seq<T>, b: seq<T>)
    decreases |b|
  {
    a == [] || (b != [] && ((a[0] == b[0] && IsSubseq(a[1..], b[1..])) || IsSubseq(a, b[1..])))
  }

  /** The elements of `s` that `keep` accepts, in their order in `s`. */
  function Filter<T>(s: seq<T>, keep: T -> bool): (r: seq<T>)
    ensures |r| <= |s|
    ensures forall i :: 0 <= i < |r| ==> keep(r[i])
  {
    if s == [] then []
    else if keep(s[0]) then [s[0]] + Filter(s[1..], keep)
    else Filter(s[1..], keep)
  }

  /** The filter only deletes elements: the survivors keep their relative order. */
  lemma {:induction false} FilterSubseq<T>(s: seq<T>, keep: T -> bool)
    ensures IsSubseq(Filter(s, keep), s)
  {
    if s != [] {
      FilterSubseq(s[1..], keep);
      var r := Filter(s, keep);
      if keep(s[0]) {
        assert r[0] == s[0] && r[1..] == Filter(s[1..], keep);
      } else {
        assert r == Filter(s[1..], keep);
        if r != [] {
          assert IsSubseq(r, s[1..]);
        }
      }
    }
  }

  /** An element survives exactly when it occurs in the input and is accepted. */
  lemma {:induction false} FilterMembers<T>(s: seq<T>, keep: T -> bool, x: T)
    ensures x in Filter(s, keep) <==> x in s && keep(x)
  {
    if s != [] {
      FilterMembers(s[1..], keep, x);
      assert x in s <==> x == s[0] || x in s[1..] by {
        assert s == [s[0]] + s[1..];
      }
    }
  }

  /** Every order-preserving selection of accepted elements is a selection of the filter's result. */
  lemma {:induction false} FilterMaximal<T>(s: seq<T>, keep: T -> bool, r: seq<T>)
    requires IsSubseq(r, s)
    requires forall i :: 0 <= i < |r| ==> keep(r[i])
    ensures IsSubseq(r, Filter(s, keep))
    decreases |s|
  {
    if r != [] {
      var f := Filter(s[1..], keep);
      if r[0] == s[0] && IsSubseq(r[1..], s[1..]) {
        assert keep(s[0]);
        FilterMaximal(s[1..], keep, r[1..]);
        var g := Filter(s, keep);
        assert g[0] == s[0] && g[1..] == f;
      } else {
        FilterMaximal(s[1..], keep, r);
        if keep(s[0]) {
          var g := Filter(s, keep);
          assert g[1..] == f;
        }
      }
    }
  }

  /** A selection of a selection is a selection. */
  lemma {:induction false} SubseqTrans<T>(a: seq<T>, b: seq<T>, c: seq<T>)
    requires IsSubseq(a, b) && IsSubseq(b, c)
    ensures IsSubseq(a, c)
    decreases |c|
  {
    if a != [] {
      if b[0] == c[0] && IsSubseq(b[1..], c[1..]) {
        if a[0] == b[0] && IsSubseq(a[1..], b[1..]) {
          SubseqTrans(a[1..], b[1..], c[1..]);
        } else {
          SubseqTrans(a, b[1..], c[1..]);
        }
      } else {
        SubseqTrans(a, b, c[1..]);
      }
    }
  }

  lemma {:induction false} SubseqLength<T>(a: seq<T>, b: seq<T>)
    requires IsSubseq(a, b)
    ensures |a| <= |b|
    decreases |b|
  {
    if a != [] {
      if a[0] == b[0] && IsSubseq(a[1..], b[1..]) {
        SubseqLength(a[1..], b[1..]);
      } else {
        SubseqLength(a, b[1..]);
      }
    }
  }

  /** A selection as long as the sequence it is taken from is that sequence. */
  lemma {:induction false} SubseqFull<T>(a: seq<T>, b: seq<T>)
    requires IsSubseq(a, b) && |a| == |b|
    ensures a == b
    decreases |b|
  {
    if a != [] {
      if a[0] == b[0] && IsSubseq(a[1..], b[1..]) {
        SubseqFull(a[1..], b[1..]);
        assert a == [a[0]] + a[1..] && b == [b[0]] + b[1..];
      } else {
        SubseqLength(a, b[1..]);
      }
    }
  }

  /**
   * The filter's result is the only order-preserving selection of accepted
   * elements that contains every other one.
   */
  lemma FilterUnique<T>(s: seq<T>, keep: T -> bool, r: seq<T>)
    requires IsSubseq(r, s)
    requires forall i :: 0 <= i < |r| ==> keep(r[i])
    requires IsSubseq(Filter(s, keep), r)
    ensures r == Filter(s, keep)
  {
    FilterMaximal(s, keep, r);
    SubseqLength(r, Filter(s, keep));
    SubseqLength(Filter(s, keep), r);
    SubseqFull(Filter(s, keep), r);
  }

  /** When every element is accepted, nothing is removed. */
  lemma {:induction false} FilterAllKept<T>(s: seq<T>, keep: T -> bool)
    requires forall i :: 0 <= i < |s| ==> keep(s[i])
    ensures Filter(s, keep) == s
  {
    if s != [] {
      assert keep(s[0]);
      assert forall i :: 0 <= i < |s[1..]| ==> s[1..][i] == s[i + 1];
      FilterAllKept(s[1..], keep);
      assert s == [s[0]] + s[1..];
    }
  }

  /** Applying the same mask condition a second time removes nothing more. */
  lemma FilterIdempotent<T>(s: seq<T>, keep: T -> bool)
    ensures Filter(Filter(s, keep), keep) == Filter(s, keep)
  {
    FilterAllKept(Filter(s, keep), keep);
  }

  /** `f` applied to every element, in order. */
  function Map<A, B>(s: seq<A>, f: A -> B): (r: seq<B>)
    ensures |r| == |s| && forall i :: 0 <= i < |s| ==> r[i] == f(s[i])
  {
    if s == [] then [] else [f(s[0])] + Map(s[1..], f)
  }
}
