/** Generic sequence helpers: Python slicing with clamping, concatenation of
    batches, order-preserving selection and counting. */
module Seqs {

  function Min(a: int, b: int): int {
    if a <= b then a else b
  }

  /** `s[:n]` in Python: the first `n` elements, or all of `s` when it is shorter. */
  function Take<T>(s: seq<T>, n: nat): (r: seq<T>)
    ensures |r| == Min(n, |s|)
    ensures r == s[..|r|]
  {
    if n <= |s| then s[..n] else s
  }

  /** Concatenation of a sequence of sequences, in order. */
  function Flatten<T>(ss: seq<seq<T>>): seq<T> {
    if |ss| == 0 then [] else ss[0] + Flatten(ss[1..])
  }

  /** `a` is obtained from `b` by deleting elements; the survivors keep their order. */
  predicate IsSubseq<T(==)>(a: seq<T>, b: seq<T>)
    decreases |b|
  {
    || |a| == 0
    || (&& |b| > 0
        && ((a[0] == b[0] && IsSubseq(a[1..], b[1..])) || IsSubseq(a, b[1..])))
  }

  /** Every element of a subsequence comes from the sequence it was taken from. */
  lemma {:induction false} SubseqMembers<T>(a: seq<T>, b: seq<T>)
    requires IsSubseq(a, b)
    ensures |a| <= |b|
    ensures forall x :: x in a ==> x in b
    decreases |b|
  {
    if |a| == 0 {
    } else if a[0] == b[0] && IsSubseq(a[1..], b[1..]) {
      SubseqMembers(a[1..], b[1..]);
      assert forall x :: x in a ==> x == a[0] || x in a[1..];
    } else {
      SubseqMembers(a, b[1..]);
    }
  }

  /** A prefix of a sequence is a subsequence of it. */
  lemma {:induction false} PrefixIsSubseq<T>(b: seq<T>, n: nat)
    requires n <= |b|
    ensures IsSubseq(b[..n], b)
    decreases |b|
  {
    if n > 0 {
      assert b[..n][1..] == b[1..][..n - 1];
      PrefixIsSubseq(b[1..], n - 1);
    }
  }

  /** Subsequences compose. */
  lemma {:induction false} SubseqTrans<T>(a: seq<T>, b: seq<T>, c: seq<T>)
    requires IsSubseq(a, b) && IsSubseq(b, c)
    ensures IsSubseq(a, c)
    decreases |c|
  {
    if |a| == 0 {
    } else if IsSubseq(b, c[1..]) {
      SubseqTrans(a, b, c[1..]);
    } else if a[0] == b[0] && IsSubseq(a[1..], b[1..]) {
      SubseqTrans(a[1..], b[1..], c[1..]);
    } else {
      SubseqTrans(a, b[1..], c[1..]);
    }
  }

  /** The elements of `s` that satisfy `p`, in their order in `s`. */
  function Filter<T>(s: seq<T>, p: T -> bool): (r: seq<T>)
    ensures |r| <= |s|
  {
    if |s| == 0 then []
    else if p(s[0]) then [s[0]] + Filter(s[1..], p)
    else Filter(s[1..], p)
  }

  lemma {:induction false} FilterMembers<T>(s: seq<T>, p: T -> bool)
    ensures forall x :: x in Filter(s, p) <==> x in s && p(x)
    ensures IsSubseq(Filter(s, p), s)
    decreases |s|
  {
    if |s| > 0 {
      FilterMembers(s[1..], p);
      assert forall x :: x in s <==> x == s[0] || x in s[1..];
    }
  }

  /** Filtering a concatenation filters each part. */
  lemma {:induction false} FilterAppend<T>(a: seq<T>, b: seq<T>, p: T -> bool)
    ensures Filter(a + b, p) == Filter(a, p) + Filter(b, p)
    decreases |a|
  {
    if |a| == 0 {
      assert a + b == b;
    } else {
      assert (a + b)[1..] == a[1..] + b;
      FilterAppend(a[1..], b, p);
    }
  }

  /** A sequence without repeated elements. */
  predicate NoDups<T(==)>(s: seq<T>) {
    forall i, j :: 0 <= i < j < |s| ==> s[i] != s[j]
  }

  /** The elements of `s` as a set. */
  function Elems<T>(s: seq<T>): set<T> {
    set x | x in s
  }

  /** Without repetitions, a sequence is exactly as long as its set of elements. */
  lemma {:induction false} NoDupsCard<T>(s: seq<T>)
    requires NoDups(s)
    ensures |Elems(s)| == |s|
    decreases |s|
  {
    if |s| > 0 {
      var t := s[1..];
      NoDupsCard(t);
      assert s[0] !in t by {
        assert forall j :: 0 <= j < |t| ==> t[j] == s[j + 1];
      }
      assert Elems(s) == {s[0]} + Elems(t) by {
        assert forall x :: x in s <==> x == s[0] || x in t;
      }
    }
  }

  /** Selecting from a sequence without repetitions gives one without repetitions. */
  lemma {:induction false} FilterNoDups<T>(s: seq<T>, p: T -> bool)
    requires NoDups(s)
    ensures NoDups(Filter(s, p))
    decreases |s|
  {
    if |s| > 0 {
      var t := s[1..];
      assert NoDups(t) by {
        assert forall j :: 0 <= j < |t| ==> t[j] == s[j + 1];
      }
      FilterNoDups(t, p);
      FilterMembers(t, p);
      assert s[0] !in t by {
        assert forall j :: 0 <= j < |t| ==> t[j] == s[j + 1];
      }
      if p(s[0]) {
        var r := Filter(t, p);
        assert forall j :: 0 <= j < |r| ==> ([s[0]] + r)[j + 1] == r[j];
      }
    }
  }

  /** The number of selected elements of a sequence without repetitions is
      the size of the selected set. */
  lemma CountSelected<T>(s: seq<T>, p: T -> bool)
    requires NoDups(s)
    ensures |Filter(s, p)| == |set x | x in s && p(x)|
  {
    FilterNoDups(s, p);
    NoDupsCard(Filter(s, p));
    FilterMembers(s, p);
    assert Elems(Filter(s, p)) == set x | x in s && p(x);
  }
}
