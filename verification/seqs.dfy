/**
 Order-preserving filtering of sequences: the model of JavaScript's
 `Array.prototype.filter` with a pure callback, used both for the events shown on a
 day and for deleting events.
 */
module Seqs {

  /** Elements of `s` that satisfy `p`, in their original order. */
  function Filter<T>(s: seq<T>, p: T -> bool): (r: seq<T>)
    ensures |r| <= |s|
    ensures forall i :: 0 <= i < |r| ==> r[i] in s && p(r[i])
    ensures forall i :: 0 <= i < |s| && p(s[i]) ==> s[i] in r
  {
    if s == [] then []
    else if p(s[0]) then [s[0]] + Filter(s[1..], p)
    else Filter(s[1..], p)
  }

  /** `a` can be obtained from `b` by deleting elements: the elements of `a` occur in
      `b` in the same order. */
  predicate IsSubsequence<T(==)>(a: seq<T>, b: seq<T>)
    decreases |b|
  {
    if a == [] then true
    else if b == [] then false
    else if a[0] == b[0] then IsSubsequence(a[1..], b[1..])
    else IsSubsequence(a, b[1..])
  }

  lemma {:induction false} FilterIsSubsequence<T>(s: seq<T>, p: T -> bool)
    ensures IsSubsequence(Filter(s, p), s)
  {
    if s != [] {
      FilterIsSubsequence(s[1..], p);
      if !p(s[0]) {
        var r := Filter(s[1..], p);
        SubsequenceSkip(r, s);
      }
    }
  }

  /** Dropping the head of `b` keeps `a` a subsequence of the longer sequence. */
  lemma {:induction false} SubsequenceSkip<T>(a: seq<T>, b: seq<T>)
    requires b != []
    requires IsSubsequence(a, b[1..])
    ensures IsSubsequence(a, b)
    decreases |b|, 0
  {
    if a != [] && a[0] == b[0] {
      SubsequenceTail(a, b[1..]);
    }
  }

  /** A subsequence without its head is a subsequence of the same sequence. */
  lemma {:induction false} SubsequenceTail<T>(a: seq<T>, b: seq<T>)
    requires a != []
    requires IsSubsequence(a, b)
    ensures IsSubsequence(a[1..], b)
    decreases |b|, 1
  {
    assert b != [];
    if a[0] == b[0] {
      SubsequenceSkip(a[1..], b);
    } else {
      SubsequenceTail(a, b[1..]);
      SubsequenceSkip(a[1..], b);
    }
  }

  /** Every element of a subsequence is an element of the sequence. */
  lemma {:induction false} SubsequenceMembers<T>(a: seq<T>, b: seq<T>)
    requires IsSubsequence(a, b)
    ensures forall k :: 0 <= k < |a| ==> a[k] in b
    decreases |b|
  {
    if a != [] {
      if a[0] == b[0] {
        SubsequenceMembers(a[1..], b[1..]);
        forall k | 0 <= k < |a| ensures a[k] in b {
          if k > 0 {
            assert a[k] == a[1..][k - 1];
          }
        }
      } else {
        SubsequenceMembers(a, b[1..]);
      }
    }
  }

  /** Filtering distributes over concatenation, so it never reorders elements. */
  lemma {:induction false} FilterAppend<T>(a: seq<T>, b: seq<T>, p: T -> bool)
    ensures Filter(a + b, p) == Filter(a, p) + Filter(b, p)
  {
    if a == [] {
      assert a + b == b;
    } else {
      assert (a + b)[1..] == a[1..] + b;
      FilterAppend(a[1..], b, p);
    }
  }

  /** Filtering twice by the same test changes nothing the second time. */
  lemma {:induction false} FilterIdempotent<T>(s: seq<T>, p: T -> bool)
    ensures Filter(Filter(s, p), p) == Filter(s, p)
  {
    if s != [] {
      FilterIdempotent(s[1..], p);
    }
  }

  /** Number of elements of `s` that satisfy `p`, counted independently of `Filter`. */
  function Count<T>(s: seq<T>, p: T -> bool): nat
  {
    if s == [] then 0 else (if p(s[0]) then 1 else 0) + Count(s[1..], p)
  }

  lemma {:induction false} FilterKeepsAll<T>(s: seq<T>, p: T -> bool)
    requires Count(s, p) == |s|
    ensures Filter(s, p) == s
  {
    if s != [] {
      assert Count(s[1..], p) <= |s[1..]| by { FilterLength(s[1..], p); }
      FilterKeepsAll(s[1..], p);
    }
  }

  lemma {:induction false} FilterLength<T>(s: seq<T>, p: T -> bool)
    ensures |Filter(s, p)| == Count(s, p)
  {
    if s != [] {
      FilterLength(s[1..], p);
    }
  }

  /** A subsequence whose every element satisfies `p` has at most as many elements as
      `p` accepts in the whole sequence. */
  lemma {:induction false} SubsequenceCount<T>(a: seq<T>, b: seq<T>, p: T -> bool)
    requires IsSubsequence(a, b)
    requires forall i :: 0 <= i < |a| ==> p(a[i])
    ensures |a| <= Count(b, p)
    decreases |b|
  {
    if a != [] {
      if a[0] == b[0] {
        SubsequenceCount(a[1..], b[1..], p);
      } else {
        SubsequenceCount(a, b[1..], p);
      }
    }
  }

  /** The filter is the only subsequence that keeps exactly the elements `p` accepts,
      each as often as it occurs: order, membership and count together determine it. */
  lemma {:induction false} FilterUnique<T>(r: seq<T>, s: seq<T>, p: T -> bool)
    requires IsSubsequence(r, s)
    requires forall i :: 0 <= i < |r| ==> p(r[i])
    requires |r| == Count(s, p)
    ensures r == Filter(s, p)
    decreases |s|
  {
    if s != [] {
      if r != [] && r[0] == s[0] {
        FilterUnique(r[1..], s[1..], p);
        assert r == [r[0]] + r[1..];
      } else {
        assert IsSubsequence(r, s[1..]);
        SubsequenceCount(r, s[1..], p);
        FilterUnique(r, s[1..], p);
      }
    }
  }

  /** Tests that agree on every element of `s` filter it alike. */
  lemma {:induction false} FilterCongruent<T>(s: seq<T>, p: T -> bool, q: T -> bool)
    requires forall i :: 0 <= i < |s| ==> p(s[i]) == q(s[i])
    ensures Filter(s, p) == Filter(s, q)
  {
    if s != [] {
      assert p(s[0]) == q(s[0]);
      forall i | 0 <= i < |s[1..]| ensures p(s[1..][i]) == q(s[1..][i]) {
        assert s[1..][i] == s[i + 1];
      }
      FilterCongruent(s[1..], p, q);
    }
  }
}
