/**
  The two array combinators the task list is built from, Array.prototype.map
  and Array.prototype.filter, over immutable sequences, together with the
  notions used to state what they do: counting the elements that satisfy a
  predicate, and being a subsequence (same elements, same relative order,
  some left out).
 */
module Seqs {

  /** `a` can be obtained from `b` by deleting elements, without reordering
      the ones that stay. Matching greedily from the front decides this. */
  predicate IsSubsequence<T(==)>(a: seq<T>, b: seq<T>)
    decreases |b|
  {
    if a == [] then true
    else if b == [] then false
    else if a[0] == b[0] then IsSubsequence(a[1..], b[1..])
    else IsSubsequence(a, b[1..])
  }

  /** The number of elements of `s` that satisfy `p`. */
  function Count<T>(s: seq<T>, p: T -> bool): (n: nat)
    ensures n <= |s|
    ensures n == 0 <==> forall i :: 0 <= i < |s| ==> !p(s[i])
    ensures n == |s| <==> forall i :: 0 <= i < |s| ==> p(s[i])
    decreases |s|
  {
    if s == [] then 0
    else (if p(s[0]) then 1 else 0) + Count(s[1..], p)
  }

  /** Array.prototype.map: apply `f` to every element, keeping positions. */
  function Map<T, U>(s: seq<T>, f: T -> U): (r: seq<U>)
    ensures |r| == |s|
    ensures forall i :: 0 <= i < |s| ==> r[i] == f(s[i])
    decreases |s|
  {
    if s == [] then [] else [f(s[0])] + Map(s[1..], f)
  }

  /** Array.prototype.filter: the elements of `s` that satisfy `p`, in their
      original relative order. Nothing that fails `p` is kept, nothing that
      satisfies it is lost, and there is one kept element per satisfying
      element of `s`. */
  function Filter<T(==)>(s: seq<T>, p: T -> bool): (r: seq<T>)
    ensures IsSubsequence(r, s)
    ensures forall x :: x in r ==> x in s && p(x)
    ensures forall x :: x in s && p(x) ==> x in r
    ensures |r| == Count(s, p)
    decreases |s|
  {
    if s == [] then []
    else if p(s[0]) then [s[0]] + Filter(s[1..], p)
    else
      var rest := Filter(s[1..], p);
      assert rest != [] ==> rest[0] in rest;
      rest
  }

  /** Filtering leaves `s` unchanged exactly when every element already
      satisfies the predicate. */
  lemma {:induction false} FilterIdentity<T>(s: seq<T>, p: T -> bool)
    ensures Filter(s, p) == s <==> forall i :: 0 <= i < |s| ==> p(s[i])
    decreases |s|
  {
    if s != [] {
      FilterIdentity(s[1..], p);
      if p(s[0]) {
        assert forall i :: 1 <= i < |s| ==> s[i] == s[1..][i - 1];
      }
    }
  }

  /** Filtering twice with the same predicate is filtering once. */
  lemma FilterIdempotent<T>(s: seq<T>, p: T -> bool)
    ensures Filter(Filter(s, p), p) == Filter(s, p)
  {
    var r := Filter(s, p);
    forall i | 0 <= i < |r| ensures p(r[i]) {
      assert r[i] in r;
    }
    FilterIdentity(r, p);
  }

  /** A subsequence keeps every element it has from the sequence it came from. */
  lemma {:induction false} SubsequenceMembers<T>(a: seq<T>, b: seq<T>)
    requires IsSubsequence(a, b)
    ensures forall x :: x in a ==> x in b
    decreases |b|
  {
    if a != [] && b != [] {
      if a[0] == b[0] {
        SubsequenceMembers(a[1..], b[1..]);
        forall x | x in a ensures x in b {
          if x != a[0] {
            assert x in a[1..];
          }
        }
      } else {
        SubsequenceMembers(a, b[1..]);
      }
    }
  }

  /** A subsequence of `b` made only of elements satisfying `p` has at most
      as many elements as `b` has satisfying ones. */
  lemma {:induction false} SubsequenceCountBound<T>(a: seq<T>, b: seq<T>, p: T -> bool)
    requires IsSubsequence(a, b)
    requires forall i :: 0 <= i < |a| ==> p(a[i])
    ensures |a| <= Count(b, p)
    decreases |b|
  {
    if a != [] && b != [] {
      if a[0] == b[0] {
        assert forall i :: 0 <= i < |a[1..]| ==> a[1..][i] == a[i + 1];
        SubsequenceCountBound(a[1..], b[1..], p);
      } else {
        SubsequenceCountBound(a, b[1..], p);
      }
    }
  }

  /** Filter is THE order-preserving selection: any subsequence of `s` that
      keeps only satisfying elements and as many as `s` has is the filter of
      `s`. */
  lemma {:induction false} FilterUnique<T>(r: seq<T>, s: seq<T>, p: T -> bool)
    requires IsSubsequence(r, s)
    requires forall i :: 0 <= i < |r| ==> p(r[i])
    requires |r| == Count(s, p)
    ensures r == Filter(s, p)
    decreases |s|
  {
    if s != [] {
      if p(s[0]) {
        if r == [] || r[0] != s[0] {
          SubsequenceCountBound(r, s[1..], p);
          assert false;
        }
        var tail := r[1..];
        assert forall i :: 0 <= i < |tail| ==> tail[i] == r[i + 1];
        FilterUnique(tail, s[1..], p);
        assert r == [r[0]] + tail;
      } else {
        assert r != [] ==> r[0] != s[0];
        FilterUnique(r, s[1..], p);
      }
    }
  }

  /** Every element satisfies exactly one of a predicate and its negation,
      so the two counts add up to the length. */
  lemma {:induction false} CountComplement<T>(s: seq<T>, p: T -> bool, q: T -> bool)
    requires forall x :: q(x) == !p(x)
    ensures Count(s, p) + Count(s, q) == |s|
    decreases |s|
  {
    if s != [] {
      CountComplement(s[1..], p, q);
    }
  }

  /** The count of a concatenation is the sum of the counts. */
  lemma {:induction false} CountConcat<T>(a: seq<T>, b: seq<T>, p: T -> bool)
    ensures Count(a + b, p) == Count(a, p) + Count(b, p)
    decreases |a|
  {
    if a != [] {
      var ab := a + b;
      assert ab != [] && ab[0] == a[0];
      assert ab[1..] == a[1..] + b;
      CountConcat(a[1..], b, p);
      assert Count(ab, p) == (if p(a[0]) then 1 else 0) + Count(ab[1..], p);
    } else {
      assert a + b == b;
    }
  }

  /** Replacing one element moves the count by what the old element
      contributed and what the new one contributes. */
  lemma {:induction false} CountUpdate<T>(s: seq<T>, k: nat, x: T, p: T -> bool)
    requires k < |s|
    ensures Count(s[k := x], p) ==
      Count(s, p) - (if p(s[k]) then 1 else 0) + (if p(x) then 1 else 0)
    decreases |s|
  {
    var u := s[k := x];
    if k == 0 {
      assert u[1..] == s[1..];
    } else {
      assert u[1..] == s[1..][k - 1 := x];
      CountUpdate(s[1..], k - 1, x, p);
    }
  }
}
