/** Reductions and order-preserving selections over sequences, the numpy
    operations the decomposition relies on (sum, max, argmax, boolean-mask
    indexing, concatenation). */
module Seqs {

  function Zeros(n: nat): (z: seq<real>)
    ensures |z| == n && forall k :: 0 <= k < n ==> z[k] == 0.0
  {
    seq(n, _ => 0.0)
  }

  /** Elementwise sum of two arrays of the same length. */
  function Plus(a: seq<real>, b: seq<real>): (c: seq<real>)
    requires |a| == |b|
    ensures |c| == |a|
  {
    seq(|a|, k requires 0 <= k < |a| => a[k] + b[k])
  }

  /** np.sum. */
  function Sum(s: seq<real>): real
  {
    if |s| == 0 then 0.0 else Sum(s[..|s|-1]) + s[|s|-1]
  }

  /** np.sum(s ** 2), computed exactly. */
  function SumSquares(s: seq<real>): (r: real)
    ensures r >= 0.0
  {
    if |s| == 0 then 0.0 else SumSquares(s[..|s|-1]) + s[|s|-1] * s[|s|-1]
  }

  /** np.max: the largest element, which exists because the array is not empty. */
  function Max(s: seq<real>): (m: real)
    requires |s| > 0
    ensures m in s
    ensures forall k :: 0 <= k < |s| ==> s[k] <= m
  {
    if |s| == 1 then s[0]
    else
      var m' := Max(s[..|s|-1]);
      assert forall k :: 0 <= k < |s| - 1 ==> s[..|s|-1][k] == s[k];
      if s[|s|-1] > m' then s[|s|-1] else m'
  }

  /** np.argmax: the first index holding the largest element. */
  function FirstArgmax(s: seq<real>): (k: nat)
    requires |s| > 0
    ensures k < |s|
    ensures forall i :: 0 <= i < |s| ==> s[i] <= s[k]
    ensures forall i :: 0 <= i < k ==> s[i] < s[k]
  {
    if |s| == 1 then 0
    else
      var k' := FirstArgmax(s[..|s|-1]);
      assert forall i :: 0 <= i < |s| - 1 ==> s[..|s|-1][i] == s[i];
      if s[|s|-1] > s[k'] then |s| - 1 else k'
  }

  /** Number of set entries of a boolean mask. */
  function CountTrue(m: seq<bool>): nat
  {
    if |m| == 0 then 0 else CountTrue(m[..|m|-1]) + (if m[|m|-1] then 1 else 0)
  }

  /** Boolean-mask indexing `s[mask]`: the elements satisfying `p`, in their
      original order. */
  function Keep<T>(s: seq<T>, p: T -> bool): (r: seq<T>)
    ensures |r| <= |s|
    ensures forall x :: x in r ==> x in s && p(x)
    ensures forall x :: x in s && p(x) ==> x in r
    ensures forall i :: 0 <= i < |s| ==> multiset(r)[s[i]] == if p(s[i]) then multiset(s)[s[i]] else 0
  {
    if |s| == 0 then []
    else
      assert s == [s[0]] + s[1..];
      (if p(s[0]) then [s[0]] else []) + Keep(s[1..], p)
  }

  /** Selection commutes with concatenation: elements of `a` that are kept
      stay ahead of the kept elements of `b`. */
  lemma {:induction false} KeepAppend<T>(a: seq<T>, b: seq<T>, p: T -> bool)
    ensures Keep(a + b, p) == Keep(a, p) + Keep(b, p)
  {
    if |a| == 0 {
      assert a + b == b;
    } else {
      var head := if p(a[0]) then [a[0]] else [];
      assert (a + b)[0] == a[0] && (a + b)[1..] == a[1..] + b;
      KeepAppend(a[1..], b, p);
      var ka, kb := Keep(a[1..], p), Keep(b, p);
      assert Keep(a + b, p) == head + (ka + kb);
      AppendAssoc(head, ka, kb);
    }
  }

  /** Selecting with a predicate and with its negation splits a sequence:
      every element lands in exactly one of the two selections. */
  lemma {:induction false} KeepComplement<T>(s: seq<T>, p: T -> bool, q: T -> bool)
    requires forall x :: q(x) == !p(x)
    ensures |Keep(s, p)| + |Keep(s, q)| == |s|
  {
    if |s| > 0 {
      KeepComplement(s[1..], p, q);
    }
  }

  /** A mask that holds everywhere selects the whole sequence. */
  lemma {:induction false} KeepAll<T>(s: seq<T>, p: T -> bool)
    requires forall i :: 0 <= i < |s| ==> p(s[i])
    ensures Keep(s, p) == s
  {
    if |s| > 0 {
      KeepAll(s[1..], p);
      assert s == [s[0]] + s[1..];
    }
  }

  lemma AppendAssoc<T>(x: seq<T>, y: seq<T>, z: seq<T>)
    ensures x + (y + z) == (x + y) + z
  {
  }

  /** np.concatenate of a list of arrays. */
  function Concat<T>(ss: seq<seq<T>>): (r: seq<T>)
  {
    if |ss| == 0 then [] else Concat(ss[..|ss|-1]) + ss[|ss|-1]
  }

  /** An element is in a concatenation exactly when it is in one of the parts. */
  lemma {:induction false} ConcatMembership<T>(ss: seq<seq<T>>, x: T)
    ensures x in Concat(ss) <==> exists i :: 0 <= i < |ss| && x in ss[i]
  {
    if |ss| > 0 {
      var init := ss[..|ss|-1];
      ConcatMembership(init, x);
      assert forall i :: 0 <= i < |init| ==> init[i] == ss[i];
      if x in Concat(ss) && x !in Concat(init) {
        assert x in ss[|ss|-1];
      }
    }
  }
}
