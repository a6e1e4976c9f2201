/**
 * Integer vectors (Python tuples of ints) and the relations the search is
 * built on: component-wise dominance, Python's lexicographic tuple order and
 * component-wise sums.
 */
module Vectors {
  import opened Seqs

  type Vec = seq<int>

  /** The all-zero vector of length `n`. */
  function Zero(n: nat): (r: Vec)
    ensures |r| == n
    ensures forall i :: 0 <= i < n ==> r[i] == 0
  {
    seq(n, _ => 0)
  }

  function VecAdd(a: Vec, b: Vec): (r: Vec)
    requires |a| == |b|
    ensures |r| == |a|
    ensures forall i :: 0 <= i < |a| ==> r[i] == a[i] + b[i]
  {
    seq(|a|, i requires 0 <= i < |a| => a[i] + b[i])
  }

  /** `_vec_sub`: the source only asserts that the lengths agree. */
  function VecSub(a: Vec, b: Vec): (r: Vec)
    requires |a| == |b|
    ensures |r| == |a|
    ensures VecAdd(b, r) == a
  {
    var r := seq(|a|, i requires 0 <= i < |a| => a[i] - b[i]);
    assert VecAdd(b, r) == a;
    r
  }

  /** Python's `sum` over a tuple. */
  function Sum(v: Vec): int
    decreases |v|
  {
    if v == [] then 0 else v[0] + Sum(v[1..])
  }

  /** Sum of the positive components; the termination measure of the search. */
  function PosSum(v: Vec): nat
    decreases |v|
  {
    if v == [] then 0 else (if v[0] > 0 then v[0] else 0) + PosSum(v[1..])
  }

  predicate NonNegative(v: Vec)
  {
    forall i :: 0 <= i < |v| ==> v[i] >= 0
  }

  /** `v` has the length of `q` and no component above `q`'s. */
  predicate Dominated(v: Vec, q: Vec)
  {
    |v| == |q| && forall i :: 0 <= i < |v| ==> v[i] <= q[i]
  }

  /**
   * Python's `v >= m` on tuples: the first differing component decides, and a
   * proper prefix is smaller than the longer tuple.
   */
  predicate LexGe(v: Vec, m: Vec)
    decreases |m|
  {
    if m == [] then true
    else if v == [] then false
    else v[0] > m[0] || (v[0] == m[0] && LexGe(v[1..], m[1..]))
  }

  /** Each element is lexicographically >= `m` (the first) or >= its predecessor. */
  predicate Ascending(t: seq<Vec>, m: Vec)
  {
    (|t| > 0 ==> LexGe(t[0], m)) &&
    forall i :: 1 <= i < |t| ==> LexGe(t[i], t[i - 1])
  }

  /** Strictly increasing in Python's tuple order. */
  predicate StrictlyAscending(t: seq<Vec>)
  {
    forall i, j :: 0 <= i < j < |t| ==> !LexGe(t[i], t[j])
  }

  predicate SameLengths(t: seq<Vec>, n: nat)
  {
    forall i :: 0 <= i < |t| ==> |t[i]| == n
  }

  /** Component-wise sum of a tuple of vectors of length `n`. */
  function VecSum(t: seq<Vec>, n: nat): (r: Vec)
    requires SameLengths(t, n)
    ensures |r| == n
    decreases |t|
  {
    if t == [] then Zero(n) else VecAdd(t[0], VecSum(t[1..], n))
  }

  lemma {:induction false} LexGeReflexive(v: Vec)
    ensures LexGe(v, v)
    decreases |v|
  {
    if v != [] {
      LexGeReflexive(v[1..]);
    }
  }

  lemma {:induction false} LexGeAntisymmetric(a: Vec, b: Vec)
    requires |a| == |b| && LexGe(a, b) && LexGe(b, a)
    ensures a == b
    decreases |a|
  {
    if a != [] {
      LexGeAntisymmetric(a[1..], b[1..]);
      assert a == [a[0]] + a[1..] && b == [b[0]] + b[1..];
    }
  }

  lemma {:induction false} LexGeTransitive(a: Vec, b: Vec, c: Vec)
    requires LexGe(a, b) && LexGe(b, c)
    ensures LexGe(a, c)
    decreases |c|
  {
    if c != [] && b != [] && a != [] && a[0] == b[0] == c[0] {
      LexGeTransitive(a[1..], b[1..], c[1..]);
    }
  }

  lemma {:induction false} LexGeTotal(a: Vec, b: Vec)
    requires |a| == |b|
    ensures LexGe(a, b) || LexGe(b, a)
    decreases |a|
  {
    if a != [] && a[0] == b[0] {
      LexGeTotal(a[1..], b[1..]);
    }
  }

  lemma {:induction false} SumAdd(a: Vec, b: Vec)
    requires |a| == |b|
    ensures Sum(VecAdd(a, b)) == Sum(a) + Sum(b)
    decreases |a|
  {
    if a != [] {
      assert VecAdd(a, b)[1..] == VecAdd(a[1..], b[1..]);
      SumAdd(a[1..], b[1..]);
    }
  }

  lemma {:induction false} SumZero(n: nat)
    ensures Sum(Zero(n)) == 0
    decreases n
  {
    if n > 0 {
      assert Zero(n)[1..] == Zero(n - 1);
      SumZero(n - 1);
    }
  }

  /** A non-negative vector that is not all-zero has a positive sum. */
  lemma {:induction false} NonZeroSum(v: Vec)
    requires NonNegative(v) && v != Zero(|v|)
    ensures Sum(v) > 0
    decreases |v|
  {
    NonNegativeSum(v[1..]);
    if v[0] == 0 {
      assert v == [v[0]] + v[1..] && Zero(|v|) == [0] + Zero(|v| - 1);
      NonZeroSum(v[1..]);
    }
  }

  lemma {:induction false} NonNegativeSum(v: Vec)
    requires NonNegative(v)
    ensures Sum(v) >= 0
    ensures Sum(v) == 0 ==> v == Zero(|v|)
    decreases |v|
  {
    if v != [] {
      NonNegativeSum(v[1..]);
    }
  }

  /**
   * Taking a non-negative `v` dominated by `q` away from `q` lowers the sum
   * of `q`'s positive parts by `Sum(v)`.
   */
  lemma {:induction false} PosSumSub(q: Vec, v: Vec)
    requires Dominated(v, q) && NonNegative(v)
    ensures PosSum(VecSub(q, v)) == PosSum(q) - Sum(v)
    decreases |q|
  {
    if q != [] {
      assert VecSub(q, v)[1..] == VecSub(q[1..], v[1..]);
      PosSumSub(q[1..], v[1..]);
    }
  }

  lemma {:induction false} DominatedSum(t: seq<Vec>, n: nat, i: nat)
    requires SameLengths(t, n) && i < |t|
    requires forall j :: 0 <= j < |t| ==> NonNegative(t[j])
    ensures Dominated(t[i], VecSum(t, n))
    decreases i
  {
    NonNegativeVecSum(t[1..], n);
    if i > 0 {
      DominatedSum(t[1..], n, i - 1);
    }
  }

  lemma {:induction false} NonNegativeVecSum(t: seq<Vec>, n: nat)
    requires SameLengths(t, n)
    requires forall j :: 0 <= j < |t| ==> NonNegative(t[j])
    ensures NonNegative(VecSum(t, n))
    decreases |t|
  {
    if t != [] {
      NonNegativeVecSum(t[1..], n);
    }
  }

  /** A strictly ascending sequence holds each vector at most once. */
  lemma StrictlyAscendingNoDuplicates(t: seq<Vec>)
    requires StrictlyAscending(t)
    ensures NoDuplicates(t)
  {
    forall i, j | 0 <= i < j < |t| ensures t[i] != t[j] {
      LexGeReflexive(t[j]);
    }
  }
}
