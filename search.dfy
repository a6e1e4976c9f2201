/**
 * `_find_anagram_vecs`: every non-decreasing tuple of trie members that sums
 * to the query vector, each found once.
 */
module Search {
  import opened Vectors
  import opened Seqs
  import opened VectorSets

  /**
   * What the search needs of the trie to terminate: every member is
   * non-negative and not all-zero, so each chosen vector lowers the query.
   */
  predicate Searchable(contents: set<Vec>)
  {
    forall v :: v in contents ==> NonNegative(v) && v != Zero(|v|)
  }

  predicate Members(contents: set<Vec>, t: seq<Vec>)
  {
    forall i :: 0 <= i < |t| ==> t[i] in contents
  }

  /**
   * `t` is an answer for `q` above `m`: members of the length of `q` that sum
   * to `q`, non-decreasing in tuple order, the first at least `m`.
   */
  predicate IsCombination(contents: set<Vec>, q: Vec, m: Vec, t: seq<Vec>)
  {
    Members(contents, t) && SameLengths(t, |q|) && VecSum(t, |q|) == q && Ascending(t, m)
  }

  /** `_find_anagram_vecs(tree, q, m)`, its results in the order it yields them. */
  function FindAnagramVecs(tree: VectorSet, q: Vec, m: Vec): (r: seq<seq<Vec>>)
    reads tree, tree.Repr
    requires tree.Valid() && Searchable(tree.Contents)
    ensures forall t :: t in r ==>
      Members(tree.Contents, t) && SameLengths(t, |q|) && Ascending(t, m)
    ensures Sum(q) == 0 ==> r == [[]]
    decreases PosSum(q), 1
  {
    if Sum(q) == 0 then [[]]
    else Extend(tree, q, m, tree.QueryLte(q, m))
  }

  /**
   * The loop `for vec in tree.query_lte(q, m)` over the candidates `vs`: each
   * candidate followed by every answer for the remainder above it.
   */
  function Extend(tree: VectorSet, q: Vec, m: Vec, vs: seq<Vec>): (r: seq<seq<Vec>>)
    reads tree, tree.Repr
    requires tree.Valid() && Searchable(tree.Contents)
    requires forall v :: v in vs ==> v in tree.Contents && Dominated(v, q) && LexGe(v, m)
    ensures forall t :: t in r ==>
      t != [] && Members(tree.Contents, t) && SameLengths(t, |q|) && Ascending(t, m)
    decreases PosSum(q), 0, |vs|
  {
    if vs == [] then []
    else
      var v := vs[0];
      PosSumSub(q, v);
      NonZeroSum(v);
      var sub := FindAnagramVecs(tree, VecSub(q, v), v);
      ConsAnswers(tree.Contents, q, m, v, sub);
      PrependAll(v, sub) + Extend(tree, q, m, vs[1..])
  }

  /** Putting `v` in front of the answers above `v` gives answers above `m`. */
  lemma ConsAnswers(contents: set<Vec>, q: Vec, m: Vec, v: Vec, sub: seq<seq<Vec>>)
    requires v in contents && |v| == |q| && LexGe(v, m)
    requires forall t :: t in sub ==> Members(contents, t) && SameLengths(t, |q|) && Ascending(t, v)
    ensures forall t :: t in PrependAll(v, sub) ==>
      t != [] && Members(contents, t) && SameLengths(t, |q|) && Ascending(t, m)
  {
    forall t | t in PrependAll(v, sub)
      ensures t != [] && Members(contents, t) && SameLengths(t, |q|) && Ascending(t, m)
    {
      PrependAllMembers(v, sub, t);
      assert t[1..] in sub;
      forall i | 1 <= i < |t| ensures t[i] == t[1..][i - 1] {}
    }
  }

  /** A candidate-list answer is a candidate followed by an answer for the remainder. */
  lemma {:induction false} ExtendMembers(tree: VectorSet, q: Vec, m: Vec, vs: seq<Vec>, t: seq<Vec>)
    requires tree.Valid() && Searchable(tree.Contents)
    requires forall v :: v in vs ==> v in tree.Contents && Dominated(v, q) && LexGe(v, m)
    ensures t in Extend(tree, q, m, vs) <==>
      t != [] && t[0] in vs && t[1..] in FindAnagramVecs(tree, VecSub(q, t[0]), t[0])
    decreases |vs|
  {
    if vs != [] {
      var v := vs[0];
      assert v in vs;
      var sub := FindAnagramVecs(tree, VecSub(q, v), v);
      assert Extend(tree, q, m, vs) == PrependAll(v, sub) + Extend(tree, q, m, vs[1..]);
      PrependAllMembers(v, sub, t);
      ExtendMembers(tree, q, m, vs[1..], t);
      assert forall x :: x in vs <==> x == v || x in vs[1..];
    }
  }

  /** Soundness: when the query is non-negative, every result sums to it. */
  lemma {:induction false} FindSound(tree: VectorSet, q: Vec, m: Vec)
    requires tree.Valid() && Searchable(tree.Contents) && NonNegative(q)
    ensures forall t :: t in FindAnagramVecs(tree, q, m) ==> IsCombination(tree.Contents, q, m, t)
    decreases PosSum(q), 1
  {
    if Sum(q) == 0 {
      NonNegativeSum(q);
    } else {
      forall t | t in FindAnagramVecs(tree, q, m)
        ensures IsCombination(tree.Contents, q, m, t)
      {
        FindSoundStep(tree, q, m, t);
      }
    }
  }

  /** One answer of the candidate loop: a candidate followed by a sound answer for the remainder. */
  lemma {:induction false} FindSoundStep(tree: VectorSet, q: Vec, m: Vec, t: seq<Vec>)
    requires tree.Valid() && Searchable(tree.Contents) && NonNegative(q) && Sum(q) != 0
    requires t in Extend(tree, q, m, tree.QueryLte(q, m))
    ensures IsCombination(tree.Contents, q, m, t)
    decreases PosSum(q), 0
  {
    ExtendMembers(tree, q, m, tree.QueryLte(q, m), t);
    var v := t[0];
    var rest := VecSub(q, v);
    PosSumSub(q, v);
    NonZeroSum(v);
    RemainderNonNegative(q, v);
    FindSound(tree, rest, v);
    ConsCombination(tree.Contents, q, m, t);
  }

  /** A candidate above `m` followed by a combination for the remainder above it is a combination for `q`. */
  lemma ConsCombination(contents: set<Vec>, q: Vec, m: Vec, t: seq<Vec>)
    requires t != [] && t[0] in contents && Dominated(t[0], q) && LexGe(t[0], m)
    requires IsCombination(contents, VecSub(q, t[0]), t[0], t[1..])
    ensures IsCombination(contents, q, m, t)
  {
    var v := t[0];
    assert t == [v] + t[1..];
    assert VecSum(t, |q|) == VecAdd(v, VecSum(t[1..], |q|));
    forall i | 1 <= i < |t| ensures t[i] == t[1..][i - 1] {}
  }

  /** What a dominated vector leaves of `q` is non-negative. */
  lemma RemainderNonNegative(q: Vec, v: Vec)
    requires Dominated(v, q)
    ensures NonNegative(VecSub(q, v))
  {
    var r := VecSub(q, v);
    assert VecAdd(v, r) == q;
    forall i | 0 <= i < |r| ensures r[i] >= 0 {
      assert VecAdd(v, r)[i] == v[i] + r[i];
    }
  }

  /** Adding the same vector on the left is injective. */
  lemma VecAddCancel(a: Vec, x: Vec, y: Vec)
    requires |a| == |x| == |y| && VecAdd(a, x) == VecAdd(a, y)
    ensures x == y
  {
    forall i | 0 <= i < |x| ensures x[i] == y[i] {
      assert VecAdd(a, x)[i] == VecAdd(a, y)[i];
    }
  }

  /**
   * A non-empty combination of searchable vectors has a positive sum; the
   * only combination for a zero-sum query is the empty one.
   */
  lemma {:induction false} CombinationSum(contents: set<Vec>, q: Vec, m: Vec, t: seq<Vec>)
    requires Searchable(contents) && IsCombination(contents, q, m, t)
    ensures t == [] <==> Sum(q) == 0
  {
    if t == [] {
      SumZero(|q|);
    } else {
      assert t[0] in contents;
      NonNegativeAll(contents, t);
      DominatedSum(t, |q|, 0);
      NonZeroSum(t[0]);
      DominatedSumLe(t[0], q);
    }
  }

  lemma NonNegativeAll(contents: set<Vec>, t: seq<Vec>)
    requires Searchable(contents) && Members(contents, t)
    ensures forall j :: 0 <= j < |t| ==> NonNegative(t[j])
  {
    forall j | 0 <= j < |t| ensures NonNegative(t[j]) {
      assert t[j] in contents;
    }
  }

  /** A component-wise smaller vector has a sum no larger. */
  lemma {:induction false} DominatedSumLe(v: Vec, q: Vec)
    requires Dominated(v, q)
    ensures Sum(v) <= Sum(q)
    decreases |v|
  {
    if v != [] {
      DominatedSumLe(v[1..], q[1..]);
    }
  }

  /**
   * Completeness: for a non-negative query every combination above `m` is
   * among the results.
   */
  lemma {:induction false} FindComplete(tree: VectorSet, q: Vec, m: Vec, t: seq<Vec>)
    requires tree.Valid() && Searchable(tree.Contents) && NonNegative(q)
    requires IsCombination(tree.Contents, q, m, t)
    ensures t in FindAnagramVecs(tree, q, m)
    decreases PosSum(q)
  {
    CombinationSum(tree.Contents, q, m, t);
    if Sum(q) != 0 {
      var v := t[0];
      var vs := tree.QueryLte(q, m);
      assert v in tree.Contents;
      NonNegativeAll(tree.Contents, t);
      DominatedSum(t, |q|, 0);
      assert v in vs;
      var rest := VecSub(q, v);
      assert VecSum(t, |q|) == VecAdd(v, VecSum(t[1..], |q|));
      VecAddCancel(v, rest, VecSum(t[1..], |q|));
      TailAscending(t, m);
      assert Members(tree.Contents, t[1..]) by {
        forall i | 0 <= i < |t[1..]| ensures t[1..][i] in tree.Contents {
          assert t[1..][i] == t[i + 1];
        }
      }
      PosSumSub(q, v);
      NonZeroSum(v);
      RemainderNonNegative(q, v);
      FindComplete(tree, rest, v, t[1..]);
      ExtendMembers(tree, q, m, vs, t);
    }
  }

  /** The tail of a non-decreasing tuple is non-decreasing above its head. */
  lemma TailAscending(t: seq<Vec>, m: Vec)
    requires t != [] && Ascending(t, m)
    ensures Ascending(t[1..], t[0])
  {
    forall i | 1 <= i < |t[1..]| ensures LexGe(t[1..][i], t[1..][i - 1]) {
      assert t[1..][i] == t[i + 1] && t[1..][i - 1] == t[i];
    }
  }

  /** The search yields each tuple at most once. */
  lemma {:induction false} FindNoDuplicates(tree: VectorSet, q: Vec, m: Vec)
    requires tree.Valid() && Searchable(tree.Contents)
    ensures NoDuplicates(FindAnagramVecs(tree, q, m))
    decreases PosSum(q), 1
  {
    if Sum(q) != 0 {
      var vs := tree.QueryLte(q, m);
      StrictlyAscendingNoDuplicates(vs);
      ExtendNoDuplicates(tree, q, m, vs);
    }
  }

  lemma {:induction false} ExtendNoDuplicates(tree: VectorSet, q: Vec, m: Vec, vs: seq<Vec>)
    requires tree.Valid() && Searchable(tree.Contents)
    requires forall v :: v in vs ==> v in tree.Contents && Dominated(v, q) && LexGe(v, m)
    requires NoDuplicates(vs)
    ensures NoDuplicates(Extend(tree, q, m, vs))
    decreases PosSum(q), 0, |vs|
  {
    if vs != [] {
      var v := vs[0];
      PosSumSub(q, v);
      NonZeroSum(v);
      var sub := FindAnagramVecs(tree, VecSub(q, v), v);
      FindNoDuplicates(tree, VecSub(q, v), v);
      NoDuplicatesPrependAll(v, sub);
      assert NoDuplicates(vs[1..]) by {
        forall i, j | 0 <= i < j < |vs[1..]| ensures vs[1..][i] != vs[1..][j] {
          assert vs[1..][i] == vs[i + 1] && vs[1..][j] == vs[j + 1];
        }
      }
      ExtendNoDuplicates(tree, q, m, vs[1..]);
      forall t | t in PrependAll(v, sub) ensures t !in Extend(tree, q, m, vs[1..]) {
        PrependAllMembers(v, sub, t);
        ExtendMembers(tree, q, m, vs[1..], t);
        assert v !in vs[1..];
      }
      NoDuplicatesConcat(PrependAll(v, sub), Extend(tree, q, m, vs[1..]));
    }
  }

  /**
   * No two results are permutations of each other: two non-decreasing tuples
   * holding the same vectors equally often are equal.
   */
  lemma {:induction false} SortedPermutationsEqual(a: seq<Vec>, b: seq<Vec>, m: Vec, n: nat)
    requires SameLengths(a, n) && SameLengths(b, n)
    requires Ascending(a, m) && Ascending(b, m) && multiset(a) == multiset(b)
    ensures a == b
    decreases |a|
  {
    if a != [] {
      assert |b| == |a| by {
        assert |multiset(a)| == |a| && |multiset(b)| == |b|;
      }
      assert b[0] in multiset(b) && a[0] in multiset(a);
      assert b[0] in a && a[0] in b;
      AscendingLeast(a, m, b[0]);
      AscendingLeast(b, m, a[0]);
      LexGeAntisymmetric(a[0], b[0]);
      assert a == [a[0]] + a[1..] && b == [b[0]] + b[1..];
      MultisetTail(a, b);
      TailAscending(a, m);
      TailAscending(b, m);
      SameLengthsTail(a, n);
      SameLengthsTail(b, n);
      SortedPermutationsEqual(a[1..], b[1..], a[0], n);
    }
  }

  lemma MultisetTail<T>(a: seq<T>, b: seq<T>)
    requires a != [] && b != [] && a[0] == b[0] && multiset(a) == multiset(b)
    ensures multiset(a[1..]) == multiset(b[1..])
  {
    assert a == [a[0]] + a[1..] && b == [b[0]] + b[1..];
    assert multiset(a) == multiset{a[0]} + multiset(a[1..]);
    assert multiset(b) == multiset{b[0]} + multiset(b[1..]);
    forall x ensures multiset(a[1..])[x] == multiset(b[1..])[x] {
      assert multiset(a[1..])[x] == multiset(a)[x] - multiset{a[0]}[x];
      assert multiset(b[1..])[x] == multiset(b)[x] - multiset{a[0]}[x];
    }
  }

  lemma SameLengthsTail(t: seq<Vec>, n: nat)
    requires t != [] && SameLengths(t, n)
    ensures SameLengths(t[1..], n)
  {
    forall i | 0 <= i < |t[1..]| ensures |t[1..][i]| == n {
      assert t[1..][i] == t[i + 1];
    }
  }

  /** The head of a non-decreasing tuple is its least element. */
  lemma {:induction false} AscendingLeast(t: seq<Vec>, m: Vec, x: Vec)
    requires t != [] && Ascending(t, m) && x in t
    ensures LexGe(x, t[0])
    decreases |t|
  {
    if x == t[0] {
      LexGeReflexive(x);
    } else {
      assert x in t[1..] by {
        var i :| 0 <= i < |t| && t[i] == x;
        assert t[1..][i - 1] == x;
      }
      TailAscending(t, m);
      AscendingLeast(t[1..], t[0], x);
      LexGeTransitive(x, t[1], t[0]);
    }
  }
}
