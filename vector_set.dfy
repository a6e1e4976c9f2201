/**
 * `_VectorSet`: a set of integer vectors stored as a prefix tree. A node has
 * one child per first component value; the child holds the tails that follow
 * that value. `present` marks that the empty tail (the vector ending here) is
 * in the set.
 */
module VectorSets {
  import opened Vectors
  import opened Seqs

  /** The keys of `s` in ascending order. */
  function SortedKeys(s: set<int>): (r: seq<int>)
    ensures forall x :: x in r <==> x in s
    ensures forall i, j :: 0 <= i < j < |r| ==> r[i] < r[j]
    decreases |s|
  {
    if s == {} then []
    else
      var k := Least(s);
      var rest := SortedKeys(s - {k});
      ConsAscending(k, rest);
      [k] + rest
  }

  /** A key below every key of an ascending list starts a longer ascending list. */
  lemma ConsAscending(k: int, rest: seq<int>)
    requires forall i, j :: 0 <= i < j < |rest| ==> rest[i] < rest[j]
    requires forall x :: x in rest ==> k < x
    ensures forall i, j :: 0 <= i < j < |[k] + rest| ==> ([k] + rest)[i] < ([k] + rest)[j]
  {
    var r := [k] + rest;
    forall i, j | 0 <= i < j < |r| ensures r[i] < r[j] {
      assert r[j] == rest[j - 1] && rest[j - 1] in rest;
      if i > 0 {
        assert r[i] == rest[i - 1];
      }
    }
  }

  /** The least element of a non-empty set. */
  function Least(s: set<int>): (k: int)
    requires s != {}
    ensures k in s && forall j :: j in s ==> k <= j
  {
    MinimumExists(s);
    var k :| k in s && forall j :: j in s ==> k <= j;
    k
  }

  lemma MinimumExists(s: set<int>)
    requires s != {}
    ensures exists k :: k in s && forall j :: j in s ==> k <= j
  {
    var k := Minimum(s);
  }

  lemma {:induction false} Minimum(s: set<int>) returns (k: int)
    requires s != {}
    ensures k in s && forall j :: j in s ==> k <= j
    decreases |s|
  {
    if forall y :: y !in s {
      assert false;
    }
    var x :| x in s;
    if s == {x} {
      k := x;
    } else {
      var k' := Minimum(s - {x});
      k := if x < k' then x else k';
      forall j | j in s ensures k <= j {
        if j != x {
          assert j in s - {x};
        }
      }
    }
  }

  class VectorSet {
    var present: bool
    var children: map<int, VectorSet>

    /** The vectors in the set. */
    ghost var Contents: set<Vec>
    /** The nodes of this tree. */
    ghost var Repr: set<object>

    /**
     * Each child owns its own nodes (disjoint from its siblings' and not
     * containing this node), and a vector is in the set exactly when it is
     * the empty vector and `present` holds, or its tail is in the set of the
     * child for its head.
     */
    ghost predicate Valid()
      reads this, Repr
      decreases Repr
    {
      this in Repr &&
      (forall k :: k in children ==>
        children[k] in Repr && children[k].Repr <= Repr && this !in children[k].Repr &&
        children[k].Valid()) &&
      (forall k, k' :: k in children && k' in children && k != k' ==>
        children[k].Repr !! children[k'].Repr) &&
      (forall v :: v in Contents <==>
        (v == [] && present) ||
        (v != [] && v[0] in children && v[1..] in children[v[0]].Contents))
    }

    /** `_VectorSet()`: the empty set. */
    constructor ()
      ensures Valid() && fresh(Repr)
      ensures Contents == {}
    {
      present := false;
      children := map[];
      Contents := {};
      Repr := {this};
    }

    /**
     * `self.children[head]` on the `defaultdict`: the child for `head`,
     * created empty if there was none. The set itself does not change.
     */
    method Child(head: int) returns (child: VectorSet)
      requires Valid()
      modifies this
      ensures Valid() && fresh(Repr - old(Repr))
      ensures head in children && child == children[head]
      ensures Contents == old(Contents)
      ensures head in old(children) ==> unchanged(this)
      ensures forall k :: k in old(children) ==> k in children && children[k] == old(children[k])
      ensures forall k :: k in children && k !in old(children) ==> k == head && fresh(children[k])
    {
      if head in children {
        child := children[head];
      } else {
        child := new VectorSet();
        assert child.Valid();
        children := children[head := child];
        Repr := Repr + child.Repr;
        assert forall v :: v != [] && v[0] == head ==> v !in Contents;
      }
    }

    /**
     * `_add_vec`: walks the vector from the root, creating the missing child
     * for each component, and marks the node reached at the end.
     */
    method AddVec(vec: Vec)
      requires Valid()
      modifies Repr
      ensures Valid() && fresh(Repr - old(Repr))
      ensures Contents == old(Contents) + {vec}
      ensures vec in old(Contents) ==> Repr == old(Repr) && unchanged(Repr)
      decreases |vec|
    {
      if |vec| > 0 {
        var head, tail := vec[0], vec[1..];
        var child := Child(head);
        AddBelow(head, tail, child);
        assert vec == [head] + tail;
      } else {
        MarkPresent();
      }
    }

    /**
     * The recursive step of `_add_vec`: the child for `head` takes `tail` in,
     * so this node holds `[head] + tail`; its other children are untouched.
     */
    method AddBelow(head: int, tail: Vec, child: VectorSet)
      requires Valid() && head in children && child == children[head]
      modifies Repr
      ensures Valid() && fresh(Repr - old(Repr))
      ensures Contents == old(Contents) + {[head] + tail}
      ensures [head] + tail in old(Contents) ==> Repr == old(Repr) && unchanged(Repr)
      decreases |tail| + 1, 0
    {
      assert this !in child.Repr;
      child.AddVec(tail);
      Repr := Repr + child.Repr;
      if [head] + tail !in Contents {
        Contents := Contents + {[head] + tail};
      }
      forall k | k in children && k != head
        ensures children[k] in Repr && children[k].Repr <= Repr && this !in children[k].Repr
        ensures children[k].Valid() && children[k].Contents == old(children[k].Contents)
        ensures children[k].Repr !! child.Repr
      {
        var c := children[k];
        assert old(c.Valid()) && old(c.Repr) !! old(child.Repr);
        assert c in old(c.Repr);
        assert unchanged(c);
        assert unchanged(c.Repr);
      }
      forall k, k' | k in children && k' in children && k != k'
        ensures children[k].Repr !! children[k'].Repr
      {
        if k != head && k' != head {
          assert old(children[k].Repr !! children[k'].Repr);
        }
      }
      forall v
        ensures v in Contents <==>
          (v == [] && present) || (v != [] && v[0] in children && v[1..] in children[v[0]].Contents)
      {
        if v != [] && v[0] == head {
          assert v == [head] + tail <==> v[1..] == tail;
        }
      }
    }

    /** `self.present = True`: the empty vector joins the set. */
    method MarkPresent()
      requires Valid()
      modifies this
      ensures Valid() && Repr == old(Repr)
      ensures Contents == old(Contents) + {[]}
      ensures [] in old(Contents) ==> unchanged(this)
    {
      assert [] in Contents ==> present;
      assert forall k :: k in children ==> children[k] != this;
      ghost var below := map k | k in children :: children[k].Contents;
      present := true;
      if [] !in Contents {
        Contents := Contents + {[]};
      }
      forall v | v != []
        ensures v in Contents <==> v[0] in children && v[1..] in children[v[0]].Contents
      {
        var k := v[0];
        assert v in Contents <==> v in old(Contents);
        assert k in children ==> children[k].Contents == below[k];
      }
    }

    /**
     * `query_lte`: the members of the length of `q`, dominated by `q` and at
     * least `m` in tuple order, in ascending order.
     */
    function QueryLte(q: Vec, m: Vec): (r: seq<Vec>)
      reads this, Repr
      requires Valid()
      ensures forall v :: v in r <==> v in Contents && Dominated(v, q) && LexGe(v, m)
      ensures StrictlyAscending(r)
      decreases Repr, 1
    {
      if q == [] then
        (if present && m == [] then [[]] else [])
      else
        QueryChildren(SortedKeys(children.Keys), q, m)
    }

    /** The `for val, child in self.children.items()` loop of `query_lte`, over `keys`. */
    function QueryChildren(keys: seq<int>, q: Vec, m: Vec): (r: seq<Vec>)
      reads this, Repr
      requires Valid() && q != []
      requires forall i :: 0 <= i < |keys| ==> keys[i] in children
      requires forall i, j :: 0 <= i < j < |keys| ==> keys[i] < keys[j]
      ensures forall v :: v in r <==>
        v in Contents && v != [] && v[0] in keys && Dominated(v, q) && LexGe(v, m)
      ensures StrictlyAscending(r)
      decreases Repr, 0, |keys|
    {
      if keys == [] then []
      else
        var val := keys[0];
        var rest := QueryChildren(keys[1..], q, m);
        if val <= q[0] && (m == [] || val >= m[0]) then
          var childMin := if m == [] || val > m[0] then [] else m[1..];
          var child := children[val];
          var here := PrependAll(val, child.QueryLte(q[1..], childMin));
          HeadBlock(val, q, m, childMin, child.QueryLte(q[1..], childMin));
          JoinBlocks(val, keys[1..], here, rest);
          here + rest
        else
          assert forall v :: v in Contents && v != [] && v[0] == val ==> !(Dominated(v, q) && LexGe(v, m));
          rest
    }

    /** The block for one child: its vectors are the members with head `val`. */
    lemma HeadBlock(val: int, q: Vec, m: Vec, childMin: Vec, sub: seq<Vec>)
      requires Valid() && q != [] && val in children
      requires val <= q[0] && (m == [] || val >= m[0])
      requires childMin == if m == [] || val > m[0] then [] else m[1..]
      requires forall v :: v in sub <==>
        v in children[val].Contents && Dominated(v, q[1..]) && LexGe(v, childMin)
      requires StrictlyAscending(sub)
      ensures forall v :: v in PrependAll(val, sub) <==>
        v in Contents && v != [] && v[0] == val && Dominated(v, q) && LexGe(v, m)
      ensures StrictlyAscending(PrependAll(val, sub))
    {
      var here := PrependAll(val, sub);
      forall v ensures v in here <==>
        v in Contents && v != [] && v[0] == val && Dominated(v, q) && LexGe(v, m)
      {
        PrependAllMembers(val, sub, v);
        if v != [] && v[0] == val {
          DominatedCons(v, q);
        }
      }
      forall i, j | 0 <= i < j < |here| ensures !LexGe(here[i], here[j]) {
        assert here[i][1..] == sub[i] && here[j][1..] == sub[j];
      }
    }

    /** Concatenating the block of `val` with the blocks of larger keys keeps the order. */
    static lemma JoinBlocks(val: int, keys: seq<int>, here: seq<Vec>, rest: seq<Vec>)
      requires forall v :: v in here ==> v != [] && v[0] == val
      requires forall v :: v in rest ==> v != [] && v[0] in keys
      requires forall i :: 0 <= i < |keys| ==> val < keys[i]
      requires StrictlyAscending(here) && StrictlyAscending(rest)
      ensures StrictlyAscending(here + rest)
    {
      var c := here + rest;
      forall i, j | 0 <= i < j < |c| ensures !LexGe(c[i], c[j]) {
        if j < |here| {
          assert c[i] == here[i] && c[j] == here[j];
        } else if |here| <= i {
          assert c[i] == rest[i - |here|] && c[j] == rest[j - |here|];
        } else {
          assert c[i] == here[i] && here[i] in here;
          assert c[j] == rest[j - |here|] && rest[j - |here|] in rest;
        }
      }
    }

    static lemma DominatedCons(v: Vec, q: Vec)
      requires v != [] && q != []
      ensures Dominated(v, q) <==> v[0] <= q[0] && Dominated(v[1..], q[1..])
    {
      if v[0] <= q[0] && Dominated(v[1..], q[1..]) {
        forall i | 0 <= i < |v| ensures v[i] <= q[i] {
          if i > 0 {
            assert v[i] == v[1..][i - 1] && q[i] == q[1..][i - 1];
          }
        }
      }
    }
  }
}
