/** Generic facts about sequences used by the search and the expansion. */
module Seqs {

  /** No element occurs twice. */
  predicate NoDuplicates<T(==)>(s: seq<T>)
  {
    forall i, j :: 0 <= i < j < |s| ==> s[i] != s[j]
  }

  /** Prefixes `x` to every sequence of `ss`: the `(x,) + tail` of a generator loop. */
  function PrependAll<T>(x: T, ss: seq<seq<T>>): (r: seq<seq<T>>)
    ensures |r| == |ss|
    ensures forall i :: 0 <= i < |ss| ==> r[i] == [x] + ss[i]
  {
    seq(|ss|, i requires 0 <= i < |ss| => [x] + ss[i])
  }

  /** Concatenation of a sequence of sequences (joining the words of a tuple). */
  function Flatten<T>(ss: seq<seq<T>>): (r: seq<T>)
    decreases |ss|
  {
    if ss == [] then [] else ss[0] + Flatten(ss[1..])
  }

  lemma PrependAllMembers<T>(x: T, ss: seq<seq<T>>, t: seq<T>)
    ensures t in PrependAll(x, ss) <==> t != [] && t[0] == x && t[1..] in ss
  {
    var r := PrependAll(x, ss);
    if t in r {
      var i :| 0 <= i < |r| && r[i] == t;
      assert t[1..] == ss[i];
    }
    if t != [] && t[0] == x && t[1..] in ss {
      var i :| 0 <= i < |ss| && ss[i] == t[1..];
      assert r[i] == t;
    }
  }

  lemma NoDuplicatesPrependAll<T>(x: T, ss: seq<seq<T>>)
    requires NoDuplicates(ss)
    ensures NoDuplicates(PrependAll(x, ss))
  {
    var r := PrependAll(x, ss);
    forall i, j | 0 <= i < j < |r| ensures r[i] != r[j] {
      assert r[i][1..] == ss[i] && r[j][1..] == ss[j];
    }
  }

  lemma NoDuplicatesConcat<T>(a: seq<T>, b: seq<T>)
    requires NoDuplicates(a) && NoDuplicates(b)
    requires forall x :: x in a ==> x !in b
    ensures NoDuplicates(a + b)
  {
    var c := a + b;
    forall i, j | 0 <= i < j < |c| ensures c[i] != c[j] {
      if j < |a| {
        assert c[i] == a[i] && c[j] == a[j];
      } else if |a| <= i {
        assert c[i] == b[i - |a|] && c[j] == b[j - |a|];
      } else {
        assert c[i] == a[i] && a[i] in a && c[j] == b[j - |a|];
      }
    }
  }

  lemma FlattenAppend<T>(ss: seq<seq<T>>, s: seq<T>)
    ensures Flatten(ss + [s]) == Flatten(ss) + s
    decreases |ss|
  {
    if ss == [] {
      assert [s][1..] == [];
    } else {
      assert (ss + [s])[1..] == ss[1..] + [s];
      FlattenAppend(ss[1..], s);
    }
  }
}
