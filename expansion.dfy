/**
 * `_expand_anagram_vecs`: the cartesian product of the word lists of the
 * vectors of one tuple.
 */
module Expansion {
  import opened Vectors
  import opened Seqs

  /** The vector-to-words index `vec_dict`. */
  type WordIndex = map<Vec, seq<string>>

  /** `vec_dict[v]` on the `defaultdict(list)`: the empty list for a missing key. */
  function Lookup(d: WordIndex, v: Vec): seq<string>
  {
    if v in d then d[v] else []
  }

  /**
   * `(word,) + tail` for every word of `words`, in the order of `words`: the
   * inner loop of `_expand_anagram_vecs` for one tail.
   */
  function PrependEach(words: seq<string>, tail: seq<string>): (r: seq<seq<string>>)
    ensures |r| == |words|
    ensures forall b :: 0 <= b < |words| ==> r[b] == [words[b]] + tail
  {
    seq(|words|, b requires 0 <= b < |words| => [words[b]] + tail)
  }

  /** Both loops: the tails outside, the words of the head inside. */
  function ConsEach(words: seq<string>, tails: seq<seq<string>>): (r: seq<seq<string>>)
    decreases |tails|
  {
    if tails == [] then []
    else PrependEach(words, tails[0]) + ConsEach(words, tails[1..])
  }

  /** `_expand_anagram_vecs(d, t)`, in the order it yields. */
  function ExpandAnagramVecs(d: WordIndex, t: seq<Vec>): (r: seq<seq<string>>)
    decreases |t|
  {
    if t == [] then [[]]
    else ConsEach(Lookup(d, t[0]), ExpandAnagramVecs(d, t[1..]))
  }

  /** The number of word tuples for `t`: the product of the list lengths. */
  function Product(d: WordIndex, t: seq<Vec>): nat
    decreases |t|
  {
    if t == [] then 1 else |Lookup(d, t[0])| * Product(d, t[1..])
  }

  /** Position of the `b`-th word in front of the `a`-th tail when each tail takes `n` places. */
  function Place(a: nat, b: nat, n: nat): nat
  {
    a * n + b
  }

  /**
   * Order of the product: the word tuples come in blocks of `|words|`, one
   * block per tail, and inside a block the head's words vary in their order.
   */
  lemma ConsEachOrder(words: seq<string>, tails: seq<seq<string>>)
    ensures |ConsEach(words, tails)| == |words| * |tails|
    ensures forall a, b :: 0 <= a < |tails| && 0 <= b < |words| ==>
      Place(a, b, |words|) < |ConsEach(words, tails)| &&
      ConsEach(words, tails)[Place(a, b, |words|)] == [words[b]] + tails[a]
  {
    ConsEachLength(words, tails);
    forall a, b | 0 <= a < |tails| && 0 <= b < |words|
      ensures Place(a, b, |words|) < |ConsEach(words, tails)|
      ensures ConsEach(words, tails)[Place(a, b, |words|)] == [words[b]] + tails[a]
    {
      ConsEachAt(words, tails, a, b);
    }
  }

  lemma {:induction false} ConsEachLength(words: seq<string>, tails: seq<seq<string>>)
    ensures |ConsEach(words, tails)| == |words| * |tails|
    decreases |tails|
  {
    if tails != [] {
      ConsEachLength(words, tails[1..]);
      MulStep(|words|, |tails|);
    }
  }

  lemma {:induction false} ConsEachAt(words: seq<string>, tails: seq<seq<string>>, a: nat, b: nat)
    requires a < |tails| && b < |words|
    ensures Place(a, b, |words|) < |ConsEach(words, tails)|
    ensures ConsEach(words, tails)[Place(a, b, |words|)] == [words[b]] + tails[a]
    decreases a
  {
    var n, k := |words|, |tails|;
    ConsEachLength(words, tails);
    ConsEachLength(words, tails[1..]);
    var head, rest := PrependEach(words, tails[0]), ConsEach(words, tails[1..]);
    assert ConsEach(words, tails) == head + rest;
    if a == 0 {
      assert Place(a, b, n) == b;
      assert (head + rest)[b] == head[b];
    } else {
      ConsEachAt(words, tails[1..], a - 1, b);
      BlockIndex(a, b, n, k);
      assert (head + rest)[Place(a, b, n)] == rest[Place(a - 1, b, n)];
      assert tails[1..][a - 1] == tails[a];
    }
  }

  lemma MulStep(n: nat, k: nat)
    requires k > 0
    ensures n * k == n + n * (k - 1)
  {
  }

  /** Place `(a, b)` of a block list is place `(a - 1, b)` of the list without its first block. */
  lemma BlockIndex(a: nat, b: nat, n: nat, k: nat)
    requires 0 < a < k && b < n
    ensures Place(a, b, n) == n + Place(a - 1, b, n)
    ensures Place(a - 1, b, n) < n * (k - 1)
  {
    assert a * n == n + (a - 1) * n;
    assert (a - 1) * n + n <= (k - 1) * n by {
      assert a * n <= (k - 1) * n;
    }
  }

  /** A word tuple is in `ConsEach` exactly when it is a word followed by a tail. */
  lemma {:induction false} ConsEachMembers(words: seq<string>, tails: seq<seq<string>>, ws: seq<string>)
    ensures ws in ConsEach(words, tails) <==> ws != [] && ws[0] in words && ws[1..] in tails
    decreases |tails|
  {
    if tails != [] {
      ConsEachMembers(words, tails[1..], ws);
      assert tails == [tails[0]] + tails[1..];
      if ws in PrependEach(words, tails[0]) {
        var b :| 0 <= b < |words| && PrependEach(words, tails[0])[b] == ws;
        assert ws[1..] == tails[0];
      }
      if ws != [] && ws[0] in words && ws[1..] == tails[0] {
        var b :| 0 <= b < |words| && words[b] == ws[0];
        assert PrependEach(words, tails[0])[b] == ws;
      }
    }
  }

  lemma {:induction false} ConsEachNoDuplicates(words: seq<string>, tails: seq<seq<string>>)
    requires NoDuplicates(words) && NoDuplicates(tails)
    ensures NoDuplicates(ConsEach(words, tails))
    decreases |tails|
  {
    if tails != [] {
      var head := PrependEach(words, tails[0]);
      assert NoDuplicates(head) by {
        forall i, j | 0 <= i < j < |head| ensures head[i] != head[j] {
          assert head[i][0] == words[i] && head[j][0] == words[j];
        }
      }
      assert NoDuplicates(tails[1..]) by {
        forall i, j | 0 <= i < j < |tails[1..]| ensures tails[1..][i] != tails[1..][j] {
          assert tails[1..][i] == tails[i + 1] && tails[1..][j] == tails[j + 1];
        }
      }
      ConsEachNoDuplicates(words, tails[1..]);
      forall ws | ws in head ensures ws !in ConsEach(words, tails[1..]) {
        var b :| 0 <= b < |head| && head[b] == ws;
        assert ws[1..] == tails[0];
        ConsEachMembers(words, tails[1..], ws);
        assert tails[0] !in tails[1..];
      }
      NoDuplicatesConcat(head, ConsEach(words, tails[1..]));
    }
  }

  /** `_expand_anagram_vecs` yields `product(len(d[t[i]]))` tuples. */
  lemma {:induction false} ExpandCount(d: WordIndex, t: seq<Vec>)
    ensures |ExpandAnagramVecs(d, t)| == Product(d, t)
    decreases |t|
  {
    if t != [] {
      ExpandCount(d, t[1..]);
      ConsEachOrder(Lookup(d, t[0]), ExpandAnagramVecs(d, t[1..]));
    }
  }

  /** A word tuple is in the expansion exactly when its word `i` comes from the list of `t[i]`. */
  lemma {:induction false} ExpandMembers(d: WordIndex, t: seq<Vec>, ws: seq<string>)
    ensures ws in ExpandAnagramVecs(d, t) <==>
      |ws| == |t| && forall i :: 0 <= i < |t| ==> ws[i] in Lookup(d, t[i])
    decreases |t|
  {
    if t == [] {
    } else {
      ConsEachMembers(Lookup(d, t[0]), ExpandAnagramVecs(d, t[1..]), ws);
      if ws != [] {
        ExpandMembers(d, t[1..], ws[1..]);
        if |ws| == |t| && forall i :: 1 <= i < |t| ==> ws[i] in Lookup(d, t[i]) {
          forall i | 0 <= i < |t| - 1 ensures ws[1..][i] in Lookup(d, t[1..][i]) {
            assert ws[1..][i] == ws[i + 1] && t[1..][i] == t[i + 1];
          }
        }
        if ws[1..] in ExpandAnagramVecs(d, t[1..]) {
          forall i | 1 <= i < |t| ensures ws[i] in Lookup(d, t[i]) {
            assert ws[1..][i - 1] == ws[i] && t[1..][i - 1] == t[i];
          }
        }
      }
    }
  }

  /** With duplicate-free word lists, no word tuple is yielded twice. */
  lemma {:induction false} ExpandNoDuplicates(d: WordIndex, t: seq<Vec>)
    requires forall v :: v in d ==> NoDuplicates(d[v])
    ensures NoDuplicates(ExpandAnagramVecs(d, t))
    decreases |t|
  {
    if t != [] {
      ExpandNoDuplicates(d, t[1..]);
      ConsEachNoDuplicates(Lookup(d, t[0]), ExpandAnagramVecs(d, t[1..]));
    }
  }
}
