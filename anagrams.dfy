/**
 * `find_anagrams`: canonicalizes the query, builds the indexes from the word
 * list, searches for the signature tuples that sum to the query's signature
 * and expands each into word tuples. The result is exactly the set of
 * anagrams of the query made of dictionary words taken in non-decreasing
 * order of signature, each once.
 */
module Anagrams {
  import opened Seqs
  import opened Vectors
  import opened Letters
  import opened VectorSets
  import opened Search
  import opened Expansion
  import opened Index

  /** The signature of each word of a word tuple. */
  function Signatures(ws: seq<string>): (r: seq<Vec>)
    ensures |r| == |ws| && SameLengths(r, Alphabet)
    ensures forall i :: 0 <= i < |ws| ==> r[i] == MakeVec(ws[i])
  {
    seq(|ws|, i requires 0 <= i < |ws| => MakeVec(ws[i]))
  }

  /**
   * `ws` is an anagram of `query` over the dictionary `words`: dictionary
   * words in non-decreasing order of signature whose letters, taken
   * together, are the letters of the canonical query.
   */
  ghost predicate IsAnagram(ws: seq<string>, query: string, words: set<string>)
  {
    (forall i :: 0 <= i < |ws| ==> ws[i] in words) &&
    Ascending(Signatures(ws), []) &&
    multiset(Flatten(ws)) == multiset(Canonicalize(query))
  }

  /**
   * The nested loops of `find_anagrams` over the vector tuples `ts`: the
   * expansions of the tuples, one after another.
   */
  function ExpandAll(d: WordIndex, ts: seq<seq<Vec>>): (r: seq<seq<string>>)
    decreases |ts|
  {
    if ts == [] then [] else ExpandAll(d, ts[..|ts| - 1]) + ExpandAnagramVecs(d, ts[|ts| - 1])
  }

  lemma {:induction false} ExpandAllMembers(d: WordIndex, ts: seq<seq<Vec>>, ws: seq<string>)
    ensures ws in ExpandAll(d, ts) <==>
      exists j :: 0 <= j < |ts| && ws in ExpandAnagramVecs(d, ts[j])
    decreases |ts|
  {
    if ts != [] {
      var init := ts[..|ts| - 1];
      ExpandAllMembers(d, init, ws);
      if ws in ExpandAll(d, init) {
        var j :| 0 <= j < |init| && ws in ExpandAnagramVecs(d, init[j]);
        assert ts[j] == init[j];
      }
      if exists j :: 0 <= j < |ts| && ws in ExpandAnagramVecs(d, ts[j]) {
        var j :| 0 <= j < |ts| && ws in ExpandAnagramVecs(d, ts[j]);
        if j < |ts| - 1 {
          assert init[j] == ts[j];
        }
      }
    }
  }

  /** The letters of a word tuple, counted, are the sum of the words' signatures. */
  lemma {:induction false} FlattenMakeVec(ws: seq<string>)
    ensures MakeVec(Flatten(ws)) == VecSum(Signatures(ws), Alphabet)
    decreases |ws|
  {
    if ws == [] {
      assert MakeVec([]) == Zero(Alphabet);
    } else {
      FlattenMakeVec(ws[1..]);
      MakeVecConcat(ws[0], Flatten(ws[1..]));
      assert Signatures(ws)[1..] == Signatures(ws[1..]);
    }
  }

  lemma {:induction false} FlattenCanonical(ws: seq<string>)
    requires forall i :: 0 <= i < |ws| ==> IsCanonical(ws[i])
    ensures IsCanonical(Flatten(ws))
    decreases |ws|
  {
    if ws != [] {
      FlattenCanonical(ws[1..]);
      var f := Flatten(ws);
      forall k | 0 <= k < |f| ensures IsUpperLetter(f[k]) {
        if k < |ws[0]| {
          assert f[k] == ws[0][k];
        } else {
          assert f[k] == Flatten(ws[1..])[k - |ws[0]|];
        }
      }
    }
  }

  /**
   * An expanded word tuple holds dictionary words whose signatures are the
   * vectors of the tuple it came from.
   */
  lemma ExpandedSignatures(d: WordIndex, words: set<string>, t: seq<Vec>, ws: seq<string>)
    requires IndexOf(d, words) && ws in ExpandAnagramVecs(d, t)
    ensures Signatures(ws) == t
    ensures forall i :: 0 <= i < |ws| ==> ws[i] in words
  {
    ExpandMembers(d, t, ws);
    forall i | 0 <= i < |ws| ensures MakeVec(ws[i]) == t[i] && ws[i] in words {
      assert ws[i] in Lookup(d, t[i]);
      var j :| 0 <= j < |d[t[i]]| && d[t[i]][j] == ws[i];
    }
  }

  /** The signatures of a non-empty canonical dictionary are searchable. */
  lemma IndexSearchable(d: WordIndex, words: set<string>)
    requires IndexOf(d, words)
    requires forall w :: w in words ==> w != [] && IsCanonical(w)
    ensures Searchable(d.Keys)
  {
    forall k | k in d ensures NonNegative(k) && k != Zero(|k|) {
      var w := d[k][0];
      MakeVecSum(w);
      SumZero(Alphabet);
    }
  }

  /** Different vector tuples expand to different word tuples, so no word tuple comes twice. */
  lemma {:induction false} ExpandAllNoDuplicates(d: WordIndex, words: set<string>, ts: seq<seq<Vec>>)
    requires IndexOf(d, words) && NoDuplicates(ts)
    ensures NoDuplicates(ExpandAll(d, ts))
    decreases |ts|
  {
    if ts != [] {
      var init, last := ts[..|ts| - 1], ts[|ts| - 1];
      assert NoDuplicates(init) by {
        forall i, j | 0 <= i < j < |init| ensures init[i] != init[j] {
          assert init[i] == ts[i] && init[j] == ts[j];
        }
      }
      ExpandAllNoDuplicates(d, words, init);
      ExpandNoDuplicates(d, last);
      forall ws | ws in ExpandAll(d, init) ensures ws !in ExpandAnagramVecs(d, last) {
        ExpandAllMembers(d, init, ws);
        var j :| 0 <= j < |init| && ws in ExpandAnagramVecs(d, init[j]);
        ExpandedSignatures(d, words, init[j], ws);
        if ws in ExpandAnagramVecs(d, last) {
          ExpandedSignatures(d, words, last, ws);
          assert false;
        }
      }
      NoDuplicatesConcat(ExpandAll(d, init), ExpandAnagramVecs(d, last));
    }
  }

  /** The letters of canonical words, counted, match the query's exactly when their multisets do. */
  lemma SameLetters(ws: seq<string>, query: string)
    requires forall i :: 0 <= i < |ws| ==> IsCanonical(ws[i])
    ensures VecSum(Signatures(ws), Alphabet) == MakeVec(Canonicalize(query)) <==>
      multiset(Flatten(ws)) == multiset(Canonicalize(query))
  {
    FlattenMakeVec(ws);
    FlattenCanonical(ws);
    SameVecIsAnagram(Flatten(ws), Canonicalize(query));
  }

  /** Soundness: every expanded search result is an anagram of the query. */
  lemma AnagramsSound(tree: VectorSet, d: WordIndex, words: set<string>, query: string, ws: seq<string>)
    requires tree.Valid() && tree.Contents == d.Keys && Searchable(tree.Contents)
    requires IndexOf(d, words)
    requires forall w :: w in words ==> IsCanonical(w)
    requires ws in ExpandAll(d, FindAnagramVecs(tree, MakeVec(Canonicalize(query)), []))
    ensures IsAnagram(ws, query, words)
  {
    var q := MakeVec(Canonicalize(query));
    var ts := FindAnagramVecs(tree, q, []);
    ExpandAllMembers(d, ts, ws);
    var j :| 0 <= j < |ts| && ws in ExpandAnagramVecs(d, ts[j]);
    FindSound(tree, q, []);
    assert IsCombination(tree.Contents, q, [], ts[j]);
    ExpandedSignatures(d, words, ts[j], ws);
    SameLetters(ws, query);
  }

  /** Completeness: every anagram of the query is among the expanded search results. */
  lemma AnagramsComplete(tree: VectorSet, d: WordIndex, words: set<string>, query: string, ws: seq<string>)
    requires tree.Valid() && tree.Contents == d.Keys && Searchable(tree.Contents)
    requires IndexOf(d, words)
    requires forall w :: w in words ==> IsCanonical(w)
    requires IsAnagram(ws, query, words)
    ensures ws in ExpandAll(d, FindAnagramVecs(tree, MakeVec(Canonicalize(query)), []))
  {
    var q := MakeVec(Canonicalize(query));
    var t := Signatures(ws);
    SameLetters(ws, query);
    assert Members(tree.Contents, t);
    assert IsCombination(tree.Contents, q, [], t);
    FindComplete(tree, q, [], t);
    ExpandMembers(d, t, ws);
    ExpandAllMembers(d, FindAnagramVecs(tree, q, []), ws);
  }

  /**
   * The pipeline on built indexes: the expansions of the search results are
   * exactly the anagrams of the query, none twice, and a query without
   * letters has only the empty tuple.
   */
  lemma AnagramsExact(tree: VectorSet, d: WordIndex, words: set<string>, query: string)
    requires tree.Valid() && tree.Contents == d.Keys && Searchable(tree.Contents)
    requires IndexOf(d, words)
    requires forall w :: w in words ==> IsCanonical(w)
    ensures forall ws :: ws in ExpandAll(d, FindAnagramVecs(tree, MakeVec(Canonicalize(query)), [])) <==>
      IsAnagram(ws, query, words)
    ensures NoDuplicates(ExpandAll(d, FindAnagramVecs(tree, MakeVec(Canonicalize(query)), [])))
    ensures Canonicalize(query) == [] ==>
      ExpandAll(d, FindAnagramVecs(tree, MakeVec(Canonicalize(query)), [])) == [[]]
  {
    var q := MakeVec(Canonicalize(query));
    var found := FindAnagramVecs(tree, q, []);
    forall ws ensures ws in ExpandAll(d, found) <==> IsAnagram(ws, query, words) {
      if ws in ExpandAll(d, found) {
        AnagramsSound(tree, d, words, query, ws);
      }
      if IsAnagram(ws, query, words) {
        AnagramsComplete(tree, d, words, query, ws);
      }
    }
    FindNoDuplicates(tree, q, []);
    ExpandAllNoDuplicates(d, words, found);
    if Canonicalize(query) == [] {
      MakeVecSum(Canonicalize(query));
      assert found == [[]];
      assert ExpandAll(d, [[]]) == ExpandAll(d, []) + ExpandAnagramVecs(d, []);
    }
  }

  /** The loops of `find_anagrams` over the vector tuples `found`, collecting every expansion. */
  method ExpandEach(d: WordIndex, found: seq<seq<Vec>>) returns (anagrams: seq<seq<string>>)
    ensures anagrams == ExpandAll(d, found)
  {
    anagrams := [];
    for i := 0 to |found|
      invariant anagrams == ExpandAll(d, found[..i])
    {
      assert found[..i + 1][..i] == found[..i];
      anagrams := anagrams + ExpandAnagramVecs(d, found[i]);
    }
    assert found[..|found|] == found;
  }

  /**
   * `find_anagrams` on the lines of a word list: every anagram of the query
   * over the loaded words, each once. A query without letters has the empty
   * tuple as its one anagram. The search needs the length filter to drop the
   * empty word, or no line to be free of letters.
   */
  method FindAnagrams(query: string, lines: seq<string>, minWordLength: int) returns (anagrams: seq<seq<string>>)
    requires minWordLength >= 1 || forall i :: 0 <= i < |lines| ==> Canonicalize(lines[i]) != []
    ensures forall ws :: ws in anagrams <==> IsAnagram(ws, query, LoadWords(lines, minWordLength))
    ensures NoDuplicates(anagrams)
    ensures Canonicalize(query) == [] ==> anagrams == [[]]
  {
    var queryVec := MakeVec(Canonicalize(query));
    var tree, vecDict := MakeTree(lines, minWordLength);
    LoadWordsNonEmpty(lines, minWordLength);
    IndexSearchable(vecDict, LoadWords(lines, minWordLength));
    AnagramsExact(tree, vecDict, LoadWords(lines, minWordLength), query);
    var found := FindAnagramVecs(tree, queryVec, []);
    anagrams := ExpandEach(vecDict, found);
  }
}
