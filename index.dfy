/**
 * Building the two indexes of one search: `_load_words` keeps the distinct
 * canonical forms of the dictionary lines that are long enough, and
 * `_make_tree` files each of them under its signature in `vec_dict` and puts
 * every signature in the trie.
 */
module Index {
  import opened Seqs
  import opened Vectors
  import opened Letters
  import opened VectorSets
  import opened Expansion

  /**
   * `_load_words` on the lines of the word list: the set of canonical forms
   * (a set comprehension, so each word once) of length at least `minWordLength`.
   */
  function LoadWords(lines: seq<string>, minWordLength: int): (r: set<string>)
    ensures forall w :: w in r ==> IsCanonical(w) && |w| >= minWordLength
  {
    var words := set i | 0 <= i < |lines| :: Canonicalize(lines[i]);
    set w | w in words && |w| >= minWordLength
  }

  /** A word is loaded exactly when some line canonicalizes to it and it is long enough. */
  lemma LoadWordsMembers(lines: seq<string>, minWordLength: int, w: string)
    ensures w in LoadWords(lines, minWordLength) <==>
      |w| >= minWordLength && exists i :: 0 <= i < |lines| && Canonicalize(lines[i]) == w
  {
  }

  /**
   * When the length filter is at least 1, or no line is free of letters, no
   * loaded word is empty.
   */
  lemma LoadWordsNonEmpty(lines: seq<string>, minWordLength: int)
    requires minWordLength >= 1 || forall i :: 0 <= i < |lines| ==> Canonicalize(lines[i]) != []
    ensures forall w :: w in LoadWords(lines, minWordLength) ==> w != []
  {
    forall w | w in LoadWords(lines, minWordLength) ensures w != [] {
      LoadWordsMembers(lines, minWordLength, w);
    }
  }

  /**
   * `vec_dict` files every word of `words` under its signature, each once,
   * and holds no other word and no empty list.
   */
  ghost predicate IndexOf(d: WordIndex, words: set<string>)
  {
    (forall k :: k in d ==>
      d[k] != [] && NoDuplicates(d[k]) &&
      forall j :: 0 <= j < |d[k]| ==> d[k][j] in words && MakeVec(d[k][j]) == k) &&
    (forall w :: w in words ==> MakeVec(w) in d && w in d[MakeVec(w)])
  }

  /** Appending a new word to the list of its signature files it and keeps the rest. */
  lemma IndexAppend(d: WordIndex, done: set<string>, w: string)
    requires IndexOf(d, done) && w !in done
    ensures IndexOf(d[MakeVec(w) := Lookup(d, MakeVec(w)) + [w]], done + {w})
  {
    var k := MakeVec(w);
    var list := Lookup(d, k);
    var d' := d[k := list + [w]];
    assert forall j :: 0 <= j < |list| ==> list[j] in done;
    NoDuplicatesConcat(list, [w]);
    forall x | x in done ensures MakeVec(x) in d' && x in d'[MakeVec(x)] {
      if MakeVec(x) == k {
        assert x in list;
      }
    }
  }

  /**
   * The first loop of `_make_tree`: `vec_dict[_make_vec(word)].append(word)`
   * for each loaded word, in an order the model leaves open.
   */
  method GroupBySignature(words: set<string>) returns (vecDict: WordIndex)
    ensures IndexOf(vecDict, words)
  {
    vecDict := map[];
    var todo := words;
    while todo != {}
      invariant todo <= words
      invariant IndexOf(vecDict, words - todo)
      decreases |todo|
    {
      var w :| w in todo;
      IndexAppend(vecDict, words - todo, w);
      var k := MakeVec(w);
      vecDict := vecDict[k := Lookup(vecDict, k) + [w]];
      assert words - (todo - {w}) == (words - todo) + {w};
      todo := todo - {w};
    }
  }

  /** The second loop of `_make_tree`: `tree._add_vec(vec)` for each key, into a new trie. */
  method BuildTree(keys: set<Vec>) returns (tree: VectorSet)
    ensures tree.Valid() && fresh(tree.Repr)
    ensures tree.Contents == keys
  {
    tree := new VectorSet();
    var todo := keys;
    while todo != {}
      invariant todo <= keys
      invariant tree.Valid() && fresh(tree.Repr)
      invariant tree.Contents == keys - todo
      decreases |todo|
    {
      var k :| k in todo;
      tree.AddVec(k);
      todo := todo - {k};
    }
  }

  /**
   * `_make_tree`: groups the loaded words by signature and puts every
   * signature in a new trie, so that the trie holds exactly the keys of
   * `vecDict`.
   */
  method MakeTree(lines: seq<string>, minWordLength: int) returns (tree: VectorSet, vecDict: WordIndex)
    ensures tree.Valid() && fresh(tree.Repr)
    ensures tree.Contents == vecDict.Keys
    ensures IndexOf(vecDict, LoadWords(lines, minWordLength))
  {
    vecDict := GroupBySignature(LoadWords(lines, minWordLength));
    tree := BuildTree(vecDict.Keys);
  }
}
