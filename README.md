# Multi-word anagram search, modelled in Dafny

This project models the search engine of `anagram.py`, a finder of
multi-word anagrams. A word's *signature* is its 26-component vector of
letter counts. Dictionary signatures are stored in a prefix tree, the
`_VectorSet`. A range query on the tree returns the stored signatures that
are dominated by a query and lexicographically at least a lower bound. A
recursive search uses it to enumerate the non-decreasing tuples of stored
signatures that sum exactly to the query's signature. Each such tuple is
then expanded into the cartesian product of the words filed under its
signatures.

Modules, leaf first:

- `Seqs` (`seqs.dfy`): duplicate-freedom, prefixing and flattening of sequences.
- `Vectors` (`vectors.dfy`): integer vectors, i.e. Python tuples of `int`. Covers `_vec_sub`, component-wise dominance, Python's tuple order `>=` and sums.
- `Letters` (`letters.dfy`): `_canonicalize_word` and `_make_vec`.
- `VectorSets` (`vector_set.dfy`): `_VectorSet` as a class. It has the real fields `present` and `children`, the ghost `Contents` (the set of vectors it holds) and `Repr` (its nodes). The methods `constructor` and `AddVec` change it in place; `QueryLte` is a function that reads it.
- `Search` (`search.dfy`): `_find_anagram_vecs`.
- `Expansion` (`expansion.dfy`): `_expand_anagram_vecs`.
- `Index` (`index.dfy`): the dedupe and length filter of `_load_words`, and `_make_tree`. Both loops of `_make_tree` are methods.
- `Anagrams` (`anagrams.dfy`): `find_anagrams`, with its end-to-end statement. The result holds exactly the anagrams of the query built from the loaded words in non-decreasing signature order, each once.

Word expansion loops over the tail's expansions on the outside and over the head's words on the inside (anagram.py:121-123).

A `min_word_length` of 0 or less is used as written (anagram.py:66). With such a filter, a dictionary line without letters puts the all-zero signature in the tree. A query without letters still yields only the empty tuple, because its sum is 0 and anagram.py:103-105 never consults the tree. For any other query, the all-zero signature is dominated by the query and `>=` itself, so each time `_find_anagram_vecs` picks it, it recurses on the same query again, until CPython's recursion limit raises `RuntimeError`. `FindAnagrams` requires a filter of at least 1, or no letterless line; this also excludes the letterless query on such a dictionary, which the source answers normally.

## Model

| member | source | states |
|---|---|---|
| `Letters.Canonicalize` | anagram.py:59-61 | the result holds only the letters A-Z and is no longer than the input |
| `Letters.StripNonLetters` | anagram.py:59-61 | removing every character outside A-Z keeps each upper-case letter as often as the input has it, and nothing else |
| `Letters.UpperCaseCount` | anagram.py:61 | after upper-casing, each letter occurs as often as it occurred in either case before |
| `Letters.CanonicalizeCounts` | anagram.py:59-61 | the canonical word has each letter as often as the input has it in either case, and no other character |
| `Letters.CanonicalFixedPoint` | anagram.py:59-61 | a word made of A-Z only is its own canonical form |
| `Letters.StripCanonical` | anagram.py:59-61 | stripping leaves a word made of A-Z only unchanged |
| `Letters.CanonicalizeIdempotent` | anagram.py:59-61 | canonicalizing twice gives the same word as canonicalizing once |
| `Letters.MakeVec` | anagram.py:53-57 | the signature has exactly 26 components, none negative |
| `Letters.MakeVecSum` | anagram.py:53-57 | the components of a canonical word's signature sum to the word's length |
| `Letters.MakeVecPermutation` | anagram.py:53-57 | words that are permutations of each other have the same signature |
| `Letters.SameVecIsAnagram` | anagram.py:53-57 | two canonical words have the same signature if and only if each is a permutation of the other |
| `Letters.MakeVecConcat` | anagram.py:53-57 | the signature of a concatenation is the sum of the signatures |
| `Vectors.VecSub` | anagram.py:87-90 | for equal lengths, the difference has that length, and adding the subtrahend back gives the minuend |
| `Vectors.PosSumSub` | anagram.py:103-111 | removing a non-negative dominated vector from the query lowers the sum of its positive parts by the vector's sum; this is the search's termination measure |
| `Vectors.Sum` | anagram.py:103 | Python's `sum` of a tuple; its contract is carried by `SumAdd`, `SumZero`, `NonNegativeSum` and `NonZeroSum` |
| `Vectors.SumAdd` | anagram.py:103-111 | the sum of a component-wise sum of two vectors is the sum of their sums |
| `Vectors.SumZero` | anagram.py:103-105 | the all-zero vector sums to 0 |
| `Vectors.NonNegativeSum` | anagram.py:103-105 | a non-negative vector has a non-negative sum, and sums to 0 only when it is all zero |
| `Vectors.NonZeroSum` | anagram.py:103-105 | a non-negative vector that is not all zero has a positive sum, so the search does not stop on it |
| `Vectors.LexGe` | anagram.py:39-48 | Python's tuple `>=`: the first differing component decides and the empty tuple is below every other; its contract is carried by `LexGeReflexive`, `LexGeTotal`, `LexGeTransitive` and `LexGeAntisymmetric` |
| `Vectors.LexGeReflexive` | anagram.py:39 | every tuple is `>=` itself, so `() >= ()` holds at a leaf reached with an empty lower bound left |
| `Vectors.LexGeTotal` | anagram.py:43-48 | Python's tuple order is total on vectors of one length |
| `Vectors.LexGeTransitive` | anagram.py:43-48 | Python's tuple order is transitive |
| `Vectors.LexGeAntisymmetric` | anagram.py:43-48 | two vectors of one length that are each `>=` the other are equal |
| `VectorSets.VectorSet.constructor` | anagram.py:16-18 | a new set is valid and empty |
| `VectorSets.VectorSet.Child` | anagram.py:18-22 | looking up a head on the default dictionary returns its child, creating an empty one if missing; the set of vectors does not change, and other children stay as they were |
| `VectorSets.VectorSet.AddVec` | anagram.py:20-24 | after adding `vec`, the set is the old set plus `vec` and nothing else; re-adding a member changes no node |
| `VectorSets.VectorSet.AddBelow` | anagram.py:21-22 | adding the tail below the head's child adds exactly `[head] + tail`; sibling subtrees are untouched |
| `VectorSets.VectorSet.MarkPresent` | anagram.py:23-24 | setting `present` adds exactly the empty vector |
| `VectorSets.VectorSet.QueryLte` | anagram.py:26-51 | yields exactly the members that have the query's length, are dominated by the query and are `>=` the lower bound, in strictly ascending order, so each member appears at most once |
| `VectorSets.VectorSet.QueryChildren` | anagram.py:42-51 | the loop over the children yields exactly the qualifying members whose head is among the keys visited, strictly ascending |
| `VectorSets.VectorSet.HeadBlock` | anagram.py:43-51 | the block for one child is exactly the qualifying members with that head, because the bound applies to the tail only while the head equals the bound's head |
| `VectorSets.VectorSet.JoinBlocks` | anagram.py:42 | visiting children in ascending key order keeps the results strictly ascending |
| `VectorSets.SortedKeys` | anagram.py:42 | the children's keys are listed each once, in ascending order |
| `Search.FindAnagramVecs` | anagram.py:92-111 | every result is a tuple of members, each of the query's length, non-decreasing and starting at or above the lower bound; a zero-sum query yields exactly the empty tuple |
| `Search.Extend` | anagram.py:107-111 | each candidate followed by the answers for the remainder gives non-empty member tuples above the bound |
| `Search.ExtendMembers` | anagram.py:107-111 | a tuple comes out of the candidate loop exactly when its head is a candidate and its tail is an answer for the remainder above the head |
| `Search.ConsAnswers` | anagram.py:110-111 | putting the candidate in front of answers above it gives non-decreasing tuples above the old bound |
| `Search.FindSound` | anagram.py:92-111 | for a non-negative query, every result sums exactly to the query |
| `Search.FindSoundStep` | anagram.py:107-111 | for a non-negative query, each answer of the candidate loop is a combination for the query |
| `Search.ConsCombination` | anagram.py:110-111 | a candidate above the bound, put in front of a combination for the remainder above the candidate, gives a combination for the query |
| `Search.FindComplete` | anagram.py:92-111 | for a non-negative query, every non-decreasing tuple of members above the bound that sums to the query is a result |
| `Search.FindNoDuplicates` | anagram.py:92-111 | no tuple is yielded twice |
| `Search.ExtendNoDuplicates` | anagram.py:107-111 | distinct candidates give disjoint blocks of answers, so the loop yields no tuple twice |
| `Search.SortedPermutationsEqual` | anagram.py:92-111 | two non-decreasing tuples that are permutations of each other are equal, so no two results are permutations of each other |
| `Search.CombinationSum` | anagram.py:103-105 | with non-zero non-negative members, the empty tuple is the only combination, and only for a zero-sum query |
| `Expansion.ExpandCount` | anagram.py:113-123 | the number of word tuples is the product of the lengths of the word lists of the tuple's signatures; the empty tuple gives one |
| `Expansion.ExpandMembers` | anagram.py:113-123 | a word tuple is produced exactly when it has the tuple's length and its word `i` is in the list of signature `i` |
| `Expansion.ExpandNoDuplicates` | anagram.py:113-123 | with duplicate-free word lists, no word tuple is produced twice |
| `Expansion.ExpandAnagramVecs` | anagram.py:113-123 | the word tuples of a signature tuple in the order the generator yields them; its contract is carried by `ExpandMembers`, `ExpandCount` and `ExpandNoDuplicates` |
| `Expansion.Lookup` | anagram.py:122 | `vec_dict[v]` on the `defaultdict(list)`: the filed list, or the empty list for a missing key; `ExpandMembers` states what it contributes |
| `Expansion.ConsEachOrder` | anagram.py:121-123 | the tails form the outer loop and the head's words the inner loop: result `a * n + b` is word `b` followed by tail `a` |
| `Expansion.ConsEachMembers` | anagram.py:121-123 | a word tuple comes out of the two loops exactly when its head is one of the words and its tail one of the tails |
| `Expansion.ConsEachNoDuplicates` | anagram.py:121-123 | distinct words and distinct tails give distinct word tuples |
| `Expansion.ConsEach` | anagram.py:121-123 | the two loops for one head: each tail in turn, each of the head's words before it; its contract is carried by `ConsEachOrder`, `ConsEachLength`, `ConsEachMembers` and `ConsEachNoDuplicates` |
| `Expansion.ConsEachLength` | anagram.py:121-123 | the two loops yield one tuple per pair of a tail and a word |
| `Index.LoadWords` | anagram.py:63-67 | the loaded words are canonical and at least the minimum length long |
| `Index.LoadWordsMembers` | anagram.py:65-66 | a word is loaded exactly when some line canonicalizes to it and it is long enough |
| `Index.LoadWordsNonEmpty` | anagram.py:66 | with a minimum length of at least 1, or no letterless line, no loaded word is empty |
| `Index.IndexAppend` | anagram.py:81 | appending a new word to its signature's list files that word and keeps the index of the others |
| `Index.GroupBySignature` | anagram.py:79-81 | every word is filed under its signature, only there, once; no list is empty |
| `Index.BuildTree` | anagram.py:82-84 | the new tree holds exactly the given signatures |
| `Index.MakeTree` | anagram.py:69-85 | the tree's members are exactly the keys of the word index, and the word index files every loaded word under its signature, once |
| `Anagrams.IndexSearchable` | anagram.py:66 | an index of non-empty canonical words never holds the all-zero signature, so the search terminates on it |
| `Anagrams.ExpandedSignatures` | anagram.py:113-123 | each word of an expanded tuple is a dictionary word with the signature at its position |
| `Anagrams.ExpandAllMembers` | anagram.py:132-134 | a word tuple is produced exactly when it is in the expansion of one of the vector tuples |
| `Anagrams.ExpandAllNoDuplicates` | anagram.py:132-134 | distinct vector tuples expand to disjoint word tuples, so no word tuple is produced twice |
| `Anagrams.ExpandAll` | anagram.py:132-134 | the expansions of the vector tuples, one after another in the order of the tuples; its contract is carried by `ExpandAllMembers`, `ExpandAllNoDuplicates` and `ExpandEach` |
| `Anagrams.FlattenMakeVec` | anagram.py:128-134 | the signature of the words of a tuple joined together is the sum of their signatures |
| `Anagrams.SameLetters` | anagram.py:128-134 | canonical words whose signatures sum to the query's signature are, joined together, a permutation of the canonical query, and conversely |
| `Anagrams.AnagramsSound` | anagram.py:125-134 | every produced word tuple is an anagram of the query made of loaded words in non-decreasing signature order |
| `Anagrams.AnagramsComplete` | anagram.py:125-134 | every such anagram is produced |
| `Anagrams.AnagramsExact` | anagram.py:125-134 | on built indexes, the expanded search results are exactly the anagrams of the query, none twice; a query without letters gives only the empty tuple |
| `Anagrams.ExpandEach` | anagram.py:132-134 | the loops collect the expansions of all vector tuples, one after another, in the order of the tuples |
| `Anagrams.FindAnagrams` | anagram.py:125-134 | the result holds exactly the anagrams of the query over the loaded words, in non-decreasing signature order, each once; a query without letters gives only the empty tuple |

## Left out

- Reading the word list (anagram.py:64-65): file I/O. The model takes the list's lines as a sequence of strings.
- The default path `/usr/share/dict/words` (anagram.py:126) and the command-line block (anagram.py:136-152): argument parsing and printing.
- Generator laziness: every generator becomes a function or method that returns the finite sequence of everything it would yield.
- The order of Python dictionary and set iteration is unspecified. The tree's children are visited in ascending key order, a choice the model makes. Loaded words are grouped in an order the model leaves open. So `FindAnagrams` promises which tuples it returns and that none repeats, not their order.
- `str.upper` and the regular expression work on ASCII only here. Lower-case a-z become A-Z and every other character is dropped.
- `collections.Counter` and `defaultdict` become letter counts of a multiset and a `map`. Looking up a missing key in `vec_dict` gives an empty list. The source's side effect of inserting that key is not modelled; the search only ever looks up keys that are present.
- Anagrams.FindAnagrams: requires a minimum word length of at least 1, or no line without letters. Otherwise the empty word is indexed under the all-zero signature. The source then still answers a letterless query with the empty tuple alone, but for any other query it recurses until CPython's recursion limit raises `RuntimeError`. The model describes neither case: its requires excludes both.
- Search.FindSound: stated for non-negative queries only, which is what `find_anagrams` passes. With a negative component, the `sum(query_vec) == 0` test at anagram.py:103 can accept a remainder that is not zero.
- Search.FindComplete: stated for non-negative queries only, for the same reason.
