/**
 * Canonical words and their letter-frequency signatures: `_canonicalize_word`
 * upper-cases a word and drops every character outside A-Z, and `_make_vec`
 * counts each of the 26 letters.
 */
module Letters {
  import opened Vectors
  import opened Seqs

  /** The number of letters, and the length of every signature. */
  const Alphabet: nat := 26

  predicate IsUpperLetter(c: char)
  {
    'A' <= c <= 'Z'
  }

  predicate IsLowerLetter(c: char)
  {
    'a' <= c <= 'z'
  }

  /** A word made of the letters A-Z only: what `_canonicalize_word` returns. */
  predicate IsCanonical(w: string)
  {
    forall i :: 0 <= i < |w| ==> IsUpperLetter(w[i])
  }

  /** `str.upper` on one character, restricted to ASCII. */
  function ToUpper(c: char): (r: char)
    ensures IsUpperLetter(r) <==> IsUpperLetter(c) || IsLowerLetter(c)
    ensures !IsLowerLetter(c) ==> r == c
    ensures IsLowerLetter(c) ==> r as int == c as int - 32
  {
    if IsLowerLetter(c) then (c as int - 32) as char else c
  }

  /** The lower-case partner of an upper-case letter. */
  function ToLower(c: char): (r: char)
    requires IsUpperLetter(c)
    ensures IsLowerLetter(r) && ToUpper(r) == c
    ensures r as int == c as int + 32
  {
    (c as int + 32) as char
  }

  /** `word.upper()`. */
  function UpperCase(w: string): (r: string)
    ensures |r| == |w|
    ensures forall i :: 0 <= i < |w| ==> r[i] == ToUpper(w[i])
  {
    seq(|w|, i requires 0 <= i < |w| => ToUpper(w[i]))
  }

  /**
   * `_STRIP_RE.sub('', ...)` with the pattern `[^A-Z]`: keeps the upper-case
   * letters in their order and drops everything else.
   */
  function StripNonLetters(w: string): (r: string)
    ensures IsCanonical(r)
    ensures forall c :: IsUpperLetter(c) ==> multiset(r)[c] == multiset(w)[c]
    ensures forall c :: !IsUpperLetter(c) ==> c !in r
    ensures |r| <= |w|
    decreases |w|
  {
    if w == [] then []
    else
      var rest := StripNonLetters(w[1..]);
      assert w == [w[0]] + w[1..];
      if IsUpperLetter(w[0]) then [w[0]] + rest else rest
  }

  /** `_canonicalize_word`. */
  function Canonicalize(w: string): (r: string)
    ensures IsCanonical(r)
    ensures |r| <= |w|
  {
    StripNonLetters(UpperCase(w))
  }

  /** Upper-casing counts a letter in either case. */
  lemma {:induction false} UpperCaseCount(w: string, c: char)
    requires IsUpperLetter(c)
    ensures multiset(UpperCase(w))[c] == multiset(w)[c] + multiset(w)[ToLower(c)]
    decreases |w|
  {
    if w != [] {
      var x, rest, lc := w[0], w[1..], ToLower(c);
      var u := UpperCase(w);
      UpperCaseCount(rest, c);
      UpperOf(x, c);
      assert u[0] == ToUpper(x) && u[1..] == UpperCase(rest);
      CountCons(w, c);
      CountCons(w, lc);
      CountCons(u, c);
    }
  }

  /** Counting in a non-empty string: the head plus the count in the tail. */
  lemma CountCons(s: string, c: char)
    requires s != []
    ensures multiset(s)[c] == multiset(s[1..])[c] + (if s[0] == c then 1 else 0)
  {
    assert s == [s[0]] + s[1..];
  }

  /** The characters that upper-case to the letter `c` are `c` and its lower-case form. */
  lemma UpperOf(x: char, c: char)
    requires IsUpperLetter(c)
    ensures ToUpper(x) == c <==> x == c || x == ToLower(c)
  {
    if ToUpper(x) == c && IsLowerLetter(x) {
      assert x as int == ToLower(c) as int;
    }
  }

  /**
   * The canonical word holds every letter of `w` as often as `w` holds it in
   * either case, and nothing else.
   */
  lemma CanonicalizeCounts(w: string)
    ensures forall c :: IsUpperLetter(c) ==>
      multiset(Canonicalize(w))[c] == multiset(w)[c] + multiset(w)[ToLower(c)]
    ensures forall c :: !IsUpperLetter(c) ==> multiset(Canonicalize(w))[c] == 0
  {
    forall c | IsUpperLetter(c)
      ensures multiset(Canonicalize(w))[c] == multiset(w)[c] + multiset(w)[ToLower(c)]
    {
      UpperCaseCount(w, c);
    }
  }

  /** A canonical word is its own canonical form. */
  lemma CanonicalFixedPoint(w: string)
    requires IsCanonical(w)
    ensures Canonicalize(w) == w
  {
    assert UpperCase(w) == w;
    StripCanonical(w);
  }

  /** Stripping keeps a word made of A-Z only as it is. */
  lemma {:induction false} StripCanonical(w: string)
    requires IsCanonical(w)
    ensures StripNonLetters(w) == w
    decreases |w|
  {
    if w != [] {
      StripCanonical(w[1..]);
      assert w == [w[0]] + w[1..];
    }
  }

  /** `_canonicalize_word` is idempotent. */
  lemma CanonicalizeIdempotent(w: string)
    ensures Canonicalize(Canonicalize(w)) == Canonicalize(w)
  {
    CanonicalFixedPoint(Canonicalize(w));
  }

  /** The `i`-th letter, `chr(ord('A') + i)`. */
  function Letter(i: nat): (r: char)
    requires i < Alphabet
    ensures IsUpperLetter(r)
  {
    ('A' as int + i) as char
  }

  /** The position of an upper-case letter in the alphabet. */
  function Index(c: char): (r: nat)
    requires IsUpperLetter(c)
    ensures r < Alphabet && Letter(r) == c
  {
    c as int - 'A' as int
  }

  /** `_make_vec`: the count of each letter A..Z in `w` (a `Counter` lookup per letter). */
  function MakeVec(w: string): (r: Vec)
    ensures |r| == Alphabet && NonNegative(r)
  {
    seq(Alphabet, i requires 0 <= i < Alphabet => multiset(w)[Letter(i)])
  }

  /** Counting letters is additive over concatenation. */
  lemma MakeVecConcat(a: string, b: string)
    ensures MakeVec(a + b) == VecAdd(MakeVec(a), MakeVec(b))
  {
    assert multiset(a + b) == multiset(a) + multiset(b);
  }

  /** The signature is invariant under permuting the letters. */
  lemma MakeVecPermutation(a: string, b: string)
    requires multiset(a) == multiset(b)
    ensures MakeVec(a) == MakeVec(b)
  {
  }

  /** For canonical words, equal signatures mean anagrams: each is a permutation of the other. */
  lemma SameVecIsAnagram(a: string, b: string)
    requires IsCanonical(a) && IsCanonical(b)
    ensures MakeVec(a) == MakeVec(b) <==> multiset(a) == multiset(b)
  {
    if MakeVec(a) == MakeVec(b) {
      forall c ensures multiset(a)[c] == multiset(b)[c] {
        if IsUpperLetter(c) {
          assert MakeVec(a)[Index(c)] == MakeVec(b)[Index(c)];
        } else {
          assert c !in a && c !in b;
        }
      }
    }
  }

  /** The signature of a one-letter word: 1 at that letter, 0 elsewhere. */
  lemma SingleLetterVec(c: char)
    requires IsUpperLetter(c)
    ensures MakeVec([c]) == Unit(Alphabet, Index(c))
  {
  }

  /** The vector of length `n` with a 1 at `k` and 0 elsewhere. */
  function Unit(n: nat, k: nat): (r: Vec)
    requires k < n
    ensures |r| == n
  {
    seq(n, i requires 0 <= i < n => if i == k then 1 else 0)
  }

  lemma {:induction false} UnitSum(n: nat, k: nat)
    requires k < n
    ensures Sum(Unit(n, k)) == 1
    decreases n
  {
    if k == 0 {
      assert Unit(n, k)[1..] == Zero(n - 1);
      SumZero(n - 1);
    } else {
      assert Unit(n, k)[1..] == Unit(n - 1, k - 1);
      UnitSum(n - 1, k - 1);
    }
  }

  /** A canonical word's signature sums to its length. */
  lemma {:induction false} MakeVecSum(w: string)
    requires IsCanonical(w)
    ensures Sum(MakeVec(w)) == |w|
    decreases |w|
  {
    if w == [] {
      assert MakeVec(w) == Zero(Alphabet);
      SumZero(Alphabet);
    } else {
      assert w == [w[0]] + w[1..];
      MakeVecConcat([w[0]], w[1..]);
      SumAdd(MakeVec([w[0]]), MakeVec(w[1..]));
      SingleLetterVec(w[0]);
      UnitSum(Alphabet, Index(w[0]));
      MakeVecSum(w[1..]);
    }
  }
}
