/** The word hash used as the index key: a modular hash with base 53 and
    modulus 10^9 + 9, after the string-hashing recipe of cp-algorithms.
    As written, the power index is never advanced, so every character is
    weighted by the first power, 53^0 = 1: the hash is the (Java-remainder)
    sum of the lower-cased character values. */
module Hashing {
  import opened JavaLang

  const Base: int := 53
  const Modulus: int := 1_000_000_009
  /** Number of precomputed powers. */
  const PowTableSize: nat := 20

  /** Ordinary exponentiation, the reference for the power table. */
  function Power(b: nat, e: nat): nat {
    if e == 0 then 1 else Power(b, e - 1) * b
  }

  /** Entry `i` of the power table as the table's loop computes it:
      each entry is the previous one times the base, reduced. */
  function PowMod(i: nat): (r: int)
    ensures 0 <= r < Modulus
  {
    if i == 0 then 1 else Rem(PowMod(i - 1) * Base, Modulus)
  }

  /** Reducing after every multiplication gives 53^i mod (10^9 + 9). */
  lemma {:induction false} PowModIsPower(i: nat)
    ensures PowMod(i) == Power(Base, i) % Modulus
  {
    if i > 0 {
      PowModIsPower(i - 1);
      MulBaseMod(Power(Base, i - 1));
    }
  }

  lemma MulBaseMod(a: nat)
    ensures (a % Modulus * Base) % Modulus == (a * Base) % Modulus
  {
    var q, r := a / Modulus, a % Modulus;
    assert a * Base == r * Base + (q * Base) * Modulus;
  }

  /** The power table is what `PowArray` returns. */
  ghost predicate IsPowTable(pows: array<int>)
    reads pows
  {
    pows.Length == PowTableSize &&
    forall i :: 0 <= i < PowTableSize ==> pows[i] == PowMod(i)
  }

  /** Fills the power table: entry 0 is 1, entry i is 53^i mod (10^9 + 9). */
  method PowArray() returns (pows: array<int>)
    ensures pows.Length == PowTableSize
    ensures forall i :: 0 <= i < PowTableSize ==> pows[i] == Power(Base, i) % Modulus
    ensures IsPowTable(pows)
  {
    pows := new int[PowTableSize];
    pows[0] := 1;
    var i := 1;
    while i <= 19
      invariant 1 <= i <= PowTableSize
      invariant forall j :: 0 <= j < i ==> pows[j] == PowMod(j)
    {
      var next := Rem(pows[i - 1] * Base, Modulus);
      assert next == PowMod(i);
      pows[i] := next;
      i := i + 1;
    }
    forall j | 0 <= j < PowTableSize
      ensures pows[j] == Power(Base, j) % Modulus
    {
      PowModIsPower(j);
    }
  }

  /** The value `c - 'a' + 1` a character contributes: 1 to 26 for the
      lower-case letters, negative for digits and the apostrophe. */
  function CharValue(c: char): int {
    c as int - 'a' as int + 1
  }

  /** The accumulator of the hash loop after the characters of `w`, each
      step being `(h + value * p_pows[0]) % m` with `p_pows[0] == 1`. */
  function Accumulate(w: string): (h: int)
    ensures -Modulus < h < Modulus
  {
    if w == [] then 0
    else Rem(Accumulate(w[..|w| - 1]) + CharValue(w[|w| - 1]), Modulus)
  }

  /** The index key of a word: the accumulator over its lower-cased form. */
  function Hash(s: string): (h: int)
    ensures -Modulus < h < Modulus
  {
    Accumulate(Lower(s))
  }

  /** The key is case-insensitive. */
  lemma HashIgnoresCase(s: string, t: string)
    requires EqualsIgnoreCase(s, t)
    ensures Hash(s) == Hash(t)
  {
    EqualsIgnoreCaseIff(s, t);
  }

  /** `compute_hash`: lower-cases the word and folds its characters into the
      accumulator, always with the power at index 0. */
  method ComputeHash(pPows: array<int>, s: string) returns (h: int)
    requires IsPowTable(pPows)
    ensures h == Hash(s)
  {
    var lower := Lower(s);
    h := 0;
    var index := 0;
    var i := 0;
    while i < |lower|
      invariant 0 <= i <= |lower|
      invariant h == Accumulate(lower[..i])
    {
      assert lower[..i + 1][..i] == lower[..i];
      assert Accumulate(lower[..i + 1]) == Rem(h + CharValue(lower[i]), Modulus);
      assert pPows[index] == PowMod(0) == 1;
      h := Rem(h + CharValue(lower[i]) * pPows[index], Modulus);
      i := i + 1;
    }
    assert lower[..i] == lower;
  }

  /** Plain sum of the character values, the reference for `Accumulate`. */
  function CodeSum(w: string): int {
    if w == [] then 0 else CodeSum(w[..|w| - 1]) + CharValue(w[|w| - 1])
  }

  /** Longest word for which no intermediate sum can reach the modulus,
      whatever its characters. */
  const ExactLength: nat := 800
  const CharValueBound: nat := 0x11_0000

  /** For words of at most 800 characters the remainder never bites, so the
      hash is the plain sum of the character values. */
  lemma {:induction false} AccumulateIsSum(w: string)
    requires |w| <= ExactLength
    ensures Accumulate(w) == CodeSum(w)
    ensures -|w| * CharValueBound < CodeSum(w) < |w| * CharValueBound || w == []
  {
    if w != [] {
      var p := w[..|w| - 1];
      AccumulateIsSum(p);
      assert -|p| * CharValueBound <= CodeSum(p) <= |p| * CharValueBound;
      assert -(CharValueBound as int) < CharValue(w[|w| - 1]) < CharValueBound;
      assert |w| * CharValueBound <= ExactLength * CharValueBound < Modulus;
    }
  }

  lemma {:induction false} CodeSumAppend(a: string, b: string)
    ensures CodeSum(a + b) == CodeSum(a) + CodeSum(b)
  {
    if b == [] {
      assert a + b == a;
    } else {
      var b' := b[..|b| - 1];
      assert (a + b)[..|a + b| - 1] == a + b';
      assert (a + b)[|a + b| - 1] == b[|b| - 1];
      CodeSumAppend(a, b');
    }
  }

  /** The character sum depends only on the multiset of characters. */
  lemma {:induction false} CodeSumPermutation(w: string, v: string)
    requires multiset(w) == multiset(v)
    ensures CodeSum(w) == CodeSum(v)
    decreases |w|
  {
    if w != [] {
      var x := w[|w| - 1];
      var w' := w[..|w| - 1];
      assert w == w' + [x];
      assert x in multiset(v);
      var j :| 0 <= j < |v| && v[j] == x;
      var v' := v[..j] + v[j + 1..];
      assert v == v[..j] + [x] + v[j + 1..];
      assert multiset(v') == multiset(v) - multiset{x};
      assert multiset(w') == multiset(w) - multiset{x};
      CodeSumPermutation(w', v');
      CodeSumAppend(v[..j] + [x], v[j + 1..]);
      CodeSumAppend(v[..j], [x]);
      CodeSumAppend(v[..j], v[j + 1..]);
      assert CodeSum([x]) == CharValue(x) by {
        assert [x][..0] == [];
      }
    } else {
      assert |v| == |multiset(v)| == 0;
    }
  }

  /** Anagrams collide: two words of at most 800 characters whose lower-cased
      forms have the same characters get the same key. */
  lemma AnagramsCollide(s: string, t: string)
    requires |s| <= ExactLength
    requires multiset(Lower(s)) == multiset(Lower(t))
    ensures Hash(s) == Hash(t)
  {
    assert |Lower(t)| == |multiset(Lower(t))| == |multiset(Lower(s))| == |s|;
    AccumulateIsSum(Lower(s));
    AccumulateIsSum(Lower(t));
    CodeSumPermutation(Lower(s), Lower(t));
  }

  /** While the running sum stays non-negative, the truncating remainder is
      the ordinary one, so reducing at every step is reducing once at the end. */
  lemma {:induction false} AccumulateIsSumMod(w: string)
    requires forall c :: c in w ==> CharValue(c) >= 0
    ensures CodeSum(w) >= 0 && Accumulate(w) == CodeSum(w) % Modulus
  {
    if w != [] {
      var p, c := w[..|w| - 1], w[|w| - 1];
      assert forall x :: x in p ==> x in w;
      AccumulateIsSumMod(p);
      assert c in w;
      AddMod(CodeSum(p), CharValue(c));
    }
  }

  lemma AddMod(a: nat, c: nat)
    ensures (a % Modulus + c) % Modulus == (a + c) % Modulus
  {
    var q := a / Modulus;
    assert a + c == (a % Modulus + c) + q * Modulus;
  }

  /** Anagrams of any length collide when every lower-cased character is
      worth at least 0 (the lower-case letters among them). */
  lemma LetterAnagramsCollide(s: string, t: string)
    requires forall c :: c in Lower(s) ==> CharValue(c) >= 0
    requires multiset(Lower(s)) == multiset(Lower(t))
    ensures Hash(s) == Hash(t)
  {
    forall c | c in Lower(t)
      ensures CharValue(c) >= 0
    {
      assert c in multiset(Lower(t));
    }
    AccumulateIsSumMod(Lower(s));
    AccumulateIsSumMod(Lower(t));
    CodeSumPermutation(Lower(s), Lower(t));
  }

  /** Two different words that share a key: the hash ignores position. */
  lemma DistinctWordsCollide()
    ensures "no" != "on" && Hash("no") == Hash("on")
  {
    assert "no"[0] != "on"[0];
    LowerOfLowerCase("no");
    LowerOfLowerCase("on");
    assert multiset("no") == multiset("on");
    AnagramsCollide("no", "on");
  }
}
