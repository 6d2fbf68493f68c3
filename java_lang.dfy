/** The few pieces of Java semantics the searcher depends on: 32-bit `int`
    arithmetic, the remainder operator `%` (which truncates toward zero, as
    `fmod` does on doubles) and ASCII case handling for strings. */
module JavaLang {

  const IntMin: int := -0x8000_0000
  const IntMax: int := 0x7fff_ffff
  const IntRange: int := 0x1_0000_0000

  /** `x` fits in a Java `int`. */
  predicate IsInt(x: int) {
    IntMin <= x <= IntMax
  }

  /** The Java `int` that an exact result `x` wraps around to: the one
      value in range that differs from `x` by a multiple of 2^32. */
  function Wrap(x: int): (r: int)
    ensures IsInt(r)
    ensures (r - x) % IntRange == 0
    ensures IsInt(x) ==> r == x
  {
    (x - IntMin) % IntRange + IntMin
  }

  /** Java's `a % m` for a positive divisor: the remainder keeps the sign of
      the dividend and is smaller than the divisor in magnitude. */
  function Rem(a: int, m: int): (r: int)
    requires m > 0
    ensures -m < r < m
    ensures a >= 0 ==> r == a % m
    ensures a < 0 ==> -r == (-a) % m
    ensures -m < a < m ==> r == a
  {
    var n := if a >= 0 then a else -a;
    ModOfSmall(n, m);
    if a >= 0 then n % m else -(n % m)
  }

  lemma ModOfSmall(n: nat, m: int)
    requires m > 0
    ensures 0 <= n % m < m
    ensures n < m ==> n % m == n
  {
  }

  /** `Character.toLowerCase`, restricted to ASCII letters. */
  function ToLower(c: char): char {
    if 'A' <= c <= 'Z' then (c as int - 'A' as int + 'a' as int) as char else c
  }

  /** `String.toLowerCase`, restricted to ASCII letters. */
  function Lower(s: string): (r: string)
    ensures |r| == |s|
    ensures forall i :: 0 <= i < |s| ==> r[i] == ToLower(s[i])
  {
    seq(|s|, i requires 0 <= i < |s| => ToLower(s[i]))
  }

  /** A string without upper-case ASCII letters is its own lower-case form. */
  lemma LowerOfLowerCase(s: string)
    requires forall i :: 0 <= i < |s| ==> !('A' <= s[i] <= 'Z')
    ensures Lower(s) == s
  {
  }

  /** `String.equalsIgnoreCase`, restricted to ASCII letters: the same
      length, and the same characters position by position once lower-cased. */
  predicate EqualsIgnoreCase(a: string, b: string) {
    |a| == |b| && forall i :: 0 <= i < |a| ==> ToLower(a[i]) == ToLower(b[i])
  }

  /** Two strings are equal ignoring case exactly when their lower-cased
      forms are equal. */
  lemma EqualsIgnoreCaseIff(a: string, b: string)
    ensures EqualsIgnoreCase(a, b) <==> Lower(a) == Lower(b)
  {
    if Lower(a) == Lower(b) {
      assert forall i :: 0 <= i < |a| ==> Lower(a)[i] == Lower(b)[i];
    }
  }

  /** Lower-casing twice is lower-casing once, so lower-casing one side of
      `equalsIgnoreCase` changes nothing. */
  lemma LowerIdempotent(s: string)
    ensures Lower(Lower(s)) == Lower(s)
    ensures forall t :: EqualsIgnoreCase(Lower(s), t) <==> EqualsIgnoreCase(s, t)
  {
    assert forall i :: 0 <= i < |s| ==> Lower(Lower(s))[i] == Lower(s)[i];
    forall t
      ensures EqualsIgnoreCase(Lower(s), t) <==> EqualsIgnoreCase(s, t)
    {
      EqualsIgnoreCaseIff(Lower(s), t);
      EqualsIgnoreCaseIff(s, t);
    }
  }

  /** A prefix as long as the sequence is the sequence. */
  lemma TakeAll<T>(s: seq<T>, i: int)
    requires i == |s|
    ensures s[..i] == s
  {
  }

  /** A prefix one element longer is the prefix with that element appended. */
  lemma TakeOneMore<T>(s: seq<T>, i: int)
    requires 0 <= i < |s|
    ensures s[..i + 1] == s[..i] + [s[i]]
  {
  }
}
