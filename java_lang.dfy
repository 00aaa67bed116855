/** The few pieces of Java's built-in semantics that the paging provider relies on:
    32-bit `int` arithmetic, `String.replace` with a one-character target and an
    empty replacement, and `String.trim`. */
module JavaLang {

  const MIN_INT: int := -0x8000_0000
  const MAX_INT: int := 0x7FFF_FFFF
  const TWO_32: int := 0x1_0000_0000

  /** `x` is a value of Java's `int` type. */
  predicate IsInt(x: int) {
    MIN_INT <= x <= MAX_INT
  }

  /** The `int` that Java's two's-complement arithmetic yields when the exact
      result of an addition is `x`. */
  function Wrap(x: int): (r: int)
    ensures IsInt(r)
    ensures IsInt(x) ==> r == x
  {
    (x - MIN_INT) % TWO_32 + MIN_INT
  }

  /** The wrapped value differs from the exact one by a multiple of 2^32. */
  lemma WrapCongruent(x: int)
    ensures (Wrap(x) - x) % TWO_32 == 0
  {
  }

  /** A sum below `MIN_INT` by less than 2^32 wraps up by exactly 2^32: this is
      the underflow of adding two negative `int`s. */
  lemma WrapUnderflow(x: int)
    requires MIN_INT - TWO_32 <= x < MIN_INT
    ensures Wrap(x) == x + TWO_32
  {
    var y := x - MIN_INT + TWO_32;
    assert 0 <= y < TWO_32;
    assert (y - TWO_32) % TWO_32 == y;
  }

  /** `s.replace(String.valueOf(c), "")`: every occurrence of `c` is deleted and
      every other character is kept, as many times as it occurs. */
  function RemoveAll(s: string, c: char): (r: string)
    ensures c !in r
    ensures forall x :: x in r <==> x in s && x != c
    ensures |r| <= |s|
  {
    if s == [] then [] else (if s[0] == c then [] else [s[0]]) + RemoveAll(s[1..], c)
  }

  /** Every character other than `c` survives as many times as it occurs. */
  lemma {:induction false} RemoveAllCounts(s: string, c: char)
    ensures forall x :: multiset(RemoveAll(s, c))[x] == if x == c then 0 else multiset(s)[x]
  {
    if s != [] {
      RemoveAllCounts(s[1..], c);
      assert s == [s[0]] + s[1..];
      assert multiset(s) == multiset([s[0]]) + multiset(s[1..]);
      var head: string := if s[0] == c then [] else [s[0]];
      assert multiset(RemoveAll(s, c)) == multiset(head) + multiset(RemoveAll(s[1..], c));
    }
  }

  /** Removing a character that does not occur changes nothing. */
  lemma {:induction false} RemoveAllAbsent(s: string, c: char)
    requires c !in s
    ensures RemoveAll(s, c) == s
  {
    if s != [] {
      RemoveAllAbsent(s[1..], c);
    }
  }

  /** Deleting a character commutes with concatenation, so the kept characters stay
      in their original order. */
  lemma {:induction false} RemoveAllConcat(a: string, b: string, c: char)
    ensures RemoveAll(a + b, c) == RemoveAll(a, c) + RemoveAll(b, c)
  {
    if a != [] {
      RemoveAllConcat(a[1..], b, c);
      assert (a + b)[1..] == a[1..] + b;
    } else {
      assert a + b == b;
    }
  }

  /** `String.trim` drops the characters up to and including U+0020 at either end. */
  predicate IsTrimmed(ch: char) {
    ch <= ' '
  }

  /** How many characters the leading half of `String.trim` drops. */
  function LeadingTrimmed(s: string): (n: nat)
    ensures n <= |s|
    ensures forall k :: 0 <= k < n ==> IsTrimmed(s[k])
    ensures n == |s| || !IsTrimmed(s[n])
  {
    if s != [] && IsTrimmed(s[0]) then 1 + LeadingTrimmed(s[1..]) else 0
  }

  /** How many characters the trailing half of `String.trim` drops. */
  function TrailingTrimmed(s: string): (n: nat)
    ensures n <= |s|
    ensures forall k :: |s| - n <= k < |s| ==> IsTrimmed(s[k])
    ensures n == |s| || !IsTrimmed(s[|s| - 1 - n])
  {
    if s != [] && IsTrimmed(s[|s| - 1]) then 1 + TrailingTrimmed(s[..|s| - 1]) else 0
  }

  /** `s.trim()`: a slice of `s` that neither starts nor ends with a trimmed character. */
  function Trim(s: string): (r: string)
    ensures |r| <= |s|
    ensures r == [] || (!IsTrimmed(r[0]) && !IsTrimmed(r[|r| - 1]))
  {
    var rest := s[LeadingTrimmed(s)..];
    rest[..|rest| - TrailingTrimmed(rest)]
  }

  /** `trim()` returns the infix of `s` left after dropping a prefix and a suffix
      made only of characters up to U+0020; with the ends of `Trim` this fixes the
      result uniquely. */
  lemma TrimInfix(s: string)
    ensures exists a, b :: 0 <= a <= b <= |s| && Trim(s) == s[a..b] &&
              (forall k :: 0 <= k < a ==> IsTrimmed(s[k])) &&
              (forall k :: b <= k < |s| ==> IsTrimmed(s[k]))
  {
    var a := LeadingTrimmed(s);
    var rest := s[a..];
    var b := a + |rest| - TrailingTrimmed(rest);
    assert Trim(s) == s[a..b];
    forall k | b <= k < |s|
      ensures IsTrimmed(s[k])
    {
      assert s[k] == rest[k - a];
    }
  }

  /** A string that neither starts nor ends with a character up to U+0020 is its own
      `trim()`. */
  lemma TrimUntrimmed(s: string)
    requires s == [] || (!IsTrimmed(s[0]) && !IsTrimmed(s[|s| - 1]))
    ensures Trim(s) == s
  {
  }

  /** Trimming twice is trimming once. */
  lemma TrimIdempotent(s: string)
    ensures Trim(Trim(s)) == Trim(s)
  {
    TrimUntrimmed(Trim(s));
  }
}
