/**
 * Character-level helpers shared by the numeric fields.
 *
 * `Character.isNumber` is modelled as the ASCII digits '0'..'9', and a Swift
 * `String` as the sequence of its characters.
 */
module Chars {

  /** A numeral character, as kept by `filter { $0.isNumber }`. */
  predicate IsDigit(c: char) {
    '0' <= c <= '9'
  }

  predicate AllDigits(s: string) {
    forall i :: 0 <= i < |s| ==> IsDigit(s[i])
  }

  /** `s.filter { $0.isNumber }`: the digits of `s`, in their original order. */
  function Digits(s: string): (d: string)
    ensures |d| <= |s|
    ensures AllDigits(d)
  {
    if s == [] then [] else (if IsDigit(s[0]) then [s[0]] else []) + Digits(s[1..])
  }

  /** `s.prefix(n)`: the first `n` characters, or all of them when there are fewer. */
  function Prefix(s: string, n: nat): (p: string)
    ensures |p| == if n < |s| then n else |s|
    ensures p == s[..|p|]
  {
    if n < |s| then s[..n] else s
  }

  /** A single character passes the filter iff it is a digit: a non-digit contributes nothing. */
  lemma DigitsOfChar(c: char)
    ensures Digits([c]) == if IsDigit(c) then [c] else []
  {
    assert [c][1..] == [];
  }

  /** Filtering a string that is all digits keeps it whole. */
  lemma {:induction false} DigitsOfAllDigits(s: string)
    requires AllDigits(s)
    ensures Digits(s) == s
  {
    if s != [] {
      DigitsOfAllDigits(s[1..]);
    }
  }

  /** Filtering distributes over concatenation. */
  lemma {:induction false} DigitsAppend(a: string, b: string)
    ensures Digits(a + b) == Digits(a) + Digits(b)
  {
    if a == [] {
      assert a + b == b;
    } else {
      assert (a + b)[1..] == a[1..] + b;
      DigitsAppend(a[1..], b);
    }
  }

  /** Filtering twice is filtering once. */
  lemma DigitsIdempotent(s: string)
    ensures Digits(Digits(s)) == Digits(s)
  {
    DigitsOfAllDigits(Digits(s));
  }

}
