/**
 Numbers written with the digits of an alphabet, in any letter case and with leading zeros.
 */
module Numerals {

  const LOWER: string := "0123456789abcdef"
  const UPPER: string := "0123456789ABCDEF"

  // The character `c` is the digit for `v`.
  predicate IsDigitFor(c: int, v: nat, base: nat)
  {
    v < base <= 16 && (c == LOWER[v] as int || c == UPPER[v] as int)
  }

  // The characters write the number `n`.
  predicate Spells(s: seq<int>, base: nat, n: nat)
    requires 2 <= base <= 16
    decreases |s|
  {
    s != [] && IsDigitFor(s[|s| - 1], n % base, base)
    && if |s| == 1 then n < base else Spells(s[..|s| - 1], base, n / base)
  }

  // The codes of the digits.
  lemma DigitCodes(c: int, v: nat, base: nat)
    requires IsDigitFor(c, v, base)
    ensures v < 10 ==> c == 48 + v
    ensures v >= 10 ==> c == 97 + (v - 10) || c == 65 + (v - 10)
  {
    assert LOWER[v] == "0123456789abcdef"[v] && UPPER[v] == "0123456789ABCDEF"[v];
  }

  lemma {:induction false} EachDigit(s: seq<int>, base: nat, n: nat, i: nat) returns (v: nat)
    requires 2 <= base <= 16 && Spells(s, base, n) && i < |s|
    ensures IsDigitFor(s[i], v, base)
    decreases |s|
  {
    if i == |s| - 1 {
      v := n % base;
    } else {
      v := EachDigit(s[..|s| - 1], base, n / base, i);
    }
  }
}
