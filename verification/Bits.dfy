/**
 Bitwise operations on numbers.
 */
module Bits {

  function Power2(k: nat): nat
  {
    if k == 0 then 1 else 2 * Power2(k - 1)
  }

  // The exclusive or of the lowest `k` bits.
  function XorBits(a: nat, b: nat, k: nat): (r: nat)
    ensures r < Power2(k)
  {
    if k == 0 then 0 else (a + b) % 2 + 2 * XorBits(a / 2, b / 2, k - 1)
  }

  lemma {:induction false} XorBitsLaws(a: nat, b: nat, k: nat)
    requires a < Power2(k)
    ensures XorBits(a, b, k) == XorBits(b, a, k) && XorBits(0, a, k) == a
  {
    if k > 0 {
      XorBitsLaws(a / 2, b / 2, k - 1);
    }
  }

  // The bitwise or.
  function Or(a: nat, b: nat): nat
  {
    if a == 0 then b else 2 * Or(a / 2, b / 2) + if a % 2 == 1 || b % 2 == 1 then 1 else 0
  }

  lemma {:induction false} OrOfZero(a: nat)
    ensures Or(a, 0) == a
  {
    if a > 0 {
      OrOfZero(a / 2);
    }
  }

  // A bitwise or adds where the bits do not meet.
  lemma {:induction false} OrAdds(c: nat, b: nat, k: nat)
    requires b < Power2(k)
    ensures Or(c * Power2(k), b) == c * Power2(k) + b
  {
    if k == 0 {
      OrOfZero(c);
    } else {
      assert c * Power2(k) == 2 * (c * Power2(k - 1));
      OrAdds(c, b / 2, k - 1);
    }
  }

  // ---- bit by bit ----

  function Bit(x: nat, i: nat): nat
  {
    if i == 0 then x % 2 else Bit(x / 2, i - 1)
  }

  /** A bit of the exclusive or is set when the bits differ. */
  lemma {:induction false} XorBitwise(a: nat, b: nat, k: nat, i: nat)
    requires i < k
    ensures Bit(XorBits(a, b, k), i) == if Bit(a, i) != Bit(b, i) then 1 else 0
  {
    var rest := XorBits(a / 2, b / 2, k - 1);
    assert XorBits(a, b, k) == (a + b) % 2 + 2 * rest;
    assert XorBits(a, b, k) / 2 == rest && XorBits(a, b, k) % 2 == (a + b) % 2;
    if i > 0 {
      XorBitwise(a / 2, b / 2, k - 1, i - 1);
    }
  }

  /** A bit of the or is set when one of the bits is. */
  lemma {:induction false} OrBitwise(a: nat, b: nat, i: nat)
    ensures Bit(Or(a, b), i) == if Bit(a, i) == 1 || Bit(b, i) == 1 then 1 else 0
    decreases i
  {
    ZeroBit(i);
    BitIs(a, i);
    BitIs(b, i);
    if a > 0 {
      var rest := Or(a / 2, b / 2);
      assert Or(a, b) / 2 == rest && Or(a, b) % 2 == if a % 2 == 1 || b % 2 == 1 then 1 else 0;
      if i > 0 {
        OrBitwise(a / 2, b / 2, i - 1);
      }
    }
  }

  lemma {:induction false} ZeroBit(i: nat)
    ensures Bit(0, i) == 0
  {
    if i > 0 {
      ZeroBit(i - 1);
    }
  }

  lemma {:induction false} BitIs(x: nat, i: nat)
    ensures Bit(x, i) == 0 || Bit(x, i) == 1
  {
    if i > 0 {
      BitIs(x / 2, i - 1);
    }
  }
}
