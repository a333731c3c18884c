/**
 Rounding a string of decimal digits: `Decimal::roundDecimal`.  The digits `ds` with the exponent
 `e` stand for `0.ds * 10^e`.
 */
module DecimalRounding {
  import opened Utf8
  import opened Text
  import opened Sequences

  function Power(k: int): (p: real)
    ensures p > 0.0
    decreases if k < 0 then -k else k
  {
    if k == 0 then 1.0 else if k > 0 then 10.0 * Power(k - 1) else Power(k + 1) / 10.0
  }

  // A product with a name, so that a proof can hide it.
  function Product(x: real, y: real): real
  {
    x * y
  }

  // The value of the digits behind the decimal point.
  function Fraction(ds: seq<byte>): (f: real)
    requires AllDigits(ds)
    ensures 0.0 <= f < 1.0
    decreases |ds|
  {
    if ds == [] then 0.0 else ((ds[0] - '0' as int) as real + Fraction(ds[1..])) / 10.0
  }

  function Value(ds: seq<byte>, e: int): real
    requires AllDigits(ds)
  {
    Product(Fraction(ds), Power(e))
  }

  // The value cut behind `n` digits, half upwards.
  function Rounded(ds: seq<byte>, e: int, n: int): real
    requires AllDigits(ds)
  {
    Product((Value(ds, n) + 0.5).Floor as real, Power(e - n))
  }

  // ---- powers ----

  lemma PowerStep(k: int)
    ensures Power(k + 1) == 10.0 * Power(k)
  {
  }

  lemma PowerZero()
    ensures Power(0) == 1.0
  {
  }

  lemma Scale(x: real, y: real)
    ensures Product(x, 10.0 * y) == 10.0 * Product(x, y) && Product(x, 1.0) == x
  {
  }

  lemma {:induction false} PowerAdd(a: int, b: int)
    ensures Power(a + b) == Product(Power(a), Power(b))
    decreases if b < 0 then -b else b
  {
    hide *;
    if b == 0 {
      PowerZero();
      Scale(Power(a), 0.0);
    } else if b > 0 {
      PowerAdd(a, b - 1);
      PowerStep(a + b - 1);
      PowerStep(b - 1);
      Scale(Power(a), Power(b - 1));
    } else {
      PowerAdd(a, b + 1);
      PowerStep(a + b);
      PowerStep(b);
      Scale(Power(a), Power(b));
    }
  }

  lemma Inverse(n: nat)
    ensures Product(Power(-(n as int)), Power(n)) == 1.0
  {
    hide *;
    PowerAdd(-(n as int), n);
    PowerZero();
  }

  // ---- digits kept and digits cut ----

  // The digits as a whole number.
  function Number(ds: seq<byte>): (n: nat)
    requires AllDigits(ds)
    decreases |ds|
  {
    if ds == [] then 0 else 10 * Number(ds[..|ds| - 1]) + (ds[|ds| - 1] - '0' as int)
  }

  lemma {:induction false} FractionOfBoth(hi: seq<byte>, lo: seq<byte>)
    requires AllDigits(hi) && AllDigits(lo)
    ensures AllDigits(hi + lo) && Fraction(hi + lo) == Fraction(hi) + Product(Fraction(lo), Power(-|hi|))
    decreases |hi|
  {
    if hi == [] {
      Unit(lo);
      PowerZero();
      Scale(Fraction(lo), 0.0);
      hide Product, Power;
    } else {
      FirstOf(hi, lo);
      var d := (hi[0] - '0' as int) as real;
      assert Fraction(hi + lo) == (d + Fraction(hi[1..] + lo)) / 10.0;
      assert Fraction(hi) == (d + Fraction(hi[1..])) / 10.0;
      assert -|hi[1..]| == -|hi| + 1;
      hide *;
      FractionOfBoth(hi[1..], lo);
      PowerStep(-|hi|);
      Scale(Fraction(lo), Power(-|hi|));
    }
  }

  /** Moved behind its last digit the point leaves a whole number. */
  lemma {:induction false} FractionNumber(ds: seq<byte>)
    requires AllDigits(ds)
    ensures Product(Fraction(ds), Power(|ds|)) == Number(ds) as real
    decreases |ds|
  {
    if ds == [] {
      Zero(Power(0));
    } else {
      var hi, last := ds[..|ds| - 1], [ds[|ds| - 1]];
      var d := (ds[|ds| - 1] - '0' as int) as real;
      LastOf(ds);
      assert AllDigits(last) && Fraction(last) == (d + Fraction(last[1..])) / 10.0 && last[1..] == [];
      assert Fraction([]) == 0.0;
      assert Number(ds) as real == 10.0 * Number(hi) as real + d;
      hide *;
      FractionNumber(hi);
      FractionOfBoth(hi, last);
      PowerStep(|hi|);
      Inverse(|hi|);
      Distribute(Fraction(hi), d / 10.0, Power(-|hi|), Power(|hi|));
      Scale(Fraction(ds), Power(|hi|));
    }
  }

  lemma Zero(x: real)
    ensures Product(0.0, x) == 0.0 && Product(1.0, x) == x
  {
  }

  lemma Distribute(a: real, b: real, p: real, q: real)
    requires Product(p, q) == 1.0
    ensures Product(a + Product(b, p), q) == Product(a, q) + b
  {
    assert (a + b * p) * q == a * q + b * (p * q);
  }

  // What is added to the digits that are kept.
  function Carry(ds: seq<byte>, n: nat): nat
    requires n < |ds|
  {
    if ds[n] >= '5' as int then 1 else 0
  }

  lemma Cut(ds: seq<byte>, n: nat)
    requires AllDigits(ds) && n < |ds|
    ensures (Value(ds, n) + 0.5).Floor == Number(ds[..n]) + Carry(ds, n)
  {
    var hi, lo := ds[..n], ds[n..];
    assert hi + lo == ds;
    assert Fraction(lo) == ((lo[0] - '0' as int) as real + Fraction(lo[1..])) / 10.0;
    assert Carry(ds, n) == if Fraction(lo) >= 0.5 then 1 else 0;
    assert Value(ds, n) == Product(Fraction(ds), Power(n));
    hide *;
    FractionOfBoth(hi, lo);
    FractionNumber(hi);
    Inverse(n);
    Distribute(Fraction(hi), Fraction(lo), Power(-(n as int)), Power(n));
    FloorOf(Number(hi), Fraction(lo), Carry(ds, n));
  }

  lemma FloorOf(n: nat, f: real, c: nat)
    requires 0.0 <= f < 1.0 && c == if f >= 0.5 then 1 else 0
    ensures (n as real + f + 0.5).Floor == n + c
  {
  }

  // ---- the loop ----

  lemma Swap(x: real, y: real, z: real)
    ensures Product(Product(x, y), z) == Product(x, Product(y, z))
  {
  }

  /** With no digit to cut the value stays as it is. */
  lemma Whole(ds: seq<byte>, n: nat, e: int)
    requires AllDigits(ds) && n >= |ds|
    ensures Rounded(ds, e, n) == Value(ds, e)
  {
    assert Value(ds, n) == Product(Fraction(ds), Power(n)) && Value(ds, e) == Product(Fraction(ds), Power(e));
    assert Rounded(ds, e, n) == Product((Value(ds, n) + 0.5).Floor as real, Power(e - n));
    hide *;
    var m := Multiple(ds, n);
    FloorOf(m, 0.0, 0);
    Swap(Fraction(ds), Power(n), Power(e - n));
    PowerAdd(n, e - n);
  }

  lemma {:induction false} Multiple(ds: seq<byte>, n: nat) returns (m: nat)
    requires AllDigits(ds) && n >= |ds|
    ensures Value(ds, n) == m as real
    decreases n
  {
    if n == |ds| {
      FractionNumber(ds);
      m := Number(ds);
    } else {
      m := Multiple(ds, n - 1);
      PowerStep(n - 1);
      Scale(Fraction(ds), Power(n - 1));
      m := 10 * m;
      hide Product, Fraction, Power;
    }
  }

  lemma {:induction false} Small(k: int)
    requires k < 0
    ensures Power(k) <= 0.1
    decreases -k
  {
    PowerStep(k);
    if k == -1 {
      PowerZero();
    } else {
      Small(k + 1);
    }
  }

  /** With every digit cut, and one more, nothing is left. */
  lemma Below(ds: seq<byte>, n: int, e: int)
    requires AllDigits(ds) && n < 0
    ensures Rounded(ds, e, n) == 0.0
  {
    Small(n);
    Less(Fraction(ds), Power(n));
    assert Value(ds, n) == Product(Fraction(ds), Power(n));
    assert Rounded(ds, e, n) == Product((Value(ds, n) + 0.5).Floor as real, Power(e - n));
    Zero(Power(e - n));
    hide *;
  }

  lemma Less(f: real, p: real)
    requires 0.0 <= f < 1.0 && 0.0 < p <= 0.1
    ensures 0.0 <= Product(f, p) <= 0.1
  {
    assert f * p <= 1.0 * p;
  }

  lemma NumberOfLonger(ds: seq<byte>, d: byte)
    requires AllDigits(ds) && IsDigit(d)
    ensures AllDigits(ds + [d]) && Number(ds + [d]) == 10 * Number(ds) + (d - '0' as int)
  {
    assert (ds + [d])[..|ds|] == ds;
  }

  // A carry over a nine.
  lemma CarryOn(x: nat, k: int)
    ensures Tenths(10 * x, k) == Tenths(x, k + 1)
  {
    PowerStep(k);
    Tenfold(x as real, Power(k));
    hide Product, Power;
  }

  // A whole number with the point moved.
  function Tenths(n: nat, k: int): real
  {
    Product(n as real, Power(k))
  }

  lemma Tenfold(x: real, y: real)
    ensures Product(10.0 * x, y) == Product(x, 10.0 * y)
  {
  }

  // The digits that are left stand for the rounded number.
  lemma Finish(dec: seq<byte>, m: nat, n: nat, e: int, e': int)
    requires AllDigits(dec)
    requires Tenths(Number(dec), n + e' - e - |dec|) == Tenths(m, 0)
    ensures Value(dec, e') == Tenths(m, e - n)
  {
    assert Value(dec, e') == Product(Fraction(dec), Power(e'));
    var k := n + e' - e - |dec|;
    assert Tenths(Number(dec), k) == Product(Number(dec) as real, Power(k));
    assert Tenths(m, 0) == Product(m as real, Power(0)) && Tenths(m, e - n) == Product(m as real, Power(e - n));
    hide *;
    PowerZero();
    Scale(m as real, 0.0);
    FractionNumber(dec);
    Swap(Fraction(dec), Power(|dec|), Power(k));
    PowerAdd(|dec|, k);
    Swap(Fraction(dec), Power(|dec| + k), Power(e - n));
    PowerAdd(|dec| + k, e - n);
  }

  /** `roundDecimal`: the value rounded half upwards at any place, before, inside or behind the digits. */
  method RoundDecimal(digits: seq<byte>, exponent: int, newLength: int) returns (dec: seq<byte>, exp10: int)
    requires AllDigits(digits)
    ensures AllDigits(dec) && Value(dec, exp10) == Rounded(digits, exponent, newLength)
    ensures 0 <= newLength < |digits| ==> 0 < |dec| <= if newLength == 0 then 1 else newLength
  {
    hide *;
    dec, exp10 := digits, exponent;
    if newLength < 0 {
      Below(digits, newLength, exponent);
      NothingLeft(exp10);
      dec := ['0' as int];
    } else if newLength < |dec| {
      Cut(digits, newLength);
      Kept(digits, newLength);
      ghost var m := Number(digits[..newLength]) + Carry(digits, newLength);
      RoundedIs(digits, exponent, newLength, m);
      var length, carry;
      dec, length, carry := AddCarry(digits, newLength);
      TotalIs(digits[..newLength], Carry(digits, newLength), 0);
      TotalIs(dec, carry, newLength - length);
      OneDigit();
      if carry == 1 {
        exp10 := exp10 + 1;
        dec := dec + ['1' as int];
        Unit(['1' as int]);
      } else if length == 0 {
        ZeroTenths(newLength);
        ZeroTenths(newLength - 1);
        dec := ['0' as int];
      }
      Finish(dec, m, newLength, exponent, exp10);
    } else {
      Whole(digits, newLength, exponent);
    }
  }

  // The digits that are kept, the carry added to them, and the point moved.
  function Total(dec: seq<byte>, carry: nat, k: int): real
    requires AllDigits(dec)
  {
    Tenths(Number(dec) + carry, k)
  }

  // The next turn: a ten is taken off and carried on, or the carry ends.
  lemma CarryStep(dec: seq<byte>, carry: nat, k: int)
    requires AllDigits(dec) && dec != [] && carry <= 1
    ensures var n, c := |dec| - 1, dec[|dec| - 1] + carry;
            AllDigits(dec[..n])
            && (c > '9' as int ==> Total(dec[..n], 1, k + 1) == Total(dec, carry, k))
            && (c <= '9' as int ==> AllDigits(dec[..n] + [c]) && Total(dec[..n] + [c], 0, k) == Total(dec, carry, k))
  {
    var n, c := |dec| - 1, dec[|dec| - 1] + carry;
    LastOf(dec);
    NumberOfLonger(dec[..n], dec[n]);
    if c > '9' as int {
      CarryOn(Number(dec[..n]) + 1, k);
    } else {
      NumberOfLonger(dec[..n], c);
    }
    hide Number, Tenths;
  }

  // The loop that carries into the digits that are kept and takes the zeros off that it leaves.
  method AddCarry(digits: seq<byte>, cut: nat) returns (dec: seq<byte>, newLength: nat, carry: nat)
    requires AllDigits(digits) && cut < |digits|
    ensures |dec| == newLength <= cut && AllDigits(dec) && carry <= 1 && (carry == 1 ==> newLength == 0)
    ensures AllDigits(digits[..cut])
    ensures Total(dec, carry, cut - newLength) == Total(digits[..cut], Carry(digits, cut), 0)
  {
    newLength := cut;
    var l := newLength + 1;
    carry := if digits[l - 1] >= '5' as int then 1 else 0;
    dec := digits[..l - 1];
    ghost var k: int, total := 0, Total(dec, carry, 0);
    while newLength > 0
      invariant |dec| == newLength && l == newLength + 1 && AllDigits(dec)
      invariant carry <= 1 && k + newLength == cut
      invariant Total(dec, carry, k) == total
      decreases newLength
    {
      hide *;
      l := l - 1;
      CarryStep(dec, carry, k);
      var c := dec[l - 1] - '0' as int + carry;
      carry := if c > 9 then 1 else 0;
      if carry == 1 {
        newLength := newLength - 1;
        dec := dec[..newLength];
        k := k + 1;
      } else {
        dec := dec[..l - 1] + [c + '0' as int];
        break;
      }
    }
  }

  lemma ZeroTenths(k: int)
    ensures Tenths(0, k) == 0.0
  {
    Zero(Power(k));
    hide Power;
  }

  lemma Kept(ds: seq<byte>, n: nat)
    requires AllDigits(ds) && n <= |ds|
    ensures AllDigits(ds[..n])
  {
  }

  lemma TotalIs(dec: seq<byte>, carry: nat, k: int)
    requires AllDigits(dec)
    ensures Total(dec, carry, k) == Tenths(Number(dec) + carry, k)
    ensures dec == [] ==> Number(dec) == 0
  {
  }

  lemma OneDigit()
    ensures AllDigits(['0' as int]) && Number(['0' as int]) == 0
    ensures AllDigits(['1' as int]) && Number(['1' as int]) == 1
  {
  }

  lemma RoundedIs(ds: seq<byte>, e: int, n: nat, m: nat)
    requires AllDigits(ds) && (Value(ds, n) + 0.5).Floor == m
    ensures Rounded(ds, e, n) == Tenths(m, e - n)
  {
  }

  lemma NothingLeft(e: int)
    ensures AllDigits(['0' as int]) && Value(['0' as int], e) == 0.0
  {
    Zero(Power(e));
    assert ['0' as int][1..] == [];
    assert Fraction(['0' as int]) == 0.0;
    hide Power;
  }
}
