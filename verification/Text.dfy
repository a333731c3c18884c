/**
 Byte strings: literals and numbers written in decimal.
 */
module Text {
  import opened Utf8

  // The bytes of a literal.
  function Ascii(s: string): (r: seq<byte>)
    ensures |r| == |s| && forall i :: 0 <= i < |s| ==> r[i] == s[i] as int % 256
  {
    seq<byte>(|s|, i requires 0 <= i < |s| => s[i] as int % 256)
  }

  // A number as a stream writes it.
  function Digits(n: nat): seq<byte>
  {
    if n < 10 then ['0' as int + n] else Digits(n / 10) + ['0' as int + n % 10]
  }

  // A digit of `kHex`.
  function HexDigit(d: nat): byte
    requires d < 16
  {
    if d < 10 then '0' as int + d else 'a' as int + d - 10
  }

  predicate IsDigit(ch: unicode)
  {
    '0' as int <= ch <= '9' as int
  }

  predicate AllDigits(ds: seq<byte>)
  {
    forall i :: 0 <= i < |ds| ==> IsDigit(ds[i])
  }

  // What a number read so far becomes when the digits `ds` follow it.
  function Accumulate(m: int, ds: seq<byte>): int
    requires AllDigits(ds)
    decreases |ds|
  {
    if ds == [] then m else Accumulate(10 * m + (ds[0] - '0' as int), ds[1..])
  }

  lemma {:induction false} AccumulateSnoc(m: int, ds: seq<byte>, d: byte)
    requires AllDigits(ds) && IsDigit(d)
    ensures AllDigits(ds + [d])
    ensures Accumulate(m, ds + [d]) == 10 * Accumulate(m, ds) + (d - '0' as int)
    decreases |ds|
  {
    if ds == [] {
      assert ds + [d] == [d] && [d][1..] == [];
    } else {
      assert (ds + [d])[1..] == ds[1..] + [d];
      AccumulateSnoc(10 * m + (ds[0] - '0' as int), ds[1..], d);
    }
  }

  lemma {:induction false} DigitsValue(n: nat)
    ensures var ds := Digits(n);
      && ds != [] && AllDigits(ds)
      && Accumulate(0, ds) == n && (n > 0 ==> ds[0] != '0' as int) && (n == 0 ==> |ds| == 1)
  {
    if n >= 10 {
      DigitsValue(n / 10);
      AccumulateSnoc(0, Digits(n / 10), '0' as int + n % 10);
    } else {
      assert Digits(n)[1..] == [];
    }
  }
}
