/**
 UTF-8 as the JSON and XML code handles it: appending a character to a byte string and
 reading one back (RFC 3629, section 3).
 */
module Utf8 {

  type byte = x: int | 0 <= x < 256

  // `char32_t`
  type unicode = x: int | 0 <= x < 0x1_0000_0000

  // A Unicode scalar value.
  predicate Scalar(u: unicode)
  {
    u < 0xD800 || 0xE000 <= u <= 0x10FFFF
  }

  // `append`: the bytes put at the end of the string.  The leading byte of the longest form
  // keeps only the low bits of an oversized character.
  function Encode(u: unicode): (s: seq<byte>)
    ensures 1 <= |s| <= 4
  {
    var (v, w, x) := (u / 0x40, u / 0x40 / 0x40, u / 0x40 / 0x40 / 0x40);
    if u < 0x80 then [u]
    else if u < 0x800 then [0xC0 + v, 0x80 + u % 0x40]
    else if u < 0x1_0000 then [0xE0 + w, 0x80 + v % 0x40, 0x80 + u % 0x40]
    else [0xF0 + x % 0x10, 0x80 + w % 0x40, 0x80 + v % 0x40, 0x80 + u % 0x40]
  }

  function EncodeAll(us: seq<unicode>): seq<byte>
  {
    if us == [] then [] else Encode(us[0]) + EncodeAll(us[1..])
  }

  // How many bytes follow a leading byte; a byte that cannot lead stands for itself.
  function Following(b: byte): nat
  {
    if 0xC0 <= b < 0xE0 then 1 else if 0xE0 <= b < 0xF0 then 2 else if 0xF0 <= b < 0xF8 then 3 else 0
  }

  predicate Continuation(b: byte)
  {
    0x80 <= b < 0xC0
  }

  // The character that a leading byte and the bytes behind it stand for.
  function Assemble(b: byte, ch: seq<byte>): unicode
    requires |ch| == Following(b)
  {
    if |ch| == 0 then b
    else if |ch| == 1 then Shift(b % 0x20, ch[0])
    else if |ch| == 2 then Shift(Shift(b % 0x10, ch[0]), ch[1])
    else Shift(Shift(Shift(b % 0x08, ch[0]), ch[1]), ch[2])
  }

  function Shift(u: int, b: byte): int
  {
    u * 0x40 + b % 0x40
  }

  // `get_first_char`, for a string that holds all the bytes its leading byte promises.
  function Decode(s: seq<byte>): unicode
    requires s != [] && 1 + Following(s[0]) <= |s|
  {
    Assemble(s[0], s[1..1 + Following(s[0])])
  }

  /** Every scalar value is read back from the bytes that were appended for it. */
  lemma DecodeEncode(u: unicode)
    requires u <= 0x10FFFF
    ensures var s := Encode(u);
      && |s| == 1 + Following(s[0]) && Decode(s) == u
      && (forall i :: 1 <= i < |s| ==> Continuation(s[i]))
      && (u < 0x80 <==> s[0] < 0x80)
  {
    if u < 0x80 {
      Lead(u, [], u);
    } else if u < 0x800 {
      DecodeTwo(u);
    } else if u < 0x1_0000 {
      DecodeThree(u);
    } else {
      DecodeFour(u);
    }
  }

  lemma DecodeTwo(u: unicode)
    requires 0x80 <= u < 0x800
    ensures var s := Encode(u); Following(s[0]) == 1 && Continuation(s[1]) && Decode(s) == u
  {
    Unshift(u);
    Lead(0xC0 + u / 0x40, [0x80 + u % 0x40], u);
  }

  lemma DecodeThree(u: unicode)
    requires 0x800 <= u < 0x1_0000
    ensures var s := Encode(u); Following(s[0]) == 2 && Continuation(s[1]) && Continuation(s[2]) && Decode(s) == u
  {
    var v := u / 0x40;
    Unshift(u);
    Unshift(v);
    Lead(0xE0 + v / 0x40, [0x80 + v % 0x40, 0x80 + u % 0x40], u);
  }

  lemma DecodeFour(u: unicode)
    requires 0x1_0000 <= u <= 0x10FFFF
    ensures var s := Encode(u);
      Following(s[0]) == 3 && (forall i :: 1 <= i < 4 ==> Continuation(s[i])) && Decode(s) == u
  {
    var v, w, x := u / 0x40, u / 0x40 / 0x40, u / 0x40 / 0x40 / 0x40;
    assert Encode(u) == [0xF0 + x] + [0x80 + w % 0x40, 0x80 + v % 0x40, 0x80 + u % 0x40] by {
      assert x % 0x10 == x;
    }
    AssembleFour(x, 0x80 + w % 0x40, 0x80 + v % 0x40, 0x80 + u % 0x40);
    Unshift(u);
    Unshift(v);
    Unshift(w);
    hide Encode, Assemble, Shift, Decode;
    Lead(0xF0 + x, [0x80 + w % 0x40, 0x80 + v % 0x40, 0x80 + u % 0x40], u);
  }

  lemma AssembleFour(x: nat, a: byte, b: byte, c: byte)
    requires x < 5
    ensures Assemble(0xF0 + x, [a, b, c]) == Shift(Shift(Shift(x, a), b), c)
  {
    assert (0xF0 + x) % 0x08 == x;
  }

  lemma Unshift(u: nat)
    ensures Shift(u / 0x40, 0x80 + u % 0x40) == u
  {
  }

  lemma Lead(b: byte, ch: seq<byte>, u: unicode)
    requires |ch| == Following(b) && Assemble(b, ch) == u
    ensures Decode([b] + ch) == u
  {
    assert ([b] + ch)[1..1 + Following(b)] == ch;
  }
}
