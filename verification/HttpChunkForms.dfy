/**
 Chunks in every form that may be read (RFC 7230, section 4.1): sizes in either letter case with
 leading zeros, and extensions.
 */
module HttpChunkForms {
  import opened Utf8
  import opened Text
  import opened Sequences
  import opened Numerals
  import opened HttpParser
  import opened HttpRoundTrip
  import opened HttpConnection
  import opened HttpChunked
  import opened HttpStandard

  // The line before a piece: its size in hexadecimal digits, and what stands behind a semicolon.
  datatype SizeLine = SizeLine(digits: seq<byte>, extension: seq<byte>)

  // An extension is empty, or a semicolon and bytes of which none ends the line.
  predicate IsExtension(e: seq<byte>)
  {
    e != [] ==> e[0] == 59 && 13 !in e
  }

  // An extension that is passed over.
  predicate PassedOver(e: seq<byte>)
  {
    forall i :: 1 <= i < |e| ==> NameByte(e[i])
  }

  function LineText(l: SizeLine): seq<byte>
  {
    l.digits + (l.extension + [13, 10])
  }

  lemma HexDigitIs(c: byte, v: nat)
    requires IsDigitFor(c, v, 16)
    ensures IsHexDigit(c) && HexValue(c) == v
  {
    DigitCodes(c, v, 16);
    hide IsDigitFor;
  }

  lemma {:induction false} HexSpelled(s: seq<byte>, n: nat)
    requires Spells(s, 16, n)
    ensures Hex(s) == n && forall i :: 0 <= i < |s| ==> IsHexDigit(s[i])
    decreases |s|
  {
    forall i | 0 <= i < |s| ensures IsHexDigit(s[i]) {
      var v := EachDigit(s, 16, n, i);
      HexDigitIs(s[i], v);
    }
    HexDigitIs(s[|s| - 1], n % 16);
    if |s| > 1 {
      HexSpelled(s[..|s| - 1], n / 16);
    } else {
      assert s[..0] == [] && n % 16 == n;
    }
    hide IsHexDigit, HexValue, IsDigitFor;
  }

  lemma OnExtensionByte(p: Parser, ch: byte)
    ensures InChunk(p, 1) && ch == 59 ==> Dispatch(p, ch) == Go(p.(state := 2))
    ensures InChunk(p, 2) && ch == 13 ==> Dispatch(p, ch) == Go(p.(state := 3))
    ensures InChunk(p, 2) && ch != 13 ==> Dispatch(p, ch) == if NameByte(ch) then Go(p) else Fail(p)
  {
    NameBytes(ch);
    hide IsControl, IsSpecial, NameByte;
  }

  // The rest of an extension up to the end of the line.
  lemma {:induction false} ReadExtension(p: Parser, e: seq<byte>, rest: seq<byte>)
    requires InChunk(p, 2) && 13 !in e
    ensures if forall b <- e :: NameByte(b) then Loop(p, true, e + ([13] + rest)) == Loop(p.(state := 3), true, rest)
            else Loop(p, true, e + ([13] + rest)).answer == False
    decreases |e|
  {
    hide Loop, Dispatch, NameByte;
    if e == [] {
      Unit([13] + rest);
      OnExtensionByte(p, 13);
      RunOne(p, true, 13, rest);
    } else {
      FirstOf(e, [13] + rest);
      OnExtensionByte(p, e[0]);
      assert e[0] != 13 && forall b :: b in e <==> b == e[0] || b in e[1..];
      if NameByte(e[0]) {
        RunOne(p, true, e[0], e[1..] + ([13] + rest));
        ReadExtension(p, e[1..], rest);
      } else {
        Refused(p, e[0], e[1..] + ([13] + rest));
      }
    }
  }

  lemma Refused(p: Parser, ch: byte, rest: seq<byte>)
    requires p.Valid() && p.stage != Unset && Dispatch(p, ch) == Fail(p)
    ensures Loop(p, true, [ch] + rest).answer == False
  {
    hide Dispatch;
    assert ([ch] + rest)[0] == ch;
  }

  // The largest size stands for any that is larger.
  function Bounded(n: nat): nat
  {
    if n <= 0xFFFF_FFFF then n else 0xFFFF_FFFF
  }

  /** The line before a piece sets the size, whatever its form, unless a byte of the extension is refused. */
  lemma ReadsSizeLine(p: Parser, l: SizeLine, n: nat, rest: seq<byte>)
    requires InChunk(p, 0) && Spells(l.digits, 16, n) && IsExtension(l.extension)
    ensures if PassedOver(l.extension)
            then Loop(p, true, LineText(l) + rest)
              == Loop(p.(data := l.digits, chunkSize := Bounded(n), state := if n > 0 then 4 else 10), true, rest)
            else Loop(p, true, LineText(l) + rest).answer == False
  {
    var s, e := l.digits, l.extension;
    HexSpelled(s, n);
    LineParts(s, e, rest);
    assert Saturate(n) == Bounded(n) && (Bounded(n) > 0 <==> n > 0);
    hide Loop, Dispatch, Hex, Spells, IsHexDigit;
    if e == [] {
      assert [13, 10] == CRLF;
      ReadSizeLine(p, s, rest);
    } else {
      ReadsExtended(p, s, e, n, rest);
    }
  }

  lemma ReadsExtended(p: Parser, s: seq<byte>, e: seq<byte>, n: nat, rest: seq<byte>)
    requires InChunk(p, 0) && s != [] && (forall i :: 0 <= i < |s| ==> IsHexDigit(s[i])) && Hex(s) == n
    requires e != [] && IsExtension(e)
    ensures var text := s + (e + ([13] + ([10] + rest)));
      if PassedOver(e)
      then Loop(p, true, text)
        == Loop(p.(data := s, chunkSize := Bounded(n), state := if n > 0 then 4 else 10), true, rest)
      else Loop(p, true, text).answer == False
  {
    var q := p.(data := [s[0]], state := 1);
    var q1, q2, q3 := p.(data := s, state := 1), p.(data := s, state := 2), p.(data := s, state := 3);
    var more := e[1..] + ([13] + ([10] + rest));
    assert Saturate(n) == Bounded(n) && (Bounded(n) > 0 <==> n > 0);
    FirstOf(s, e + ([13] + ([10] + rest)));
    FirstOf(e, [13] + ([10] + rest));
    assert forall b :: b in e[1..] ==> b in e;
    ExtensionBytes(e);
    OnChunkByte(p, s[0]);
    OnExtensionByte(q1, 59);
    OnSizeEnd(q3);
    hide Loop, Dispatch, Hex, IsHexDigit, NameByte, PassedOver;
    RunOne(p, true, s[0], s[1..] + ([59] + more));
    ReadSize(q, s[1..], [59] + more);
    RunOne(q1, true, 59, more);
    ReadExtension(q2, e[1..], [10] + rest);
    RunOne(q3, true, 10, rest);
  }

  lemma ExtensionBytes(e: seq<byte>)
    requires e != []
    ensures (forall b <- e[1..] :: NameByte(b)) <==> PassedOver(e)
  {
    hide NameByte;
    var t := e[1..];
    if forall b <- t :: NameByte(b) {
      forall i | 1 <= i < |e| ensures NameByte(e[i]) {
        assert t[i - 1] == e[i] && t[i - 1] in t;
      }
    }
    if PassedOver(e) {
      forall b | b in t ensures NameByte(b) {
        var k :| 0 <= k < |t| && t[k] == b;
        assert e[k + 1] == b;
      }
    }
  }

  lemma LineParts(s: seq<byte>, e: seq<byte>, rest: seq<byte>)
    ensures (s + (e + [13, 10])) + rest == s + (e + ([13, 10] + rest))
    ensures [13, 10] + rest == [13] + ([10] + rest)
    ensures e == [] ==> s + (e + ([13, 10] + rest)) == s + ([13, 10] + rest)
  {
    Associate(s, e + [13, 10], rest);
    Associate(e, [13, 10], rest);
  }

  // A piece with its size line, in a form of its own.
  datatype Form = Form(line: SizeLine, piece: seq<byte>)

  predicate Readable(f: Form)
  {
    && Spells(f.line.digits, 16, |f.piece|) && |f.piece| < WORD
    && IsExtension(f.line.extension) && PassedOver(f.line.extension)
  }

  // The pieces one behind the other; the last one is empty and ends the content.
  function FormsText(fs: seq<Form>): seq<byte>
  {
    if fs == [] then [] else LineText(fs[0].line) + (fs[0].piece + ([13, 10] + FormsText(fs[1..])))
  }

  function Pieces(fs: seq<Form>): seq<byte>
  {
    if fs == [] then [] else fs[0].piece + Pieces(fs[1..])
  }

  /**
   Chunks in any form are decoded to their concatenation, and the answer comes with the last byte.
   */
  lemma {:induction false} AnyFormIsRead(p: Parser, fs: seq<Form>, rest: seq<byte>)
    requires InChunk(p, 0) && fs != [] && (forall f <- fs :: Readable(f))
    requires forall i :: 0 <= i < |fs| ==> (fs[i].piece == [] <==> i == |fs| - 1)
    ensures var o := Loop(p, true, FormsText(fs) + rest);
      o.answer == True && o.rest == rest && o.parser.payload == p.payload + Pieces(fs)
    decreases |fs|
  {
    var f, n := fs[0], |fs[0].piece|;
    var more := FormsText(fs[1..]);
    assert f in fs && Readable(f);
    var q := p.(data := f.line.digits, chunkSize := n, state := if n > 0 then 4 else 10);
    FormParts(LineText(f.line), f.piece, more, rest);
    hide Readable, Loop, Dispatch, LineText, Spells, PassedOver, IsExtension;
    ReadsSizeLine(p, f.line, n, f.piece + ([13, 10] + (more + rest)));
    if n == 0 {
      assert |fs| == 1 && Pieces(fs[1..]) == [] && more == [];
      EndsContent(q, rest);
      Unit(rest);
      Unit(p.payload);
    } else {
      assert |fs| > 1 && forall i :: 0 <= i < |fs[1..]| ==> fs[1..][i] == fs[i + 1];
      assert forall g <- fs[1..] :: g in fs;
      ReadPiece(q, f.piece, more + rest);
      hide FormsText, Pieces, InChunk;
      AnyFormIsRead(q.(payload := p.payload + f.piece, chunkSize := 0, state := 0), fs[1..], rest);
      Associate(p.payload, f.piece, Pieces(fs[1..]));
    }
  }

  lemma ReadPiece(p: Parser, piece: seq<byte>, rest: seq<byte>)
    requires InChunk(p, 4) && p.chunkSize == |piece| > 0
    ensures var q := p.(payload := p.payload + piece, chunkSize := 0, state := 0);
      InChunk(q, 0) && Loop(p, true, piece + ([13, 10] + rest)) == Loop(q, true, rest)
  {
    assert CRLF == [13, 10];
    hide Loop;
    ReadData(p, piece, CRLF + rest);
    ReadDataEnd(p.(payload := p.payload + piece, chunkSize := 0, state := 5), rest);
  }

  lemma EndsContent(p: Parser, rest: seq<byte>)
    requires InChunk(p, 10)
    ensures Loop(p, true, [] + ([13, 10] + ([] + rest))) == Outcome(True, p.(state := 11), rest)
  {
    var q := p.(state := 11);
    Two(13, 10, rest);
    OnChunkByte(p, 13);
    OnChunkByte(q, 10);
    LastByte(q, rest);
    assert [] + ([13, 10] + ([] + rest)) == [13] + ([10] + rest);
    hide Loop, Dispatch;
    RunOne(p, true, 13, [10] + rest);
  }

  lemma FormParts(l: seq<byte>, piece: seq<byte>, more: seq<byte>, rest: seq<byte>)
    ensures (l + (piece + ([13, 10] + more))) + rest == l + (piece + ([13, 10] + (more + rest)))
  {
    Associate(l, piece + ([13, 10] + more), rest);
    Associate(piece, [13, 10] + more, rest);
    Associate([13, 10], more, rest);
  }

  /** An extension with a value, which a reader is to ignore, is refused: "1;a=b". */
  lemma ExtensionRefused(p: Parser, rest: seq<byte>)
    requires InChunk(p, 0)
    ensures Loop(p, true, [49, 59, 97, 61, 98, 13, 10] + rest).answer == False
  {
    var l := SizeLine([49], [59, 97, 61, 98]);
    assert LineText(l) == [49, 59, 97, 61, 98, 13, 10];
    assert IsDigitFor(49, 1, 16) && Spells([49], 16, 1);
    assert l.extension[2] == 61 && !NameByte(61);
    hide Loop, NameByte, Spells;
    ReadsSizeLine(p, l, 1, rest);
  }
}
