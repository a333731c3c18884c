/**
 Chunked transfer coding (RFC 7230, section 4.1): what `data_to_buffers` writes and what
 `parse_chunk` makes of it.
 */
module HttpChunked {
  import opened Utf8
  import opened Text
  import opened Sequences
  import opened HttpParser
  import opened HttpRoundTrip
  import opened HttpConnection

  // The digits of a size, without leading zeros.
  function HexDigits(n: nat): (s: seq<byte>)
  {
    if n == 0 then [] else HexDigits(n / 16) + [HexDigit(n % 16)]
  }

  function ChunkBytes(piece: seq<byte>): seq<byte>
  {
    HexDigits(|piece|) + (CRLF + (piece + CRLF))
  }

  function ChunksBytes(pieces: seq<seq<byte>>): seq<byte>
  {
    if pieces == [] then Ascii("0") + (CRLF + CRLF) else ChunkBytes(pieces[0]) + ChunksBytes(pieces[1..])
  }

  lemma {:induction false} HexValues(n: nat)
    ensures var s := HexDigits(n);
      && Hex(s) == n && (n > 0 ==> s != []) && (forall i :: 0 <= i < |s| ==> IsHexDigit(s[i]))
  {
    if n > 0 {
      HexValues(n / 16);
      OneHexDigit(n % 16);
      var s := HexDigits(n);
      assert s[..|s| - 1] == HexDigits(n / 16);
    }
  }

  lemma OneHexDigit(d: nat)
    requires d < 16
    ensures IsHexDigit(HexDigit(d)) && HexValue(HexDigit(d)) == d
  {
  }

  /** The digits of a size of less than 32 bits fit the buffer of eight bytes. */
  lemma {:induction false} HexDigitsFit(n: nat, k: nat)
    requires n < Power16(k)
    ensures |HexDigits(n)| <= k
  {
    if n > 0 {
      assert k > 0;
      HexDigitsFit(n / 16, k - 1);
    }
  }

  function Power16(k: nat): nat
  {
    if k == 0 then 1 else 16 * Power16(k - 1)
  }

  // ---- what the parser does with chunks ----

  ghost predicate InChunk(p: Parser, state: nat)
  {
    p.Valid() && p.stage == Chunk && p.state == state && p.collect
  }

  lemma OnChunkByte(p: Parser, ch: byte)
    ensures InChunk(p, 0) && IsHexDigit(ch) ==> Dispatch(p, ch) == Go(p.(data := [ch], state := 1))
    ensures InChunk(p, 1) && IsHexDigit(ch) ==> Dispatch(p, ch) == Go(p.(data := p.data + [ch]))
    ensures InChunk(p, 1) && ch == CR ==> Dispatch(p, ch) == Go(p.(state := 3))
    ensures InChunk(p, 5) && ch == CR ==> Dispatch(p, ch) == Go(p.(state := 6))
    ensures InChunk(p, 6) && ch == LF ==> Dispatch(p, ch) == Go(p.(state := 0))
    ensures InChunk(p, 10) && ch == CR ==> Dispatch(p, ch) == Go(p.(state := 11))
    ensures InChunk(p, 11) && ch == LF ==> Dispatch(p, ch) == Step(p, True)
  {
  }

  lemma OnSizeEnd(p: Parser)
    requires InChunk(p, 3)
    ensures var n := Saturate(Hex(p.data)); Dispatch(p, LF) == Go(p.(chunkSize := n, state := if n > 0 then 4 else 10))
  {
  }

  lemma OnData(p: Parser, ch: byte)
    requires InChunk(p, 4) && p.chunkSize > 0
    ensures Dispatch(p, ch)
      == Go(p.(payload := p.payload + [ch], chunkSize := p.chunkSize - 1, state := if p.chunkSize == 1 then 5 else 4))
  {
  }

  lemma {:induction false} ReadSize(p: Parser, digits: seq<byte>, rest: seq<byte>)
    requires InChunk(p, 1) && forall i :: 0 <= i < |digits| ==> IsHexDigit(digits[i])
    ensures Loop(p, true, digits + rest) == Loop(p.(data := p.data + digits), true, rest)
    decreases |digits|
  {
    Joined(p.data, digits);
    hide Loop, Dispatch, IsHexDigit;
    if digits == [] {
      Unit(rest);
    } else {
      FirstOf(digits, rest);
      OnChunkByte(p, digits[0]);
      RunOne(p, true, digits[0], digits[1..] + rest);
      ReadSize(p.(data := p.data + [digits[0]]), digits[1..], rest);
    }
  }

  lemma ReadSizeLine(p: Parser, digits: seq<byte>, rest: seq<byte>)
    requires InChunk(p, 0) && digits != [] && forall i :: 0 <= i < |digits| ==> IsHexDigit(digits[i])
    ensures var n := Saturate(Hex(digits));
      Loop(p, true, digits + (CRLF + rest))
      == Loop(p.(data := digits, chunkSize := n, state := if n > 0 then 4 else 10), true, rest)
  {
    var q := p.(data := [digits[0]], state := 1);
    var q' := p.(data := digits, state := 3);
    FirstOf(digits, CRLF + rest);
    Two(CR, LF, rest);
    OnChunkByte(p, digits[0]);
    OnChunkByte(q.(data := digits), CR);
    OnSizeEnd(q');
    hide Loop, Dispatch, IsHexDigit, Hex;
    RunOne(p, true, digits[0], digits[1..] + (CRLF + rest));
    ReadSize(q, digits[1..], CRLF + rest);
    RunOne(q.(data := digits), true, CR, [LF] + rest);
    RunOne(q', true, LF, rest);
  }

  lemma {:induction false} ReadData(p: Parser, piece: seq<byte>, rest: seq<byte>)
    requires InChunk(p, 4) && p.chunkSize == |piece| > 0
    ensures Loop(p, true, piece + rest)
         == Loop(p.(payload := p.payload + piece, chunkSize := 0, state := 5), true, rest)
    decreases |piece|
  {
    FirstOf(piece, rest);
    Joined(p.payload, piece);
    OnData(p, piece[0]);
    hide Loop, Dispatch;
    RunOne(p, true, piece[0], piece[1..] + rest);
    if |piece| == 1 {
      Unit(rest);
    } else {
      ReadData(p.(payload := p.payload + [piece[0]], chunkSize := p.chunkSize - 1), piece[1..], rest);
    }
  }

  lemma ReadDataEnd(p: Parser, rest: seq<byte>)
    requires InChunk(p, 5)
    ensures Loop(p, true, CRLF + rest) == Loop(p.(state := 0), true, rest)
  {
    Two(CR, LF, rest);
    OnChunkByte(p, CR);
    OnChunkByte(p.(state := 6), LF);
    hide Loop, Dispatch;
    RunOne(p, true, CR, [LF] + rest);
    RunOne(p.(state := 6), true, LF, rest);
  }

  lemma ReadChunk(p: Parser, piece: seq<byte>, rest: seq<byte>)
    requires InChunk(p, 0) && 0 < |piece| < WORD
    ensures Loop(p, true, ChunkBytes(piece) + rest)
         == Loop(p.(data := HexDigits(|piece|), payload := p.payload + piece, chunkSize := 0, state := 0), true, rest)
  {
    var digits := HexDigits(|piece|);
    var q := p.(data := digits, chunkSize := |piece|, state := 4);
    ChunkParts(piece, rest);
    HexValues(|piece|);
    hide Loop, Hex, HexDigits, ChunkBytes, IsHexDigit;
    ReadSizeLine(p, digits, piece + (CRLF + rest));
    ReadData(q, piece, CRLF + rest);
    ReadDataEnd(q.(payload := p.payload + piece, chunkSize := 0, state := 5), rest);
  }

  lemma ChunkParts(piece: seq<byte>, rest: seq<byte>)
    ensures ChunkBytes(piece) + rest == HexDigits(|piece|) + (CRLF + (piece + (CRLF + rest)))
  {
    hide HexDigits;
    Associate(piece, CRLF, rest);
    Associate(CRLF, piece + CRLF, rest);
    Associate(HexDigits(|piece|), CRLF + (piece + CRLF), rest);
  }

  lemma ReadLastChunk(p: Parser, rest: seq<byte>)
    requires InChunk(p, 0)
    ensures Loop(p, true, Ascii("0") + (CRLF + (CRLF + rest)))
         == Outcome(True, p.(data := Ascii("0"), chunkSize := 0, state := 11), rest)
  {
    var q := p.(data := Ascii("0"), chunkSize := 0, state := 10);
    var q' := q.(state := 11);
    assert Ascii("0")[0] == '0' as int && Hex(Ascii("0")) == 0;
    Two(CR, LF, rest);
    OnChunkByte(q, CR);
    OnChunkByte(q', LF);
    ReadSizeLine(p, Ascii("0"), CRLF + rest);
    hide Dispatch, Hex, IsHexDigit, Ascii;
    LastByte(q', rest);
    hide Loop;
    RunOne(q, true, CR, [LF] + rest);
  }

  lemma LastByte(p: Parser, rest: seq<byte>)
    requires p.Valid() && p.stage != Unset && Dispatch(p, LF) == Step(p, True)
    ensures Loop(p, true, [LF] + rest) == Outcome(True, p, rest)
  {
    hide Dispatch;
    assert ([LF] + rest)[0] == LF && ([LF] + rest)[1..] == rest;
  }

  /**
   Whatever the pieces, the parser puts the content together again, and it answers at the last byte
   of the coding and not before.
   */
  lemma {:induction false} ChunksRoundTrip(p: Parser, pieces: seq<seq<byte>>, rest: seq<byte>)
    requires InChunk(p, 0) && forall i :: 0 <= i < |pieces| ==> 0 < |pieces[i]| < WORD
    ensures Loop(p, true, ChunksBytes(pieces) + rest)
         == Outcome(True, p.(data := Ascii("0"), payload := p.payload + Flatten(pieces), chunkSize := 0, state := 11),
             rest)
    decreases |pieces|
  {
    if pieces == [] {
      Associate(Ascii("0"), CRLF + CRLF, rest);
      Associate(CRLF, CRLF, rest);
      assert p.payload + Flatten(pieces) == p.payload;
      hide Loop;
      ReadLastChunk(p, rest);
    } else {
      var q := p.(data := HexDigits(|pieces[0]|), payload := p.payload + pieces[0], chunkSize := 0, state := 0);
      Associate(ChunkBytes(pieces[0]), ChunksBytes(pieces[1..]), rest);
      Associate(p.payload, pieces[0], Flatten(pieces[1..]));
      hide Loop, ChunkBytes, HexDigits;
      ReadChunk(p, pieces[0], ChunksBytes(pieces[1..]) + rest);
      ChunksRoundTrip(q, pieces[1..], rest);
    }
  }

  // ---- a message whose headers announce chunks ----

  predicate AnnouncesChunks(hs: seq<Header>)
  {
    exists i :: 0 <= i < |hs| && SaysChunked(hs[i])
  }

  lemma {:induction false} FramingFindsChunks(p: Parser, i: nat)
    requires p.chunkSize < WORD && p.stage in {HeaderLines, Content} && i <= |p.headers|
    requires exists j :: i <= j < |p.headers| && SaysChunked(p.headers[j])
    ensures var q := Framing(p, i);
      q == p.(stage := Chunk, state := 0, parsingContent := true, chunkSize := q.chunkSize)
    decreases |p.headers| - i
  {
    var h := p.headers[i];
    if !SaysChunked(h) {
      var q := FrameBy(p, h);
      assert Framing(p, i) == Framing(q, i + 1);
      FramingFindsChunks(q, i + 1);
    }
  }

  /**
   A reply sent in chunks is read back with the content that its pieces make, and the bytes behind
   it are left alone.
   */
  lemma ChunkedReplyRoundTrip(m: ReplyMessage, pieces: seq<seq<byte>>, rest: seq<byte>)
    requires 100 <= m.status <= 999 && m.minor <= 1 && SendableHeaders(m.headers)
    requires m.content == [] && AnnouncesChunks(m.headers)
    requires forall i :: 0 <= i < |pieces| ==> 0 < |pieces[i]| < WORD
    ensures var o := Parse(Fresh(Reply), ReplyBytes(m) + (ChunksBytes(pieces) + rest));
      o.answer == True && o.rest == rest && o.parser.status >= 0
      && GetReply(o.parser) == m.(content := Flatten(pieces))
  {
    var q := AfterReplyHead(m);
    var q' := Framing(q, 0);
    var text := ChunksBytes(pieces) + rest;
    ReplyHead(m, text);
    ReplyParts(m, text);
    Unit(text);
    FramingFindsChunks(q, 0);
    OnBlankLine(q);
    Unit(Flatten(pieces));
    hide Dispatch, ReplyBytes, HeadersBytes, SendableHeaders, Framing, StatusText, AnnouncesChunks, Parse, ChunksBytes;
    ToContent(q, q', text);
    hide Loop;
    ChunksRoundTrip(q', pieces, rest);
  }

  lemma ToContent(p: Parser, q: Parser, rest: seq<byte>)
    requires p.Valid() && p.stage != Unset && q.Valid() && q.stage != Unset
    requires Dispatch(p, LF) == Step(q, True) && q.parsingContent
    ensures Loop(p, false, [LF] + rest) == Loop(q, true, rest)
  {
    hide Dispatch;
    assert ([LF] + rest)[0] == LF && ([LF] + rest)[1..] == rest;
  }
}
