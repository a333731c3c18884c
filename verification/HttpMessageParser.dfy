/**
 The message parser as an object that is fed one byte at a time.
 */
module HttpMessageParser {
  import opened Utf8
  import opened Text
  import opened Sequences
  import opened HttpParser
  import opened HttpRoundTrip
  import opened HttpConnection

  // `std::streambuf`
  class StreamBuf {
    var pending: seq<byte>

    constructor (text: seq<byte>)
      ensures pending == text
    {
      pending := text;
    }

    method NextByte() returns (ch: byte)
      requires pending != []
      modifies this
      ensures [ch] + pending == old(pending)
    {
      ch := pending[0];
      pending := pending[1..];
    }

    method Append(text: seq<byte>)
      modifies this
      ensures pending == old(pending) + text
    {
      pending := pending + text;
    }
  }

  class MessageParser {
    const kind: Kind
    var stage: Stage
    var state: nat
    var chunkSize: nat
    var data: seq<byte>
    var uri: seq<byte>
    var verb: seq<byte>
    var parsingContent: bool
    var collect: bool
    var minor: nat
    var headers: seq<Header>
    var payload: seq<byte>
    var status: int
    var statusLine: seq<byte>

    ghost function Abs(): Parser
      reads this
    {
      Parser(kind, stage, state, chunkSize, data, uri, verb, parsingContent, collect, minor, headers, payload, status,
          statusLine)
    }

    constructor (kind: Kind)
      ensures Abs() == Fresh(kind)
    {
      this.kind := kind;
      stage, state, chunkSize, data, uri, verb := Unset, 0, 0, [], [], [];
      parsingContent, collect, minor, headers, payload, status, statusLine := false, true, 0, [], [], 0, [];
    }

    // `reset`, for the parser of replies
    method Clear()
      modifies this
      ensures Abs() == Reset(old(Abs()))
    {
      ClearState();
      data := [];
      uri := [];
      verb := [];
      status := 0;
      statusLine := [];
    }

    method ClearState()
      modifies this`stage, this`state, this`chunkSize, this`parsingContent, this`collect, this`minor
      ensures Abs() == old(Abs()).(stage := Unset, state := 0, chunkSize := 0, parsingContent := false,
        collect := true, minor := 0)
    {
      stage := Unset;
      state := 0;
      chunkSize := 0;
      parsingContent := false;
      collect := true;
      minor := 0;
    }

    // `if (ch == c) ++m_state; else result = false;`
    method Match(ch: byte, c: byte) returns (result: Answer)
      modifies this`state
      ensures Step(Abs(), result) == Expect(old(Abs()), ch, c)
    {
      if ch == c {
        state := state + 1;
        result := Indeterminate;
      } else {
        result := False;
      }
    }

    method ParseInitialLine(ch: byte) returns (result: Answer)
      requires Abs().Valid() && stage == InitialLine
      modifies this
      ensures Step(Abs(), result) == Dispatch(old(Abs()), ch)
    {
      if kind == Request {
        result := ParseRequestLine(ch);
      } else {
        result := ParseReplyLine(ch);
      }
    }

    method ParseRequestLine(ch: byte) returns (result: Answer)
      requires Abs().Valid() && stage == InitialLine
      modifies this
      ensures Step(Abs(), result) == RequestLine(old(Abs()), ch)
    {
      result := Indeterminate;
      match state
      case 0 =>
        if IsAlpha(ch) {
          verb := verb + [ch];
        } else if ch == ' ' as int {
          state := state + 1;
        } else {
          result := False;
        }
      case 1 =>
        if ch == ' ' as int {
          state := state + 1;
        } else if IsControl(ch) {
          result := False;
        } else {
          uri := uri + [ch];
        }
      case 2 => result := Match(ch, 'H' as int);
      case 3 => result := Match(ch, 'T' as int);
      case 4 => result := Match(ch, 'T' as int);
      case 5 => result := Match(ch, 'P' as int);
      case 6 => result := Match(ch, '/' as int);
      case 7 => result := Match(ch, '1' as int);
      case 8 =>
        if ch == '.' as int {
          state := state + 1;
        } else if ch == CR {
          state := 11;
        } else {
          result := False;
        }
      case 9 => result := ParseMinor(ch);
      case 10 => result := Match(ch, CR);
      case 11 =>
        if ch == LF {
          state := 0;
          stage := HeaderLines;
        } else {
          result := False;
        }
      case _ =>
    }

    method ParseMinor(ch: byte) returns (result: Answer)
      modifies this`state, this`minor
      ensures Step(Abs(), result) == Minor(old(Abs()), ch)
    {
      if ch == '1' as int || ch == '0' as int {
        if ch == '1' as int {
          minor := 1;
        }
        state := state + 1;
        result := Indeterminate;
      } else {
        result := False;
      }
    }

    method ParseReplyLine(ch: byte) returns (result: Answer)
      requires Abs().Valid() && stage == InitialLine
      modifies this
      ensures Step(Abs(), result) == ReplyLine(old(Abs()), ch)
    {
      result := Indeterminate;
      match state
      case 0 => result := Match(ch, 'H' as int);
      case 1 => result := Match(ch, 'T' as int);
      case 2 => result := Match(ch, 'T' as int);
      case 3 => result := Match(ch, 'P' as int);
      case 4 => result := Match(ch, '/' as int);
      case 5 => result := Match(ch, '1' as int);
      case 6 =>
        if ch == '.' as int {
          state := state + 1;
        } else if ch == CR {
          state := 11;
        } else {
          result := False;
        }
      case 7 => result := ParseMinor(ch);
      case 8 => result := ParseSpace(ch);
      case 9 =>
        if IsDigit(ch) {
          status := 100 * (ch - '0' as int);
          state := state + 1;
        } else {
          result := False;
        }
      case 10 =>
        if IsDigit(ch) {
          status := status + 10 * (ch - '0' as int);
          state := state + 1;
        } else {
          result := False;
        }
      case 11 =>
        if IsDigit(ch) {
          status := status + 1 * (ch - '0' as int);
          state := state + 1;
        } else {
          result := False;
        }
      case 12 => result := ParseSpace(ch);
      case 13 =>
        if ch == CR {
          state := state + 1;
        } else {
          statusLine := statusLine + [ch];
        }
      case 14 =>
        if ch == LF {
          state := 0;
          stage := HeaderLines;
        } else {
          result := False;
        }
      case _ =>
    }

    method ParseSpace(ch: byte) returns (result: Answer)
      modifies this`state
      ensures Step(Abs(), result)
           == if IsSpace(ch) then Go(old(Abs()).(state := old(state) + 1)) else Fail(old(Abs()))
    {
      if IsSpace(ch) {
        state := state + 1;
        result := Indeterminate;
      } else {
        result := False;
      }
    }

    method ParseHeaderLines(ch: byte) returns (result: Answer)
      requires Abs().Valid() && stage == HeaderLines
      modifies this
      ensures Step(Abs(), result) == HeaderLine(old(Abs()), ch)
    {
      result := Indeterminate;
      match state
      case 0 =>
        if ch == CR {
          state := 20;
        } else if (ch == ' ' as int || ch == '\t' as int) && headers != [] {
          state := 10;
        } else if IsControl(ch) || IsSpecial(ch) {
          result := False;
        } else {
          headers := headers + [Header([ch], [])];
          state := 1;
        }
      case 1 =>
        if ch == ':' as int {
          state := state + 1;
        } else if IsControl(ch) || IsSpecial(ch) {
          result := False;
        } else {
          headers := AddName(headers, [ch]);
        }
      case 2 => result := Match(ch, ' ' as int);
      case 3 =>
        if ch == CR {
          state := state + 2;
        } else if ch != ' ' as int {
          headers := AddValue(headers, [ch]);
          state := state + 1;
        }
      case 4 =>
        if ch == CR {
          state := state + 1;
        } else {
          headers := AddValue(headers, [ch]);
        }
      case 5 =>
        if ch == LF {
          state := 0;
        } else {
          result := False;
        }
      case 10 =>
        if ch == CR {
          state := 4;
        } else if IsControl(ch) {
          result := False;
        } else if !(ch == ' ' as int || ch == '\t' as int) {
          headers := AddValue(headers, [ch]);
          state := 3;
        }
      case 20 =>
        if ch == LF {
          result := True;
          FindFraming();
        } else {
          result := False;
        }
      case _ =>
    }

    method FindFraming()
      requires Abs().Valid() && stage == HeaderLines
      modifies this`stage, this`state, this`chunkSize, this`parsingContent
      ensures Abs() == Framing(old(Abs()), 0)
    {
      FramingEnd(Abs());
      hide Framing, FrameBy, SameName, Ascii;
      var i := 0;
      while i < |headers|
        invariant i <= |headers| && chunkSize < WORD && stage in {HeaderLines, Content}
        invariant Framing(Abs(), i) == Framing(old(Abs()), 0)
      {
        hide Framing, FrameBy, SameName, Ascii;
        FramingTurn(Abs(), i);
        var h := headers[i];
        if SameName(h.name, Ascii("Transfer-Encoding")) && SameName(h.value, Ascii("chunked")) {
          stage := Chunk;
          state := 0;
          parsingContent := true;
          break;
        }
        Frame(h);
        FramingEnd(Abs());
        i := i + 1;
      }
    }

    method Frame(h: Header)
      requires chunkSize < WORD
      modifies this`stage, this`chunkSize, this`parsingContent
      ensures Abs() == FrameBy(old(Abs()), h)
    {
      if SameName(h.name, Ascii("Content-Length")) {
        chunkSize := ReadUnsigned(h.value, chunkSize);
        if chunkSize > 0 {
          stage := Content;
          parsingContent := true;
        } else {
          parsingContent := false;
        }
      } else if SameName(h.name, Ascii("Connection")) && SameName(h.value, Ascii("Close")) && PostOrPut(verb) {
        stage := Content;
        parsingContent := true;
      }
    }

    method ParseChunk(ch: byte) returns (result: Answer)
      requires Abs().Valid() && stage == Chunk
      modifies this
      ensures Step(Abs(), result) == ChunkByte(old(Abs()), ch)
    {
      result := Indeterminate;
      match state
      case 0 =>
        if IsHexDigit(ch) {
          data := [ch];
          state := state + 1;
        } else {
          result := False;
        }
      case 1 =>
        if IsHexDigit(ch) {
          data := data + [ch];
        } else if ch == ';' as int {
          state := state + 1;
        } else if ch == CR {
          state := 3;
        } else {
          result := False;
        }
      case 2 =>
        if ch == CR {
          state := state + 1;
        } else if IsSpecial(ch) || IsControl(ch) {
          result := False;
        }
      case 3 =>
        if ch == LF {
          chunkSize := Saturate(Hex(data));
          state := if chunkSize > 0 then state + 1 else 10;
        } else {
          result := False;
        }
      case 4 =>
        if collect {
          payload := payload + [ch];
        }
        chunkSize := Less(chunkSize);
        if chunkSize == 0 {
          state := 5;
        }
      case 5 => result := Match(ch, CR);
      case 6 =>
        if ch == LF {
          state := 0;
        } else {
          result := False;
        }
      case 10 => result := Match(ch, CR);
      case 11 => result := if ch == LF then True else False;
      case _ =>
    }

    method ParseContent(ch: byte) returns (result: Answer)
      requires Abs().Valid() && stage == Content
      modifies this
      ensures Step(Abs(), result) == ContentByte(old(Abs()), ch)
    {
      result := Indeterminate;
      if collect {
        payload := payload + [ch];
      }
      chunkSize := Less(chunkSize);
      if chunkSize == 0 {
        result := True;
        parsingContent := false;
      }
    }

    method Call(ch: byte) returns (result: Answer)
      requires Abs().Valid() && stage != Unset
      modifies this
      ensures Step(Abs(), result) == Dispatch(old(Abs()), ch)
    {
      match stage
      case Unset => result := Indeterminate;
      case InitialLine => result := ParseInitialLine(ch);
      case HeaderLines => result := ParseHeaderLines(ch);
      case Chunk => result := ParseChunk(ch);
      case Content => result := ParseContent(ch);
    }

    /** `parse`: takes bytes from the buffer until there is an answer or no byte is left. */
    method Parse(text: StreamBuf) returns (result: Answer)
      requires Abs().Valid()
      modifies this, text
      ensures Outcome(result, Abs(), text.pending) == HttpParser.Parse(old(Abs()), old(text.pending))
      ensures Abs().Valid()
    {
      if stage == Unset {
        stage := InitialLine;
        parsingContent := false;
      }
      result := Indeterminate;
      var inContent := parsingContent;
      ghost var first := Abs();
      while text.pending != [] && result == Indeterminate
        invariant Abs().Valid() && stage != Unset
        invariant inContent == parsingContent || result != Indeterminate
        invariant Loop(first, first.parsingContent, old(text.pending))
               == if result == Indeterminate then Loop(Abs(), inContent, text.pending)
                   else Outcome(result, Abs(), text.pending)
        decreases |text.pending|
      {
        hide Dispatch, Loop;
        ghost var p, pending := Abs(), text.pending;
        var ch := text.NextByte();
        KeepsFlag(p, ch);
        LoopTurn(p, inContent, ch, text.pending);
        result := Call(ch);
        if result == True && inContent == false && parsingContent == true {
          inContent := true;
          result := Indeterminate;
        }
      }
    }
  }

  lemma FramingTurn(p: Parser, i: nat)
    requires p.chunkSize < WORD && p.stage in {HeaderLines, Content} && i < |p.headers|
    ensures Framing(p, i)
         == if SaysChunked(p.headers[i]) then p.(stage := Chunk, state := 0, parsingContent := true)
            else Framing(FrameBy(p, p.headers[i]), i + 1)
    ensures SaysChunked(p.headers[i]) <==>
      SameName(p.headers[i].name, Ascii("Transfer-Encoding")) && SameName(p.headers[i].value, Ascii("chunked"))
    ensures var q := FrameBy(p, p.headers[i]);
      q.stage in {HeaderLines, Content} && q.chunkSize < WORD && q.headers == p.headers
  {
    hide SameName, ReadUnsigned;
  }

  lemma FramingEnd(p: Parser)
    requires p.chunkSize < WORD && p.stage in {HeaderLines, Content}
    ensures Framing(p, |p.headers|) == p
  {
  }

  lemma LoopTurn(p: Parser, c: bool, ch: byte, rest: seq<byte>)
    requires p.Valid() && p.stage != Unset
    ensures var s := Dispatch(p, ch);
      Loop(p, c, [ch] + rest)
      == if s.answer == True && !c && s.next.parsingContent then Loop(s.next, true, rest)
         else if s.answer == Indeterminate then Loop(s.next, c, rest)
         else Outcome(s.answer, s.next, rest)
  {
    hide Dispatch;
    assert ([ch] + rest)[0] == ch && ([ch] + rest)[1..] == rest;
  }
}
