/**
 Replies: an object whose operations keep its headers in step with its content, and what a client
 reads of the bytes it sends.
 */
module HttpReply {
  import opened Options
  import opened Utf8
  import opened Text
  import opened Sequences
  import opened HttpParser
  import opened HttpRoundTrip
  import opened HttpConnection
  import opened HttpChunked


  // ---- header lists ----

  // The values of the headers of that name, in order.
  function Values(hs: seq<Header>, name: seq<byte>): seq<seq<byte>>
  {
    if hs == [] then []
    else (if SameName(hs[0].name, name) then [hs[0].value] else []) + Values(hs[1..], name)
  }

  // `set_header`: the first header of that name gets the value, or a new one is put at the end.
  function WithHeader(hs: seq<Header>, name: seq<byte>, value: seq<byte>): seq<Header>
  {
    if hs == [] then [Header(name, value)]
    else if SameName(hs[0].name, name) then [hs[0].(value := value)] + hs[1..]
    else [hs[0]] + WithHeader(hs[1..], name, value)
  }

  // `remove_header`
  function Without(hs: seq<Header>, name: seq<byte>): seq<Header>
  {
    if hs == [] then []
    else (if SameName(hs[0].name, name) then [] else [hs[0]]) + Without(hs[1..], name)
  }

  lemma SameNameTwice(a: seq<byte>, b: seq<byte>, c: seq<byte>)
    ensures SameName(a, b) && SameName(b, c) ==> SameName(a, c)
    ensures SameName(a, b) ==> SameName(b, a)
    ensures SameName(a, a)
  {
  }

  lemma {:induction false} ValuesWith(hs: seq<Header>, name: seq<byte>, value: seq<byte>, other: seq<byte>)
    ensures var vs := Values(hs, other);
      Values(WithHeader(hs, name, value), other)
      == if SameName(name, other) then [value] + (if vs == [] then [] else vs[1..]) else vs
  {
    if hs == [] {
      var h := Header(name, value);
      assert [h][0] == h && [h][1..] == [];
    } else {
      SameNameTwice(hs[0].name, name, other);
      SameNameTwice(name, hs[0].name, other);
      var rest := hs[1..];
      ValuesWith(rest, name, value, other);
      hide SameName;
      if SameName(hs[0].name, name) {
        assert ([hs[0].(value := value)] + rest)[1..] == rest;
      } else {
        assert ([hs[0]] + WithHeader(rest, name, value))[1..] == WithHeader(rest, name, value);
      }
    }
  }

  lemma {:induction false} ValuesWithout(hs: seq<Header>, name: seq<byte>, other: seq<byte>)
    ensures Values(Without(hs, name), other) == if SameName(name, other) then [] else Values(hs, other)
  {
    if hs != [] {
      SameNameTwice(hs[0].name, name, other);
      SameNameTwice(name, hs[0].name, other);
      SameNameTwice(hs[0].name, other, name);
      SameNameTwice(other, name, name);
      var rest := hs[1..];
      ValuesWithout(rest, name, other);
      hide SameName;
      if !SameName(hs[0].name, name) {
        assert ([hs[0]] + Without(rest, name))[1..] == Without(rest, name);
      } else {
        assert [] + Without(rest, name) == Without(rest, name);
      }
    }
  }

  lemma {:induction false} StaysSendable(hs: seq<Header>, name: seq<byte>, value: seq<byte>)
    requires SendableHeaders(hs)
    ensures Token(name) && FieldValue(value) ==> SendableHeaders(WithHeader(hs, name, value))
    ensures SendableHeaders(Without(hs, name))
  {
    hide Token, FieldValue, SameName;
    if hs != [] {
      assert SendableHeaders(hs[1..]);
      StaysSendable(hs[1..], name, value);
    }
  }

  const LENGTH: seq<byte> := Ascii("Content-Length")
  const CODING: seq<byte> := Ascii("Transfer-Encoding")

  // The headers give a length of `n`, and no coding.
  ghost predicate GiveLength(hs: seq<Header>, n: nat)
  {
    Values(hs, LENGTH) == [Digits(n)] && Values(hs, CODING) == []
  }

  ghost predicate GiveChunks(hs: seq<Header>)
  {
    Values(hs, LENGTH) == [] && Values(hs, CODING) == [Ascii("chunked")]
  }

  lemma {:induction false} ValueOf(hs: seq<Header>, name: seq<byte>, i: nat)
    requires i < |hs| && SameName(hs[i].name, name)
    ensures hs[i].value in Values(hs, name)
  {
    hide SameName;
    if i > 0 {
      ValueOf(hs[1..], name, i - 1);
    }
  }

  lemma {:induction false} HasValue(hs: seq<Header>, name: seq<byte>)
    requires Values(hs, name) != []
    ensures exists i :: 0 <= i < |hs| && SameName(hs[i].name, name) && hs[i].value == Values(hs, name)[0]
  {
    hide SameName;
    if !SameName(hs[0].name, name) {
      HasValue(hs[1..], name);
      var i :| 0 <= i < |hs[1..]| && SameName(hs[1..][i].name, name) && hs[1..][i].value == Values(hs[1..], name)[0];
      assert hs[i + 1] == hs[1..][i];
    }
  }

  lemma LengthIsAnnounced(hs: seq<Header>, n: nat)
    requires GiveLength(hs, n) && n < WORD
    ensures Announces(hs, n)
  {
    hide SameName, Digits;
    forall i | 0 <= i < |hs|
      ensures !SaysChunked(hs[i]) && (SaysLength(hs[i]) ==> hs[i].value == Digits(n))
    {
      if SaysLength(hs[i]) {
        ValueOf(hs, LENGTH, i);
      }
      if SaysChunked(hs[i]) {
        ValueOf(hs, CODING, i);
      }
    }
    HasValue(hs, LENGTH);
  }

  lemma ChunksAreAnnounced(hs: seq<Header>)
    requires GiveChunks(hs)
    ensures AnnouncesChunks(hs)
  {
    HasValue(hs, CODING);
    var i :| 0 <= i < |hs| && SameName(hs[i].name, CODING) && hs[i].value == Values(hs, CODING)[0];
    SameNameTwice(hs[i].value, [], []);
    assert SaysChunked(hs[i]);
  }

  // ---- the names and values the reply itself sets ----

  predicate NameLike(s: string)
  {
    s != "" && forall c <- s :: 'A' <= c <= 'Z' || 'a' <= c <= 'z' || c == '-'
  }

  lemma NameLikeIsToken(s: string)
    requires NameLike(s)
    ensures Token(Ascii(s)) && FieldValue(Ascii(s))
  {
    var r := Ascii(s);
    forall i | 0 <= i < |r| ensures !IsControl(r[i]) && !IsSpecial(r[i]) && r[i] != ' ' as int && r[i] != CR {
      assert s[i] in s;
      LetterIsOrdinary(r[i]);
    }
  }

  lemma DigitsAreValue(n: nat)
    ensures FieldValue(Digits(n))
  {
    DigitsValue(n);
    forall i | 0 <= i < |Digits(n)| ensures Digits(n)[i] != CR {
      assert IsDigit(Digits(n)[i]);
    }
    assert IsDigit(Digits(n)[0]);
  }

  const TYPE: seq<byte> := Ascii("Content-Type")

  lemma KnownNames()
    ensures Token(LENGTH) && Token(CODING) && Token(TYPE) && Token(Ascii("Date")) && Token(Ascii("Server"))
    ensures FieldValue(Ascii("chunked")) && FieldValue(Ascii("libzeep"))
  {
    hide Token, FieldValue;
    NameLikeIsToken("Content-Length");
    NameLikeIsToken("Transfer-Encoding");
    NameLikeIsToken("Content-Type");
    NameLikeIsToken("Date");
    NameLikeIsToken("Server");
    NameLikeIsToken("chunked");
    NameLikeIsToken("libzeep");
  }

  lemma NamesDiffer()
    ensures forall a, b ::
              a in {LENGTH, CODING, TYPE, Ascii("Date"), Ascii("Server")} && b in {LENGTH, CODING, TYPE} ==>
      (SameName(a, b) <==> a == b)
  {
  }

  lemma FirstHeaders(date: seq<byte>)
    requires FieldValue(date)
    ensures var hs := WithHeader(WithHeader(WithHeader([], Ascii("Date"), date), Ascii("Server"), Ascii("libzeep")),
      LENGTH, Ascii("0"));
      SendableHeaders(hs) && GiveLength(hs, 0)
  {
    KnownNames();
    NamesDiffer();
    assert Digits(0) == Ascii("0");
    DigitsAreValue(0);
    var h1 := WithHeader([], Ascii("Date"), date);
    var h2 := WithHeader(h1, Ascii("Server"), Ascii("libzeep"));
    assert Values([], LENGTH) == [] && Values([], CODING) == [];
    hide Token, FieldValue, SameName, WithHeader, Values, Digits, Ascii;
    StaysSendable([], Ascii("Date"), date);
    StaysSendable(h1, Ascii("Server"), Ascii("libzeep"));
    StaysSendable(h2, LENGTH, Ascii("0"));
    forall name | name in {LENGTH, CODING}
      ensures Values(WithHeader(h2, LENGTH, Ascii("0")), name) == if name == LENGTH then [Ascii("0")] else []
    {
      ValuesWith([], Ascii("Date"), date, name);
      ValuesWith(h1, Ascii("Server"), Ascii("libzeep"), name);
      ValuesWith(h2, LENGTH, Ascii("0"), name);
    }
  }

  lemma NextHeader(hs: seq<Header>, i: nat, name: seq<byte>, value: seq<byte>)
    requires i < |hs|
    ensures hs[..i] + WithHeader(hs[i..], name, value)
         == if SameName(hs[i].name, name) then hs[i := hs[i].(value := value)]
            else hs[..i + 1] + WithHeader(hs[i + 1..], name, value)
  {
    assert hs[i..][0] == hs[i] && hs[i..][1..] == hs[i + 1..];
    hide SameName;
  }

  // A name that `set_content` does not touch.
  predicate Another(name: seq<byte>)
  {
    !SameName(LENGTH, name) && !SameName(CODING, name) && !SameName(TYPE, name)
  }

  // What the three header changes of `set_content` come to, for a list that held at most one length.
  lemma LengthHeaders(hs: seq<Header>, n: nat, contentType: seq<byte>)
    requires SendableHeaders(hs) && |Values(hs, LENGTH)| <= 1 && FieldValue(contentType)
    ensures var r := WithHeader(Without(WithHeader(hs, LENGTH, Digits(n)), CODING), TYPE, contentType);
      && SendableHeaders(r) && GiveLength(r, n)
      && Values(r, TYPE) != [] && Values(r, TYPE)[0] == contentType
      && forall name :: Another(name) ==> Values(r, name) == Values(hs, name)
  {
    KnownNames();
    NamesDiffer();
    DigitsAreValue(n);
    var h1 := WithHeader(hs, LENGTH, Digits(n));
    var h2 := Without(h1, CODING);
    hide Token, FieldValue, SameName, WithHeader, Without, Values, Digits, Ascii;
    StaysSendable(hs, LENGTH, Digits(n));
    StaysSendable(h1, CODING, []);
    StaysSendable(h2, TYPE, contentType);
    forall name
      ensures Values(WithHeader(h2, TYPE, contentType), name)
           == if SameName(TYPE, name) then [contentType]
              + (if Values(h2, name) == [] then [] else Values(h2, name)[1..])
              else if SameName(CODING, name) then []
              else if SameName(LENGTH, name) then [Digits(n)]
              + (if Values(hs, name) == [] then [] else Values(hs, name)[1..])
              else Values(hs, name)
    {
      ValuesWith(hs, LENGTH, Digits(n), name);
      ValuesWithout(h1, CODING, name);
      ValuesWith(h2, TYPE, contentType, name);
    }
  }

  // The same for a stream: its length is not known, and it is sent in chunks.
  lemma ChunkHeaders(hs: seq<Header>, contentType: seq<byte>)
    requires SendableHeaders(hs) && |Values(hs, CODING)| <= 1 && FieldValue(contentType)
    ensures var r := Without(WithHeader(WithHeader(hs, TYPE, contentType), CODING, Ascii("chunked")), LENGTH);
      && SendableHeaders(r) && GiveChunks(r)
      && Values(r, TYPE) != [] && Values(r, TYPE)[0] == contentType
      && forall name :: Another(name) ==> Values(r, name) == Values(hs, name)
  {
    KnownNames();
    NamesDiffer();
    var h1 := WithHeader(hs, TYPE, contentType);
    var h2 := WithHeader(h1, CODING, Ascii("chunked"));
    hide Token, FieldValue, SameName, WithHeader, Without, Values, Ascii;
    StaysSendable(hs, TYPE, contentType);
    StaysSendable(h1, CODING, Ascii("chunked"));
    StaysSendable(h2, LENGTH, []);
    forall name
      ensures Values(Without(h2, LENGTH), name)
           == if SameName(LENGTH, name) then []
              else if SameName(CODING, name) then
                [Ascii("chunked")] + (if Values(h1, name) == [] then [] else Values(h1, name)[1..])
              else Values(h1, name)
      ensures Values(h1, name)
           == if SameName(TYPE, name) then [contentType]
              + (if Values(hs, name) == [] then [] else Values(hs, name)[1..])
              else Values(hs, name)
    {
      ValuesWith(hs, TYPE, contentType, name);
      ValuesWith(h1, CODING, Ascii("chunked"), name);
      ValuesWithout(h2, LENGTH, name);
    }
  }

  // What `set_version` does to the headers when the length of the stream becomes known.
  lemma KnownLength(hs: seq<Header>, n: nat)
    requires SendableHeaders(hs) && |Values(hs, LENGTH)| <= 1
    ensures var r := Without(WithHeader(hs, LENGTH, Digits(n)), CODING);
      && SendableHeaders(r) && GiveLength(r, n)
      && forall name :: Another(name) ==> Values(r, name) == Values(hs, name)
  {
    KnownNames();
    NamesDiffer();
    DigitsAreValue(n);
    var h1 := WithHeader(hs, LENGTH, Digits(n));
    hide Token, FieldValue, SameName, WithHeader, Without, Values, Digits, Ascii;
    StaysSendable(hs, LENGTH, Digits(n));
    StaysSendable(h1, CODING, []);
    forall name
      ensures Values(Without(h1, CODING), name)
           == if SameName(CODING, name) then []
              else if SameName(LENGTH, name) then [Digits(n)]
              + (if Values(hs, name) == [] then [] else Values(hs, name)[1..])
              else Values(hs, name)
    {
      ValuesWith(hs, LENGTH, Digits(n), name);
      ValuesWithout(h1, CODING, name);
    }
  }

  // A name that has nothing to do with the framing.
  predicate Unframed(name: seq<byte>)
  {
    !SameName(name, LENGTH) && !SameName(name, CODING)
  }

  lemma StaysInStep(hs: seq<Header>, name: seq<byte>, value: seq<byte>)
    ensures Unframed(name) ==>
      && (forall n :: GiveLength(hs, n) ==> GiveLength(WithHeader(hs, name, value), n))
      && (GiveChunks(hs) ==> GiveChunks(WithHeader(hs, name, value)))
    ensures SendableHeaders(hs) && Token(name) && FieldValue(value) ==> SendableHeaders(WithHeader(hs, name, value))
  {
    if SendableHeaders(hs) {
      StaysSendable(hs, name, value);
    }
    ValuesWith(hs, name, value, LENGTH);
    ValuesWith(hs, name, value, CODING);
    hide Values, WithHeader, SameName, Digits, Ascii, Token, FieldValue;
  }

  // ---- the bytes ----

  const BUFFER_SIZE: nat := 10240   // `kMaxChunkSize`

  function HeaderBuffers(h: Header): seq<seq<byte>>
  {
    [h.name, Ascii(": "), h.value, CRLF]
  }

  function StatusLine(major: nat, minor: nat, status: nat): seq<byte>
  {
    Ascii("HTTP/") + Digits(major) + Ascii(".") + Digits(minor) + Ascii(" ") + Digits(status) + Ascii(" ")
      + StatusText(status) + CRLF
  }

  lemma {:induction false} FlattenMore(a: seq<seq<byte>>, b: seq<seq<byte>>)
    ensures Flatten(a + b) == Flatten(a) + Flatten(b)
  {
    if a == [] {
      Unit(b);
    } else {
      assert (a + b)[1..] == a[1..] + b;
      FlattenMore(a[1..], b);
    }
  }

  lemma FlattenFour(a: seq<byte>, b: seq<byte>, c: seq<byte>, d: seq<byte>)
    ensures Flatten([a, b, c, d]) == a + (b + (c + d))
  {
    Singleton(d);
    assert [a, b, c, d][1..] == [b, c, d] && [b, c, d][1..] == [c, d] && [c, d][1..] == [d];
    assert Flatten([c, d]) == c + Flatten([d]);
    assert Flatten([b, c, d]) == b + Flatten([c, d]);
    assert Flatten([a, b, c, d]) == a + Flatten([b, c, d]);
  }

  lemma FlattenThree(a: seq<byte>, b: seq<byte>, c: seq<byte>)
    ensures Flatten([a, b, c]) == a + (b + c)
  {
    FlattenFour([], a, b, c);
    assert [[], a, b, c][1..] == [a, b, c];
    Unit(Flatten([a, b, c]));
    Unit(a + (b + c));
  }

  lemma Singleton(a: seq<byte>)
    ensures Flatten([a]) == a
  {
    assert [a][1..] == [] && a + [] == a;
  }

  // The header lines without the blank line behind them.
  function LineBytes(hs: seq<Header>): seq<byte>
  {
    if hs == [] then [] else HeaderBytes(hs[0]) + LineBytes(hs[1..])
  }

  lemma {:induction false} LinesAndBlank(hs: seq<Header>)
    ensures HeadersBytes(hs) == LineBytes(hs) + CRLF
  {
    if hs != [] {
      LinesAndBlank(hs[1..]);
    } else {
      Unit(CRLF);
    }
  }

  lemma {:induction false} OneMoreLine(hs: seq<Header>, i: nat)
    requires i < |hs|
    ensures LineBytes(hs[..i + 1]) == LineBytes(hs[..i]) + HeaderBytes(hs[i])
  {
    hide HeaderBytes;
    if i == 0 {
      assert hs[..1] == [hs[0]] && [hs[0]][1..] == [] && hs[..0] == [];
      Unit(HeaderBytes(hs[0]));
      assert HeaderBytes(hs[0]) + [] == HeaderBytes(hs[0]);
    } else {
      OneMoreLine(hs[1..], i - 1);
      assert hs[..i + 1][1..] == hs[1..][..i] && hs[..i][1..] == hs[1..][..i - 1];
      Associate(HeaderBytes(hs[0]), LineBytes(hs[1..][..i - 1]), HeaderBytes(hs[i]));
    }
  }

  // One buffer, or those of one header, are added.
  lemma MoreBuffers(bufs: seq<seq<byte>>, h: Header, s: seq<byte>)
    ensures Flatten(bufs + HeaderBuffers(h)) == Flatten(bufs) + HeaderBytes(h)
    ensures Flatten(bufs + [s]) == Flatten(bufs) + s
  {
    FlattenMore(bufs, HeaderBuffers(h));
    FlattenMore(bufs, [s]);
    Singleton(s);
    FlattenFour(h.name, Ascii(": "), h.value, CRLF);
  }

  // ---- the reply ----

  class ReplyObject {
    var status: nat
    var major: nat
    var minor: nat
    var headers: seq<Header>
    var content: seq<byte>
    var stream: Option<seq<byte>>   // what is left of `m_data`
    var chunked: bool
    const sizeBuffer: array<byte>

    // The content a client is to get.
    ghost function Body(): seq<byte>
      reads this
    {
      if stream.Some? then stream.value else content
    }

    ghost function Message(): ReplyMessage
      reads this
    {
      ReplyMessage(status, minor, headers, content)
    }

    // The headers say how the content is sent.
    ghost predicate Agrees()
      reads this
    {
      && sizeBuffer.Length == 8
      && 100 <= status <= 999 && SendableHeaders(headers)
      && (stream.Some? ==> content == [])
      && if stream.Some? && chunked then GiveChunks(headers) else GiveLength(headers, |Body()|)
    }

    constructor (status: nat, major: nat, minor: nat, date: seq<byte>)
      requires 100 <= status <= 999 && FieldValue(date)
      ensures Agrees() && fresh(sizeBuffer)
      ensures this.status == status && this.major == major && this.minor == minor && stream == None && Body() == []
    {
      this.status, this.major, this.minor := status, major, minor;
      content, stream, chunked := [], None, false;
      sizeBuffer := new byte[8];
      headers := [];
      new;
      SetHeader(Ascii("Date"), date);
      SetHeader(Ascii("Server"), Ascii("libzeep"));
      SetHeader(LENGTH, Ascii("0"));
      FirstHeaders(date);
    }

    /**
     The first header of that name gets the value.  A header that has nothing to do with the framing
     leaves the reply in agreement with its content.
     */
    method SetHeader(name: seq<byte>, value: seq<byte>)
      modifies this`headers
      ensures headers == WithHeader(old(headers), name, value)
      ensures old(Agrees()) && Unframed(name) && Token(name) && FieldValue(value) ==> Agrees()
    {
      StaysInStep(headers, name, value);
      var updated := false;
      var i := 0;
      ghost var before := headers;
      assert headers[0..] == headers && headers[..0] == [];
      Unit(WithHeader(headers, name, value));
      while i < |headers| && !updated
        invariant i <= |headers|
        invariant !updated ==> headers == before
        invariant !updated ==> before[..i] + WithHeader(before[i..], name, value) == WithHeader(before, name, value)
        invariant updated ==> headers == WithHeader(before, name, value)
      {
        NextHeader(headers, i, name, value);
        hide *;
        if SameName(headers[i].name, name) {
          headers := headers[i := headers[i].(value := value)];
          updated := true;
        }
        i := i + 1;
      }
      if !updated {
        headers := headers + [Header(name, value)];
      }
    }

    method GetHeader(name: seq<byte>) returns (result: seq<byte>)
      ensures var vs := Values(headers, name); result == if vs == [] then [] else vs[0]
    {
      var i := 0;
      assert headers[0..] == headers;
      while i < |headers|
        invariant i <= |headers|
        invariant Values(headers[i..], name) == Values(headers, name)
      {
        assert headers[i..][0] == headers[i] && headers[i..][1..] == headers[i + 1..];
        if SameName(headers[i].name, name) {
          return headers[i].value;
        }
        i := i + 1;
      }
      return [];
    }

    method RemoveHeader(name: seq<byte>)
      modifies this`headers
      ensures headers == Without(old(headers), name)
    {
      headers := Without(headers, name);
    }

    /** The content is set, with the headers that go with it. */
    method SetContent(data: seq<byte>, contentType: seq<byte>)
      requires Agrees() && FieldValue(contentType)
      modifies this`content, this`status, this`stream, this`chunked, this`headers
      ensures Agrees() && stream == None && Body() == data && status == 200
      ensures Values(headers, TYPE) != [] && Values(headers, TYPE)[0] == contentType
      ensures forall name :: Another(name) ==> Values(headers, name) == old(Values(headers, name))
    {
      content, status, stream, chunked := data, 200, None, false;
      ghost var before := headers;
      SetHeader(LENGTH, Digits(|content|));
      RemoveHeader(CODING);
      SetHeader(TYPE, contentType);
      LengthHeaders(before, |data|, contentType);
    }

    /** The content is to be read from a stream while it is sent. */
    method SetContentStream(data: seq<byte>, contentType: seq<byte>)
      requires Agrees() && FieldValue(contentType)
      modifies this`content, this`status, this`stream, this`chunked, this`headers
      ensures Agrees() && stream == Some(data) && chunked && Body() == data && status == 200
      ensures Values(headers, TYPE) != [] && Values(headers, TYPE)[0] == contentType
      ensures forall name :: Another(name) ==> Values(headers, name) == old(Values(headers, name))
    {
      stream, content, status, chunked := Some(data), [], 200, true;
      ghost var before := headers;
      SetHeader(TYPE, contentType);
      SetHeader(CODING, Ascii("chunked"));
      RemoveHeader(LENGTH);
      ChunkHeaders(before, contentType);
    }

    /**
     A client of version 1.0 gets a length instead of chunks: from a stream that can say its
     position the length is asked, any other is read to its end first.
     */
    method SetVersion(major: nat, minor: nat, seekable: bool)
      requires Agrees()
      modifies this`content, this`major, this`minor, this`stream, this`chunked, this`headers
      ensures Agrees() && Body() == old(Body()) && this.major == major && this.minor == minor
      ensures major == 1 && minor == 0 && stream.Some? ==> !chunked
      ensures forall name :: Another(name) ==> Values(headers, name) == old(Values(headers, name))
    {
      this.major, this.minor := major, minor;
      if major == 1 && minor == 0 && stream.Some? {
        chunked := false;
        var length := |stream.value|;
        if !seekable {
          content := content + stream.value;
          stream := None;
          Unit(content);
        }
        ghost var before := headers;
        SetHeader(LENGTH, Digits(length));
        RemoveHeader(CODING);
        KnownLength(before, length);
      }
    }

    method ToBuffers() returns (result: seq<seq<byte>>)
      ensures Flatten(result) == StatusLine(major, minor, status) + HeadersBytes(headers) + content
    {
      var line := StatusLine(major, minor, status);
      result := [line];
      Singleton(line);
      assert headers[..0] == [] && line + [] == line;
      hide Flatten, StatusLine, HeaderBytes, HeaderBuffers;
      var i := 0;
      while i < |headers|
        invariant i <= |headers|
        invariant Flatten(result) == line + LineBytes(headers[..i])
      {
        hide *;
        MoreBuffers(result, headers[i], []);
        OneMoreLine(headers, i);
        Associate(line, LineBytes(headers[..i]), HeaderBytes(headers[i]));
        result := result + HeaderBuffers(headers[i]);
        i := i + 1;
      }
      assert headers[..i] == headers;
      LinesAndBlank(headers);
      Associate(line, LineBytes(headers), CRLF);
      MoreBuffers(result, Header([], []), CRLF);
      result := result + [CRLF];
      MoreBuffers(result, Header([], []), content);
      result := result + [content];
    }

    // The digits of the size are written from the back of the buffer.
    method WriteSize(n: nat) returns (p: nat)
      requires sizeBuffer.Length == 8 && 0 < n < WORD
      modifies sizeBuffer
      ensures p <= 8 && sizeBuffer[p..] == HexDigits(n)
    {
      p := 8;
      var left := n;
      HexDigitsFit(n, 8);
      assert sizeBuffer[8..] == [] && HexDigits(n) + [] == HexDigits(n);
      while left != 0
        invariant |HexDigits(left)| <= p <= 8
        invariant HexDigits(left) + sizeBuffer[p..] == HexDigits(n)
      {
        ghost var tail := sizeBuffer[p..];
        p := p - 1;
        sizeBuffer[p] := HexDigit(left % 16);
        assert sizeBuffer[p..] == [HexDigit(left % 16)] + tail;
        Associate(HexDigits(left / 16), [HexDigit(left % 16)], tail);
        left := left / 16;
      }
      Unit(sizeBuffer[p..]);
    }

    /**
     The next bytes of the stream: a chunk, the last chunk when nothing is left, and nothing once
     the stream is gone.
     */
    method DataToBuffers() returns (result: seq<seq<byte>>, ghost piece: seq<byte>)
      requires sizeBuffer.Length == 8
      modifies this`stream, sizeBuffer
      ensures old(stream) == None ==> result == [] && stream == None
      ensures old(stream) == Some([]) ==>
        stream == None && Flatten(result) == (if chunked then ChunksBytes([]) else []) && (result == [] <==> !chunked)
      ensures old(stream).Some? && old(stream).value != [] ==>
        && result != [] && stream.Some? && old(stream).value == piece + stream.value && 0 < |piece| <= 10240
        && Flatten(result) == (if chunked then ChunkBytes(piece) else piece)
    {
      result, piece := [], [];
      if stream.Some? {
        var data := stream.value;
        if data == [] {
          if chunked {
            result := [Ascii("0"), CRLF, CRLF];
            FlattenThree(Ascii("0"), CRLF, CRLF);
          }
          stream := None;
        } else {
          hide Flatten;
          // as much as `sgetn` gives
          var n: nat :| 1 <= n <= BUFFER_SIZE && n <= |data|;
          var buffer := data[..n];
          piece := buffer;
          stream := Some(data[n..]);
          if chunked {
            var p := WriteSize(n);
            result := [sizeBuffer[p..], CRLF, buffer, CRLF];
            FlattenFour(sizeBuffer[p..], CRLF, buffer, CRLF);
          } else {
            result := [buffer];
            Singleton(buffer);
          }
        }
      }
    }
  }

  // ---- from one end to the other ----

  lemma HeadIsReply(m: ReplyMessage)
    ensures StatusLine(1, m.minor, m.status) + HeadersBytes(m.headers) + m.content == ReplyBytes(m)
  {
    assert Digits(1) == ['1' as int] && Ascii("HTTP/") + ['1' as int] + Ascii(".") == Ascii("HTTP/1.");
    var (a, b, c, d, e) := (Ascii("HTTP/1."), Digits(m.minor), Ascii(" "), Digits(m.status), StatusText(m.status));
    var (f, g) := (HeadersBytes(m.headers), m.content);
    hide Ascii, Digits, StatusText, HeadersBytes;
    assert StatusLine(1, m.minor, m.status) == a + b + c + d + c + e + CRLF;
    var t := CRLF + (f + g);
    Associate(a + b + c + d + c + e + CRLF, f, g);
    Associate(a + b + c + d + c + e, CRLF, f + g);
    Associate(a + b + c + d + c, e, t);
    Associate(a + b + c + d, c, e + t);
    Associate(a + b + c, d, c + (e + t));
    Associate(a + b, c, d + (c + (e + t)));
    Associate(a, b, c + (d + (c + (e + t))));
  }

  function AllChunks(pieces: seq<seq<byte>>): seq<byte>
  {
    if pieces == [] then [] else ChunkBytes(pieces[0]) + AllChunks(pieces[1..])
  }

  lemma {:induction false} OneMoreChunk(pieces: seq<seq<byte>>, piece: seq<byte>)
    ensures AllChunks(pieces + [piece]) == AllChunks(pieces) + ChunkBytes(piece)
    ensures ChunksBytes(pieces) == AllChunks(pieces) + ChunksBytes([])
  {
    hide ChunkBytes;
    if pieces == [] {
      assert [piece][1..] == [] && [] + [piece] == [piece];
      Unit(ChunkBytes(piece));
      assert ChunkBytes(piece) + [] == ChunkBytes(piece);
      Unit(ChunksBytes([]));
    } else {
      assert (pieces + [piece])[1..] == pieces[1..] + [piece];
      OneMoreChunk(pieces[1..], piece);
      Associate(ChunkBytes(pieces[0]), AllChunks(pieces[1..]), ChunkBytes(piece));
      Associate(ChunkBytes(pieces[0]), AllChunks(pieces[1..]), ChunksBytes([]));
    }
  }

  // Whatever follows the bytes, a client reads the message from them and leaves the rest alone.
  ghost predicate ReadsAs(bytes: seq<byte>, m: ReplyMessage)
  {
    forall rest ::
      var o := Parse(Fresh(Reply), bytes + rest);
      o.answer == True && o.rest == rest && o.parser.status >= 0 && GetReply(o.parser) == m
  }

  lemma PlainReads(m: ReplyMessage)
    requires 100 <= m.status <= 999 && m.minor <= 1 && SendableHeaders(m.headers)
    requires GiveLength(m.headers, |m.content|) && |m.content| < WORD
    ensures ReadsAs(ReplyBytes(m), m)
  {
    LengthIsAnnounced(m.headers, |m.content|);
    hide Announces, ReplyBytes, SendableHeaders, Parse, GiveLength;
    forall rest
      ensures var o := Parse(Fresh(Reply), ReplyBytes(m) + rest);
        o.answer == True && o.rest == rest && o.parser.status >= 0 && GetReply(o.parser) == m
    {
      ReplyRoundTrip(m, rest);
    }
  }

  lemma ChunkedReads(m: ReplyMessage, pieces: seq<seq<byte>>)
    requires 100 <= m.status <= 999 && m.minor <= 1 && SendableHeaders(m.headers) && m.content == []
    requires GiveChunks(m.headers) && forall i :: 0 <= i < |pieces| ==> 0 < |pieces[i]| <= BUFFER_SIZE
    ensures ReadsAs(ReplyBytes(m) + ChunksBytes(pieces), m.(content := Flatten(pieces)))
  {
    ChunksAreAnnounced(m.headers);
    hide AnnouncesChunks, ReplyBytes, SendableHeaders, Parse, GiveChunks, ChunksBytes, Flatten;
    forall rest
      ensures var o := Parse(Fresh(Reply), ReplyBytes(m) + ChunksBytes(pieces) + rest);
        o.answer == True && o.rest == rest && o.parser.status >= 0
            && GetReply(o.parser) == m.(content := Flatten(pieces))
    {
      Associate(ReplyBytes(m), ChunksBytes(pieces), rest);
      ChunkedReplyRoundTrip(m, pieces, rest);
    }
  }

  // `handle_write` until nothing is left.
  method SendStream(r: ReplyObject) returns (out: seq<byte>, ghost pieces: seq<seq<byte>>)
    requires r.sizeBuffer.Length == 8
    modifies r`stream, r.sizeBuffer
    ensures r.stream == None
    ensures forall i :: 0 <= i < |pieces| ==> 0 < |pieces[i]| <= BUFFER_SIZE
    ensures old(r.stream) == None ==> out == []
    ensures old(r.stream).Some? ==> Flatten(pieces) == old(r.stream).value && out == Sent(pieces, r.chunked, false)
  {
    ghost var before := r.stream;
    ghost var body := if r.stream.Some? then r.stream.value else [];
    out, pieces := [], [];
    NoPieces(body);
    hide *;
    var more := true;
    while more
      invariant r.stream.Some? ==> before.Some? && more
      invariant before == None ==> out == []
      invariant forall i :: 0 <= i < |pieces| ==> 0 < |pieces[i]| <= BUFFER_SIZE
      invariant before.Some? ==> body == Flatten(pieces) + (if r.stream.Some? then r.stream.value else [])
      invariant before.Some? ==> out == Sent(pieces, r.chunked, r.stream.Some?)
      decreases if more then 1 else 0, if r.stream.Some? then 1 + |r.stream.value| else 0
    {
      hide *;
      ghost var stream := r.stream;
      var bufs, piece := r.DataToBuffers();
      out := out + Flatten(bufs);
      more := bufs != [];
      NoBuffers(out, bufs);
      if stream.Some? && stream.value != [] {
        OnePiece(pieces, piece, r.stream.value, r.chunked);
        pieces := pieces + [piece];
      } else if stream.Some? {
        LastPiece(pieces, r.chunked);
      }
    }
    Unit(Flatten(pieces));
  }

  /**
   What a connection sends for a reply, first the head and then the stream until nothing is left:
   a client reads the reply's status, headers and content from it.
   */
  method Transmit(r: ReplyObject) returns (out: seq<byte>)
    requires r.Agrees() && r.major == 1 && r.minor <= 1 && |r.Body()| < WORD
    modifies r`stream, r.sizeBuffer
    ensures r.stream == None
    ensures ReadsAs(out, old(r.Message().(content := r.Body())))
  {
    ghost var m := r.Message();
    ghost var body := r.Body();
    ghost var streams := r.stream.Some?;
    ghost var inChunks := streams && r.chunked;
    var head := r.ToBuffers();
    HeadIsReply(m);
    hide Flatten, ReplyBytes, HeadersBytes, StatusLine, Sent, ReadsAs;
    var tail, pieces := SendStream(r);
    out := Flatten(head) + tail;
    SentIsRead(m, body, pieces, streams, inChunks, out);
  }

  lemma SentIsRead(m: ReplyMessage, body: seq<byte>, pieces: seq<seq<byte>>, streams: bool, inChunks: bool,
      out: seq<byte>)
    requires 100 <= m.status <= 999 && m.minor <= 1 && SendableHeaders(m.headers) && |body| < WORD
    requires if inChunks then GiveChunks(m.headers) else GiveLength(m.headers, |body|)
    requires if streams then m.content == [] && body == Flatten(pieces) else !inChunks && body == m.content
    requires forall i :: 0 <= i < |pieces| ==> 0 < |pieces[i]| <= BUFFER_SIZE
    requires out == ReplyBytes(m) + if streams then Sent(pieces, inChunks, false) else []
    ensures ReadsAs(out, m.(content := body))
  {
    SentAll(pieces, inChunks);
    Unit(ReplyBytes(m));
    hide ReadsAs, ReplyBytes, SendableHeaders, GiveChunks, GiveLength, Sent, Flatten, ChunksBytes;
    if inChunks {
      ChunkedReads(m, pieces);
    } else {
      if streams {
        WithContent(m, body);
      }
      PlainReads(m.(content := body));
    }
  }

  // What was sent behind the head, while the stream is still there or at its end.
  function Sent(pieces: seq<seq<byte>>, inChunks: bool, open: bool): seq<byte>
  {
    if !inChunks then Flatten(pieces) else if open then AllChunks(pieces) else ChunksBytes(pieces)
  }

  lemma SentAll(pieces: seq<seq<byte>>, inChunks: bool)
    ensures Sent(pieces, inChunks, false) == if inChunks then ChunksBytes(pieces) else Flatten(pieces)
  {
  }

  lemma NoPieces(body: seq<byte>)
    ensures Flatten([]) == [] && [] + body == body
    ensures forall c :: Sent([], c, true) == []
  {
  }

  lemma NoBuffers(w: seq<byte>, bufs: seq<seq<byte>>)
    ensures bufs == [] ==> w + Flatten(bufs) == w
  {
  }

  lemma OnePiece(pieces: seq<seq<byte>>, piece: seq<byte>, left: seq<byte>, inChunks: bool)
    ensures Sent(pieces, inChunks, true) + (if inChunks then ChunkBytes(piece) else piece)
         == Sent(pieces + [piece], inChunks, true)
    ensures Flatten(pieces) + (piece + left) == Flatten(pieces + [piece]) + left
  {
    OneMoreChunk(pieces, piece);
    FlattenMore(pieces, [piece]);
    Singleton(piece);
    Associate(Flatten(pieces), piece, left);
  }

  lemma LastPiece(pieces: seq<seq<byte>>, inChunks: bool)
    ensures Sent(pieces, inChunks, true) + (if inChunks then ChunksBytes([]) else []) == Sent(pieces, inChunks, false)
  {
    OneMoreChunk(pieces, []);
    Unit(Flatten(pieces));
  }

  lemma WithContent(m: ReplyMessage, body: seq<byte>)
    requires m.content == []
    ensures ReplyBytes(m) + body == ReplyBytes(m.(content := body))
  {
    ReplyParts(m, body);
    ReplyParts(m.(content := body), []);
    assert ReplyBytes(m.(content := body)) + [] == ReplyBytes(m.(content := body));
    assert m.content + body == body && body + [] == body;
  }
}
