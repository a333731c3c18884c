/**
 Messages byte by byte (RFC 7230): what is written, what is read, and which requests keep a
 connection open.
 */
module HttpStandard {
  import opened Utf8
  import opened Text
  import opened Sequences
  import opened Numerals
  import opened HttpParser
  import opened HttpRoundTrip
  import opened HttpConnection

  // ---- names in any letter case ----

  // The byte is the character, or its capital when that is a small letter.
  predicate SameLetter(b: byte, c: char)
  {
    b == c as int || ('a' <= c <= 'z' && b + 32 == c as int)
  }

  // The bytes spell the word, which is written in small letters, in any letter case.
  predicate SameLetters(a: seq<byte>, word: string)
  {
    |a| == |word| && forall i :: 0 <= i < |a| ==> SameLetter(a[i], word[i])
  }

  // The word in small letters.
  predicate Lowered(s: string, word: string)
  {
    |s| == |word|
    && forall i :: 0 <= i < |s| ==>
      s[i] < 128 as char && !('A' <= word[i] <= 'Z') && SameLetter(s[i] as int % 256, word[i])
  }

  lemma LettersAgree(b: byte, c: char, l: char)
    requires c < 128 as char && !('A' <= l <= 'Z') && SameLetter(c as int % 256, l)
    ensures Upper(b) == Upper(c as int % 256) <==> SameLetter(b, l)
  {
  }

  lemma NameByLetters(a: seq<byte>, s: string, word: string)
    requires Lowered(s, word)
    ensures SameName(a, Ascii(s)) <==> SameLetters(a, word)
  {
    if |a| == |s| {
      forall i | 0 <= i < |a| ensures Upper(a[i]) == Upper(Ascii(s)[i]) <==> SameLetter(a[i], word[i]) {
        LettersAgree(a[i], s[i], word[i]);
      }
    }
    hide SameLetter, Upper, Ascii;
  }

  lemma LoweredBoth(s: string, s': string, word: string, word': string)
    requires Lowered(s, word) && Lowered(s', word')
    ensures Lowered(s + s', word + word')
  {
    hide SameLetter;
  }

  lemma LengthWord()
    ensures Lowered("Content-Length", "content-length")
  {
    assert Lowered("Content", "content") && Lowered("-Length", "-length");
    LoweredBoth("Content", "-Length", "content", "-length");
    assert "Content" + "-Length" == "Content-Length" && "content" + "-length" == "content-length";
    hide Lowered;
  }

  lemma CodingWords()
    ensures Lowered("Transfer-Encoding", "transfer-encoding")
  {
    FirstCodingWord();
    assert Lowered("-Encoding", "-encoding");
    hide Lowered;
    LoweredBoth("Transfer", "-Encoding", "transfer", "-encoding");
    assert "Transfer" + "-Encoding" == "Transfer-Encoding" && "transfer" + "-encoding" == "transfer-encoding";
  }

  lemma FirstCodingWord()
    ensures Lowered("Transfer", "transfer")
  {
  }

  lemma ChunkedWord()
    ensures Lowered("chunked", "chunked")
  {
  }

  lemma ConnectionWords()
    ensures Lowered("Connection", "connection") && Lowered("Close", "close")
  {
  }

  lemma AliveWord()
    ensures Lowered("keep-alive", "keep-alive")
  {
  }

  // ---- connections that are kept ----

  // The header at `i` is the first with the name `connection`.
  predicate FirstConnection(hs: seq<Header>, i: nat)
  {
    && i < |hs| && SameLetters(hs[i].name, "connection")
    && forall j :: 0 <= j < i ==> !SameLetters(hs[j].name, "connection")
  }

  // Version 1.1, and `keep-alive` in the first of the headers named `connection`.
  ghost predicate AsksToStay(m: RequestMessage)
  {
    m.minor == 1 && exists i: nat :: FirstConnection(m.headers, i) && SameLetters(m.headers[i].value, "keep-alive")
  }

  lemma {:induction false} HeaderFound(hs: seq<Header>)
    ensures var v := GetHeader(hs, Ascii("Connection"));
      SameLetters(v, "keep-alive")
      <==> exists i: nat :: FirstConnection(hs, i) && SameLetters(hs[i].value, "keep-alive")
  {
    if hs != [] {
      var rest := hs[1..];
      ConnectionWords();
      NameByLetters(hs[0].name, "Connection", "connection");
      HeaderFound(rest);
      hide SameName, Lowered, Ascii, SameLetters;
      if SameLetters(hs[0].name, "connection") {
        assert FirstConnection(hs, 0);
        assert forall i: nat :: FirstConnection(hs, i) ==> i == 0;
      } else {
        if i: nat :| FirstConnection(hs, i) && SameLetters(hs[i].value, "keep-alive") {
          assert rest[i - 1] == hs[i] && forall j :: 0 <= j < i - 1 ==> rest[j] == hs[j + 1];
          assert FirstConnection(rest, i - 1);
        }
        if i: nat :| FirstConnection(rest, i) && SameLetters(rest[i].value, "keep-alive") {
          assert hs[i + 1] == rest[i] && forall j :: 0 < j < i + 1 ==> hs[j] == rest[j - 1];
          assert FirstConnection(hs, i + 1);
        }
      }
    }
  }

  lemma AliveByHeaders(m: RequestMessage)
    requires m.minor <= 1
    ensures KeepAlive(m) <==> AsksToStay(m)
  {
    AliveWord();
    HeaderFound(m.headers);
    NameByLetters(GetHeader(m.headers, Ascii("Connection")), "keep-alive", "keep-alive");
    hide SameName, SameLetters, GetHeader, Lowered, Ascii, FirstConnection;
  }

  lemma {:induction false} EachServed(ms: seq<RequestMessage>)
    ensures |AllServed(ms)| == |ms| && forall i :: 0 <= i < |ms| ==> AllServed(ms)[i] == Served(ms[i])
  {
    if ms != [] {
      EachServed(ms[1..]);
    }
  }

  /**
   Requests sent one behind the other, in buffers cut anywhere: all are served in order, each as it
   was sent, when the first asks to stay; otherwise only the first.
   */
  lemma PipelinedByHeaders(ms: seq<RequestMessage>, bufs: seq<seq<byte>>)
    requires forall i :: 0 <= i < |ms| ==> Sendable(ms[i])
    requires Flatten(bufs) == RequestsBytes(ms)
    ensures var r := Session(Fresh(Request), false, bufs);
      && |r| == (if ms == [] || AsksToStay(ms[0]) then |ms| else 1)
      && forall i :: 0 <= i < |r| ==> r[i] == Served(ms[i])
  {
    Pipelined(ms, bufs);
    if ms != [] {
      assert Sendable(ms[0]);
      AliveByHeaders(ms[0]);
    }
    EachServed(ms);
    EachServed(ms[..if ms == [] then 0 else 1]);
    hide Session, AllServed, KeepAlive, AsksToStay, RequestsBytes, Flatten;
  }

  // ---- what may be sent ----

  // Visible characters and those of other character sets, without the separators.
  predicate NameByte(b: byte)
  {
    33 <= b && b !in {34, 40, 41, 44, 47, 58, 59, 60, 61, 62, 63, 64, 91, 92, 93, 123, 125, 127}
  }

  lemma NameBytes(b: byte)
    ensures !IsControl(b) && !IsSpecial(b) <==> NameByte(b)
  {
    var s := Ascii("()<>@,;:\\\"/[]?={} \t");
    assert |s| == 19;
    assert s[0] == 40 && s[1] == 41 && s[2] == 60 && s[3] == 62 && s[4] == 64 && s[5] == 44 && s[6] == 59;
    assert s[7] == 58 && s[8] == 92 && s[9] == 34 && s[10] == 47 && s[11] == 91 && s[12] == 93 && s[13] == 63;
    assert s[14] == 61 && s[15] == 123 && s[16] == 125 && s[17] == 32 && s[18] == 9;
    hide Ascii;
  }

  predicate StandardHeaders(hs: seq<Header>)
  {
    forall i :: 0 <= i < |hs| ==>
      && hs[i].name != [] && (forall b <- hs[i].name :: NameByte(b))
      && (hs[i].value != [] ==> hs[i].value[0] != 32) && 13 !in hs[i].value
  }

  predicate StandardLine(m: RequestMessage)
  {
    && (forall b <- m.verb :: 65 <= b <= 90 || 97 <= b <= 122)
    && (forall b <- m.uri :: 32 < b && b != 127)
    && m.minor <= 1
  }

  // A number without leading zeros.
  predicate Decimal(v: seq<byte>, n: nat)
  {
    Spells(v, 10, n) && (|v| > 1 ==> v[0] != 48)
  }

  predicate GivesLength(h: Header)
  {
    SameLetters(h.name, "content-length")
  }

  predicate GivesChunks(h: Header)
  {
    SameLetters(h.name, "transfer-encoding") && SameLetters(h.value, "chunked")
  }

  predicate GivesClose(h: Header)
  {
    SameLetters(h.name, "connection") && SameLetters(h.value, "close")
  }

  // The headers announce a content of `n` bytes.
  predicate StandardLength(hs: seq<Header>, n: nat)
  {
    && n < 0x1_0000_0000
    && (forall i :: 0 <= i < |hs| ==> !GivesChunks(hs[i]))
    && (forall i :: 0 <= i < |hs| ==> GivesLength(hs[i]) ==> Decimal(hs[i].value, n))
    && (n > 0 ==> exists i :: 0 <= i < |hs| && GivesLength(hs[i]))
  }

  predicate StandardClose(hs: seq<Header>)
  {
    exists j :: 0 <= j < |hs| && GivesClose(hs[j]) && forall k :: j < k < |hs| ==> !GivesLength(hs[k])
  }

  lemma HeaderWords(h: Header)
    ensures SaysLength(h) <==> GivesLength(h)
    ensures SaysChunked(h) <==> GivesChunks(h)
    ensures SaysClose(h) <==> GivesClose(h)
  {
    LengthWord();
    CodingWords();
    ChunkedWord();
    ConnectionWords();
    NameByLetters(h.name, "Content-Length", "content-length");
    NameByLetters(h.name, "Transfer-Encoding", "transfer-encoding");
    NameByLetters(h.name, "Connection", "connection");
    NameByLetters(h.value, "chunked", "chunked");
    NameByLetters(h.value, "Close", "close");
    hide Lowered, SameName, SameLetters, Ascii;
  }

  lemma {:induction false} DigitsAreDecimal(n: nat)
    ensures Decimal(Digits(n), n) && (n > 0 ==> Digits(n)[0] != 48)
  {
    var ds := Digits(n);
    assert IsDigitFor(48 + n % 10, n % 10, 10) by { DigitFor(n % 10); }
    if n >= 10 {
      DigitsAreDecimal(n / 10);
      assert ds[..|ds| - 1] == Digits(n / 10) && ds[|ds| - 1] == 48 + n % 10 && ds[0] == Digits(n / 10)[0];
    } else {
      assert n % 10 == n;
    }
    hide IsDigitFor;
  }

  lemma DigitFor(v: nat)
    requires v < 10
    ensures IsDigitFor(48 + v, v, 10)
  {
    assert v in {0, 1, 2, 3, 4, 5, 6, 7, 8, 9};
  }

  lemma {:induction false} DecimalIsDigits(v: seq<byte>, n: nat)
    ensures Decimal(v, n) <==> v == Digits(n)
    decreases |v|
  {
    DigitsAreDecimal(n);
    if Decimal(v, n) {
      DigitCodes(v[|v| - 1], n % 10, 10);
      var init := v[..|v| - 1];
      assert v == init + [v[|v| - 1]];
      if |v| == 1 {
        assert n % 10 == n;
      } else {
        assert init[0] == v[0];
        NotZero(init, n / 10);
        DecimalIsDigits(init, n / 10);
      }
    }
    hide IsDigitFor;
  }

  // Digits that do not begin with a zero write no zero.
  lemma {:induction false} NotZero(v: seq<byte>, n: nat)
    requires Spells(v, 10, n) && v[0] != 48
    ensures n > 0
    decreases |v|
  {
    DigitCodes(v[|v| - 1], n % 10, 10);
    if |v| > 1 {
      NotZero(v[..|v| - 1], n / 10);
    }
  }

  // ---- messages as bytes ----

  // Every header on a line of its own, and an empty line.
  function HeaderLines(hs: seq<Header>): seq<byte>
  {
    if hs == [] then [13, 10] else hs[0].name + ([58, 32] + (hs[0].value + ([13, 10] + HeaderLines(hs[1..]))))
  }

  // "VERB URI HTTP/1.x"
  function RequestText(m: RequestMessage): seq<byte>
    requires m.minor <= 1
  {
    m.verb + ([32] + (m.uri + ([32, 72, 84, 84, 80, 47, 49, 46] + ([48 + m.minor] + ([13, 10]
      + (HeaderLines(m.headers) + m.payload))))))
  }

  // "HTTP/1.x NNN Phrase"
  function ReplyText(m: ReplyMessage): seq<byte>
    requires m.minor <= 1 && 100 <= m.status <= 999
  {
    [72, 84, 84, 80, 47, 49, 46] + ([48 + m.minor] + ([32]
      + ([48 + m.status / 100, 48 + m.status / 10 % 10, 48 + m.status % 10] + ([32] + (StatusText(m.status)
      + ([13, 10] + (HeaderLines(m.headers) + m.content)))))))
  }

  lemma {:induction false} LinesAreWritten(hs: seq<Header>)
    ensures HeadersBytes(hs) == HeaderLines(hs)
  {
    if hs != [] {
      LinesAreWritten(hs[1..]);
      var h, rest := hs[0], HeaderLines(hs[1..]);
      assert Ascii(": ") == [58, 32] && CRLF == [13, 10];
      assert HeaderBytes(h) + rest == h.name + ([58, 32] + (h.value + ([13, 10] + rest))) by {
        FourParts(h.name, [58, 32], h.value, [13, 10], rest);
      }
      hide Ascii;
    }
  }

  lemma FourParts(a: seq<byte>, b: seq<byte>, c: seq<byte>, d: seq<byte>, e: seq<byte>)
    ensures (a + (b + (c + d))) + e == a + (b + (c + (d + e)))
  {
    Associate(a, b + (c + d), e);
    Associate(b, c + d, e);
    Associate(c, d, e);
  }

  lemma VersionTexts()
    ensures Ascii(" ") == [32] && Ascii(" HTTP/1.") == [32, 72, 84, 84, 80, 47, 49, 46]
    ensures Ascii("HTTP/1.") == [72, 84, 84, 80, 47, 49, 46] && CRLF == [13, 10]
  {
  }

  /** A request is written in this form. */
  lemma RequestWritten(m: RequestMessage)
    requires m.minor <= 1
    ensures RequestBytes(m) == RequestText(m)
  {
    LinesAreWritten(m.headers);
    VersionTexts();
    assert Digits(m.minor) == [48 + m.minor];
    hide Ascii, Digits, HeadersBytes, HeaderLines;
  }

  /** A reply is written in this form. */
  lemma ReplyWritten(m: ReplyMessage)
    requires m.minor <= 1 && 100 <= m.status <= 999
    ensures ReplyBytes(m) == ReplyText(m)
  {
    LinesAreWritten(m.headers);
    VersionTexts();
    assert Digits(m.minor) == [48 + m.minor];
    StatusDigitsAre(m.status);
    assert ReplyBytes(m) == Ascii("HTTP/1.") + (Digits(m.minor) + (Ascii(" ") + (Digits(m.status) + (Ascii(" ")
      + (StatusText(m.status) + (CRLF + (HeadersBytes(m.headers) + m.content)))))));
    assert ReplyText(m) == [72, 84, 84, 80, 47, 49, 46] + ([48 + m.minor] + ([32]
      + ([48 + m.status / 100, 48 + m.status / 10 % 10, 48 + m.status % 10] + ([32] + (StatusText(m.status)
      + ([13, 10] + (HeaderLines(m.headers) + m.content)))))));
    hide *;
  }

  lemma StatusDigitsAre(n: nat)
    requires 100 <= n <= 999
    ensures Digits(n) == [48 + n / 100, 48 + n / 10 % 10, 48 + n % 10]
  {
    var a, b, d := ThreeDigits(n);
    Hundreds(a, b, d);
    hide Digits;
  }

  lemma Hundreds(a: nat, b: nat, d: nat)
    requires a <= 9 && b <= 9 && d <= 9
    ensures var n := 100 * a + 10 * b + d; n / 100 == a && n / 10 % 10 == b && n % 10 == d
  {
    var n := 100 * a + 10 * b + d;
    assert n / 10 == 10 * a + b;
  }

  lemma SameLength(hs: seq<Header>, n: nat)
    ensures StandardLength(hs, n) <==> Announces(hs, n)
    ensures StandardClose(hs) <==> ClosesLast(hs, 0)
  {
    forall h: Header
      ensures (SaysLength(h) <==> GivesLength(h)) && (SaysChunked(h) <==> GivesChunks(h))
      ensures SaysClose(h) <==> GivesClose(h)
    {
      HeaderWords(h);
    }
    forall v: seq<byte> ensures Decimal(v, n) <==> v == Digits(n) {
      DecimalIsDigits(v, n);
    }
    hide SaysLength, GivesLength, SaysChunked, GivesChunks, SaysClose, GivesClose, Decimal, Digits;
  }

  lemma SameHeaders(hs: seq<Header>)
    ensures StandardHeaders(hs) <==> SendableHeaders(hs)
  {
    forall b: byte ensures NameByte(b) <==> !IsControl(b) && !IsSpecial(b) {
      NameBytes(b);
    }
    hide NameByte, IsControl, IsSpecial;
    forall i | 0 <= i < |hs|
      ensures (hs[i].name != [] && (forall b <- hs[i].name :: NameByte(b))) <==> Token(hs[i].name)
    {
      var s := hs[i].name;
      if Token(s) {
        forall b | b in s ensures NameByte(b) {
          var k :| 0 <= k < |s| && s[k] == b;
        }
      }
      if forall b <- s :: NameByte(b) {
        forall k | 0 <= k < |s| ensures NameByte(s[k]) {
          assert s[k] in s;
        }
      }
    }
    hide Token;
  }

  lemma SameLine(m: RequestMessage)
    ensures StandardLine(m) <==> SendableLine(m)
  {
    if SendableLine(m) {
      forall b | b in m.verb ensures 65 <= b <= 90 || 97 <= b <= 122 {
        var k :| 0 <= k < |m.verb| && m.verb[k] == b;
      }
      forall b | b in m.uri ensures 32 < b && b != 127 {
        var k :| 0 <= k < |m.uri| && m.uri[k] == b;
      }
    }
    if StandardLine(m) {
      forall k | 0 <= k < |m.verb| ensures IsAlpha(m.verb[k]) {
        assert m.verb[k] in m.verb;
      }
      forall k | 0 <= k < |m.uri| ensures m.uri[k] != 32 && !IsControl(m.uri[k]) {
        assert m.uri[k] in m.uri;
      }
    }
  }

  lemma VerbTexts(verb: seq<byte>)
    ensures PostOrPut(verb) <==> verb == [80, 79, 83, 84] || verb == [80, 85, 84]
  {
    assert Ascii("POST") == [80, 79, 83, 84] && Ascii("PUT") == [80, 85, 84];
    hide Ascii;
  }

  /**
   The bytes of a request are read as that request, and those behind it are left alone, unless it is
   a POST or PUT without content in which no length follows the wish to close.
   */
  lemma RequestIsRead(m: RequestMessage, rest: seq<byte>)
    requires StandardLine(m) && StandardHeaders(m.headers) && StandardLength(m.headers, |m.payload|)
    ensures var o := Parse(Fresh(Request), RequestText(m) + rest);
      (o.answer == True && o.rest == rest && GetRequest(o.parser) == m)
      <==> !(m.payload == [] && (m.verb == [80, 79, 83, 84] || m.verb == [80, 85, 84]) && StandardClose(m.headers))
  {
    SameLine(m);
    SameHeaders(m.headers);
    SameLength(m.headers, |m.payload|);
    VerbTexts(m.verb);
    RequestWritten(m);
    hide *;
    RequestRoundTrip(m, rest);
  }

  /** The bytes of a reply are read as that reply, its phrase included, and those behind it are left alone. */
  lemma ReplyIsRead(m: ReplyMessage, rest: seq<byte>)
    requires m.minor <= 1 && 100 <= m.status <= 999
    requires StandardHeaders(m.headers) && StandardLength(m.headers, |m.content|)
    ensures var o := Parse(Fresh(Reply), ReplyText(m) + rest);
      o.answer == True && o.rest == rest && o.parser.status >= 0 && GetReply(o.parser) == m
      && o.parser.statusLine == StatusText(m.status)
  {
    SameHeaders(m.headers);
    SameLength(m.headers, |m.content|);
    ReplyWritten(m);
    hide *;
    ReplyRoundTrip(m, rest);
  }

  // ---- phrases ----

  // The status codes that have a phrase of their own (RFC 7231, section 6.1, and RFC 7235, section 3).
  const PHRASES: seq<(nat, string)> := [
    (100, "Continue"), (200, "OK"), (201, "Created"), (202, "Accepted"), (204, "No Content"),
    (300, "Multiple Choices"), (301, "Moved Permanently"), (302, "Found"), (303, "See Other"), (304, "Not Modified"),
    (400, "Bad Request"), (401, "Unauthorized"), (403, "Forbidden"), (404, "Not Found"),
    (405, "Method not allowed"), (407, "Proxy Authentication Required"), (500, "Internal Server Error"),
    (501, "Not Implemented"), (502, "Bad Gateway"), (503, "Service Unavailable")]

  /** Each of these codes is written with its phrase. */
  lemma PhraseOfCode(i: nat)
    requires i < |PHRASES|
    ensures StatusPhrase(PHRASES[i].0) == PHRASES[i].1
  {
    var ps := PHRASES;
    if i < 10 {
      assert i in {0, 1, 2, 3, 4, 5, 6, 7, 8, 9};
    } else {
      assert i in {10, 11, 12, 13, 14, 15, 16, 17, 18, 19};
    }
  }

  /** And any other code with a phrase that belongs to none. */
  lemma OtherCode(status: nat)
    requires status !in {100, 200, 201, 202, 204, 300, 301, 302, 303, 304}
    requires status !in {400, 401, 403, 404, 405, 407, 500, 501, 502, 503}
    ensures StatusPhrase(status) == "Internal Service Error"
  {
  }
}
