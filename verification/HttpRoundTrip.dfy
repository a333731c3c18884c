/**
 The bytes of requests and replies, and what the parser makes of them (RFC 7230, section 3).
 */
module HttpRoundTrip {
  import opened Utf8
  import opened Text
  import opened Sequences
  import opened HttpParser

  // ---- messages and their bytes ----

  datatype RequestMessage = RequestMessage(
    verb: seq<byte>, uri: seq<byte>, minor: nat, headers: seq<Header>, payload: seq<byte>)

  datatype ReplyMessage = ReplyMessage(
    status: nat, minor: nat, headers: seq<Header>, content: seq<byte>)

  const CRLF: seq<byte> := [CR, LF]

  function HeaderBytes(h: Header): seq<byte>
  {
    h.name + (Ascii(": ") + (h.value + CRLF))
  }

  function HeadersBytes(hs: seq<Header>): seq<byte>
  {
    if hs == [] then CRLF else HeaderBytes(hs[0]) + HeadersBytes(hs[1..])
  }

  // `request::to_buffers`, for version 1.`minor`
  function RequestBytes(m: RequestMessage): seq<byte>
  {
    m.verb + (Ascii(" ") + (m.uri + (Ascii(" HTTP/1.") + (Digits(m.minor) + (CRLF
      + (HeadersBytes(m.headers) + m.payload))))))
  }

  // `reply::to_buffers`, for version 1.`minor`
  function ReplyBytes(m: ReplyMessage): seq<byte>
  {
    Ascii("HTTP/1.") + (Digits(m.minor) + (Ascii(" ") + (Digits(m.status) + (Ascii(" ") + (StatusText(m.status) + (CRLF
      + (HeadersBytes(m.headers) + m.content)))))))
  }

  // `get_status_text`
  function StatusPhrase(status: nat): (r: string)
    ensures forall c <- r :: ' ' <= c <= '~'
  {
    match status
    case 100 => "Continue"
    case 200 => "OK"
    case 201 => "Created"
    case 202 => "Accepted"
    case 204 => "No Content"
    case 300 => "Multiple Choices"
    case 301 => "Moved Permanently"
    case 302 => "Found"
    case 303 => "See Other"
    case 304 => "Not Modified"
    case _ => ErrorPhrase(status)
  }

  function ErrorPhrase(status: nat): (r: string)
    ensures forall c <- r :: ' ' <= c <= '~'
  {
    match status
    case 400 => "Bad Request"
    case 401 => "Unauthorized"
    case 407 => "Proxy Authentication Required"
    case 403 => "Forbidden"
    case 404 => "Not Found"
    case 405 => "Method not allowed"
    case _ => ServerErrorPhrase(status)
  }

  function ServerErrorPhrase(status: nat): (r: string)
    ensures forall c <- r :: ' ' <= c <= '~'
  {
    match status
    case 500 => "Internal Server Error"
    case 501 => "Not Implemented"
    case 502 => "Bad Gateway"
    case 503 => "Service Unavailable"
    case _ => "Internal Service Error"
  }

  function StatusText(status: nat): (r: seq<byte>)
    ensures CR !in r
  {
    AsciiPlain(StatusPhrase(status));
    Ascii(StatusPhrase(status))
  }

  lemma AsciiPlain(s: string)
    requires forall c <- s :: ' ' <= c <= '~'
    ensures CR !in Ascii(s)
  {
    forall i | 0 <= i < |s| ensures Ascii(s)[i] != CR {
      assert s[i] in s;
    }
  }

  // ---- what can be sent ----

  predicate Token(s: seq<byte>)
  {
    s != [] && forall i :: 0 <= i < |s| ==> !IsControl(s[i]) && !IsSpecial(s[i])
  }

  // No carriage return, and no space in front.
  predicate FieldValue(s: seq<byte>)
  {
    (s != [] ==> s[0] != ' ' as int) && CR !in s
  }

  predicate SendableHeaders(hs: seq<Header>)
  {
    forall i :: 0 <= i < |hs| ==> Token(hs[i].name) && FieldValue(hs[i].value)
  }

  predicate SendableLine(m: RequestMessage)
  {
    && (forall i :: 0 <= i < |m.verb| ==> IsAlpha(m.verb[i]))
    && (forall i :: 0 <= i < |m.uri| ==> m.uri[i] != ' ' as int && !IsControl(m.uri[i]))
    && m.minor <= 1
  }

  predicate SaysLength(h: Header)
  {
    SameName(h.name, Ascii("Content-Length"))
  }

  predicate SaysClose(h: Header)
  {
    SameName(h.name, Ascii("Connection")) && SameName(h.value, Ascii("Close"))
  }

  predicate SaysChunked(h: Header)
  {
    SameName(h.name, Ascii("Transfer-Encoding")) && SameName(h.value, Ascii("chunked"))
  }

  // The headers announce a content of `n` bytes.
  predicate Announces(hs: seq<Header>, n: nat)
  {
    && n < WORD
    && (forall i :: 0 <= i < |hs| ==> !SaysChunked(hs[i]))
    && (forall i :: 0 <= i < |hs| ==> SaysLength(hs[i]) ==> hs[i].value == Digits(n))
    && (n > 0 ==> exists i :: 0 <= i < |hs| && SaysLength(hs[i]))
  }

  // A header that asks to close is followed by none that gives a length.
  predicate ClosesLast(hs: seq<Header>, i: nat)
  {
    exists j :: i <= j < |hs| && SaysClose(hs[j]) && forall k :: j < k < |hs| ==> !SaysLength(hs[k])
  }

  // ---- the loop over a run of bytes ----

  lemma RunOne(p: Parser, c: bool, ch: byte, rest: seq<byte>)
    requires p.Valid() && p.stage != Unset && Dispatch(p, ch).answer == Indeterminate
    ensures Loop(p, c, [ch] + rest) == Loop(Dispatch(p, ch).next, c, rest)
  {
    hide Dispatch;
  }

  // ---- header lines ----

  ghost predicate InHeader(p: Parser, state: nat)
  {
    p.Valid() && p.stage == HeaderLines && p.state == state
  }

  lemma OnNameByte(p: Parser, ch: byte)
    requires !IsControl(ch) && !IsSpecial(ch)
    ensures InHeader(p, 0) ==> Dispatch(p, ch) == Go(p.(headers := p.headers + [Header([ch], [])], state := 1))
    ensures InHeader(p, 1) ==> Dispatch(p, ch) == Go(p.(headers := AddName(p.headers, [ch])))
  {
    var specials := Ascii("()<>@,;:\\\"/[]?={} \t");
    assert specials[7] == ':' as int && specials[17] == ' ' as int && specials[18] == '\t' as int;
    hide IsSpecial;
  }

  lemma OnSeparator(p: Parser)
    ensures InHeader(p, 1) ==> Dispatch(p, ':' as int) == Go(p.(state := 2))
    ensures InHeader(p, 2) ==> Dispatch(p, ' ' as int) == Go(p.(state := 3))
  {
  }

  lemma OnValueByte(p: Parser, ch: byte)
    requires ch != CR
    ensures InHeader(p, 3) && ch != ' ' as int ==>
              Dispatch(p, ch) == Go(p.(headers := AddValue(p.headers, [ch]), state := 4))
    ensures InHeader(p, 4) ==> Dispatch(p, ch) == Go(p.(headers := AddValue(p.headers, [ch])))
  {
  }

  lemma OnLineEnd(p: Parser)
    ensures InHeader(p, 0) ==> Dispatch(p, CR) == Go(p.(state := 20))
    ensures InHeader(p, 3) || InHeader(p, 4) ==> Dispatch(p, CR) == Go(p.(state := 5))
    ensures InHeader(p, 5) ==> Dispatch(p, LF) == Go(p.(state := 0))
  {
  }

  lemma AddNameMore(hs: seq<Header>, a: seq<byte>, b: seq<byte>)
    requires hs != []
    ensures AddName(hs, a) != [] && AddName(AddName(hs, a), b) == AddName(hs, a + b)
    ensures AddName(hs, []) == hs
  {
    assert hs[|hs| - 1].name + (a + b) == hs[|hs| - 1].name + a + b;
    assert hs[|hs| - 1].name + [] == hs[|hs| - 1].name;
  }

  lemma AddValueMore(hs: seq<Header>, a: seq<byte>, b: seq<byte>)
    requires hs != []
    ensures AddValue(hs, a) != [] && AddValue(AddValue(hs, a), b) == AddValue(hs, a + b)
    ensures AddValue(hs, []) == hs
  {
    assert hs[|hs| - 1].value + (a + b) == hs[|hs| - 1].value + a + b;
    assert hs[|hs| - 1].value + [] == hs[|hs| - 1].value;
  }

  lemma {:induction false} ReadName(p: Parser, c: bool, name: seq<byte>, rest: seq<byte>)
    requires InHeader(p, 1) && forall i :: 0 <= i < |name| ==> !IsControl(name[i]) && !IsSpecial(name[i])
    ensures Loop(p, c, name + rest) == Loop(p.(headers := AddName(p.headers, name)), c, rest)
    decreases |name|
  {
    AddNameMore(p.headers, [], []);
    hide *;
    if name == [] {
      Unit(rest);
    } else {
      FirstOf(name, rest);
      OnNameByte(p, name[0]);
      RunOne(p, c, name[0], name[1..] + rest);
      AddNameMore(p.headers, [name[0]], name[1..]);
      ReadName(p.(headers := AddName(p.headers, [name[0]])), c, name[1..], rest);
    }
  }

  lemma ReadSeparator(p: Parser, c: bool, rest: seq<byte>)
    requires InHeader(p, 1)
    ensures Loop(p, c, Ascii(": ") + rest) == Loop(p.(state := 3), c, rest)
  {
    Two(':' as int, ' ' as int, rest);
    assert Ascii(": ") == [':' as int, ' ' as int];
    hide *;
    OnSeparator(p);
    RunOne(p, c, ':' as int, [' ' as int] + rest);
    OnSeparator(p.(state := 2));
    RunOne(p.(state := 2), c, ' ' as int, rest);
  }

  lemma Two<T>(a: T, b: T, rest: seq<T>)
    ensures [a, b] + rest == [a] + ([b] + rest)
  {
  }

  lemma EndLine(p: Parser, c: bool, rest: seq<byte>)
    requires InHeader(p, 3) || InHeader(p, 4)
    ensures Loop(p, c, CRLF + rest) == Loop(p.(state := 0), c, rest)
  {
    Two(CR, LF, rest);
    hide Loop, Dispatch;
    OnLineEnd(p);
    RunOne(p, c, CR, [LF] + rest);
    OnLineEnd(p.(state := 5));
    RunOne(p.(state := 5), c, LF, rest);
  }

  lemma {:induction false} ReadMoreValue(p: Parser, c: bool, value: seq<byte>, rest: seq<byte>)
    requires InHeader(p, 4) && CR !in value
    ensures Loop(p, c, value + (CRLF + rest)) == Loop(p.(headers := AddValue(p.headers, value), state := 0), c, rest)
    decreases |value|
  {
    AddValueMore(p.headers, [], []);
    hide *;
    if value == [] {
      Unit(CRLF + rest);
      EndLine(p, c, rest);
    } else {
      FirstOf(value, CRLF + rest);
      OnValueByte(p, value[0]);
      RunOne(p, c, value[0], value[1..] + (CRLF + rest));
      AddValueMore(p.headers, [value[0]], value[1..]);
      ReadMoreValue(p.(headers := AddValue(p.headers, [value[0]])), c, value[1..], rest);
    }
  }

  lemma ReadValue(p: Parser, c: bool, value: seq<byte>, rest: seq<byte>)
    requires InHeader(p, 3) && FieldValue(value)
    ensures Loop(p, c, value + (CRLF + rest)) == Loop(p.(headers := AddValue(p.headers, value), state := 0), c, rest)
  {
    AddValueMore(p.headers, [], []);
    assert value != [] ==> value[0] != ' ' as int && CR !in value[1..];
    hide *;
    if value == [] {
      Unit(CRLF + rest);
      EndLine(p, c, rest);
    } else {
      FirstOf(value, CRLF + rest);
      OnValueByte(p, value[0]);
      RunOne(p, c, value[0], value[1..] + (CRLF + rest));
      AddValueMore(p.headers, [value[0]], value[1..]);
      ReadMoreValue(p.(headers := AddValue(p.headers, [value[0]]), state := 4), c, value[1..], rest);
    }
  }

  lemma ReadHeader(p: Parser, c: bool, h: Header, rest: seq<byte>)
    requires InHeader(p, 0) && Token(h.name) && FieldValue(h.value)
    ensures Loop(p, c, HeaderBytes(h) + rest) == Loop(p.(headers := p.headers + [h]), c, rest)
  {
    var afterName := Ascii(": ") + (h.value + (CRLF + rest));
    HeaderParts(h, rest);
    OnNameByte(p, h.name[0]);
    var begun := p.(headers := p.headers + [Header([h.name[0]], [])], state := 1);
    WholeHeader(p.headers, h);
    hide *;
    FirstOf(h.name, afterName);
    RunOne(p, c, h.name[0], h.name[1..] + afterName);
    ReadName(begun, c, h.name[1..], afterName);
    var named := begun.(headers := AddName(begun.headers, h.name[1..]));
    ReadSeparator(named, c, h.value + (CRLF + rest));
    ReadValue(named.(state := 3), c, h.value, rest);
  }

  lemma HeaderParts(h: Header, rest: seq<byte>)
    ensures HeaderBytes(h) + rest == h.name + (Ascii(": ") + (h.value + (CRLF + rest)))
  {
    hide Ascii;
  }

  lemma WholeHeader(hs: seq<Header>, h: Header)
    requires h.name != []
    ensures AddValue(AddName(hs + [Header([h.name[0]], [])], h.name[1..]), h.value) == hs + [h]
  {
    assert [h.name[0]] + h.name[1..] == h.name && [] + h.value == h.value;
  }

  lemma {:induction false} ReadHeaders(p: Parser, c: bool, hs: seq<Header>, rest: seq<byte>)
    requires InHeader(p, 0) && SendableHeaders(hs)
    ensures Loop(p, c, HeadersBytes(hs) + rest) == Loop(p.(headers := p.headers + hs, state := 20), c, [LF] + rest)
    decreases |hs|
  {
    if hs == [] {
      Two(CR, LF, rest);
      assert p.headers + hs == p.headers;
      hide Loop, Dispatch, SendableHeaders;
      OnLineEnd(p);
      RunOne(p, c, CR, [LF] + rest);
    } else {
      FirstHeader(p.headers, hs);
      Associate(HeaderBytes(hs[0]), HeadersBytes(hs[1..]), rest);
      assert HeadersBytes(hs) == HeaderBytes(hs[0]) + HeadersBytes(hs[1..]);
      hide *;
      ReadHeader(p, c, hs[0], HeadersBytes(hs[1..]) + rest);
      ReadHeaders(p.(headers := p.headers + [hs[0]]), c, hs[1..], rest);
    }
  }

  lemma FirstHeader(before: seq<Header>, hs: seq<Header>)
    requires hs != [] && SendableHeaders(hs)
    ensures before + hs == before + [hs[0]] + hs[1..]
    ensures SendableHeaders(hs[1..]) && Token(hs[0].name) && FieldValue(hs[0].value)
  {
    Joined(before, hs);
    hide Token, FieldValue;
  }

  // ---- the initial line ----

  ghost predicate InLine(p: Parser, kind: Kind, state: nat)
  {
    p.Valid() && p.stage == InitialLine && p.kind == kind && p.state == state
  }

  // The one byte that leads from a state of the initial line to the next.
  predicate Expects(kind: Kind, state: nat, ch: byte)
  {
    if kind == Request then
      (state == 1 && ch == ' ' as int) || (2 <= state <= 8 && ch == Ascii("HTTP/1.")[state - 2])
          || (state == 10 && ch == CR)
    else
      (state <= 6 && ch == Ascii("HTTP/1.")[state]) || (state in {8, 12} && ch == ' ' as int)
          || (state == 13 && ch == CR)
  }

  lemma OnExpected(p: Parser, ch: byte)
    requires InLine(p, p.kind, p.state) && Expects(p.kind, p.state, ch)
    ensures Dispatch(p, ch) == Go(p.(state := p.state + 1))
  {
  }

  lemma {:induction false} ReadExpected(p: Parser, c: bool, w: seq<byte>, rest: seq<byte>)
    requires InLine(p, p.kind, p.state) && forall i :: 0 <= i < |w| ==> Expects(p.kind, p.state + i, w[i])
    ensures Loop(p, c, w + rest) == Loop(p.(state := p.state + |w|), c, rest)
    decreases |w|
  {
    hide Loop, Dispatch, Expects;
    if w == [] {
      Unit(rest);
    } else {
      FirstOf(w, rest);
      assert Expects(p.kind, p.state + 0, w[0]);
      OnExpected(p, w[0]);
      RunOne(p, c, w[0], w[1..] + rest);
      var q := p.(state := p.state + 1);
      forall i | 0 <= i < |w[1..]| ensures Expects(q.kind, q.state + i, w[1..][i]) {
        assert Expects(p.kind, p.state + (i + 1), w[i + 1]);
      }
      ReadExpected(q, c, w[1..], rest);
    }
  }

  lemma OnRequestByte(p: Parser, ch: byte)
    ensures InLine(p, Request, 0) && IsAlpha(ch) ==> Dispatch(p, ch) == Go(p.(verb := p.verb + [ch]))
    ensures InLine(p, Request, 0) && ch == ' ' as int ==> Dispatch(p, ch) == Go(p.(state := 1))
    ensures InLine(p, Request, 1) && ch != ' ' as int && !IsControl(ch) ==>
              Dispatch(p, ch) == Go(p.(uri := p.uri + [ch]))
    ensures InLine(p, Request, 9) && ch == '1' as int ==> Dispatch(p, ch) == Go(p.(minor := 1, state := 10))
    ensures InLine(p, Request, 9) && ch == '0' as int ==> Dispatch(p, ch) == Go(p.(state := 10))
    ensures InLine(p, Request, 11) && ch == LF ==> Dispatch(p, ch) == Go(p.(state := 0, stage := HeaderLines))
  {
  }

  lemma OnReplyByte(p: Parser, ch: byte)
    ensures InLine(p, Reply, 7) && ch == '1' as int ==> Dispatch(p, ch) == Go(p.(minor := 1, state := 8))
    ensures InLine(p, Reply, 7) && ch == '0' as int ==> Dispatch(p, ch) == Go(p.(state := 8))
    ensures InLine(p, Reply, 13) && ch != CR ==> Dispatch(p, ch) == Go(p.(statusLine := p.statusLine + [ch]))
    ensures InLine(p, Reply, 14) && ch == LF ==> Dispatch(p, ch) == Go(p.(state := 0, stage := HeaderLines))
  {
  }

  lemma {:induction false} ReadVerb(p: Parser, c: bool, verb: seq<byte>, rest: seq<byte>)
    requires InLine(p, Request, 0) && forall i :: 0 <= i < |verb| ==> IsAlpha(verb[i])
    ensures Loop(p, c, verb + rest) == Loop(p.(verb := p.verb + verb), c, rest)
    decreases |verb|
  {
    Joined(p.verb, verb);
    hide Loop, Dispatch, IsAlpha;
    if verb == [] {
      Unit(rest);
    } else {
      FirstOf(verb, rest);
      OnRequestByte(p, verb[0]);
      RunOne(p, c, verb[0], verb[1..] + rest);
      ReadVerb(p.(verb := p.verb + [verb[0]]), c, verb[1..], rest);
    }
  }

  lemma {:induction false} ReadUri(p: Parser, c: bool, uri: seq<byte>, rest: seq<byte>)
    requires InLine(p, Request, 1) && forall i :: 0 <= i < |uri| ==> uri[i] != ' ' as int && !IsControl(uri[i])
    ensures Loop(p, c, uri + rest) == Loop(p.(uri := p.uri + uri), c, rest)
    decreases |uri|
  {
    Joined(p.uri, uri);
    hide Loop, Dispatch, IsControl;
    if uri == [] {
      Unit(rest);
    } else {
      FirstOf(uri, rest);
      OnRequestByte(p, uri[0]);
      RunOne(p, c, uri[0], uri[1..] + rest);
      ReadUri(p.(uri := p.uri + [uri[0]]), c, uri[1..], rest);
    }
  }

  lemma {:induction false} ReadStatusText(p: Parser, c: bool, text: seq<byte>, rest: seq<byte>)
    requires InLine(p, Reply, 13) && CR !in text
    ensures Loop(p, c, text + rest) == Loop(p.(statusLine := p.statusLine + text), c, rest)
    decreases |text|
  {
    Joined(p.statusLine, text);
    hide Loop, Dispatch;
    if text == [] {
      Unit(rest);
    } else {
      FirstOf(text, rest);
      OnReplyByte(p, text[0]);
      RunOne(p, c, text[0], text[1..] + rest);
      ReadStatusText(p.(statusLine := p.statusLine + [text[0]]), c, text[1..], rest);
    }
  }

  lemma Joined<T>(a: seq<T>, b: seq<T>)
    ensures b == [] ==> a + b == a
    ensures b != [] ==> a + [b[0]] + b[1..] == a + b
  {
  }

  lemma ReadRequestVersion(p: Parser, minor: nat, rest: seq<byte>)
    requires InLine(p, Request, 1) && p.minor == 0 && minor <= 1
    ensures Loop(p, false, Ascii(" HTTP/1.") + (Digits(minor) + (CRLF + rest)))
         == Loop(p.(stage := HeaderLines, state := 0, minor := minor), false, rest)
  {
    SlashOne();
    hide Loop, Dispatch, Digits, Ascii, Expects;
    ReadExpected(p, false, Ascii(" HTTP/1."), Digits(minor) + (CRLF + rest));
    ReadMinor(p.(state := 9), minor, CRLF + rest);
    ReadLineBreak(p.(state := 10, minor := minor), rest);
  }

  lemma ReadMinor(p: Parser, minor: nat, rest: seq<byte>)
    requires (InLine(p, Request, 9) || InLine(p, Reply, 7)) && p.minor == 0 && minor <= 1
    ensures Loop(p, false, Digits(minor) + rest) == Loop(p.(state := p.state + 1, minor := minor), false, rest)
  {
    OnMinor(p, minor);
    hide *;
    RunOne(p, false, '0' as int + minor, rest);
  }

  lemma OnMinor(p: Parser, minor: nat)
    requires (InLine(p, Request, 9) || InLine(p, Reply, 7)) && p.minor == 0 && minor <= 1
    ensures Dispatch(p, '0' as int + minor) == Go(p.(state := p.state + 1, minor := minor))
    ensures Digits(minor) == ['0' as int + minor] && p.Valid() && p.stage != Unset
    ensures Go(p.(state := p.state + 1, minor := minor)).answer == Indeterminate
  {
  }

  lemma ReadLineBreak(p: Parser, rest: seq<byte>)
    requires InLine(p, Request, 10) || InLine(p, Reply, 13)
    ensures Loop(p, false, CRLF + rest) == Loop(p.(state := 0, stage := HeaderLines), false, rest)
  {
    Two(CR, LF, rest);
    hide Loop, Dispatch;
    OnLineBreak(p);
    RunOne(p, false, CR, [LF] + rest);
    RunOne(p.(state := p.state + 1), false, LF, rest);
  }

  lemma OnLineBreak(p: Parser)
    ensures InLine(p, Request, 10) ==>
      Dispatch(p, CR) == Go(p.(state := 11))
      && Dispatch(p.(state := 11), LF) == Go(p.(state := 0, stage := HeaderLines))
    ensures InLine(p, Reply, 13) ==>
      Dispatch(p, CR) == Go(p.(state := 14))
      && Dispatch(p.(state := 14), LF) == Go(p.(state := 0, stage := HeaderLines))
  {
  }

  lemma ReadRequestLine(m: RequestMessage, rest: seq<byte>)
    requires SendableLine(m)
    ensures Loop(Started(Fresh(Request)), false,
              m.verb + (Ascii(" ") + (m.uri + (Ascii(" HTTP/1.") + (Digits(m.minor) + (CRLF + rest))))))
         == Loop(Fresh(Request).(stage := HeaderLines, verb := m.verb, uri := m.uri, minor := m.minor), false, rest)
  {
    var p0 := Started(Fresh(Request));
    var p1 := p0.(verb := m.verb);
    var p2 := p1.(state := 1, uri := m.uri);
    var r2 := Ascii(" HTTP/1.") + (Digits(m.minor) + (CRLF + rest));
    var r1 := m.uri + r2;
    assert Ascii(" ") == [' ' as int];
    assert [] + m.verb == m.verb && [] + m.uri == m.uri;
    hide Loop, Dispatch, IsAlpha, IsControl, Digits, Ascii;
    ReadVerb(p0, false, m.verb, Ascii(" ") + r1);
    OnRequestByte(p1, ' ' as int);
    RunOne(p1, false, ' ' as int, r1);
    ReadUri(p1.(state := 1), false, m.uri, r2);
    ReadRequestVersion(p2, m.minor, rest);
  }

  lemma SlashOne()
    ensures |Ascii(" HTTP/1.")| == 8
    ensures forall i :: 0 <= i < 8 ==> Expects(Request, 1 + i, Ascii(" HTTP/1.")[i])
    ensures |Ascii("HTTP/1.")| == 7
    ensures forall i :: 0 <= i < 7 ==> Expects(Reply, i, Ascii("HTTP/1.")[i])
  {
  }

  lemma ThreeDigits(n: nat) returns (a: nat, b: nat, d: nat)
    requires 100 <= n <= 999
    ensures Digits(n) == ['0' as int + a, '0' as int + b, '0' as int + d]
    ensures 100 * a + 10 * b + d == n && a <= 9 && b <= 9 && d <= 9
  {
    a, b, d := n / 100, n / 10 % 10, n % 10;
    assert Digits(n) == Digits(n / 10) + ['0' as int + d];
    assert Digits(n / 10) == Digits(n / 10 / 10) + ['0' as int + b];
    assert n / 10 / 10 == n / 100;
  }

  lemma ReadReplyLine(m: ReplyMessage, rest: seq<byte>)
    requires 100 <= m.status <= 999 && m.minor <= 1
    ensures Loop(Started(Fresh(Reply)), false,
              Ascii("HTTP/1.") + (Digits(m.minor) + (Ascii(" ") + (Digits(m.status)
                + (Ascii(" ") + (StatusText(m.status) + (CRLF + rest)))))))
         == Loop(Fresh(Reply).(stage := HeaderLines, minor := m.minor, status := m.status,
             statusLine := StatusText(m.status)),
              false, rest)
  {
    var q := Started(Fresh(Reply)).(state := 8, minor := m.minor);
    assert InLine(q, Reply, 8) && q.statusLine == [];
    assert q.(stage := HeaderLines, state := 0, status := m.status, statusLine := StatusText(m.status))
        == Fresh(Reply).(stage := HeaderLines, minor := m.minor, status := m.status,
            statusLine := StatusText(m.status));
    hide Loop, Digits, Ascii, StatusText, Fresh, Started;
    ReadReplyVersion(m.minor, Ascii(" ") + (Digits(m.status) + (Ascii(" ") + (StatusText(m.status) + (CRLF + rest)))));
    ReadStatusLine(q, m.status, rest);
  }

  lemma ReadReplyVersion(minor: nat, rest: seq<byte>)
    requires minor <= 1
    ensures Loop(Started(Fresh(Reply)), false, Ascii("HTTP/1.") + (Digits(minor) + rest))
         == Loop(Started(Fresh(Reply)).(state := 8, minor := minor), false, rest)
  {
    var p := Started(Fresh(Reply));
    SlashOne();
    assert InLine(p, Reply, 0) && p.minor == 0 && p.(state := p.state + 7) == p.(state := 7);
    hide Loop, Dispatch, Digits, Ascii, Expects, Fresh, Started;
    ReadExpected(p, false, Ascii("HTTP/1."), Digits(minor) + rest);
    ReadMinor(p.(state := 7), minor, rest);
  }

  lemma ReadStatusLine(p: Parser, status: nat, rest: seq<byte>)
    requires InLine(p, Reply, 8) && p.statusLine == [] && 100 <= status <= 999
    ensures Loop(p, false, Ascii(" ") + (Digits(status) + (Ascii(" ") + (StatusText(status) + (CRLF + rest)))))
         == Loop(p.(stage := HeaderLines, state := 0, status := status, statusLine := StatusText(status)), false, rest)
  {
    var q := p.(state := 12, status := status);
    var text := StatusText(status) + (CRLF + rest);
    hide Loop, Dispatch, Digits, Ascii, StatusText;
    ReadSpace(p, Digits(status) + (Ascii(" ") + text));
    ReadStatus(p.(state := 9), status, Ascii(" ") + text);
    ReadPhrase(q, StatusText(status), rest);
  }

  lemma ReadPhrase(p: Parser, text: seq<byte>, rest: seq<byte>)
    requires InLine(p, Reply, 12) && p.statusLine == [] && CR !in text
    ensures Loop(p, false, Ascii(" ") + (text + (CRLF + rest)))
         == Loop(p.(stage := HeaderLines, state := 0, statusLine := text), false, rest)
  {
    var q := p.(state := 13, statusLine := text);
    Unit(text);
    hide Loop, Dispatch, Ascii;
    ReadSpace(p, text + (CRLF + rest));
    ReadStatusText(p.(state := 13), false, text, CRLF + rest);
    ReadLineBreak(q, rest);
  }

  lemma ReadSpace(p: Parser, rest: seq<byte>)
    requires InLine(p, Reply, 8) || InLine(p, Reply, 12)
    ensures Loop(p, false, Ascii(" ") + rest) == Loop(p.(state := p.state + 1), false, rest)
  {
    assert Expects(Reply, 8, ' ' as int) && Expects(Reply, 12, ' ' as int) && Ascii(" ") == [' ' as int];
    hide Loop, Dispatch, Expects, Ascii;
    OnExpected(p, ' ' as int);
    RunOne(p, false, ' ' as int, rest);
  }

  lemma ReadStatus(p: Parser, status: nat, rest: seq<byte>)
    requires InLine(p, Reply, 9) && 100 <= status <= 999
    ensures Loop(p, false, Digits(status) + rest) == Loop(p.(state := 12, status := status), false, rest)
  {
    var a, b, d := ThreeDigits(status);
    var ds := ['0' as int + a, '0' as int + b, '0' as int + d];
    StatusDigits(p, a, b, d);
    hide *;
    RunThree(p, p.(state := 10, status := 100 * a), p.(state := 11, status := 100 * a + 10 * b),
      p.(state := 12, status := status), ds[0], ds[1], ds[2], rest);
    assert ds == [ds[0], ds[1], ds[2]];
  }

  lemma StatusDigits(p: Parser, a: nat, b: nat, d: nat)
    requires InLine(p, Reply, 9) && a <= 9 && b <= 9 && d <= 9
    ensures var q := p.(state := 10, status := 100 * a);
      && q.Valid() && q.stage != Unset && Dispatch(p, '0' as int + a) == Go(q)
    ensures var q := p.(state := 10, status := 100 * a);
      Dispatch(q, '0' as int + b) == Go(p.(state := 11, status := 100 * a + 10 * b))
    ensures var q := p.(state := 11, status := 100 * a + 10 * b);
      && q.Valid() && q.stage != Unset
      && Dispatch(q, '0' as int + d) == Go(p.(state := 12, status := 100 * a + 10 * b + d))
  {
  }

  lemma RunThree(p: Parser, q: Parser, q': Parser, next: Parser, x: byte, y: byte, z: byte, rest: seq<byte>)
    requires p.Valid() && q.Valid() && q'.Valid() && p.stage != Unset && q.stage != Unset && q'.stage != Unset
    requires Dispatch(p, x) == Go(q) && Dispatch(q, y) == Go(q') && Dispatch(q', z) == Go(next)
    ensures Loop(p, false, [x, y, z] + rest) == Loop(next, false, rest)
  {
    Three(x, y, z, rest);
    hide Loop, Dispatch;
    RunOne(p, false, x, [y] + ([z] + rest));
    RunOne(q, false, y, [z] + rest);
    RunOne(q', false, z, rest);
  }

  lemma Three<T>(a: T, b: T, c: T, rest: seq<T>)
    ensures [a, b, c] + rest == [a] + ([b] + ([c] + rest))
  {
  }

  // ---- how the content is framed ----

  // A length in decimal is read back.
  lemma ReadsLength(n: nat, before: nat)
    requires n < WORD
    ensures ReadUnsigned(Digits(n), before) == n
  {
    DigitsValue(n);
    var ds := Digits(n);
    assert IsDigit(ds[0]);
    AllLeading(ds);
  }

  lemma {:induction false} AllLeading(ds: seq<byte>)
    requires AllDigits(ds)
    ensures LeadingDigits(ds) == ds
  {
    if ds != [] {
      AllLeading(ds[1..]);
    }
  }

  ghost predicate HasLength(hs: seq<Header>, i: nat)
  {
    exists j :: i <= j < |hs| && SaysLength(hs[j])
  }

  // From the `i`-th header on: the last length given counts, and a request to close counts only
  // when no length follows it.
  lemma {:induction false} FramingFinds(p: Parser, n: nat, i: nat)
    requires p.chunkSize < WORD && p.stage in {HeaderLines, Content} && i <= |p.headers|
    requires n < WORD && forall j :: 0 <= j < |p.headers| ==>
      !SaysChunked(p.headers[j]) && (SaysLength(p.headers[j]) ==> p.headers[j].value == Digits(n))
    requires p.parsingContent ==> p.stage == Content
    ensures var q := Framing(p, i);
      && q.stage in {HeaderLines, Content} && (q.parsingContent ==> q.stage == Content)
      && q.chunkSize == (if HasLength(p.headers, i) then n else p.chunkSize)
      && q.parsingContent == ((HasLength(p.headers, i) && n > 0)
           || (PostOrPut(p.verb) && ClosesLast(p.headers, i))
           || (!HasLength(p.headers, i) && p.parsingContent))
    decreases |p.headers| - i
  {
    if i < |p.headers| {
      var h := p.headers[i];
      FrameByOne(p, h, n);
      ClosesFrom(p.headers, i);
      var q := FrameBy(p, h);
      assert Framing(p, i) == Framing(q, i + 1);
      hide Framing, FrameBy, SameName, ClosesLast, HasLength;
      FramingFinds(q, n, i + 1);
    }
  }

  lemma FrameByOne(p: Parser, h: Header, n: nat)
    requires p.chunkSize < WORD && n < WORD && p.stage in {HeaderLines, Content}
    requires SaysLength(h) ==> h.value == Digits(n)
    requires p.parsingContent ==> p.stage == Content
    ensures var q := FrameBy(p, h);
      && q == p.(stage := q.stage, chunkSize := q.chunkSize, parsingContent := q.parsingContent)
      && q.stage in {HeaderLines, Content} && (q.parsingContent ==> q.stage == Content)
      && q.chunkSize == (if SaysLength(h) then n else p.chunkSize)
      && q.parsingContent == (if SaysLength(h) then n > 0 else p.parsingContent || (PostOrPut(p.verb) && SaysClose(h)))
  {
    if SaysLength(h) {
      ReadsLength(n, p.chunkSize);
    }
    hide ReadUnsigned, SameName;
  }

  lemma ClosesFrom(hs: seq<Header>, i: nat)
    requires i < |hs|
    ensures HasLength(hs, i) == (SaysLength(hs[i]) || HasLength(hs, i + 1))
    ensures ClosesLast(hs, i) == ((SaysClose(hs[i]) && !HasLength(hs, i + 1)) || ClosesLast(hs, i + 1))
    ensures SaysClose(hs[i]) ==> !SaysLength(hs[i])
    ensures ClosesLast(hs, i + 1) ==> i + 1 < |hs|
  {
    CloseIsNotLength(hs[i]);
    hide SaysClose, SaysLength;
  }

  lemma CloseIsNotLength(h: Header)
    ensures SaysClose(h) ==> !SaysLength(h)
  {
    assert |Ascii("Connection")| == 10 && |Ascii("Content-Length")| == 14;
  }

  // ---- the content ----

  lemma {:induction false} ReadContent(p: Parser, body: seq<byte>, rest: seq<byte>)
    requires p.Valid() && p.stage == Content && p.collect && p.chunkSize == |body| > 0
    ensures Loop(p, true, body + rest)
         == Outcome(True, p.(payload := p.payload + body, chunkSize := 0, parsingContent := false), rest)
    decreases |body|
  {
    FirstOf(body, rest);
    Joined(p.payload, body);
    OnContent(p, body[0]);
    hide Dispatch;
    assert ([body[0]] + (body[1..] + rest))[1..] == body[1..] + rest;
    if |body| == 1 {
      Unit(rest);
    } else {
      hide Loop;
      RunOne(p, true, body[0], body[1..] + rest);
      ReadContent(p.(payload := p.payload + [body[0]], chunkSize := p.chunkSize - 1), body[1..], rest);
    }
  }

  lemma OnContent(p: Parser, ch: byte)
    requires p.Valid() && p.stage == Content && p.collect && p.chunkSize > 0
    ensures var q := p.(payload := p.payload + [ch], chunkSize := p.chunkSize - 1);
      Dispatch(p, ch) == if p.chunkSize == 1 then Step(q.(parsingContent := false), True) else Go(q)
  {
  }

  // A parser at the end of the header lines of a message with `n` bytes of content.
  ghost predicate AtBlankLine(p: Parser, n: nat)
  {
    InHeader(p, 20) && !p.parsingContent && p.chunkSize == 0 && p.collect && p.payload == [] && Announces(p.headers, n)
  }

  // No content is announced, and the last word of the headers is to wait for it all the same.
  predicate Stalls(p: Parser, n: nat)
  {
    n == 0 && PostOrPut(p.verb) && ClosesLast(p.headers, 0)
  }

  lemma Ends(p: Parser, body: seq<byte>, rest: seq<byte>)
    requires AtBlankLine(p, |body|)
    ensures var o := Loop(p, false, [LF] + (body + rest));
      if Stalls(p, |body|)
      then o.answer == Indeterminate || |o.rest| < |rest|
      else o == Outcome(True, Framing(p, 0).(payload := body, chunkSize := 0, parsingContent := false), rest)
  {
    var n, q := |body|, Framing(p, 0);
    FramingFinds(p, n, 0);
    assert HasLength(p.headers, 0) || n == 0;
    assert p.payload + body == body && [LF][0] == LF;
    OnBlankLine(p);
    var text := [LF] + (body + rest);
    assert text[0] == LF && text[1..] == body + rest;
    hide Dispatch, Framing, ClosesLast, HasLength, Announces;
    if q.parsingContent {
      if body == [] {
        Unit(rest);
      } else {
        hide Loop;
        assert Loop(p, false, text) == Loop(q, true, body + rest);
        ReadContent(q, body, rest);
      }
    } else {
      Unit(rest);
    }
  }

  lemma OnBlankLine(p: Parser)
    requires InHeader(p, 20)
    ensures Dispatch(p, LF) == Step(Framing(p, 0), True)
  {
  }

  // ---- whole messages ----

  // `get_request`
  function GetRequest(p: Parser): RequestMessage
  {
    RequestMessage(p.verb, p.uri, p.minor, p.headers, p.payload)
  }

  // `get_reply`
  function GetReply(p: Parser): ReplyMessage
    requires p.status >= 0
  {
    ReplyMessage(p.status, p.minor, p.headers, p.payload)
  }

  /**
   A request is read back from its bytes, and the bytes behind it are left alone, unless it is a
   POST or PUT without content whose last word is `Connection: close`: then the parser does not
   stop at its end.
   */
  lemma RequestRoundTrip(m: RequestMessage, rest: seq<byte>)
    requires SendableLine(m) && SendableHeaders(m.headers) && Announces(m.headers, |m.payload|)
    ensures var o := Parse(Fresh(Request), RequestBytes(m) + rest);
      (o.answer == True && o.rest == rest && GetRequest(o.parser) == m)
      <==> !(m.payload == [] && PostOrPut(m.verb) && ClosesLast(m.headers, 0))
  {
    var q := AfterRequestHead(m);
    RequestHead(m, m.payload + rest);
    RequestParts(m, rest);
    hide Loop, Parse, RequestBytes, HeadersBytes, Framing, ClosesLast, Announces;
    Ends(q, m.payload, rest);
  }

  function AfterRequestHead(m: RequestMessage): Parser
  {
    Fresh(Request).(stage := HeaderLines, state := 20, verb := m.verb, uri := m.uri, minor := m.minor,
        headers := m.headers)
  }

  lemma RequestHead(m: RequestMessage, rest: seq<byte>)
    requires SendableLine(m) && SendableHeaders(m.headers)
    ensures Parse(Fresh(Request), m.verb + (Ascii(" ") + (m.uri + (Ascii(" HTTP/1.") + (Digits(m.minor) + (CRLF
              + (HeadersBytes(m.headers) + rest)))))))
         == Loop(AfterRequestHead(m), false, [LF] + rest)
  {
    var p := Fresh(Request).(stage := HeaderLines, verb := m.verb, uri := m.uri, minor := m.minor);
    Unit(m.headers);
    assert p.(headers := m.headers, state := 20) == AfterRequestHead(m);
    hide Loop, HeadersBytes, SendableLine, SendableHeaders, Digits, Ascii;
    ReadRequestLine(m, HeadersBytes(m.headers) + rest);
    ReadHeaders(p, false, m.headers, rest);
  }

  lemma RequestParts(m: RequestMessage, rest: seq<byte>)
    ensures RequestBytes(m) + rest == m.verb + (Ascii(" ") + (m.uri + (Ascii(" HTTP/1.") + (Digits(m.minor) + (CRLF
      + (HeadersBytes(m.headers) + (m.payload + rest)))))))
  {
    hide HeadersBytes, Ascii, Digits;
    var t0 := HeadersBytes(m.headers) + m.payload;
    var t1 := CRLF + t0;
    var t2 := Digits(m.minor) + t1;
    var t3 := Ascii(" HTTP/1.") + t2;
    var t4 := m.uri + t3;
    Associate(HeadersBytes(m.headers), m.payload, rest);
    Associate(CRLF, t0, rest);
    Associate(Digits(m.minor), t1, rest);
    Associate(Ascii(" HTTP/1."), t2, rest);
    Associate(m.uri, t3, rest);
    Associate(Ascii(" "), t4, rest);
    Associate(m.verb, Ascii(" ") + t4, rest);
  }

  /** A reply is read back from its bytes, and the bytes behind it are left alone. */
  lemma ReplyRoundTrip(m: ReplyMessage, rest: seq<byte>)
    requires 100 <= m.status <= 999 && m.minor <= 1 && SendableHeaders(m.headers) && Announces(m.headers, |m.content|)
    ensures var o := Parse(Fresh(Reply), ReplyBytes(m) + rest);
      o.answer == True && o.rest == rest && o.parser.status >= 0 && GetReply(o.parser) == m
      && o.parser.statusLine == StatusText(m.status)
  {
    var q := AfterReplyHead(m);
    ReplyHead(m, m.content + rest);
    ReplyParts(m, rest);
    assert !PostOrPut(q.verb);
    hide Loop, Parse, ReplyBytes, HeadersBytes, Framing, ClosesLast, Announces, StatusText;
    Ends(q, m.content, rest);
  }

  function AfterReplyHead(m: ReplyMessage): Parser
  {
    Fresh(Reply).(stage := HeaderLines, state := 20, minor := m.minor, status := m.status,
      statusLine := StatusText(m.status), headers := m.headers)
  }

  lemma ReplyHead(m: ReplyMessage, rest: seq<byte>)
    requires 100 <= m.status <= 999 && m.minor <= 1 && SendableHeaders(m.headers)
    ensures Parse(Fresh(Reply), Ascii("HTTP/1.") + (Digits(m.minor) + (Ascii(" ") + (Digits(m.status)
              + (Ascii(" ") + (StatusText(m.status) + (CRLF + (HeadersBytes(m.headers) + rest))))))))
         == Loop(AfterReplyHead(m), false, [LF] + rest)
  {
    var p := Fresh(Reply).(stage := HeaderLines, minor := m.minor, status := m.status,
        statusLine := StatusText(m.status));
    Unit(m.headers);
    assert p.(headers := m.headers, state := 20) == AfterReplyHead(m);
    hide Loop, HeadersBytes, SendableHeaders, Digits, Ascii, StatusText;
    ReadReplyLine(m, HeadersBytes(m.headers) + rest);
    ReadHeaders(p, false, m.headers, rest);
  }

  lemma ReplyParts(m: ReplyMessage, rest: seq<byte>)
    ensures ReplyBytes(m) + rest == Ascii("HTTP/1.") + (Digits(m.minor) + (Ascii(" ") + (Digits(m.status)
      + (Ascii(" ") + (StatusText(m.status) + (CRLF + (HeadersBytes(m.headers) + (m.content + rest))))))))
  {
    hide HeadersBytes, Ascii, Digits, StatusText;
    var t0 := HeadersBytes(m.headers) + m.content;
    var t1 := CRLF + t0;
    var t2 := StatusText(m.status) + t1;
    var t3 := Ascii(" ") + t2;
    var t4 := Digits(m.status) + t3;
    var t5 := Ascii(" ") + t4;
    Associate(HeadersBytes(m.headers), m.content, rest);
    Associate(CRLF, t0, rest);
    Associate(StatusText(m.status), t1, rest);
    Associate(Ascii(" "), t2, rest);
    Associate(Digits(m.status), t3, rest);
    Associate(Ascii(" "), t4, rest);
    Associate(Digits(m.minor), t5, rest);
    Associate(Ascii("HTTP/1."), Digits(m.minor) + t5, rest);
  }

  // ---- a request at whose end the parser does not stop ----

  const STALLING: RequestMessage := RequestMessage(Ascii("POST"), Ascii("/"), 1,
    [Header(Ascii("Content-Length"), Ascii("0")), Header(Ascii("Connection"), Ascii("close"))], [])

  /** A POST without content that asks to close the connection is not answered at its end. */
  lemma StallingRequest()
    ensures SendableLine(STALLING) && SendableHeaders(STALLING.headers) && Announces(STALLING.headers, 0)
    ensures Parse(Fresh(Request), RequestBytes(STALLING)).answer == Indeterminate
  {
    StallingIsSendable();
    StallingCloses();
    var q := AfterRequestHead(STALLING);
    RequestHead(STALLING, []);
    RequestParts(STALLING, []);
    Unit(RequestBytes(STALLING));
    Unit<byte>([]);
    hide Loop, Parse, RequestBytes, HeadersBytes, Framing, ClosesLast, Announces, Ascii, Digits, PostOrPut;
    hide SendableHeaders, SendableLine;
    Ends(q, [], []);
  }

  lemma StallingCloses()
    ensures ClosesLast(STALLING.headers, 0) && PostOrPut(STALLING.verb)
  {
    var hs := STALLING.headers;
    assert SaysClose(hs[1]);
    hide SaysLength, SaysClose;
  }

  lemma StallingIsSendable()
    ensures SendableLine(STALLING) && SendableHeaders(STALLING.headers) && Announces(STALLING.headers, 0)
  {
    OrdinaryName("Content-Length");
    OrdinaryName("Connection");
    ZeroAndClose();
    StallingAnnounces();
    assert Ascii("POST") == ['P' as int, 'O' as int, 'S' as int, 'T' as int] && Ascii("/") == ['/' as int];
    hide Token, FieldValue, Digits, Announces, Ascii;
  }

  lemma ZeroAndClose()
    ensures Digits(0) == Ascii("0") && FieldValue(Ascii("0")) && FieldValue(Ascii("close"))
  {
  }

  lemma StallingAnnounces()
    ensures Announces(STALLING.headers, 0)
  {
    ZeroAndClose();
    assert |Ascii("Transfer-Encoding")| == 17 && |Ascii("Content-Length")| == 14 && |Ascii("Connection")| == 10;
    hide FieldValue, Digits;
  }

  lemma OrdinaryName(s: string)
    requires s != "" && forall c <- s :: 'A' <= c <= 'Z' || 'a' <= c <= 'z' || c == '-'
    ensures Token(Ascii(s))
  {
    var r := Ascii(s);
    forall i | 0 <= i < |r| ensures !IsControl(r[i]) && !IsSpecial(r[i]) {
      assert s[i] in s;
      LetterIsOrdinary(r[i]);
    }
  }

  lemma LetterIsOrdinary(ch: byte)
    requires IsAlpha(ch) || ch == '-' as int
    ensures !IsControl(ch) && !IsSpecial(ch) && ch != ' ' as int && ch != CR
  {
  }
}
