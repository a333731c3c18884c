/**
 What the parser takes for the first line of a request or a reply, for header lines and for lines
 that continue a header (RFC 7230, sections 3.1 and 3.2), on literal bytes.
 */
module HttpLines {
  import opened Utf8
  import opened Text
  import opened Sequences
  import opened HttpParser
  import opened HttpRoundTrip
  import opened HttpConnection
  import opened HttpStandard

  // ---- the request line ----

  // "HTTP/1"
  const VERSION: seq<byte> := [72, 84, 84, 80, 47, 49]

  predicate Letters(s: seq<byte>)
  {
    forall b <- s :: 65 <= b <= 90 || 97 <= b <= 122
  }

  predicate Visible(s: seq<byte>)
  {
    forall b <- s :: 32 < b && b != 127
  }

  // A verb, a space, a URI, a space, and what follows them.
  function Head(verb: seq<byte>, uri: seq<byte>, tail: seq<byte>): seq<byte>
  {
    verb + ([32] + (uri + ([32] + tail)))
  }

  // The version and the end of the line; without a minor version this is 0.
  predicate VersionLine(s: seq<byte>, minor: nat)
  {
    (s == VERSION + [13, 10] && minor == 0) || (minor <= 1 && s == VERSION + [46, 48 + minor, 13, 10])
  }

  ghost predicate IsRequestLine(c: seq<byte>, verb: seq<byte>, uri: seq<byte>, minor: nat)
  {
    Letters(verb) && Visible(uri) && exists s :: VersionLine(s, minor) && c == Head(verb, uri, s)
  }

  // What the parser has read of the version in each state.
  predicate VersionSoFar(state: nat, minor: nat, s: seq<byte>)
  {
    && (state <= 9 ==> minor == 0) && minor <= 1
    && match state {
      case 2 => s == []
      case 3 => s == [72]
      case 4 => s == [72, 84]
      case 5 => s == [72, 84, 84]
      case 6 => s == [72, 84, 84, 80]
      case 7 => s == [72, 84, 84, 80, 47]
      case 8 => s == VERSION
      case 9 => s == VERSION + [46]
      case 10 => s == VERSION + [46, 48 + minor]
      case 11 => (s == VERSION + [13] && minor == 0) || s == VERSION + [46, 48 + minor, 13]
      case _ => false
    }
  }

  // What the parser has read of the line.
  ghost predicate LineSoFar(p: Parser, c: seq<byte>)
  {
    && p.kind == Request && p.headers == [] && !p.parsingContent && Letters(p.verb) && Visible(p.uri)
    && if p.stage == HeaderLines then p.state == 0 && IsRequestLine(c, p.verb, p.uri, p.minor)
       else
         && p.stage == InitialLine
         && if p.state == 0 then p.minor == 0 && p.uri == [] && c == p.verb
            else if p.state == 1 then p.minor == 0 && c == p.verb + ([32] + p.uri)
            else exists s :: VersionSoFar(p.state, p.minor, s) && c == Head(p.verb, p.uri, s)
  }

  lemma HeadMore(verb: seq<byte>, uri: seq<byte>, s: seq<byte>, t: seq<byte>)
    ensures Head(verb, uri, s) + t == Head(verb, uri, s + t)
  {
    Associate([32], s, t);
    Associate(uri, [32] + s, t);
    Associate([32], uri + ([32] + s), t);
    Associate(verb, [32] + (uri + ([32] + s)), t);
  }

  lemma StartOfLine(p: Parser, c: seq<byte>, b: byte)
    requires LineSoFar(p, c) && p.Valid() && p.stage == InitialLine && p.state <= 1
    requires Dispatch(p, b).answer == Indeterminate
    ensures LineSoFar(Dispatch(p, b).next, c + [b])
  {
    var q := Dispatch(p, b).next;
    if p.state == 0 {
      if q.state == 1 {
        Unit([32]);
        assert c + [b] == q.verb + ([32] + q.uri);
      }
    } else {
      Associate(p.verb, [32] + p.uri, [b]);
      Associate([32], p.uri, [b]);
      if b == 32 {
        Unit([32]);
        assert VersionSoFar(2, 0, []) && c + [b] == Head(p.verb, p.uri, []);
      }
    }
  }

  lemma VersionMore(p: Parser, s: seq<byte>, b: byte)
    requires p.Valid() && p.stage == InitialLine && p.kind == Request && VersionSoFar(p.state, p.minor, s)
    requires Dispatch(p, b).answer == Indeterminate
    ensures var q := Dispatch(p, b).next;
      && q == p.(stage := q.stage, state := q.state, minor := q.minor)
      && if q.stage == HeaderLines then q.state == 0 && VersionLine(s + [b], q.minor)
         else q.stage == InitialLine && q.state >= 2 && VersionSoFar(q.state, q.minor, s + [b])
  {
    VersionParts(p.minor);
  }

  lemma VersionParts(m: nat)
    requires m <= 1
    ensures VERSION + [46] + [48] == VERSION + [46, 48] && VERSION + [46] + [49] == VERSION + [46, 49]
    ensures VERSION + [46, 48 + m] + [13] == VERSION + [46, 48 + m, 13]
    ensures VERSION + [46, 48 + m, 13] + [10] == VERSION + [46, 48 + m, 13, 10]
    ensures VERSION + [13] + [10] == VERSION + [13, 10]
  {
  }

  lemma MoreOfLine(p: Parser, c: seq<byte>, b: byte)
    requires LineSoFar(p, c) && p.Valid() && p.stage == InitialLine && Dispatch(p, b).answer == Indeterminate
    ensures LineSoFar(Dispatch(p, b).next, c + [b])
  {
    if p.state <= 1 {
      StartOfLine(p, c, b);
    } else {
      var s :| VersionSoFar(p.state, p.minor, s) && c == Head(p.verb, p.uri, s);
      hide Dispatch;
      VersionMore(p, s, b);
      hide VersionSoFar, VersionLine;
      HeadMore(p.verb, p.uri, s, [b]);
    }
  }

  // The line is over and no header has begun.
  predicate BeforeHeaders(p: Parser)
  {
    p.stage == HeaderLines && p.state == 0 && p.headers == []
  }

  lemma OneMore(p: Parser, b: byte)
    requires p.Valid() && p.stage != Unset
    ensures var o := Parse(p, [b]);
      o.answer == Indeterminate && (o.parser.stage == InitialLine || BeforeHeaders(o.parser))
      ==> p.stage == InitialLine && Dispatch(p, b) == Go(o.parser)
  {
    var s := Dispatch(p, b);
    assert [b][0] == b && [b][1..] == [];
    OnlyFromLine(p, b);
    hide Dispatch, BeforeHeaders;
    assert Loop(s.next, true, []) == Outcome(Indeterminate, s.next, []);
    assert Loop(s.next, p.parsingContent, []) == Outcome(Indeterminate, s.next, []);
    assert Parse(p, [b]) == Loop(p, p.parsingContent, [b]);
    assert Parse(p, [b]).parser == s.next && (s.answer == False ==> Parse(p, [b]).answer == False);
  }

  lemma OnlyFromLine(p: Parser, b: byte)
    requires p.Valid() && p.stage != Unset
    ensures var s := Dispatch(p, b);
      s.next.stage == InitialLine || BeforeHeaders(s.next) ==>
        s.answer == False || (s.answer == Indeterminate && p.stage == InitialLine)
  {
    if p.stage == HeaderLines && p.state == 20 {
      hide FrameBy, SameName;
    }
  }

  lemma {:induction false} LineRead(c: seq<byte>)
    ensures var o := Parse(Fresh(Request), c);
      o.answer == Indeterminate && (o.parser.stage == InitialLine || BeforeHeaders(o.parser)) ==>
        o.parser.stage != Unset && LineSoFar(o.parser, c)
    decreases |c|
  {
    if c != [] {
      var b := c[|c| - 1];
      var front := c[..|c| - 1];
      LastOf(c);
      LineRead(front);
      Resumes(Fresh(Request), front, [b]);
      var o := Parse(Fresh(Request), front);
      NeverUnset(Fresh(Request), front);
      hide Parse, Dispatch, LineSoFar;
      if o.answer == Indeterminate {
        OneMore(o.parser, b);
        if o.parser.stage == InitialLine && Dispatch(o.parser, b).answer == Indeterminate {
          MoreOfLine(o.parser, front, b);
        }
      }
    }
  }

  lemma NeverUnset(p: Parser, c: seq<byte>)
    requires p.Valid()
    ensures Parse(p, c).parser.stage != Unset
  {
  }

  lemma LongVersion(minor: nat)
    requires minor <= 1
    ensures Ascii(" HTTP/1.") + (Digits(minor) + (CRLF + [])) == [32] + (VERSION + [46, 48 + minor, 13, 10])
  {
    VersionTexts();
    assert Digits(minor) == [48 + minor];
  }

  lemma ReadShortVersion(p: Parser)
    requires InLine(p, Request, 1)
    ensures Loop(p, false, [32] + (VERSION + [13, 10])) == Loop(p.(stage := HeaderLines, state := 0), false, [])
  {
    ShortParts();
    ShortEnd(p.(state := 8));
    hide *;
    ReadExpected(p, false, SHORT_VERSION, [13] + ([10] + []));
    RunOne(p.(state := 8), false, 13, [10] + []);
    RunOne(p.(state := 11), false, 10, []);
  }

  const SHORT_VERSION: seq<byte> := [32, 72, 84, 84, 80, 47, 49]

  lemma ShortParts()
    ensures [32] + (VERSION + [13, 10]) == SHORT_VERSION + ([13] + ([10] + [])) && |SHORT_VERSION| == 7
    ensures forall i :: 0 <= i < 7 ==> Expects(Request, 1 + i, SHORT_VERSION[i])
  {
    VersionTexts();
    assert Ascii("HTTP/1.")[0] == 72 && Ascii("HTTP/1.")[5] == 49;
  }

  lemma ShortEnd(p: Parser)
    requires InLine(p, Request, 8)
    ensures Dispatch(p, 13) == Go(p.(state := 11))
    ensures Dispatch(p.(state := 11), 10) == Go(p.(stage := HeaderLines, state := 0))
  {
  }

  lemma ReadVersionLine(p: Parser, s: seq<byte>, minor: nat)
    requires InLine(p, Request, 1) && p.minor == 0 && VersionLine(s, minor)
    ensures Loop(p, false, [32] + s) == Loop(p.(stage := HeaderLines, state := 0, minor := minor), false, [])
  {
    if s == VERSION + [13, 10] && minor == 0 {
      hide Loop;
      ReadShortVersion(p);
    } else {
      LongVersion(minor);
      hide Loop, Digits, Ascii;
      ReadRequestVersion(p, minor, []);
    }
  }

  lemma ReadLine(verb: seq<byte>, uri: seq<byte>, s: seq<byte>, minor: nat)
    requires Letters(verb) && Visible(uri) && VersionLine(s, minor)
    ensures Parse(Fresh(Request), Head(verb, uri, s))
         == Outcome(Indeterminate, Fresh(Request).(stage := HeaderLines, verb := verb, uri := uri, minor := minor), [])
  {
    var p0 := Started(Fresh(Request));
    var p1 := p0.(verb := verb);
    SameLine(RequestMessage(verb, uri, 0, [], []));
    Unit(verb);
    Unit(uri);
    hide Loop, Dispatch, IsAlpha, IsControl;
    ReadVerb(p0, false, verb, [32] + (uri + ([32] + s)));
    OnRequestByte(p1, 32);
    RunOne(p1, false, 32, uri + ([32] + s));
    ReadUri(p1.(state := 1), false, uri, [32] + s);
    ReadVersionLine(p1.(state := 1, uri := uri), s, minor);
    NothingLeft(Fresh(Request).(stage := HeaderLines, verb := verb, uri := uri, minor := minor));
  }

  lemma NothingLeft(p: Parser)
    requires p.Valid() && p.stage != Unset
    ensures Loop(p, false, []) == Outcome(Indeterminate, p, [])
  {
  }

  /**
   The parser has come to the headers of a request exactly behind a request line, with its verb, its
   URI and its version; a version without a minor number is taken too.
   */
  lemma RequestLineExactly(c: seq<byte>, verb: seq<byte>, uri: seq<byte>, minor: nat)
    ensures var o := Parse(Fresh(Request), c);
      o.answer == Indeterminate && BeforeHeaders(o.parser)
      && o.parser.verb == verb && o.parser.uri == uri && o.parser.minor == minor
      <==> IsRequestLine(c, verb, uri, minor)
  {
    hide Parse, VersionLine, Head;
    LineRead(c);
    forall s | Letters(verb) && Visible(uri) && VersionLine(s, minor) && c == Head(verb, uri, s)
      ensures Parse(Fresh(Request), c)
           == Outcome(Indeterminate,
                Fresh(Request).(stage := HeaderLines, verb := verb, uri := uri, minor := minor), [])
    {
      ReadLine(verb, uri, s, minor);
    }
  }

  // ---- the status line ----

  predicate White(b: byte)
  {
    b == 32 || 9 <= b <= 13
  }

  predicate Figure(a: int)
  {
    0 <= a <= 9
  }

  // The version and the code.  A carriage return in place of the minor version leads to the last
  // digit of the code.
  ghost predicate CodePart(x: seq<byte>, minor: nat, status: int)
  {
    || (minor <= 1 && exists w, a, b, d :: White(w) && FullCode(x, minor, w, a, b, d) && status == 100 * a + 10 * b + d)
    || BareCode(x, minor, status)
  }

  predicate BareCode(x: seq<byte>, minor: nat, status: int)
  {
    minor == 0 && Figure(status) && x == VERSION + [13, 48 + status]
  }

  predicate FullCode(x: seq<byte>, minor: nat, w: byte, a: int, b: int, d: int)
  {
    minor <= 1 && Figure(a) && Figure(b) && Figure(d)
    && x == VERSION + [46, 48 + minor, w, 48 + a, 48 + b, 48 + d]
  }

  ghost predicate IsStatusLine(c: seq<byte>, minor: nat, status: int, phrase: seq<byte>)
  {
    exists x, w :: CodePart(x, minor, status) && White(w) && 13 !in phrase && c == x + ([w] + (phrase + [13, 10]))
  }

  // What the parser has read of the version and the code in each state.
  ghost predicate CodeSoFar(state: nat, minor: nat, status: int, c: seq<byte>)
  {
    && minor <= 1
    && match state {
      case 0 => c == [] && minor == 0 && status == 0
      case 1 => c == [72] && minor == 0 && status == 0
      case 2 => c == [72, 84] && minor == 0 && status == 0
      case 3 => c == [72, 84, 84] && minor == 0 && status == 0
      case 4 => c == [72, 84, 84, 80] && minor == 0 && status == 0
      case 5 => c == [72, 84, 84, 80, 47] && minor == 0 && status == 0
      case 6 => c == VERSION && minor == 0 && status == 0
      case 7 => c == VERSION + [46] && minor == 0 && status == 0
      case 8 => c == VERSION + [46, 48 + minor]
      case 9 => exists w :: White(w) && c == VERSION + [46, 48 + minor, w]
      case 10 => exists w, a :: White(w) && Figure(a) && c == VERSION + [46, 48 + minor, w, 48 + a] && status == 100 * a
      case 11 =>
        || (c == VERSION + [13] && minor == 0 && status == 0)
        || exists w, a, b :: White(w) && Figure(a) && Figure(b)
             && c == VERSION + [46, 48 + minor, w, 48 + a, 48 + b] && status == 100 * a + 10 * b
      case 12 => CodePart(c, minor, status)
      case _ => false
    }
  }

  ghost predicate StatusLineSoFar(p: Parser, c: seq<byte>)
  {
    && p.kind == Reply && p.headers == [] && !p.parsingContent
    && if p.stage == HeaderLines then p.state == 0 && IsStatusLine(c, p.minor, p.status, p.statusLine)
       else
         && p.stage == InitialLine
         && if p.state <= 12 then p.statusLine == [] && CodeSoFar(p.state, p.minor, p.status, c)
            else
              && p.state <= 14 && 13 !in p.statusLine
              && exists x, w :: CodePart(x, p.minor, p.status) && White(w)
                   && c == x + ([w] + (p.statusLine + if p.state == 14 then [13] else []))
  }

  lemma CodeParts(m: nat, w: byte, a: byte, b: byte, d: byte)
    requires m <= 1
    ensures VERSION + [46] + [48] == VERSION + [46, 48] && VERSION + [46] + [49] == VERSION + [46, 49]
    ensures VERSION + [13] + [d] == VERSION + [13, d] && VERSION + [46, 48 + m] + [w] == VERSION + [46, 48 + m, w]
    ensures VERSION + [46, 48 + m, w] + [a] == VERSION + [46, 48 + m, w, a]
    ensures VERSION + [46, 48 + m, w, a] + [b] == VERSION + [46, 48 + m, w, a, b]
    ensures VERSION + [46, 48 + m, w, a, b] + [d] == VERSION + [46, 48 + m, w, a, b, d]
  {
  }

  lemma VersionStep(p: Parser, c: seq<byte>, b: byte)
    requires p.Valid() && p.stage == InitialLine && p.kind == Reply && p.state <= 8
    requires CodeSoFar(p.state, p.minor, p.status, c) && Dispatch(p, b).answer == Indeterminate
    ensures var q := Dispatch(p, b).next;
      && q == p.(state := q.state, minor := q.minor) && q.state <= 12
      && CodeSoFar(q.state, q.minor, q.status, c + [b])
  {
    CodeParts(p.minor, b, b, b, b);
    if p.state == 8 {
      assert White(b);
    }
  }

  lemma CodeStep(p: Parser, c: seq<byte>, b: byte)
    requires p.Valid() && p.stage == InitialLine && p.kind == Reply && 9 <= p.state <= 11
    requires CodeSoFar(p.state, p.minor, p.status, c) && Dispatch(p, b).answer == Indeterminate
    ensures var q := Dispatch(p, b).next;
      && q == p.(state := q.state, status := q.status) && q.state <= 12
      && CodeSoFar(q.state, q.minor, q.status, c + [b])
  {
    if p.state == 9 {
      var w :| White(w) && c == VERSION + [46, 48 + p.minor, w];
      CodeParts(p.minor, w, b, b, b);
      var a := b - 48;
      assert Figure(a);
      assert c + [b] == VERSION + [46, 48 + p.minor, w, 48 + a];
    } else if p.state == 10 {
      TensStep(p, c, b);
    } else {
      CodeDone(p, c, b);
    }
  }

  lemma TensStep(p: Parser, c: seq<byte>, b: byte)
    requires p.Valid() && p.stage == InitialLine && p.kind == Reply && p.state == 10
    requires CodeSoFar(10, p.minor, p.status, c) && Dispatch(p, b).answer == Indeterminate
    ensures var q := Dispatch(p, b).next;
      && q == p.(state := 11, status := q.status)
      && CodeSoFar(11, q.minor, q.status, c + [b])
  {
    var w, a :| White(w) && Figure(a) && c == VERSION + [46, 48 + p.minor, w, 48 + a] && p.status == 100 * a;
    CodeParts(p.minor, w, 48 + a, b, b);
    var d := b - 48;
    assert Figure(d);
    assert c + [b] == VERSION + [46, 48 + p.minor, w, 48 + a, 48 + d];
  }

  lemma CodeDone(p: Parser, c: seq<byte>, b: byte)
    requires p.Valid() && p.stage == InitialLine && p.kind == Reply && p.state == 11
    requires CodeSoFar(11, p.minor, p.status, c) && Dispatch(p, b).answer == Indeterminate
    ensures var q := Dispatch(p, b).next;
      q == p.(state := 12, status := q.status) && CodePart(c + [b], q.minor, q.status)
  {
    var d := b - 48;
    if c == VERSION + [13] && p.minor == 0 && p.status == 0 {
      CodeParts(0, b, b, b, b);
    } else {
      var w, a, e :| White(w) && Figure(a) && Figure(e)
        && c == VERSION + [46, 48 + p.minor, w, 48 + a, 48 + e] && p.status == 100 * a + 10 * e;
      CodeParts(p.minor, w, 48 + a, 48 + e, b);
      assert Figure(d);
      assert FullCode(c + [b], p.minor, w, a, e, d);
    }
  }

  lemma MoreOfStatusLine(p: Parser, c: seq<byte>, b: byte)
    requires StatusLineSoFar(p, c) && p.Valid() && p.stage == InitialLine && Dispatch(p, b).answer == Indeterminate
    ensures StatusLineSoFar(Dispatch(p, b).next, c + [b])
  {
    if p.state <= 8 {
      hide Dispatch;
      VersionStep(p, c, b);
    } else if p.state <= 11 {
      hide Dispatch;
      CodeStep(p, c, b);
    } else {
      PhraseStep(p, c, b);
    }
  }

  lemma PhraseStep(p: Parser, c: seq<byte>, b: byte)
    requires StatusLineSoFar(p, c) && p.Valid() && p.stage == InitialLine && p.state >= 12
    requires Dispatch(p, b).answer == Indeterminate
    ensures StatusLineSoFar(Dispatch(p, b).next, c + [b])
  {
    var q := Dispatch(p, b).next;
    if p.state == 12 {
      Unit([b]);
      hide CodePart;
      assert White(b) && c + [b] == c + ([b] + (q.statusLine + []));
    } else {
      var x, w :| CodePart(x, p.minor, p.status) && White(w)
        && c == x + ([w] + (p.statusLine + if p.state == 14 then [13] else []));
      hide CodePart;
      PhraseParts(x, w, p.statusLine, b);
    }
  }

  lemma PhraseParts(x: seq<byte>, w: byte, s: seq<byte>, b: byte)
    ensures x + ([w] + (s + [])) + [b] == x + ([w] + (s + [b] + [])) == x + ([w] + (s + [b]))
    ensures x + ([w] + (s + [13])) + [10] == x + ([w] + (s + [13, 10]))
  {
  }

  lemma {:induction false} StatusRead(c: seq<byte>)
    ensures var o := Parse(Fresh(Reply), c);
      o.answer == Indeterminate && (o.parser.stage == InitialLine || BeforeHeaders(o.parser)) ==>
        o.parser.stage != Unset && StatusLineSoFar(o.parser, c)
    decreases |c|
  {
    if c != [] {
      var b := c[|c| - 1];
      var front := c[..|c| - 1];
      LastOf(c);
      StatusRead(front);
      Resumes(Fresh(Reply), front, [b]);
      var o := Parse(Fresh(Reply), front);
      NeverUnset(Fresh(Reply), front);
      hide Parse, Dispatch, StatusLineSoFar;
      if o.answer == Indeterminate {
        OneMore(o.parser, b);
        if o.parser.stage == InitialLine && Dispatch(o.parser, b).answer == Indeterminate {
          MoreOfStatusLine(o.parser, front, b);
        }
      }
    }
  }

  lemma ReadVersion(rest: seq<byte>)
    ensures var p := Started(Fresh(Reply)); Loop(p, false, VERSION + rest) == Loop(p.(state := 6), false, rest)
  {
    var p := Started(Fresh(Reply));
    assert forall i :: 0 <= i < 6 ==> Expects(Reply, i, VERSION[i]) by {
      VersionTexts();
    }
    hide Loop, Expects, VERSION;
    VersionLength();
    ReadExpected(p, false, VERSION, rest);
  }

  lemma VersionLength()
    ensures |VERSION| == 6
  {
  }

  // The parser behind the code.
  function BehindCode(minor: nat, status: int): (p: Parser)
    ensures p.Valid() && p.stage == InitialLine && p.kind == Reply && p.state == 12
  {
    Started(Fresh(Reply)).(state := 12, minor := minor, status := status)
  }

  predicate CodeIsRead(x: seq<byte>, minor: nat, status: int, rest: seq<byte>)
  {
    Loop(Started(Fresh(Reply)), false, x + rest) == Loop(BehindCode(minor, status), false, rest)
  }

  lemma ReadCodePart(x: seq<byte>, minor: nat, status: int, rest: seq<byte>)
    requires CodePart(x, minor, status)
    ensures CodeIsRead(x, minor, status, rest)
  {
    var bare, w, a, b, d := CodeCases(x, minor, status);
    hide *;
    if bare {
      ReadBarePart(x, minor, status, rest);
    } else {
      ReadFullPart(x, minor, w, a, b, d, rest);
    }
  }

  lemma CodeCases(x: seq<byte>, minor: nat, status: int) returns (bare: bool, w: byte, a: byte, b: byte, d: byte)
    requires CodePart(x, minor, status)
    ensures bare ==> BareCode(x, minor, status)
    ensures !bare ==> White(w) && FullCode(x, minor, w, a, b, d) && status == 100 * a + 10 * b + d
  {
    bare := BareCode(x, minor, status);
    w, a, b, d := 0, 0, 0, 0;
    if !bare {
      w, a, b, d :| White(w) && FullCode(x, minor, w, a, b, d) && status == 100 * a + 10 * b + d;
    }
  }

  lemma ReadBarePart(x: seq<byte>, minor: nat, status: int, rest: seq<byte>)
    requires BareCode(x, minor, status)
    ensures CodeIsRead(x, minor, status, rest)
  {
    var p := Started(Fresh(Reply));
    AtStart(p);
    assert x == VERSION + [13, 48 + status] && 0 <= status <= 9;
    assert BehindCode(minor, status) == p.(state := 12, status := status);
    assert CodeIsRead(x, minor, status, rest)
      <==> Loop(p, false, x + rest) == Loop(BehindCode(minor, status), false, rest);
    hide *;
    Associate(VERSION, [13, 48 + status], rest);
    ReadVersion([13, 48 + status] + rest);
    ReadBareCode(p.(state := 6), status, rest);
    assert p.(state := 6).(state := 12, status := status) == p.(state := 12, status := status);
  }

  lemma ReadFullPart(x: seq<byte>, minor: nat, w: byte, a: byte, b: byte, d: byte, rest: seq<byte>)
    requires White(w) && FullCode(x, minor, w, a, b, d)
    ensures CodeIsRead(x, minor, 100 * a + 10 * b + d, rest)
  {
    var p := Started(Fresh(Reply));
    var y: seq<byte> := [46, 48 + minor, w, 48 + a, 48 + b, 48 + d];
    AtStart(p);
    assert x == VERSION + y && minor <= 1 && a <= 9 && b <= 9 && d <= 9;
    assert BehindCode(minor, 100 * a + 10 * b + d)
        == p.(state := 12, minor := minor, status := 100 * a + 10 * b + d);
    assert CodeIsRead(x, minor, 100 * a + 10 * b + d, rest)
      <==> Loop(p, false, x + rest) == Loop(BehindCode(minor, 100 * a + 10 * b + d), false, rest);
    hide *;
    Associate(VERSION, y, rest);
    ReadVersion(y + rest);
    ReadFullCode(p.(state := 6), minor, w, a, b, d, rest);
    assert p.(state := 6).(state := 12, minor := minor, status := 100 * a + 10 * b + d)
        == p.(state := 12, minor := minor, status := 100 * a + 10 * b + d);
  }

  lemma AtStart(p: Parser)
    requires p == Started(Fresh(Reply))
    ensures InLine(p.(state := 6), Reply, 6) && p.minor == 0 && p.status == 0
  {
  }

  lemma ReadBareCode(p: Parser, status: nat, rest: seq<byte>)
    requires InLine(p, Reply, 6) && p.status == 0 && status <= 9
    ensures Loop(p, false, [13, 48 + status] + rest) == Loop(p.(state := 12, status := status), false, rest)
  {
    Two(13, 48 + status, rest);
    var q := p.(state := 11);
    assert Dispatch(p, 13) == Go(q) && Dispatch(q, 48 + status) == Go(p.(state := 12, status := status));
    hide Loop, Dispatch;
    RunOne(p, false, 13, [48 + status] + rest);
    RunOne(q, false, 48 + status, rest);
  }

  lemma ReadFullCode(p: Parser, minor: nat, w: byte, a: byte, b: byte, d: byte, rest: seq<byte>)
    requires InLine(p, Reply, 6) && p.minor == 0 && minor <= 1 && White(w) && a <= 9 && b <= 9 && d <= 9
    ensures Loop(p, false, [46, 48 + minor, w, 48 + a, 48 + b, 48 + d] + rest)
         == Loop(p.(state := 12, minor := minor, status := 100 * a + 10 * b + d), false, rest)
  {
    var q := p.(state := 9, minor := minor);
    Associate([46, 48 + minor, w], [48 + a, 48 + b, 48 + d], rest);
    assert [46, 48 + minor, w] + [48 + a, 48 + b, 48 + d] == [46, 48 + minor, w, 48 + a, 48 + b, 48 + d];
    VersionSteps(p, minor, w);
    StatusDigits(q, a, b, d);
    hide Loop, Dispatch;
    RunThree(p, p.(state := 7), p.(state := 8, minor := minor), q, 46, 48 + minor, w,
      [48 + a, 48 + b, 48 + d] + rest);
    RunThree(q, q.(state := 10, status := 100 * a), q.(state := 11, status := 100 * a + 10 * b),
      q.(state := 12, status := 100 * a + 10 * b + d), 48 + a, 48 + b, 48 + d, rest);
  }

  lemma VersionSteps(p: Parser, minor: nat, w: byte)
    requires InLine(p, Reply, 6) && p.minor == 0 && minor <= 1 && White(w)
    ensures Dispatch(p, 46) == Go(p.(state := 7))
    ensures Dispatch(p.(state := 7), 48 + minor) == Go(p.(state := 8, minor := minor))
    ensures Dispatch(p.(state := 8, minor := minor), w) == Go(p.(state := 9, minor := minor))
  {
  }

  lemma ReadWholeLine(x: seq<byte>, minor: nat, status: int, w: byte, phrase: seq<byte>)
    requires CodePart(x, minor, status) && White(w) && 13 !in phrase
    ensures Parse(Fresh(Reply), x + ([w] + (phrase + [13, 10])))
         == Outcome(Indeterminate,
              Fresh(Reply).(stage := HeaderLines, minor := minor, status := status, statusLine := phrase), [])
  {
    var q := BehindCode(minor, status);
    var q' := q.(state := 13, statusLine := phrase);
    Unit(phrase);
    Unit(CRLF);
    assert Dispatch(q, w) == Go(q.(state := 13));
    hide Loop, Dispatch, CodePart;
    ReadCodePart(x, minor, status, [w] + (phrase + CRLF));
    RunOne(q, false, w, phrase + CRLF);
    ReadStatusText(q.(state := 13), false, phrase, CRLF);
    ReadLineBreak(q', []);
    NothingLeft(q'.(stage := HeaderLines, state := 0));
  }

  /**
   The parser has come to the headers of a reply exactly behind a status line, with its version, its
   code and its phrase.
   */
  lemma StatusLineExactly(c: seq<byte>, minor: nat, status: int, phrase: seq<byte>)
    ensures var o := Parse(Fresh(Reply), c);
      o.answer == Indeterminate && BeforeHeaders(o.parser)
      && o.parser.minor == minor && o.parser.status == status && o.parser.statusLine == phrase
      <==> IsStatusLine(c, minor, status, phrase)
  {
    hide Parse, CodePart;
    StatusRead(c);
    forall x, w | CodePart(x, minor, status) && White(w) && 13 !in phrase && c == x + ([w] + (phrase + [13, 10]))
      ensures Parse(Fresh(Reply), c)
           == Outcome(Indeterminate,
                Fresh(Reply).(stage := HeaderLines, minor := minor, status := status, statusLine := phrase), [])
    {
      ReadWholeLine(x, minor, status, w, phrase);
    }
  }

  /** A status line without a minor version and with a single digit for its code is taken. */
  lemma BareCodeTaken()
    ensures var o := Parse(Fresh(Reply), [72, 84, 84, 80, 47, 49, 13, 55, 32, 13, 10]);
      o.answer == Indeterminate && BeforeHeaders(o.parser) && o.parser.status == 7
  {
    var c: seq<byte> := [72, 84, 84, 80, 47, 49, 13, 55, 32, 13, 10];
    assert CodePart(VERSION + [13, 48 + 7], 0, 7) && White(32);
    assert c == (VERSION + [13, 55]) + ([32] + ([] + [13, 10]));
    assert IsStatusLine(c, 0, 7, []);
    hide Parse, IsStatusLine;
    StatusLineExactly(c, 0, 7, []);
  }
}
