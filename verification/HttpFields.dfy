/**
 What the parser makes of header lines it refuses, of lines that continue a header, and of the
 numbers and lengths that frame the content.
 */
module HttpFields {
  import opened Utf8
  import opened Text
  import opened Sequences
  import opened Numerals
  import opened HttpParser
  import opened HttpRoundTrip
  import opened HttpStandard
  import opened HttpChunked
  import opened HttpChunkForms

  // ---- header lines that are refused ----

  lemma NameStep(p: Parser, b: byte)
    ensures InHeader(p, 0) && !NameByte(b) && b != 13 && (b == 32 || b == 9 ==> p.headers == []) ==>
              Dispatch(p, b) == Fail(p)
    ensures InHeader(p, 1) && !NameByte(b) && b != 58 ==> Dispatch(p, b) == Fail(p)
    ensures InHeader(p, 2) && b != 32 ==> Dispatch(p, b) == Fail(p)
    ensures InHeader(p, 5) && b != 10 ==> Dispatch(p, b) == Fail(p)
    ensures InHeader(p, 20) && b != 10 ==> Dispatch(p, b) == Fail(p)
  {
    NameBytes(b);
    hide IsControl, IsSpecial, NameByte;
  }

  // The parser behind the bytes of a name.
  lemma ReadNamePart(p: Parser, c: bool, name: seq<byte>, rest: seq<byte>) returns (q: Parser)
    requires InHeader(p, 0) && name != [] && forall b <- name :: NameByte(b)
    ensures InHeader(q, 1) && Loop(p, c, name + rest) == Loop(q, c, rest)
  {
    forall i | 0 <= i < |name| ensures !IsControl(name[i]) && !IsSpecial(name[i]) {
      assert name[i] in name;
      NameBytes(name[i]);
    }
    hide Loop, Dispatch, NameByte, IsControl, IsSpecial;
    FirstOf(name, rest);
    OnNameByte(p, name[0]);
    var q1 := p.(headers := p.headers + [Header([name[0]], [])], state := 1);
    RunOne(p, c, name[0], name[1..] + rest);
    ReadName(q1, c, name[1..], rest);
    AddNameMore(q1.headers, name[1..], []);
    q := q1.(headers := AddName(q1.headers, name[1..]));
  }

  /** A name is refused at the first byte that may not stand in it and does not end it. */
  lemma NameRefused(p: Parser, c: bool, name: seq<byte>, b: byte, rest: seq<byte>)
    requires InHeader(p, 0) && (forall x <- name :: NameByte(x)) && !NameByte(b)
    requires if name == [] then b != 13 && (b == 32 || b == 9 ==> p.headers == []) else b != 58
    ensures Loop(p, c, name + ([b] + rest)).answer == False
  {
    hide NameByte, Dispatch;
    if name == [] {
      NameStep(p, b);
      Unit([b] + rest);
      RefusedAt(p, c, b, rest);
    } else {
      var q := ReadNamePart(p, c, name, [b] + rest);
      NameStep(q, b);
      RefusedAt(q, c, b, rest);
    }
  }

  lemma RefusedAt(p: Parser, c: bool, ch: byte, rest: seq<byte>)
    requires p.Valid() && p.stage != Unset && Dispatch(p, ch) == Fail(p)
    ensures Loop(p, c, [ch] + rest).answer == False
  {
    hide Dispatch;
    assert ([ch] + rest)[0] == ch;
  }

  /** A colon behind a name is refused unless a space follows. */
  lemma SpaceMissing(p: Parser, c: bool, name: seq<byte>, b: byte, rest: seq<byte>)
    requires InHeader(p, 0) && name != [] && (forall x <- name :: NameByte(x)) && b != 32
    ensures Loop(p, c, name + ([58] + ([b] + rest))).answer == False
  {
    hide NameByte, Dispatch, Loop;
    var q := ReadNamePart(p, c, name, [58] + ([b] + rest));
    OnSeparator(q);
    RunOne(q, c, 58, [b] + rest);
    NameStep(q.(state := 2), b);
    RefusedAt(q.(state := 2), c, b, rest);
  }

  /** A carriage return behind a value, or at the end of the headers, is refused unless a line feed follows. */
  lemma FeedMissing(p: Parser, c: bool, b: byte, rest: seq<byte>)
    requires (InHeader(p, 0) || InHeader(p, 3) || InHeader(p, 4)) && b != 10
    ensures Loop(p, c, [13] + ([b] + rest)).answer == False
  {
    var q := p.(state := if p.state == 0 then 20 else 5);
    OnLineEnd(p);
    hide Dispatch, Loop;
    RunOne(p, c, 13, [b] + rest);
    NameStep(q, b);
    RefusedAt(q, c, b, rest);
  }

  // ---- lines that continue a header ----

  predicate Blanks(s: seq<byte>)
  {
    forall b <- s :: b == 32
  }

  lemma OnBlank(p: Parser, b: byte)
    ensures InHeader(p, 0) && p.headers != [] && (b == 32 || b == 9) ==> Dispatch(p, b) == Go(p.(state := 10))
    ensures (InHeader(p, 3) || InHeader(p, 10)) && b == 32 ==> Dispatch(p, b) == Go(p)
    ensures InHeader(p, 10) && 32 < b && b != 127 ==>
              Dispatch(p, b) == Go(p.(headers := AddValue(p.headers, [b]), state := 3))
    ensures InHeader(p, 10) && b == 13 ==> Dispatch(p, b) == Go(p.(state := 4))
    ensures InHeader(p, 10) && (b < 32 || b == 127) && b != 13 ==> Dispatch(p, b) == Fail(p)
  {
  }

  lemma {:induction false} SkipBlanks(p: Parser, c: bool, s: seq<byte>, rest: seq<byte>)
    requires (InHeader(p, 3) || InHeader(p, 10)) && Blanks(s)
    ensures Loop(p, c, s + rest) == Loop(p, c, rest)
    decreases |s|
  {
    hide Loop, Dispatch;
    if s == [] {
      Unit(rest);
    } else {
      FirstOf(s, rest);
      assert s[0] in s && forall b <- s[1..] :: b in s;
      OnBlank(p, s[0]);
      RunOne(p, c, s[0], s[1..] + rest);
      SkipBlanks(p, c, s[1..], rest);
    }
  }

  // The parser with more of the value of its last header.
  function Extended(p: Parser, s: seq<byte>): Parser
    requires p.headers != []
  {
    var n := |p.headers| - 1;
    p.(headers := p.headers[..n] + [Header(p.headers[n].name, p.headers[n].value + s)])
  }

  /**
   A line that begins with white space puts its text at the end of the header before, with nothing
   in between, and loses the blanks behind its first character as well.
   */
  lemma FoldedLine(p: Parser, c: bool, w: byte, blanks: seq<byte>, x: byte, more: seq<byte>, v: seq<byte>,
                   rest: seq<byte>)
    requires InHeader(p, 0) && p.headers != [] && (w == 32 || w == 9) && Blanks(blanks) && Blanks(more)
    requires 32 < x && x != 127 && (v != [] ==> v[0] != 32) && 13 !in v
    ensures Loop(p, c, [w] + (blanks + ([x] + (more + (v + ([13, 10] + rest))))))
         == Loop(Extended(p, [x] + v), c, rest)
  {
    var q := p.(state := 10);
    var q' := q.(headers := AddValue(p.headers, [x]), state := 3);
    var end := v + ([13, 10] + rest);
    assert FieldValue(v) && CRLF == [13, 10];
    AddValueMore(p.headers, [x], v);
    assert Extended(p, [x] + v) == q'.(headers := AddValue(q'.headers, v), state := 0);
    OnBlank(p, w);
    OnBlank(q, x);
    hide Loop, Dispatch, AddValue, Extended;
    RunOne(p, c, w, blanks + ([x] + (more + end)));
    SkipBlanks(q, c, blanks, [x] + (more + end));
    RunOne(q, c, x, more + end);
    SkipBlanks(q', c, more, end);
    ReadValue(q', c, v, rest);
  }

  /** A line of blanks alone swallows the line behind it. */
  lemma BlankLine(p: Parser, c: bool, w: byte, blanks: seq<byte>, v: seq<byte>, rest: seq<byte>)
    requires InHeader(p, 0) && p.headers != [] && (w == 32 || w == 9) && Blanks(blanks) && 13 !in v
    ensures Loop(p, c, [w] + (blanks + ([13, 10] + (v + ([13, 10] + rest))))) == Loop(Extended(p, [10] + v), c, rest)
  {
    var q := p.(state := 10);
    var q' := q.(state := 4);
    var end := v + ([13, 10] + rest);
    assert CRLF == [13, 10] && 13 !in [10] + v;
    assert Extended(p, [10] + v) == q'.(headers := AddValue(p.headers, [10] + v), state := 0);
    OnBlank(p, w);
    OnBlank(q, 13);
    Two(13, 10, end);
    Associate([10], v, [13, 10] + rest);
    hide Loop, Dispatch, AddValue, Extended;
    RunOne(p, c, w, blanks + ([13, 10] + end));
    SkipBlanks(q, c, blanks, [13, 10] + end);
    RunOne(q, c, 13, [10] + end);
    ReadMoreValue(q', c, [10] + v, rest);
  }

  // ---- lengths ----

  lemma {:induction false} DecimalValue(s: seq<byte>, n: nat)
    requires Spells(s, 10, n)
    ensures AllDigits(s) && Accumulate(0, s) == n
    decreases |s|
  {
    DigitCodes(s[|s| - 1], n % 10, 10);
    LastOf(s);
    hide IsDigitFor;
    if |s| > 1 {
      DecimalValue(s[..|s| - 1], n / 10);
      AccumulateSnoc(0, s[..|s| - 1], s[|s| - 1]);
    } else {
      AccumulateSnoc(0, [], s[0]);
    }
  }

  lemma {:induction false} LeadingOf(ds: seq<byte>, rest: seq<byte>)
    requires AllDigits(ds) && (rest != [] ==> !IsDigit(rest[0]))
    ensures LeadingDigits(ds + rest) == ds
    decreases |ds|
  {
    if ds == [] {
      Unit(rest);
    } else {
      FirstOf(ds, rest);
      LeadingOf(ds[1..], rest);
    }
  }

  predicate WhiteSpace(s: seq<byte>)
  {
    forall i :: 0 <= i < |s| ==> s[i] == 32 || 9 <= s[i] <= 13
  }

  lemma {:induction false} SkipWhite(s: seq<byte>, rest: seq<byte>, before: nat)
    requires WhiteSpace(s)
    ensures ReadUnsigned(s + rest, before) == ReadUnsigned(rest, before)
    decreases |s|
  {
    if s == [] {
      Unit(rest);
    } else {
      FirstOf(s, rest);
      SkipWhite(s[1..], rest, before);
    }
  }

  /**
   A length is read as its decimal value, at most 2^32 - 1; white space before it, a plus sign and
   what follows the digits are passed over, and a minus sign counts down from 2^32.
   */
  lemma LengthRead(white: seq<byte>, sign: seq<byte>, ds: seq<byte>, n: nat, rest: seq<byte>, before: nat)
    requires WhiteSpace(white) && (sign == [] || sign == [43] || sign == [45]) && Spells(ds, 10, n)
    requires rest != [] ==> !(48 <= rest[0] <= 57)
    ensures ReadUnsigned(white + (sign + (ds + rest)), before)
         == if n > 0xFFFF_FFFF then 0xFFFF_FFFF else if sign == [45] && n > 0 then 0x1_0000_0000 - n else n
  {
    DecimalValue(ds, n);
    LeadingOf(ds, rest);
    SkipWhite(white, sign + (ds + rest), before);
    FirstOf(ds, rest);
    Unit(ds + rest);
    if sign != [] {
      FirstOf(sign, ds + rest);
      assert sign[1..] + (ds + rest) == ds + rest;
    }
    hide LeadingDigits, Accumulate, Spells;
  }

  /** Where no number stands the length is 0; where nothing but white space stands it is kept. */
  lemma NoLength(white: seq<byte>, x: byte, rest: seq<byte>, before: nat)
    requires WhiteSpace(white) && x !in {43, 45} && !(48 <= x <= 57) && x != 32 && !(9 <= x <= 13)
    ensures ReadUnsigned(white, before) == before && ReadUnsigned(white + ([x] + rest), before) == 0
  {
    Unit(white);
    SkipWhite(white, [], before);
    SkipWhite(white, [x] + rest, before);
    assert ([x] + rest)[0] == x;
    assert LeadingDigits([x] + rest) == [];
  }

  /** A length below zero is taken for one just below 2^32. */
  lemma NegativeLength()
    ensures ReadUnsigned([45, 49], 0) == 0xFFFF_FFFF
  {
    assert Spells([49], 10, 1);
    assert [] + ([45] + ([49] + [])) == [45, 49];
    LengthRead([], [45], [49], 1, [], 0);
  }

  // ---- how much content is awaited ----

  // A parser that has counted down to zero goes on for a whole word.
  function Awaited(p: Parser): nat
  {
    if p.chunkSize == 0 then 0x1_0000_0000 else p.chunkSize
  }

  lemma CountDown(p: Parser, ch: byte)
    requires p.Valid() && p.stage == Content && p.collect && Awaited(p) > 1
    ensures var q := p.(payload := p.payload + [ch], chunkSize := Awaited(p) - 1);
      Dispatch(p, ch) == Go(q) && q.Valid() && Awaited(q) == Awaited(p) - 1
  {
  }

  lemma {:induction false} StillAwaited(p: Parser, text: seq<byte>)
    requires p.Valid() && p.stage == Content && p.collect && |text| < Awaited(p)
    ensures Loop(p, true, text).answer == Indeterminate
    decreases |text|
  {
    if text != [] {
      CountDown(p, text[0]);
      hide Dispatch, Awaited;
      StillAwaited(p.(payload := p.payload + [text[0]], chunkSize := Awaited(p) - 1), text[1..]);
    }
  }

  /** Content is complete with the last byte awaited and not before; when no length was given these are 2^32. */
  lemma ContentCounted(p: Parser, body: seq<byte>, rest: seq<byte>)
    requires p.Valid() && p.stage == Content && p.collect
    ensures |body| < Awaited(p) ==> Loop(p, true, body).answer == Indeterminate
    ensures |body| == Awaited(p) ==>
      Loop(p, true, body + rest)
      == Outcome(True, p.(payload := p.payload + body, chunkSize := 0, parsingContent := false), rest)
  {
    if |body| < Awaited(p) {
      StillAwaited(p, body);
    } else if |body| == Awaited(p) {
      if p.chunkSize > 0 {
        ReadContent(p, body, rest);
      } else {
        var q := p.(payload := p.payload + [body[0]], chunkSize := 0xFFFF_FFFF);
        FirstOf(body, rest);
        CountDown(p, body[0]);
        hide Dispatch, Loop;
        RunOne(p, true, body[0], body[1..] + rest);
        ReadContent(q, body[1..], rest);
        Associate(p.payload, [body[0]], body[1..]);
      }
    }
  }

  // ---- chunks that are refused ----

  /** The digits of a size are those of the alphabet. */
  lemma HexBytes(b: byte)
    ensures IsHexDigit(b) <==> exists v :: IsDigitFor(b, v, 16)
  {
    if IsHexDigit(b) {
      var v := if b <= 57 then b - 48 else if b <= 70 then b - 55 else b - 87;
      HexDigitFor(v);
      assert IsDigitFor(b, v, 16);
    }
    forall v | IsDigitFor(b, v, 16) ensures IsHexDigit(b) {
      DigitCodes(b, v, 16);
    }
  }

  lemma HexDigitFor(v: nat)
    requires v < 16
    ensures LOWER[v] as int == if v < 10 then 48 + v else 87 + v
    ensures UPPER[v] as int == if v < 10 then 48 + v else 55 + v
  {
    assert v in {0, 1, 2, 3, 4, 5, 6, 7, 8, 9, 10, 11, 12, 13, 14, 15};
    assert LOWER[v] == "0123456789abcdef"[v] && UPPER[v] == "0123456789ABCDEF"[v];
  }

  /** Another byte in a size line, or one that is not the end of the line where that is due, is refused. */
  lemma ChunkRefused(p: Parser, b: byte, rest: seq<byte>)
    requires p.Valid() && p.stage == Chunk && p.state in {0, 1, 3, 5, 6, 10, 11}
    requires match p.state
      case 0 => forall v :: !IsDigitFor(b, v, 16)
      case 1 => b != 59 && b != 13 && forall v :: !IsDigitFor(b, v, 16)
      case 3 => b != 10
      case 5 => b != 13
      case 6 => b != 10
      case 10 => b != 13
      case _ => b != 10
    ensures Loop(p, true, [b] + rest).answer == False
  {
    HexBytes(b);
    hide IsHexDigit, IsDigitFor;
    assert Dispatch(p, b) == Fail(p);
    RefusedAt(p, true, b, rest);
  }
}
