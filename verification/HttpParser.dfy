/**
 The HTTP message parser: one function per state machine, giving what each byte does to the
 parser's fields, and the loop that drives them over a buffer.
 */
module HttpParser {
  import opened Utf8
  import opened Text

  datatype Header = Header(name: seq<byte>, value: seq<byte>)

  const CR: byte := 13
  const LF: byte := 10

  // ---- characters and numbers, in the C locale ----

  predicate IsControl(ch: byte)
  {
    ch < 32 || ch == 127
  }

  predicate IsSpecial(ch: byte)
  {
    ch in Ascii("()<>@,;:\\\"/[]?={} \t")
  }

  predicate IsSpace(ch: byte)
  {
    ch == 32 || 9 <= ch <= 13
  }

  predicate IsAlpha(ch: byte)
  {
    'A' as int <= ch <= 'Z' as int || 'a' as int <= ch <= 'z' as int
  }

  predicate IsHexDigit(ch: byte)
  {
    IsDigit(ch) || 'A' as int <= ch <= 'F' as int || 'a' as int <= ch <= 'f' as int
  }

  function Upper(ch: byte): byte
  {
    if 'a' as int <= ch <= 'z' as int then ch - 32 else ch
  }

  // `iequals`
  predicate SameName(a: seq<byte>, b: seq<byte>)
  {
    |a| == |b| && forall i :: 0 <= i < |a| ==> Upper(a[i]) == Upper(b[i])
  }

  const WORD: int := 0x1_0000_0000

  function Saturate(n: nat): (r: nat)
    ensures r < WORD
  {
    if n < WORD then n else WORD - 1
  }

  function LeadingDigits(s: seq<byte>): (r: seq<byte>)
    ensures AllDigits(r)
  {
    if s == [] || !IsDigit(s[0]) then [] else [s[0]] + LeadingDigits(s[1..])
  }

  // `stream >> value` for an unsigned number: with nothing but space to read the value stays,
  // a minus sign negates within the word, and a number too large becomes the largest.
  function ReadUnsigned(s: seq<byte>, value: nat): (r: nat)
    ensures r < WORD || r == value
  {
    if s == [] then value
    else if IsSpace(s[0]) then ReadUnsigned(s[1..], value)
    else
      var digits := LeadingDigits(if s[0] == '-' as int || s[0] == '+' as int then s[1..] else s);
      AccumulatesUp(0, digits);
      var n: nat := Accumulate(0, digits);
      if s[0] == '-' as int && 0 < n < WORD then WORD - n else Saturate(n)
  }

  lemma {:induction false} AccumulatesUp(m: int, ds: seq<byte>)
    requires AllDigits(ds) && m >= 0
    ensures Accumulate(m, ds) >= m
    decreases |ds|
  {
    if ds != [] {
      AccumulatesUp(10 * m + (ds[0] - '0' as int), ds[1..]);
    }
  }

  function HexValue(ch: byte): nat
  {
    if IsDigit(ch) then ch - '0' as int else if IsHexDigit(ch) then Upper(ch) - 'A' as int + 10 else 0
  }

  // `stream >> std::hex >> value` for a string of hexadecimal digits.
  function Hex(s: seq<byte>): nat
  {
    if s == [] then 0 else 16 * Hex(s[..|s| - 1]) + HexValue(s[|s| - 1])
  }

  // ---- the parser ----

  datatype Kind = Request | Reply

  // `m_parser`
  datatype Stage = Unset | InitialLine | HeaderLines | Chunk | Content

  datatype Parser = Parser(
    kind: Kind,
    stage: Stage,
    state: nat,
    chunkSize: nat,
    data: seq<byte>,
    uri: seq<byte>,
    verb: seq<byte>,
    parsingContent: bool,
    collect: bool,
    minor: nat,
    headers: seq<Header>,
    payload: seq<byte>,
    status: int,
    statusLine: seq<byte>
  ) {
    // A header is there when its lines are read, and the size fits `unsigned int`.
    ghost predicate Valid()
    {
      && chunkSize < WORD
      && (stage == HeaderLines && 1 <= state <= 10 ==> headers != [])
    }
  }

  // The parser as constructed, and again after `get_request` and `reset`.
  function Fresh(kind: Kind): (p: Parser)
  {
    Parser(kind, Unset, 0, 0, [], [], [], false, true, 0, [], [], 0, [])
  }

  // `boost::tribool`
  datatype Answer = True | False | Indeterminate

  datatype Step = Step(next: Parser, answer: Answer)

  function Go(p: Parser): Step
  {
    Step(p, Indeterminate)
  }

  function Fail(p: Parser): Step
  {
    Step(p, False)
  }

  function Expect(p: Parser, ch: byte, c: byte): Step
  {
    if ch == c then Go(p.(state := p.state + 1)) else Fail(p)
  }

  ghost predicate Keeps(p: Parser, s: Step)
  {
    s.next.Valid() && s.next.stage != Unset && s.next.kind == p.kind
  }

  // ---- the initial line ----

  function RequestLine(p: Parser, ch: byte): (s: Step)
    requires p.stage == InitialLine && p.Valid()
    ensures Keeps(p, s)
  {
    match p.state
    case 0 =>
      if IsAlpha(ch) then Go(p.(verb := p.verb + [ch]))
      else if ch == ' ' as int then Go(p.(state := 1))
      else Fail(p)
    case 1 =>
      if ch == ' ' as int then Go(p.(state := 2))
      else if IsControl(ch) then Fail(p)
      else Go(p.(uri := p.uri + [ch]))
    case 2 => Expect(p, ch, 'H' as int)
    case 3 => Expect(p, ch, 'T' as int)
    case 4 => Expect(p, ch, 'T' as int)
    case 5 => Expect(p, ch, 'P' as int)
    case 6 => Expect(p, ch, '/' as int)
    case 7 => Expect(p, ch, '1' as int)
    case 8 => if ch == CR then Go(p.(state := 11)) else Expect(p, ch, '.' as int)
    case 9 => Minor(p, ch)
    case 10 => Expect(p, ch, CR)
    case 11 => if ch == LF then Go(p.(state := 0, stage := HeaderLines)) else Fail(p)
    case _ => Go(p)
  }

  function Minor(p: Parser, ch: byte): Step
  {
    if ch == '1' as int then Go(p.(minor := 1, state := p.state + 1))
    else Expect(p, ch, '0' as int)
  }

  function ReplyLine(p: Parser, ch: byte): (s: Step)
    requires p.stage == InitialLine && p.Valid()
    ensures Keeps(p, s)
  {
    match p.state
    case 0 => Expect(p, ch, 'H' as int)
    case 1 => Expect(p, ch, 'T' as int)
    case 2 => Expect(p, ch, 'T' as int)
    case 3 => Expect(p, ch, 'P' as int)
    case 4 => Expect(p, ch, '/' as int)
    case 5 => Expect(p, ch, '1' as int)
    case 6 => if ch == CR then Go(p.(state := 11)) else Expect(p, ch, '.' as int)
    case 7 => Minor(p, ch)
    case 8 => if IsSpace(ch) then Go(p.(state := 9)) else Fail(p)
    case 9 => StatusDigit(p, ch, 100, 0)
    case 10 => StatusDigit(p, ch, 10, p.status)
    case 11 => StatusDigit(p, ch, 1, p.status)
    case 12 => if IsSpace(ch) then Go(p.(state := 13)) else Fail(p)
    case 13 => if ch == CR then Go(p.(state := 14)) else Go(p.(statusLine := p.statusLine + [ch]))
    case 14 => if ch == LF then Go(p.(state := 0, stage := HeaderLines)) else Fail(p)
    case _ => Go(p)
  }

  function StatusDigit(p: Parser, ch: byte, weight: int, before: int): Step
  {
    if IsDigit(ch) then Go(p.(status := before + weight * (ch - '0' as int), state := p.state + 1)) else Fail(p)
  }

  // ---- the header lines ----

  function AddName(hs: seq<Header>, s: seq<byte>): seq<Header>
    requires hs != []
  {
    var h := hs[|hs| - 1];
    hs[..|hs| - 1] + [h.(name := h.name + s)]
  }

  function AddValue(hs: seq<Header>, s: seq<byte>): seq<Header>
    requires hs != []
  {
    var h := hs[|hs| - 1];
    hs[..|hs| - 1] + [h.(value := h.value + s)]
  }

  function HeaderLine(p: Parser, ch: byte): (s: Step)
    requires p.stage == HeaderLines && p.Valid()
    ensures Keeps(p, s)
  {
    match p.state
    case 0 =>
      if ch == CR then Go(p.(state := 20))
      else if (ch == ' ' as int || ch == '\t' as int) && p.headers != [] then Go(p.(state := 10))
      else if IsControl(ch) || IsSpecial(ch) then Fail(p)
      else Go(p.(headers := p.headers + [Header([ch], [])], state := 1))
    case 1 =>
      if ch == ':' as int then Go(p.(state := 2))
      else if IsControl(ch) || IsSpecial(ch) then Fail(p)
      else Go(p.(headers := AddName(p.headers, [ch])))
    case 2 => Expect(p, ch, ' ' as int)
    case 3 =>
      if ch == CR then Go(p.(state := 5))
      else if ch != ' ' as int then Go(p.(headers := AddValue(p.headers, [ch]), state := 4))
      else Go(p)
    case 4 =>
      if ch == CR then Go(p.(state := 5)) else Go(p.(headers := AddValue(p.headers, [ch])))
    case 5 => if ch == LF then Go(p.(state := 0)) else Fail(p)
    case 10 =>
      if ch == CR then Go(p.(state := 4))
      else if IsControl(ch) then Fail(p)
      else if ch != ' ' as int then Go(p.(headers := AddValue(p.headers, [ch]), state := 3))
      else Go(p)
    case 20 => if ch == LF then Step(Framing(p, 0), True) else Fail(p)
    case _ => Go(p)
  }

  // The loop over the headers that finds out how the content is framed.
  function Framing(p: Parser, i: nat): (q: Parser)
    requires p.chunkSize < WORD && p.stage in {HeaderLines, Content} && i <= |p.headers|
    ensures q.chunkSize < WORD
    ensures q.stage in {p.stage, Chunk, Content} && (q.stage == p.stage ==> q.state == p.state)
    ensures q == p.(stage := q.stage, state := q.state, chunkSize := q.chunkSize, parsingContent := q.parsingContent)
    decreases |p.headers| - i
  {
    if i == |p.headers| then p
    else
      var h := p.headers[i];
      if SameName(h.name, Ascii("Transfer-Encoding")) && SameName(h.value, Ascii("chunked")) then
        p.(stage := Chunk, state := 0, parsingContent := true)
      else Framing(FrameBy(p, h), i + 1)
  }

  predicate PostOrPut(verb: seq<byte>)
  {
    verb == Ascii("POST") || verb == Ascii("PUT")
  }

  function FrameBy(p: Parser, h: Header): Parser
  {
    if SameName(h.name, Ascii("Content-Length")) then
      var n := ReadUnsigned(h.value, p.chunkSize);
      if n > 0 then p.(chunkSize := n, stage := Content, parsingContent := true)
      else p.(chunkSize := 0, parsingContent := false)
    else if SameName(h.name, Ascii("Connection")) && SameName(h.value, Ascii("Close"))
         && PostOrPut(p.verb) then
      p.(stage := Content, parsingContent := true)
    else p
  }

  // ---- the content ----

  // `--m_chunk_size`
  function Less(n: nat): nat
  {
    if n == 0 then WORD - 1 else n - 1
  }

  function Collect(p: Parser, ch: byte): Parser
  {
    p.(payload := if p.collect then p.payload + [ch] else p.payload, chunkSize := Less(p.chunkSize))
  }

  function ChunkByte(p: Parser, ch: byte): (s: Step)
    requires p.stage == Chunk && p.Valid()
    ensures Keeps(p, s)
  {
    match p.state
    case 0 => if IsHexDigit(ch) then Go(p.(data := [ch], state := 1)) else Fail(p)
    case 1 =>
      if IsHexDigit(ch) then Go(p.(data := p.data + [ch]))
      else if ch == ';' as int then Go(p.(state := 2))
      else if ch == CR then Go(p.(state := 3))
      else Fail(p)
    case 2 =>
      if ch == CR then Go(p.(state := 3))
      else if IsSpecial(ch) || IsControl(ch) then Fail(p)
      else Go(p)
    case 3 =>
      if ch == LF then
        var n := Saturate(Hex(p.data));
        Go(p.(chunkSize := n, state := if n > 0 then 4 else 10))
      else Fail(p)
    case 4 =>
      var q := Collect(p, ch);
      Go(if q.chunkSize == 0 then q.(state := 5) else q)
    case 5 => Expect(p, ch, CR)
    case 6 => if ch == LF then Go(p.(state := 0)) else Fail(p)
    case 10 => Expect(p, ch, CR)
    case 11 => if ch == LF then Step(p, True) else Fail(p)
    case _ => Go(p)
  }

  function ContentByte(p: Parser, ch: byte): (s: Step)
    requires p.stage == Content && p.Valid()
    ensures Keeps(p, s)
  {
    var q := Collect(p, ch);
    if q.chunkSize == 0 then Step(q.(parsingContent := false), True) else Go(q)
  }

  // ---- driving the machines ----

  // `(this->*m_parser)(ch)`
  function Dispatch(p: Parser, ch: byte): (s: Step)
    requires p.Valid() && p.stage != Unset
    ensures Keeps(p, s)
  {
    match p.stage
    case Unset => Go(p)
    case InitialLine => if p.kind == Request then RequestLine(p, ch) else ReplyLine(p, ch)
    case HeaderLines => HeaderLine(p, ch)
    case Chunk => ChunkByte(p, ch)
    case Content => ContentByte(p, ch)
  }

  function Started(p: Parser): Parser
  {
    if p.stage == Unset then p.(stage := InitialLine, parsingContent := false) else p
  }

  // What a call of `parse` leaves: its answer, the parser, and the bytes not taken from the buffer.
  datatype Outcome = Outcome(answer: Answer, parser: Parser, rest: seq<byte>)

  // The loop of `parse`, with its local variable.
  function Loop(p: Parser, inContent: bool, text: seq<byte>): (o: Outcome)
    requires p.Valid() && p.stage != Unset
    ensures o.parser.Valid() && o.parser.stage != Unset && o.parser.kind == p.kind
    ensures |o.rest| <= |text| && (o.answer != Indeterminate ==> |o.rest| < |text|)
    decreases |text|
  {
    if text == [] then Outcome(Indeterminate, p, [])
    else
      var s := Dispatch(p, text[0]);
      if s.answer == True && !inContent && s.next.parsingContent then Loop(s.next, true, text[1..])
      else if s.answer == Indeterminate then Loop(s.next, inContent, text[1..])
      else Outcome(s.answer, s.next, text[1..])
  }

  function Parse(p: Parser, text: seq<byte>): (o: Outcome)
    requires p.Valid()
    ensures o.parser.Valid() && o.parser.kind == p.kind
    ensures |o.rest| <= |text| && (o.answer != Indeterminate ==> |o.rest| < |text|)
  {
    var q := Started(p);
    Loop(q, q.parsingContent, text)
  }
}
