/**
 JSON texts in every form of RFC 8259 that the parser covers: white space between the tokens, every
 spelling of the characters of a string, and members in any order.
 */
module JsonForms {
  import opened Utf8
  import opened Sequences
  import opened Text
  import opened Numerals
  import opened JsonElement
  import opened JsonLexer
  import opened JsonParser
  import opened JsonTokens
  import JsonRoundTrip

  // ---- white space ----

  // Space, tab, line feed and carriage return (section 2).
  predicate AllWhite(w: seq<byte>)
  {
    forall i :: 0 <= i < |w| ==> w[i] == 0x20 || w[i] == 0x09 || w[i] == 0x0A || w[i] == 0x0D
  }

  /** White space before a token changes nothing. */
  lemma {:induction false} WhiteSkipped(n: int, w: seq<byte>, r: seq<byte>)
    requires AllWhite(w)
    ensures Run(Begin(n), Source(w + r, [])) == Run(Begin(n), Source(r, []))
    decreases |w|
  {
    if w == [] {
      Unit(r);
    } else {
      FirstOf(w, r);
      ReadAscii(w[0], w[1..] + r);
      assert OnChar(Begin(n), w[0]) == Ok(Step(Begin(n), false));
      hide NextChar, OnChar;
      Turn(Begin(n), Source(w + r, []), w[0], Source(w[1..] + r, []), Begin(n));
      hide Run;
      WhiteSkipped(n, w[1..], r);
    }
  }

  // ---- the spellings of a character (section 7) ----

  // The letter behind a backslash and the character it stands for.
  const SHORT: seq<(byte, byte)> := [(34, 34), (92, 92), (47, 47), (98, 8), (102, 12), (110, 10), (114, 13), (116, 9)]

  datatype Spelling =
    | Raw(u: unicode)                      // as it is, in UTF-8; the parser takes control characters too
    | Short(i: nat)                        // a backslash and a letter
    | Code(digits: seq<byte>, u: unicode)  // `\u` and four hexadecimal digits in either letter case

  predicate Proper(x: Spelling)
  {
    match x
    case Raw(u) => Readable(u) && u != 0 && u != 34 && u != 92
    case Short(i) => i < |SHORT|
    case Code(digits, u) => |digits| == 4 && Spells(digits, 16, u)
  }

  function Spelled(x: Spelling): seq<byte>
    requires Proper(x)
  {
    match x
    case Raw(u) => Encode(u)
    case Short(i) => [92, SHORT[i].0]
    case Code(digits, _) => [92, 117] + digits
  }

  function Meant(x: Spelling): unicode
    requires Proper(x)
  {
    match x
    case Raw(u) => u
    case Short(i) => SHORT[i].1
    case Code(_, u) => u
  }

  lemma ShortRead(i: nat)
    requires i < |SHORT|
    ensures SHORT[i].0 != 117 && SHORT[i].0 < 0x80 && 0 < SHORT[i].1 < 0x80 && Unescaped(SHORT[i].0) == SHORT[i].1
  {
    assert i in {0, 1, 2, 3, 4, 5, 6, 7};
  }

  lemma HexRead(c: byte, v: nat)
    requires IsDigitFor(c, v, 16)
    ensures HexValue(c) == v && c < 0x80
  {
    DigitCodes(c, v, 16);
    hide IsDigitFor;
  }

  // Four digits are read one after the other.
  lemma FourDigits(s: seq<byte>, u: nat) returns (a: nat, b: nat, c: nat, d: nat)
    requires |s| == 4 && Spells(s, 16, u)
    ensures IsDigitFor(s[0], a, 16) && IsDigitFor(s[1], b, 16) && IsDigitFor(s[2], c, 16) && IsDigitFor(s[3], d, 16)
    ensures u == 16 * (16 * (16 * a + b) + c) + d
  {
    var t := s[..3];
    a, b, c, d := u / 16 / 16 / 16, u / 16 / 16 % 16, u / 16 % 16, u % 16;
    assert Spells(t, 16, u / 16) && Spells(t[..2], 16, u / 16 / 16) && Spells(t[..2][..1], 16, u / 16 / 16 / 16);
    assert a < 16 && a % 16 == a;
    hide IsDigitFor;
  }

  // One digit that is not the last.
  lemma DigitRead(l: Lexer, k: nat, c: byte, v: nat, h: unicode, r: seq<byte>)
    requires l.mode == Hex(k) && 1 <= k < 4 && l.token == Undef && IsDigitFor(c, v, 16)
    requires h == 16 * (if k == 1 then 0 else l.hx) + v
    ensures Run(l, Source([c] + r, [])) == Run(l.(mode := Hex(k + 1), hx := h), Source(r, []))
  {
    HexRead(c, v);
    ReadAscii(c, r);
    assert h % 0x1_0000_0000 == h;
    var l' := l.(mode := Hex(k + 1), hx := h);
    assert OnChar(l, c) == Ok(Step(l', false));
    hide NextChar, OnChar, HexValue, IsDigitFor;
    Turn(l, Source([c] + r, []), c, Source(r, []), l');
  }

  lemma LastDigitRead(l: Lexer, c: byte, v: nat, h: unicode, r: seq<byte>)
    requires l.mode == Hex(4) && l.token == Undef && IsDigitFor(c, v, 16) && h == 16 * l.hx + v
    ensures Run(l, Source([c] + r, []))
         == Run(l.(mode := InString, text := l.text + Encode(h), hx := h), Source(r, []))
  {
    HexRead(c, v);
    ReadAscii(c, r);
    assert h % 0x1_0000_0000 == h;
    var l' := l.(mode := InString, text := l.text + Encode(h), hx := h);
    assert OnChar(l, c) == Ok(Step(l', false));
    hide NextChar, OnChar, HexValue, IsDigitFor, Encode;
    Turn(l, Source([c] + r, []), c, Source(r, []), l');
  }

  lemma CodeRead(l: Lexer, s: seq<byte>, u: unicode, r: seq<byte>)
    requires l.mode == InString && l.token == Undef && |s| == 4 && Spells(s, 16, u)
    ensures Run(l, Source([92, 117] + s + r, [])) == Run(l.(text := l.text + Encode(u), hx := u), Source(r, []))
  {
    var digits := [s[0]] + ([s[1]] + ([s[2]] + ([s[3]] + r)));
    CodeParts(s, r);
    hide *;
    RunBackslash(l, [117] + digits);
    RunLetterU(l.(mode := AfterBackslash), digits);
    DigitsRead(l.(mode := AfterBackslash).(mode := Hex(1)), s, u, r);
    assert l.(mode := AfterBackslash).(mode := Hex(1)).(mode := InString, text := l.text + Encode(u), hx := u)
        == l.(text := l.text + Encode(u), hx := u);
  }

  lemma DigitsRead(l: Lexer, s: seq<byte>, u: unicode, r: seq<byte>)
    requires l.mode == Hex(1) && l.token == Undef && |s| == 4 && Spells(s, 16, u)
    ensures Run(l, Source([s[0]] + ([s[1]] + ([s[2]] + ([s[3]] + r))), []))
         == Run(l.(mode := InString, text := l.text + Encode(u), hx := u), Source(r, []))
  {
    hide *;
    var a, b, c, d := FourDigits(s, u);
    var r3 := [s[3]] + r;
    var r2 := [s[2]] + r3;
    var l2, l3, l4 := l.(mode := Hex(2), hx := a), l.(mode := Hex(3), hx := 16 * a + b),
                      l.(mode := Hex(4), hx := 16 * (16 * a + b) + c);
    DigitRead(l, 1, s[0], a, a, [s[1]] + r2);
    DigitRead(l2, 2, s[1], b, 16 * a + b, r2);
    DigitRead(l3, 3, s[2], c, 16 * (16 * a + b) + c, r3);
    LastDigitRead(l4, s[3], d, u, r);
  }

  lemma CodeParts(s: seq<byte>, r: seq<byte>)
    requires |s| == 4
    ensures [92, 117] + s + r == [92] + ([117] + ([s[0]] + ([s[1]] + ([s[2]] + ([s[3]] + r)))))
  {
  }

  // A character in any of its spellings.
  lemma SpellingRead(l: Lexer, x: Spelling, r: seq<byte>) returns (hx: unicode)
    requires l.mode == InString && l.token == Undef && Proper(x)
    ensures Run(l, Source(Spelled(x) + r, [])) == Run(l.(text := l.text + Encode(Meant(x)), hx := hx), Source(r, []))
  {
    hx := l.hx;
    match x
    case Raw(u) =>
      RunPlain(l, u, r);
    case Short(i) =>
      ShortRead(i);
      FirstByte(SHORT[i].1);
      RunShort(l, SHORT[i].0, SHORT[i].1, r);
    case Code(digits, u) =>
      CodeRead(l, digits, u, r);
      hx := u;
  }

  predicate AllProper(xs: seq<Spelling>)
  {
    forall x <- xs :: Proper(x)
  }

  function SpelledAll(xs: seq<Spelling>): seq<byte>
    requires AllProper(xs)
  {
    if xs == [] then [] else Spelled(xs[0]) + SpelledAll(xs[1..])
  }

  // The characters that are meant, in UTF-8.
  function MeantAll(xs: seq<Spelling>): seq<byte>
    requires AllProper(xs)
  {
    if xs == [] then [] else Encode(Meant(xs[0])) + MeantAll(xs[1..])
  }

  lemma {:induction false} SpellingsRead(l: Lexer, xs: seq<Spelling>, r: seq<byte>) returns (hx: unicode)
    requires l.mode == InString && l.token == Undef && AllProper(xs)
    ensures Run(l, Source(SpelledAll(xs) + ([34] + r), []))
         == Ok((l.(text := l.text + MeantAll(xs), hx := hx, token := String), Source(r, [])))
    decreases |xs|
  {
    var q := [34] + r;
    if xs == [] {
      Unit(q);
      Unit(l.text);
      RunQuote(l, r);
      hx := l.hx;
    } else {
      Associate(Spelled(xs[0]), SpelledAll(xs[1..]), q);
      Associate(l.text, Encode(Meant(xs[0])), MeantAll(xs[1..]));
      hide Run, Encode, Spelled, Proper, Meant;
      hx := SpellingRead(l, xs[0], SpelledAll(xs[1..]) + q);
      hx := SpellingsRead(l.(text := l.text + Encode(Meant(xs[0])), hx := hx), xs[1..], r);
    }
  }

  // ---- tokens ----

  // The text of a token, its kind, and the characters of a string or the value of an integer.
  datatype Lexeme = Lexeme(bytes: seq<byte>, kind: Token, text: seq<byte>, number: int)

  function Mark(c: byte): Lexeme
  {
    Lexeme([c], Punctuation(c), [], 0)
  }

  const NULL_WORD := Lexeme(Ascii("null"), NullToken, [], 0)
  const TRUE_WORD := Lexeme(Ascii("true"), True, [], 0)
  const FALSE_WORD := Lexeme(Ascii("false"), False, [], 0)

  function Numeral(k: int): Lexeme
  {
    Lexeme(PrintInt(k), Integer, [], k)
  }

  const MINUS_ZERO := Lexeme([45, 48], Integer, [], 0)

  function StringOf(xs: seq<Spelling>): Lexeme
    requires AllProper(xs)
  {
    Lexeme([34] + (SpelledAll(xs) + [34]), String, MeantAll(xs), 0)
  }

  // A text that stands for a string.
  ghost predicate WrittenString(t: Lexeme)
  {
    exists xs :: AllProper(xs) && t == StringOf(xs)
  }

  // A text that stands for a value of one token.
  ghost predicate WrittenScalar(t: Lexeme)
  {
    || t == NULL_WORD || t == TRUE_WORD || t == FALSE_WORD || t == MINUS_ZERO || WrittenString(t)
    || exists k :: -0x7FFF_FFFF_FFFF_FFFF <= k <= 0x7FFF_FFFF_FFFF_FFFF && t == Numeral(k)
  }

  // Words and numbers end where something stands that cannot belong to them.
  predicate NeedsStop(t: Lexeme)
  {
    t.kind in {True, False, NullToken, Integer}
  }

  // The scanner reads the token before any rest that may follow it.
  ghost predicate IsLexeme(t: Lexeme)
  {
    && t.kind != Undef && t.kind != Eof && t.bytes != []
    && forall n, r :: (NeedsStop(t) ==> Stops(r)) ==> ReadTo(t, n, r, Run(Begin(n), Source(t.bytes + r, [])))
  }

  // `q` is the token, with the rest `r` left.
  predicate ReadTo(t: Lexeme, n: int, r: seq<byte>, q: Verdict<(Lexer, Source)>)
  {
    && q.Ok? && q.value.0.token == t.kind && (t.kind == String ==> q.value.0.text == t.text)
    && q.value.0.number == (if t.kind == Integer then t.number else n)
    && (q.value.1 == Source(r, []) || (NeedsStop(t) && q.value.1 == PutBackHead(r)))
  }

  lemma LexemeRead(t: Lexeme, n: int, r: seq<byte>) returns (after: Source)
    requires IsLexeme(t) && (NeedsStop(t) ==> Stops(r))
    ensures var q := Run(Begin(n), Source(t.bytes + r, []));
      q.Ok? && q.value.0.token == t.kind && (t.kind == String ==> q.value.0.text == t.text)
      && q.value.0.number == (if t.kind == Integer then t.number else n) && after == q.value.1
    ensures after == Source(r, []) || (NeedsStop(t) && after == PutBackHead(r))
  {
    var q := Run(Begin(n), Source(t.bytes + r, []));
    assert ReadTo(t, n, r, q) by {
      hide ReadTo, Run, Begin, Stops;
    }
    hide Run, Begin, Stops, IsLexeme, PutBackHead;
    after := q.value.1;
  }

  lemma MarkIsLexeme(c: byte)
    requires c in {'{' as int, '}' as int, '[' as int, ']' as int, ',' as int, ':' as int}
    ensures IsLexeme(Mark(c)) && !NeedsStop(Mark(c))
  {
    forall n, r
      ensures ReadTo(Mark(c), n, r, Run(Begin(n), Source([c] + r, [])))
    {
      MarkRead(c, n, r);
    }
    hide Run, ReadTo, Stops;
  }

  lemma MarkRead(c: byte, n: int, r: seq<byte>)
    requires c in {'{' as int, '}' as int, '[' as int, ']' as int, ',' as int, ':' as int}
    ensures ReadTo(Mark(c), n, r, Run(Begin(n), Source([c] + r, [])))
  {
    FirstByte(c);
    ReadAscii(c, r);
    var l' := Begin(n).(token := Punctuation(c), text := [c]);
    assert OnChar(Begin(n), c) == Ok(Step(l', false));
    hide NextChar, OnChar, Run;
    LastTurn(Begin(n), Source([c] + r, []), c, Source(r, []), l', false);
  }

  lemma WordIsLexeme(w: seq<byte>, kind: Token)
    requires w != [] && Word(w) && kind == WordToken(w) != Undef
    ensures IsLexeme(Lexeme(w, kind, [], 0))
  {
    var t := Lexeme(w, kind, [], 0);
    forall n, r | Stops(r)
      ensures ReadTo(t, n, r, Run(Begin(n), Source(w + r, [])))
    {
      RunLiteral(w, r, n);
      hide Run, Word, Stops;
    }
    hide Run, Word, ReadTo, Stops;
  }

  lemma NumeralIsLexeme(k: int)
    requires -INT_MAX <= k <= INT_MAX
    ensures IsLexeme(Numeral(k))
  {
    var t := Numeral(k);
    forall n, r | Stops(r)
      ensures var q := Run(Begin(n), Source(t.bytes + r, []));
        q.Ok? && q.value.0.token == Integer && q.value.0.number == k && q.value.1 == PutBackHead(r)
    {
      hide Run, PrintInt;
      RunInteger(k, r, n);
    }
    NotEmpty(k);
    hide Run, PrintInt;
  }

  lemma NotEmpty(k: int)
    ensures PrintInt(k) != []
  {
    DigitsValue(if k < 0 then -k else k);
  }

  lemma MinusZeroIsLexeme()
    ensures IsLexeme(MINUS_ZERO)
  {
    forall n, r | Stops(r)
      ensures var q := Run(Begin(n), Source([45, 48] + r, []));
        q.Ok? && q.value.0.token == Integer && q.value.0.number == 0 && q.value.1 == PutBackHead(r)
    {
      hide Run;
      MinusZeroRead(n, r);
    }
    hide Run;
  }

  lemma MinusZeroRead(n: int, r: seq<byte>)
    requires Stops(r)
    ensures var q := Run(Begin(n), Source([45, 48] + r, []));
      q.Ok? && q.value.0.token == Integer && q.value.0.number == 0 && q.value.1 == PutBackHead(r)
  {
    assert [45, 48] == [45] + [48];
    Associate([45], [48], r);
    ReadAscii(45, [48] + r);
    ReadAscii(48, r);
    FirstByte(45);
    var l := Begin(n).(mode := Negative, text := [45]);
    var z := l.(mode := Zero, text := [45] + Encode(48), negative := true);
    var done := z.(number := 0, token := Integer);
    MinusZeroTurns(n, r);
    hide Run, OnChar, NextChar;
    Turn(Begin(n), Source([45, 48] + r, []), 45, Source([48] + r, []), l);
    Turn(l, Source([48] + r, []), 48, Source(r, []), z);
    TurnBack(z, r, done);
  }

  lemma MinusZeroTurns(n: int, r: seq<byte>)
    requires Stops(r)
    ensures var l := Begin(n).(mode := Negative, text := [45]);
      var z := l.(mode := Zero, text := [45] + Encode(48), negative := true);
      && OnChar(Begin(n), 45) == Ok(Step(l, false))
      && OnChar(l, 48) == Ok(Step(z, false))
      && OnChar(z, Head(r)) == Ok(Step(z.(number := 0, token := Integer), true))
  {
    FirstByte(45);
  }

  lemma StringIsLexeme(xs: seq<Spelling>)
    requires AllProper(xs)
    ensures IsLexeme(StringOf(xs))
  {
    var t := StringOf(xs);
    forall n, r
      ensures var q := Run(Begin(n), Source(t.bytes + r, []));
        q.Ok? && q.value.0.token == String && q.value.0.text == MeantAll(xs) && q.value.0.number == n
        && q.value.1 == Source(r, [])
    {
      var l := Begin(n).(mode := InString);
      QuotedParts(SpelledAll(xs), r);
      hide Run, SpelledAll, MeantAll, Proper;
      OpenQuote(SpelledAll(xs) + ([34] + r), n);
      var hx := SpellingsRead(l, xs, r);
      Unit(MeantAll(xs));
    }
    hide Run;
  }

  lemma QuotedParts(s: seq<byte>, r: seq<byte>)
    ensures [34] + (s + [34]) + r == [34] + (s + ([34] + r))
  {
    Associate([34], s + [34], r);
    Associate(s, [34], r);
  }

  lemma ScalarIsLexeme(t: Lexeme)
    requires WrittenScalar(t)
    ensures IsLexeme(t) && t.kind in {NullToken, True, False, Integer, String}
  {
    JsonRoundTrip.Words();
    if t == NULL_WORD {
      WordIsLexeme(t.bytes, NullToken);
    } else if t == TRUE_WORD {
      WordIsLexeme(t.bytes, True);
    } else if t == FALSE_WORD {
      WordIsLexeme(t.bytes, False);
    } else if t == MINUS_ZERO {
      MinusZeroIsLexeme();
    } else if WrittenString(t) {
      var xs :| AllProper(xs) && t == StringOf(xs);
      StringIsLexeme(xs);
    } else {
      var k :| -INT_MAX <= k <= INT_MAX && t == Numeral(k);
      NumeralIsLexeme(k);
    }
    hide IsLexeme;
  }
}
