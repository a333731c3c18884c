/**
 What each kind of token begins with.
 */
module JsonScanner {
  import opened Utf8
  import opened Sequences
  import opened Text
  import opened JsonElement
  import opened JsonLexer
  import opened JsonParser
  import opened JsonTokens

  // The first character that is not a space, a tab, a line feed or a carriage return.
  function Ahead(src: Source): Verdict<(unicode, Source)>
    decreases JsonLexer.Left(src)
  {
    var (ch, next) :- NextChar(src);
    NextCharLeft(src);
    if ch in {0x20, 0x09, 0x0A, 0x0D} then Ahead(next) else Ok((ch, next))
  }

  // The kinds of tokens by the codes of their first characters.
  predicate Begins(ch: unicode, t: Token)
  {
    && (t == Eof <==> ch == 0)
    && (t == LeftBrace <==> ch == 123) && (t == RightBrace <==> ch == 125)
    && (t == LeftBracket <==> ch == 91) && (t == RightBracket <==> ch == 93)
    && (t == Comma <==> ch == 44) && (t == Colon <==> ch == 58) && (t == String <==> ch == 34)
    && (t == Integer <==> ch == 45 || 48 <= ch <= 57)
    && (t in {True, False, NullToken} <==> 65 <= ch <= 90 || 97 <= ch <= 122)
  }

  // The kind of token that each mode ends in.
  predicate Leads(m: Mode, t: Token)
  {
    match m
    case Start => true
    case Negative | Zero | Number => t == Integer
    case Literal => t in {True, False, NullToken}
    case _ => t == String
  }

  predicate WordOf(t: Token, text: seq<byte>)
  {
    && (t == True ==> text == [116, 114, 117, 101])
    && (t == False ==> text == [102, 97, 108, 115, 101])
    && (t == NullToken ==> text == [110, 117, 108, 108])
  }

  lemma LaterTurn(l: Lexer, ch: unicode)
    requires l.token == Undef && l.mode != Start && OnChar(l, ch).Ok?
    ensures var l' := OnChar(l, ch).value.lexer;
      if l'.token == Undef then l'.mode != Start && forall t :: Leads(l'.mode, t) ==> Leads(l.mode, t)
      else Leads(l.mode, l'.token) && WordOf(l'.token, l'.text)
  {
    WordBytes();
    hide Encode, Ascii;
  }

  lemma WordBytes()
    ensures Ascii("true") == [116, 114, 117, 101] && Ascii("false") == [102, 97, 108, 115, 101]
    ensures Ascii("null") == [110, 117, 108, 108]
  {
  }

  lemma {:induction false} LaterRun(l: Lexer, src: Source)
    requires l.token == Undef && l.mode != Start && Run(l, src).Ok?
    ensures var t := Run(l, src).value.0; Leads(l.mode, t.token) && WordOf(t.token, t.text)
    decreases JsonLexer.Left(src), Rank(l.mode)
  {
    var (ch, next) := NextChar(src).value;
    LaterTurn(l, ch);
    NextCharLeft(src);
    hide OnChar, NextChar, JsonLexer.Left, Rank, WordOf, Leads;
    var step := OnChar(l, ch).value;
    if step.lexer.token == Undef {
      GoesOn(l, ch);
      LaterRun(step.lexer, next);
    }
  }

  lemma FirstTurn(l: Lexer, ch: unicode)
    requires l.token == Undef && l.mode == Start && OnChar(l, ch).Ok?
    ensures var (l', back) := (OnChar(l, ch).value.lexer, OnChar(l, ch).value.retract);
      && !back
      && if l'.token != Undef then Begins(ch, l'.token) && l'.token !in {String, Integer, True, False, NullToken}
         else if l'.mode == Start then ch in {0x20, 0x09, 0x0A, 0x0D} && l' == l.(text := [])
         else ch !in {0x20, 0x09, 0x0A, 0x0D} && forall t :: t != Undef && Leads(l'.mode, t) ==> Begins(ch, t)
  {
    hide Encode;
  }

  /**
   A token begins with the first character that is not white space, and has the kind of that character;
   a word is one of three; and a token of one character ends with it.
   */
  lemma {:induction false} KindOfToken(l: Lexer, src: Source)
    requires l.token == Undef && l.mode == Start && Run(l, src).Ok?
    ensures var (t, after) := Run(l, src).value;
      && Ahead(src).Ok? && t.token != Undef && Begins(Ahead(src).value.0, t.token) && WordOf(t.token, t.text)
      && (t.token !in {String, Integer, True, False, NullToken} ==> after == Ahead(src).value.1)
    decreases JsonLexer.Left(src)
  {
    var (ch, next) := NextChar(src).value;
    FirstTurn(l, ch);
    NextCharLeft(src);
    RunUsesInput(l, src);
    hide OnChar, NextChar, JsonLexer.Left, Begins, Rank;
    var step := OnChar(l, ch).value;
    if step.lexer.token == Undef {
      if step.lexer.mode == Start {
        KindOfToken(step.lexer, next);
      } else {
        LaterRun(step.lexer, next);
      }
    }
  }

  // ---- characters ----

  predicate Trail(t: seq<byte>, k: nat)
  {
    k <= |t| && forall i :: 0 <= i < k ==> 128 <= t[i] < 192
  }

  /**
   The bytes of a character: a leading byte with the trail it asks for, whatever the character is, or a byte
   that leads nothing and stands for itself.
   */
  lemma CharacterRead(b: byte, t: seq<byte>)
    ensures NextUnicode([]) == Ok((0, []))
    ensures b < 192 || 248 <= b ==> NextUnicode([b] + t) == Ok((b, t))
    ensures 192 <= b < 224 ==>
      NextUnicode([b] + t) == if Trail(t, 1) then Ok(((b - 192) * 64 + (t[0] - 128), t[1..])) else Error
    ensures 224 <= b < 240 ==>
      NextUnicode([b] + t)
      == if Trail(t, 2) then Ok((((b - 224) * 64 + (t[0] - 128)) * 64 + (t[1] - 128), t[2..])) else Error
    ensures 240 <= b < 248 ==>
      NextUnicode([b] + t)
      == if !Trail(t, 3) then Error
         else
           var u := (((b - 240) * 64 + (t[0] - 128)) * 64 + (t[1] - 128)) * 64 + (t[2] - 128);
           if u > 0x10FFFF then Error else Ok((u, t[3..]))
  {
    var s := [b] + t;
    var f := Following(b);
    WholeIs(b, t);
    assert f <= |t| ==> s[1 + f..] == t[f..] && s[1..1 + f] == t[..f];
    if Trail(t, f) {
      Assembled(b, t);
    }
    hide Whole, Assemble;
  }

  lemma Assembled(b: byte, t: seq<byte>)
    requires Trail(t, Following(b))
    ensures b < 192 || 248 <= b ==> Assemble(b, t[..0]) == b
    ensures 192 <= b < 224 ==> Assemble(b, t[..1]) == (b - 192) * 64 + (t[0] - 128)
    ensures 224 <= b < 240 ==> Assemble(b, t[..2]) == ((b - 224) * 64 + (t[0] - 128)) * 64 + (t[1] - 128)
    ensures 240 <= b < 248 ==>
      Assemble(b, t[..3]) == (((b - 240) * 64 + (t[0] - 128)) * 64 + (t[1] - 128)) * 64 + (t[2] - 128)
  {
    TrailBits(t);
    if 192 <= b < 224 {
      assert b % 0x20 == b - 192;
    } else if 224 <= b < 240 {
      assert b % 0x10 == b - 224;
    } else if 240 <= b < 248 {
      assert b % 0x08 == b - 240;
    }
  }

  lemma TrailBits(t: seq<byte>)
    ensures forall i :: 0 <= i < |t| && 128 <= t[i] < 192 ==> t[i] % 0x40 == t[i] - 128
  {
  }

  lemma WholeIs(b: byte, t: seq<byte>)
    ensures Whole([b] + t) <==> Trail(t, Following(b))
  {
    var s := [b] + t;
    var f := Following(b);
    assert forall i :: 0 <= i < |t| ==> s[i + 1] == t[i];
    if Whole(s) {
      forall i | 0 <= i < f ensures 128 <= t[i] < 192 {
        assert Continuation(s[i + 1]);
      }
    }
    if Trail(t, f) {
      forall i | 1 <= i <= f ensures Continuation(s[i]) {
        assert s[i] == t[i - 1];
      }
    }
  }

  // ---- numbers that are refused ----

  /** A zero before another digit is refused, with or without a sign. */
  lemma LeadingZero(n: int, minus: bool, d: byte, r: seq<byte>)
    requires 48 <= d <= 57
    ensures Run(Begin(n), Source((if minus then [45] else []) + ([48] + ([d] + r)), [])) == Error
  {
    var s := [48] + ([d] + r);
    hide Run;
    if minus {
      SignRead(n, s);
      ZeroRefused(Begin(n).(mode := Negative, text := [45]), d, r);
    } else {
      Unit(s);
      ZeroRefused(Begin(n), d, r);
    }
  }

  lemma SignRead(n: int, r: seq<byte>)
    ensures Run(Begin(n), Source([45] + r, [])) == Run(Begin(n).(mode := Negative, text := [45]), Source(r, []))
  {
    ReadAscii(45, r);
    FirstByte(45);
    hide Encode;
    Turn(Begin(n), Source([45] + r, []), 45, Source(r, []), Begin(n).(mode := Negative, text := [45]));
  }

  lemma ZeroRefused(l: Lexer, d: byte, r: seq<byte>)
    requires l.token == Undef && (l.mode == Start || l.mode == Negative) && 48 <= d <= 57
    ensures Run(l, Source([48] + ([d] + r), [])) == Error
  {
    ReadAscii(48, [d] + r);
    ReadAscii(d, r);
    hide Encode, NextChar;
    assert OnChar(l, 48).Ok? && OnChar(l, 48).value.lexer.mode == Zero;
  }

  /** A sign that no digit follows is refused. */
  lemma SignAlone(n: int, r: seq<byte>)
    requires r == [] || (r[0] < 0x80 && !(48 <= r[0] <= 57))
    ensures Run(Begin(n), Source([45] + r, [])) == Error
  {
    SignRead(n, r);
    if r != [] {
      FirstOf(r, []);
      ReadAscii(r[0], r[1..]);
    }
    hide Encode;
  }

  lemma {:induction false} TooLong(l: Lexer, ds: seq<byte>, r: seq<byte>)
    requires l.mode == Number && l.token == Undef && 0 <= l.number < 0x8000_0000_0000_0000
    requires AllDigits(ds) && Accumulate(l.number, ds) >= 0x8000_0000_0000_0000
    ensures Run(l, Source(ds + r, [])) == Beyond
    decreases |ds|
  {
    FirstOf(ds, r);
    ReadAscii(ds[0], ds[1..] + r);
    var m := 10 * l.number + (ds[0] - '0' as int);
    hide NextChar, Encode;
    if m < 0x8000_0000_0000_0000 {
      var l' := l.(text := l.text + Encode(ds[0]), number := m);
      Turn(l, Source(ds + r, []), ds[0], Source(ds[1..] + r, []), l');
      hide Run;
      TooLong(l', ds[1..], r);
    }
  }

  /** A whole number that needs more than 64 bits leads out of the model. */
  lemma WideInteger(n: int, k: int, r: seq<byte>)
    requires k >= 0x8000_0000_0000_0000 || k <= -0x8000_0000_0000_0000
    ensures Run(Begin(n), Source(PrintInt(k) + r, [])) == Beyond
  {
    var ds := Digits(if k < 0 then -k else k);
    DigitsValue(if k < 0 then -k else k);
    if k < 0 {
      Associate([45], ds, r);
      SignRead(n, ds + r);
      WideNatural(Begin(n).(mode := Negative, text := [45]), ds, r);
    } else {
      WideNatural(Begin(n), ds, r);
    }
  }

  lemma DigitTurn(l: Lexer, d: byte) returns (l': Lexer)
    requires l.token == Undef && (l.mode == Start || l.mode == Negative) && 49 <= d <= 57
    ensures OnChar(l, d) == Ok(Step(l', false)) && l'.mode == Number && l'.token == Undef && l'.number == d - 48
  {
    hide Encode;
    l' := OnChar(l, d).value.lexer;
  }

  lemma WideNatural(l: Lexer, ds: seq<byte>, r: seq<byte>)
    requires l.token == Undef && (l.mode == Start || l.mode == Negative)
    requires AllDigits(ds) && ds != [] && ds[0] != '0' as int && Accumulate(0, ds) >= 0x8000_0000_0000_0000
    ensures Run(l, Source(ds + r, [])) == Beyond
  {
    FirstOf(ds, r);
    ReadAscii(ds[0], ds[1..] + r);
    hide NextChar, Run;
    var l' := DigitTurn(l, ds[0]);
    hide OnChar;
    Turn(l, Source(ds + r, []), ds[0], Source(ds[1..] + r, []), l');
    TooLong(l', ds[1..], r);
  }
}
