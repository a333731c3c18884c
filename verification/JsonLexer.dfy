/**
 The scanner of the JSON parser on values: reading characters, and the state machine that
 turns them into tokens.
 */
module JsonLexer {
  import opened Utf8
  import opened Text
  import opened JsonElement

  // `Error` is an exception; `Beyond` marks input that leads out of this model: a number
  // with a fraction or an exponent, or an integer for which 64 bits are not enough.
  datatype Verdict<+T> = Ok(value: T) | Error | Beyond
  {
    predicate IsFailure() { !Ok? }
    function PropagateFailure<U>(): Verdict<U>
      requires IsFailure()
    {
      if Error? then Error else Beyond
    }
    function Extract(): T
      requires Ok?
    {
      value
    }
  }

  // What is left of the input, and the characters put back.
  datatype Source = Source(rest: seq<byte>, pushback: seq<unicode>)

  // ---- characters ----

  // The bytes that the first byte promises are there, and can follow it.
  predicate Whole(rest: seq<byte>)
    requires rest != []
  {
    var f := Following(rest[0]);
    f < |rest| && forall i :: 1 <= i <= f ==> Continuation(rest[i])
  }

  // `get_next_unicode`: the end of the input reads as a zero byte.
  function NextUnicode(rest: seq<byte>): Verdict<(unicode, seq<byte>)>
  {
    if rest == [] then Ok((0, []))
    else
      var f := Following(rest[0]);
      if !Whole(rest) then Error
      else
        var u := Decode(rest);
        if f == 3 && u > 0x10FFFF then Error else Ok((u, rest[1 + f..]))
  }

  // `get_next_char`, apart from what it adds to the token.
  function NextChar(src: Source): Verdict<(unicode, Source)>
    decreases |src.rest|, |src.pushback|
  {
    var n := |src.pushback|;
    if n > 0 then Ok((src.pushback[n - 1], src.(pushback := src.pushback[..n - 1])))
    else
      var (u, rest) :- NextUnicode(src.rest);
      if u < 0x80 then Ok((u, Source(rest, [])))
      else if u == 0xFFFF || u == 0xFFFE then Error
      else if 0xD800 <= u <= 0xDBFF then
        var (u2, src2) :- NextChar(Source(rest, []));
        if 0xDC00 <= u2 <= 0xDFFF then Ok(((u - 0xD800) * 0x400 + (u2 - 0xDC00) + 0x1_0000, src2)) else Error
      else if 0xDC00 <= u <= 0xDFFF then Error
      else Ok((u, Source(rest, [])))
  }

  // The number of characters that can still be read before the end.
  function Left(src: Source): nat
  {
    |src.rest| + NonZero(src.pushback)
  }

  function NonZero(s: seq<unicode>): nat
  {
    if s == [] then 0 else NonZero(s[..|s| - 1]) + if s[|s| - 1] == 0 then 0 else 1
  }

  // ---- tokens ----

  datatype Token =
    | Undef | Eof | LeftBrace | RightBrace | LeftBracket | RightBracket | Comma | Colon
    | String | Integer | True | False | NullToken

  datatype Mode = Start | Negative | Zero | Number | Literal | InString | AfterBackslash | Hex(digits: nat)

  // The local variables of `get_next_token` with `m_token` and `m_token_int`.
  datatype Lexer = Lexer(mode: Mode, token: Token, text: seq<byte>, number: int, negative: bool, hx: unicode)

  // Where one character leads: `retract` asks for the character to be put back.
  datatype Step = Step(lexer: Lexer, retract: bool)

  const INT_MAX := 0x7FFF_FFFF_FFFF_FFFF

  predicate IsAlpha(ch: unicode)
  {
    'a' as int <= ch <= 'z' as int || 'A' as int <= ch <= 'Z' as int
  }

  function Begin(number: int): Lexer
  {
    Lexer(Start, Undef, [], number, false, 0)
  }

  // One turn of the loop: `ch` has just been added to the text of the token.
  function OnChar(l: Lexer, ch: unicode): Verdict<Step>
  {
    var text := l.text + Encode(ch);
    match l.mode
    case Start => OnStart(l, ch)
    case Negative =>
      if ch == '0' as int then Ok(Step(l.(mode := Zero, text := text, negative := true), false))
      else if IsDigit(ch) then
        Ok(Step(l.(mode := Number, text := text, number := ch - '0' as int, negative := true), false))
      else Error
    case Zero =>
      if IsDigit(ch) then Error
      else if ch == '.' as int then Beyond
      else Ok(Step(l.(number := 0, token := Integer), true))
    case Number =>
      if IsDigit(ch) then
        var n := 10 * l.number + (ch - '0' as int);
        if n > INT_MAX then Beyond else Ok(Step(l.(text := text, number := n), false))
      else if ch == '.' as int || ch == 'e' as int || ch == 'E' as int then Beyond
      else Ok(Step(l.(token := Integer, number := if l.negative then -l.number else l.number), true))
    case Literal =>
      if IsAlpha(ch) then Ok(Step(l.(text := text), false))
      else if l.text == Ascii("true") then Ok(Step(l.(token := True), true))
      else if l.text == Ascii("false") then Ok(Step(l.(token := False), true))
      else if l.text == Ascii("null") then Ok(Step(l.(token := NullToken), true))
      else Error
    case InString =>
      if ch == '\"' as int then Ok(Step(l.(token := String), false))
      else if ch == 0 then Error
      else if ch == '\\' as int then Ok(Step(l.(mode := AfterBackslash), false))
      else Ok(Step(l.(text := text), false))
    case AfterBackslash => OnEscape(l, ch)
    case Hex(k) => OnHex(l, k, ch)
  }

  function OnStart(l: Lexer, ch: unicode): Verdict<Step>
  {
    var text := l.text + Encode(ch);
    var t := Punctuation(ch);
    if t != Undef then Ok(Step(l.(token := t, text := text), false))
    else if ch == ' ' as int || ch == '\n' as int || ch == '\r' as int || ch == '\t' as int then
      Ok(Step(l.(text := []), false))
    else if ch == '\"' as int then Ok(Step(l.(mode := InString), false))
    else if ch == '-' as int then Ok(Step(l.(mode := Negative, text := text), false))
    else if ch == '0' as int then Ok(Step(l.(mode := Zero, text := text, number := 0), false))
    else if IsDigit(ch) then Ok(Step(l.(mode := Number, text := text, number := ch - '0' as int), false))
    else if IsAlpha(ch) then Ok(Step(l.(mode := Literal, text := text), false))
    else Error
  }

  function Punctuation(ch: unicode): Token
  {
    if ch == 0 then Eof
    else if ch == '{' as int then LeftBrace
    else if ch == '}' as int then RightBrace
    else if ch == '[' as int then LeftBracket
    else if ch == ']' as int then RightBracket
    else if ch == ',' as int then Comma
    else if ch == ':' as int then Colon
    else Undef
  }

  function OnEscape(l: Lexer, ch: unicode): Verdict<Step>
  {
    if ch == 'u' as int then Ok(Step(l.(mode := Hex(1)), false))
    else
      var c := Unescaped(ch);
      if c == 0 then Error else Ok(Step(l.(mode := InString, text := l.text + [c]), false))
  }

  // The byte a one-letter escape stands for, or 0.
  function Unescaped(ch: unicode): byte
  {
    if ch == '\"' as int || ch == '\\' as int || ch == '/' as int then ch
    else if ch == 'n' as int then '\n' as int
    else if ch == 't' as int then '\t' as int
    else if ch == 'r' as int then '\r' as int
    else if ch == 'f' as int then 12
    else if ch == 'b' as int then 8
    else 0
  }

  // The first test of the source lets every character up to '9' through; the subtraction and
  // the sum wrap around in 32 bits.
  function OnHex(l: Lexer, k: nat, ch: unicode): Verdict<Step>
  {
    var hx := if k == 1 then 0 else l.hx;
    var d := HexValue(ch);
    if d == -1 then Error
    else
      var h := (16 * hx + d) % 0x1_0000_0000;
      if k < 4 then Ok(Step(l.(mode := Hex(k + 1), hx := h), false))
      else Ok(Step(l.(mode := InString, hx := h, text := l.text + Encode(h)), false))
  }

  function HexValue(ch: unicode): int
  {
    if ch <= '9' as int then (ch - '0' as int) % 0x1_0000_0000
    else if 'a' as int <= ch <= 'f' as int then 10 + ch - 'a' as int
    else if 'A' as int <= ch <= 'F' as int then 10 + ch - 'A' as int
    else -1
  }

  // How long the machine can go on without using up input.
  function Rank(m: Mode): nat
  {
    match m
    case Hex(k) => if k < 5 then 6 - k else 1
    case _ => 0
  }

  // A turn that does not finish the token puts nothing back, and cannot go on like that at
  // the end of the input.
  lemma GoesOn(l: Lexer, ch: unicode)
    requires l.token == Undef && OnChar(l, ch).Ok? && OnChar(l, ch).value.lexer.token == Undef
    ensures !OnChar(l, ch).value.retract
    ensures ch == 0 ==> Rank(OnChar(l, ch).value.lexer.mode) < Rank(l.mode)
  {
    hide Encode, Ascii;
  }

  lemma NextCharLeft(src: Source)
    ensures var r := NextChar(src);
      r.Ok? ==> Left(r.value.1) + (if r.value.0 == 0 then 0 else 1) <= Left(src)
  {
  }

  // The loop of `get_next_token`.
  function Run(l: Lexer, src: Source): Verdict<(Lexer, Source)>
    requires l.token == Undef
    decreases Left(src), Rank(l.mode)
  {
    var (ch, next) :- NextChar(src);
    var step :- OnChar(l, ch);
    if step.lexer.token != Undef then
      Ok((step.lexer, if step.retract then next.(pushback := next.pushback + [ch]) else next))
    else
      NextCharLeft(src);
      GoesOn(l, ch);
      Run(step.lexer, next)
  }
}
