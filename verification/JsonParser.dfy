/**
 The recursive-descent JSON parser: first on values, then as the object that reads its
 input byte by byte.
 */
module JsonParser {
  import opened Utf8
  import opened Text
  import opened JsonElement
  import opened JsonLexer

  // ---- objects as ordered maps ----

  // The order of `std::string`: byte by byte, a proper prefix first.
  predicate Less(a: seq<byte>, b: seq<byte>)
  {
    b != [] && (a == [] || a[0] < b[0] || (a[0] == b[0] && Less(a[1..], b[1..])))
  }

  // `std::map::emplace`: a key that is already present keeps its value.
  function Insert(ms: seq<Member>, m: Member): seq<Member>
  {
    if ms == [] || Less(m.key, ms[0].key) then [m] + ms
    else if Less(ms[0].key, m.key) then [ms[0]] + Insert(ms[1..], m)
    else ms
  }

  // `element::emplace` and `element::emplace_back` on an element that started as null.
  function Emplace(e: Element, m: Member): Element
  {
    Object(Insert(if e.Object? then e.members else [], m))
  }

  function EmplaceBack(e: Element, v: Element): Element
  {
    Array((if e.Array? then e.items else []) + [v])
  }

  // ---- the parser on values ----

  datatype Parser = Parser(src: Source, text: seq<byte>, number: int, lookahead: Token)

  // `m_lookahead = get_next_token()`
  function Advance(p: Parser): Verdict<Parser>
  {
    var (l, src) :- Run(Begin(p.number), p.src);
    Ok(Parser(src, l.text, l.number, l.token))
  }

  function Match(p: Parser, expected: Token): Verdict<Parser>
  {
    if p.lookahead != expected then Error else Advance(p)
  }

  // What the parser has left to use up.
  function Size(p: Parser): nat
  {
    Left(p.src) + if p.lookahead == Eof then 0 else 1
  }

  lemma PutBack(src: Source, ch: unicode)
    ensures Left(src.(pushback := src.pushback + [ch])) == Left(src) + if ch == 0 then 0 else 1
  {
    assert (src.pushback + [ch])[..|src.pushback|] == src.pushback;
  }

  lemma {:induction false} RunUsesInput(l: Lexer, src: Source)
    requires l.token == Undef && Run(l, src).Ok?
    ensures var (l', src') := Run(l, src).value;
      && l'.token != Undef && Left(src') <= Left(src)
      && (l.mode == Start && l'.token != Eof ==> Left(src') < Left(src))
    decreases Left(src), Rank(l.mode)
  {
    var (ch, next) := NextChar(src).value;
    var step := OnChar(l, ch).value;
    NextCharLeft(src);
    StartTurn(l, ch);
    hide OnChar, NextChar, Left, Rank;
    if step.lexer.token != Undef {
      PutBack(next, ch);
    } else {
      GoesOn(l, ch);
      RunUsesInput(step.lexer, next);
    }
  }

  // At the start of a token only the end of the input is not taken.
  lemma StartTurn(l: Lexer, ch: unicode)
    requires l.token == Undef && OnChar(l, ch).Ok?
    ensures var step := OnChar(l, ch).value;
      l.mode == Start && (ch == 0 || step.retract) ==> step.lexer.token == Eof
  {
    hide Encode;
  }

  lemma AdvanceShrinks(p: Parser)
    requires p.lookahead != Eof
    ensures Advance(p).Ok? ==> Size(Advance(p).value) < Size(p)
  {
    if Advance(p).Ok? {
      RunUsesInput(Begin(p.number), p.src);
    }
  }

  function ParseValue(p: Parser): (r: Verdict<(Element, Parser)>)
    ensures r.Ok? ==> Size(r.value.1) <= Size(p)
    ensures r.Ok? && p.lookahead != Eof ==> Size(r.value.1) < Size(p)
    decreases Size(p), 0
  {
    match p.lookahead
    case Eof => Ok((Null, p))
    case NullToken => ParseLiteral(p, Null)
    case False => ParseLiteral(p, Boolean(false))
    case True => ParseLiteral(p, Boolean(true))
    case Integer =>
      AdvanceShrinks(p);
      var q :- Match(p, Integer);
      Ok((Int(q.number), q))
    case LeftBrace =>
      AdvanceShrinks(p);
      var q :- Match(p, LeftBrace);
      var (e, q2) :- ParseObject(Null, q);
      AdvanceShrinks(q2.(lookahead := RightBrace));
      var q3 :- Match(q2, RightBrace);
      Ok((e, q3))
    case LeftBracket =>
      AdvanceShrinks(p);
      var q :- Match(p, LeftBracket);
      var (e, q2) :- ParseArray(Null, q);
      AdvanceShrinks(q2.(lookahead := RightBracket));
      var q3 :- Match(q2, RightBracket);
      Ok((e, q3))
    case String => ParseLiteral(p, Str(p.text))
    case _ => Error
  }

  function ParseLiteral(p: Parser, e: Element): (r: Verdict<(Element, Parser)>)
    requires p.lookahead != Eof
    ensures r.Ok? ==> Size(r.value.1) < Size(p)
  {
    AdvanceShrinks(p);
    var q :- Match(p, p.lookahead);
    Ok((e, q))
  }

  function ParseObject(e: Element, p: Parser): (r: Verdict<(Element, Parser)>)
    ensures r.Ok? ==> Size(r.value.1) <= Size(p)
    decreases Size(p), 1
  {
    if p.lookahead == RightBrace || p.lookahead == Eof then Ok((e, p))
    else
      AdvanceShrinks(p);
      var name := p.text;
      var q :- Match(p, String);
      AdvanceShrinks(q.(lookahead := Colon));
      var q2 :- Match(q, Colon);
      var (v, q3) :- ParseValue(q2);
      var e' := Emplace(e, Member(name, v));
      if q3.lookahead != Comma then Ok((e', q3))
      else
        AdvanceShrinks(q3);
        var q4 :- Match(q3, Comma);
        ParseObject(e', q4)
  }

  function ParseArray(e: Element, p: Parser): (r: Verdict<(Element, Parser)>)
    ensures r.Ok? ==> Size(r.value.1) <= Size(p)
    decreases Size(p), 1
  {
    if p.lookahead == RightBracket || p.lookahead == Eof then Ok((e, p))
    else
      var (v, q) :- ParseValue(p);
      var e' := EmplaceBack(e, v);
      if q.lookahead != Comma then Ok((e', q))
      else
        AdvanceShrinks(q);
        var q2 :- Match(q, Comma);
        ParseArray(e', q2)
  }

  // `parse_json` on a string.
  function Parse(input: seq<byte>): Verdict<Element>
  {
    var p :- Advance(Parser(Source(input, []), [], 0, Undef));
    var (e, q) :- ParseValue(p);
    if q.lookahead != Eof then Error else Ok(e)
  }
}
