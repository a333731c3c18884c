/**
 The parser accepts exactly the token lists of a grammar, and gives them their meaning.
 */
module JsonGrammar {
  import opened Utf8
  import opened Sequences
  import opened JsonElement
  import opened JsonLexer
  import opened JsonParser
  import opened JsonForms

  // ---- the grammar ----

  // The parser takes a comma behind the last item or member too.
  datatype Form =
    | Leaf(t: Lexeme)
    | ArrayForm(items: seq<Form>, comma: bool)
    | ObjectForm(members: seq<MemberForm>, comma: bool)

  datatype MemberForm = MemberForm(key: Lexeme, value: Form)

  predicate Sound(f: Form)
  {
    match f
    case Leaf(t) => t.kind in {NullToken, True, False, Integer, String}
    case ArrayForm(fs, _) => forall g <- fs :: Sound(g)
    case ObjectForm(ms, _) => forall m <- ms :: m.key.kind == String && Sound(m.value)
  }

  // The tokens of the form, followed by `ts`.
  function Tokens(f: Form, ts: seq<Lexeme>): seq<Lexeme>
    decreases f
  {
    match f
    case Leaf(t) => [t] + ts
    case ArrayForm(fs, comma) => [Mark('[' as int)] + ItemTokens(fs, comma, [Mark(']' as int)] + ts)
    case ObjectForm(ms, comma) => [Mark('{' as int)] + MemberTokens(ms, comma, [Mark('}' as int)] + ts)
  }

  function ItemTokens(fs: seq<Form>, comma: bool, ts: seq<Lexeme>): seq<Lexeme>
    decreases fs
  {
    if fs == [] then ts
    else Tokens(fs[0], if |fs| == 1 && !comma then ts else [Mark(',' as int)] + ItemTokens(fs[1..], comma, ts))
  }

  function MemberTokens(ms: seq<MemberForm>, comma: bool, ts: seq<Lexeme>): seq<Lexeme>
    decreases ms
  {
    if ms == [] then ts
    else
      var more := if |ms| == 1 && !comma then ts else [Mark(',' as int)] + MemberTokens(ms[1..], comma, ts);
      TokensOf(ms[0], more)
  }

  // A key, a colon and a value.
  function TokensOf(m: MemberForm, ts: seq<Lexeme>): seq<Lexeme>
    decreases m
  {
    [m.key] + ([Mark(':' as int)] + Tokens(m.value, ts))
  }

  // The element that the form stands for.
  function Value(f: Form): Element
    requires Sound(f)
    decreases f
  {
    match f
    case Leaf(t) => ScalarOf(t)
    case ArrayForm(fs, _) => if fs == [] then Null else Array(Values(fs))
    case ObjectForm(ms, _) => WithMembers(Null, ms)
  }

  function ScalarOf(t: Lexeme): Element
  {
    match t.kind
    case True => Boolean(true)
    case False => Boolean(false)
    case Integer => Int(t.number)
    case String => Str(t.text)
    case _ => Null
  }

  function Values(fs: seq<Form>): seq<Element>
    requires forall g <- fs :: Sound(g)
    decreases fs
  {
    if fs == [] then [] else [Value(fs[0])] + Values(fs[1..])
  }

  // The members after those of `e`, one by one.
  function WithMembers(e: Element, ms: seq<MemberForm>): Element
    requires forall m <- ms :: Sound(m.value)
    decreases ms
  {
    if ms == [] then e else WithMembers(Emplace(e, MemberOf(ms[0])), ms[1..])
  }

  function MemberOf(m: MemberForm): Member
    requires Sound(m.value)
    decreases m
  {
    Member(m.key.text, Value(m.value))
  }

  // ---- scanning ----

  // The token the parser looks at.
  predicate Shows(p: Parser, t: Lexeme)
  {
    && p.lookahead == t.kind && (t.kind == String ==> p.text == t.text)
    && (t.kind == Integer ==> p.number == t.number)
  }

  // The parser moves from `p` over the tokens to `r`.
  predicate Passes(p: Parser, ts: seq<Lexeme>, r: Parser)
    decreases |ts|
  {
    if ts == [] then p == r
    else Shows(p, ts[0]) && ts[0].kind != Eof && Advance(p).Ok? && Passes(Advance(p).value, ts[1..], r)
  }

  // The scanner finds the tokens in the text, and then its end.
  ghost predicate Scans(s: seq<byte>, ts: seq<Lexeme>)
  {
    var p := Advance(Parser(Source(s, []), [], 0, Undef));
    p.Ok? && exists r :: Passes(p.value, ts, r) && r.lookahead == Eof
  }

  lemma PassesFirst(p: Parser, t: Lexeme, ts: seq<Lexeme>, r: Parser)
    ensures Passes(p, [t] + ts, r)
       <==> Shows(p, t) && t.kind != Eof && Advance(p).Ok? && Passes(Advance(p).value, ts, r)
  {
    FirstOf([t], ts);
    Unit(ts);
  }

  // The number is kept unless the next token is one.
  lemma {:induction false} RunKeepsNumber(l: Lexer, src: Source)
    requires l.token == Undef && Run(l, src).Ok?
    ensures var l' := Run(l, src).value.0;
      && (l.mode in {Negative, Zero, Number} ==> l'.token == Integer)
      && (l'.token == Integer || l'.number == l.number)
    decreases JsonLexer.Left(src), Rank(l.mode)
  {
    var (ch, next) := NextChar(src).value;
    var step := OnChar(l, ch).value;
    NumberTurn(l, ch);
    NextCharLeft(src);
    hide OnChar, NextChar, JsonLexer.Left, Rank;
    if step.lexer.token == Undef {
      GoesOn(l, ch);
      RunKeepsNumber(step.lexer, next);
    }
  }

  lemma NumberTurn(l: Lexer, ch: unicode)
    requires l.token == Undef && OnChar(l, ch).Ok?
    ensures var l' := OnChar(l, ch).value.lexer;
      var kept := l.mode !in {Negative, Zero, Number} && l'.number == l.number;
      if l'.token == Undef then l'.mode in {Negative, Zero, Number} || kept
      else l'.token == Integer || kept
  {
    hide Encode;
  }

  // ---- the grammar is accepted ----

  // The kind of the token behind `ts` when `r` stands behind that.
  function Next(ts: seq<Lexeme>, r: Parser): Token
  {
    if ts == [] then r.lookahead else ts[0].kind
  }

  lemma MovesOn(p: Parser, t: Lexeme, ts: seq<Lexeme>, r: Parser) returns (q: Parser)
    requires Passes(p, [t] + ts, r)
    ensures Shows(p, t) && t.kind != Eof && Match(p, t.kind) == Ok(q) && Passes(q, ts, r)
    ensures Next(ts, r) == q.lookahead && (q.lookahead != Integer ==> q.number == p.number)
  {
    PassesFirst(p, t, ts, r);
    hide Run;
    q := Advance(p).value;
    RunKeepsNumber(Begin(p.number), p.src);
  }

  lemma {:induction false} ValueParsed(p: Parser, f: Form, ts: seq<Lexeme>, r: Parser) returns (q: Parser)
    requires Sound(f) && Passes(p, Tokens(f, ts), r) && Next(ts, r) != Integer
    ensures ParseValue(p) == Ok((Value(f), q)) && Passes(q, ts, r) && q.lookahead == Next(ts, r)
    ensures p.lookahead != Eof && p.lookahead != RightBracket && p.lookahead != RightBrace
    decreases f, 1
  {
    hide Passes, Advance;
    match f
    case Leaf(t) =>
      q := MovesOn(p, t, ts, r);
    case ArrayForm(fs, comma) =>
      var close := [Mark(']' as int)] + ts;
      q := MovesOn(p, Mark('[' as int), ItemTokens(fs, comma, close), r);
      q := ItemsParsed(q, Null, fs, comma, close, r);
      Unit(Values(fs));
      q := MovesOn(q, Mark(']' as int), ts, r);
    case ObjectForm(ms, comma) =>
      var close := [Mark('}' as int)] + ts;
      q := MovesOn(p, Mark('{' as int), MemberTokens(ms, comma, close), r);
      q := MembersParsed(q, Null, ms, comma, close, r);
      q := MovesOn(q, Mark('}' as int), ts, r);
  }

  // The items after those of `e`.
  function WithItems(e: Element, fs: seq<Form>): Element
    requires forall g <- fs :: Sound(g)
  {
    if fs == [] then e else Array((if e.Array? then e.items else []) + Values(fs))
  }

  lemma {:induction false} ItemsParsed(p: Parser, e: Element, fs: seq<Form>, comma: bool, ts: seq<Lexeme>, r: Parser)
    returns (q: Parser)
    requires (forall g <- fs :: Sound(g)) && Passes(p, ItemTokens(fs, comma, ts), r) && Next(ts, r) == RightBracket
    ensures ParseArray(e, p) == Ok((WithItems(e, fs), q)) && Passes(q, ts, r) && q.lookahead == RightBracket
    decreases fs
  {
    hide Tokens, Value, ParseValue, Advance;
    if fs == [] {
      q := p;
    } else if |fs| == 1 && !comma {
      hide Passes;
      q := ValueParsed(p, fs[0], ts, r);
      OneItem(e, fs);
    } else {
      hide Passes;
      var rest := ItemTokens(fs[1..], comma, ts);
      q := ValueParsed(p, fs[0], [Mark(',' as int)] + rest, r);
      q := MovesOn(q, Mark(',' as int), rest, r);
      q := ItemsParsed(q, EmplaceBack(e, Value(fs[0])), fs[1..], comma, ts, r);
      OneItem(e, fs);
    }
  }

  lemma OneItem(e: Element, fs: seq<Form>)
    requires fs != [] && forall g <- fs :: Sound(g)
    ensures WithItems(e, fs) == WithItems(EmplaceBack(e, Value(fs[0])), fs[1..])
    ensures |fs| == 1 ==> WithItems(e, fs) == EmplaceBack(e, Value(fs[0]))
  {
    hide Value;
    Unit([Value(fs[0])]);
    Associate(if e.Array? then e.items else [], [Value(fs[0])], Values(fs[1..]));
  }

  lemma {:induction false} MembersParsed(p: Parser, e: Element, ms: seq<MemberForm>, comma: bool, ts: seq<Lexeme>,
                                         r: Parser) returns (q: Parser)
    requires (forall m <- ms :: m.key.kind == String && Sound(m.value))
    requires Passes(p, MemberTokens(ms, comma, ts), r) && Next(ts, r) == RightBrace
    ensures ParseObject(e, p) == Ok((WithMembers(e, ms), q)) && Passes(q, ts, r) && q.lookahead == RightBrace
    decreases ms
  {
    hide Tokens, Value, ParseValue, Advance, Emplace, TokensOf;
    if ms == [] {
      q := p;
    } else {
      hide Passes;
      var m := ms[0];
      if |ms| == 1 && !comma {
        q := MemberParsed(p, m, ts, r);
      } else {
        var rest := MemberTokens(ms[1..], comma, ts);
        q := MemberParsed(p, m, [Mark(',' as int)] + rest, r);
        q := MovesOn(q, Mark(',' as int), rest, r);
        q := MembersParsed(q, Emplace(e, MemberOf(m)), ms[1..], comma, ts, r);
      }
    }
  }

  lemma {:induction false} MemberParsed(p: Parser, m: MemberForm, ts: seq<Lexeme>, r: Parser) returns (q: Parser)
    requires m.key.kind == String && Sound(m.value) && Passes(p, TokensOf(m, ts), r) && Next(ts, r) != Integer
    ensures Passes(q, ts, r) && q.lookahead == Next(ts, r) && p.lookahead == String && p.text == m.key.text
    ensures Match(p, String).Ok? && Match(Match(p, String).value, Colon).Ok?
    ensures ParseValue(Match(Match(p, String).value, Colon).value) == Ok((Value(m.value), q))
    decreases m, 2
  {
    hide Passes, Tokens, Value, ParseValue, Advance;
    q := MovesOn(p, m.key, [Mark(':' as int)] + Tokens(m.value, ts), r);
    q := MovesOn(q, Mark(':' as int), Tokens(m.value, ts), r);
    q := ValueParsed(q, m.value, ts, r);
  }

  // ---- nothing else is accepted ----

  // The token that the parser has moved over.
  lemma MovedOver(p: Parser, t: Lexeme, q: Parser, ts: seq<Lexeme>, r: Parser)
    requires Match(p, t.kind) == Ok(q) && Shows(p, t) && t.kind != Eof && Passes(q, ts, r)
    ensures Passes(p, [t] + ts, r) && Size(q) < Size(p) && (q.lookahead != Integer ==> q.number == p.number)
  {
    PassesFirst(p, t, ts, r);
    AdvanceShrinks(p);
    hide Run;
    RunKeepsNumber(Begin(p.number), p.src);
  }

  lemma {:induction false} LeafForm(p: Parser, ts: seq<Lexeme>, r: Parser) returns (f: Form)
    requires ParseValue(p).Ok? && p.lookahead in {NullToken, True, False, Integer, String}
    requires var q := ParseValue(p).value.1; q.lookahead != Integer && Passes(q, ts, r)
    ensures Sound(f) && Value(f) == ParseValue(p).value.0 && Passes(p, Tokens(f, ts), r)
  {
    var q := ParseValue(p).value.1;
    var t := Lexeme([], p.lookahead, p.text, p.number);
    f := Leaf(t);
    assert Match(p, t.kind) == Ok(q);
    hide Advance, Passes;
    MovedOver(p, t, q, ts, r);
  }

  lemma {:induction false} ValueForm(p: Parser, ts: seq<Lexeme>, r: Parser) returns (f: Form)
    requires p.lookahead != Eof && ParseValue(p).Ok?
    requires var q := ParseValue(p).value.1; q.lookahead != Integer && Passes(q, ts, r)
    ensures Sound(f) && Value(f) == ParseValue(p).value.0 && Passes(p, Tokens(f, ts), r)
    decreases Size(p), 0
  {
    hide Passes, Advance, Size;
    if p.lookahead == LeftBracket {
      var q := Match(p, LeftBracket).value;
      var q2 := ParseArray(Null, q).value.1;
      var q3 := Match(q2, RightBracket).value;
      var close := [Mark(']' as int)] + ts;
      MovedOver(q2, Mark(']' as int), q3, ts, r);
      AdvanceShrinks(p);
      var fs, comma := ItemsForm(q, Null, close, r);
      MovedOver(p, Mark('[' as int), q, ItemTokens(fs, comma, close), r);
      Unit(Values(fs));
      f := ArrayForm(fs, comma);
    } else if p.lookahead == LeftBrace {
      var q := Match(p, LeftBrace).value;
      var q2 := ParseObject(Null, q).value.1;
      var q3 := Match(q2, RightBrace).value;
      var close := [Mark('}' as int)] + ts;
      MovedOver(q2, Mark('}' as int), q3, ts, r);
      AdvanceShrinks(p);
      var ms, comma := MembersForm(q, Null, close, r);
      MovedOver(p, Mark('{' as int), q, MemberTokens(ms, comma, close), r);
      f := ObjectForm(ms, comma);
    } else {
      f := LeafForm(p, ts, r);
    }
  }

  lemma {:induction false} ItemsForm(p: Parser, e: Element, ts: seq<Lexeme>, r: Parser)
    returns (fs: seq<Form>, comma: bool)
    requires ParseArray(e, p).Ok?
    requires var q := ParseArray(e, p).value.1; q.lookahead == RightBracket && Passes(q, ts, r)
    ensures (forall g <- fs :: Sound(g)) && WithItems(e, fs) == ParseArray(e, p).value.0
    ensures Passes(p, ItemTokens(fs, comma, ts), r)
    decreases Size(p), 1
  {
    hide Passes, Advance, Size, ParseValue, Tokens, Value;
    fs, comma := [], false;
    if p.lookahead != RightBracket {
      var (v, q) := ParseValue(p).value;
      var e' := EmplaceBack(e, v);
      if q.lookahead != Comma {
        var f := ValueForm(p, ts, r);
        fs := [f];
        OneItem(e, fs);
      } else {
        var q2 := Match(q, Comma).value;
        AdvanceShrinks(q);
        fs, comma := ItemsForm(q2, e', ts, r);
        var more := ItemTokens(fs, comma, ts);
        MovedOver(q, Mark(',' as int), q2, more, r);
        var f := ValueForm(p, [Mark(',' as int)] + more, r);
        FirstOf([f], fs);
        Unit(fs);
        comma := comma || fs == [];
        fs := [f] + fs;
        OneItem(e, fs);
      }
    }
  }

  lemma {:induction false} MembersForm(p: Parser, e: Element, ts: seq<Lexeme>, r: Parser)
    returns (ms: seq<MemberForm>, comma: bool)
    requires ParseObject(e, p).Ok?
    requires var q := ParseObject(e, p).value.1; q.lookahead == RightBrace && Passes(q, ts, r)
    ensures (forall m <- ms :: m.key.kind == String && Sound(m.value))
    ensures WithMembers(e, ms) == ParseObject(e, p).value.0
    ensures Passes(p, MemberTokens(ms, comma, ts), r)
    decreases Size(p), 1
  {
    hide Passes, Advance, Size, ParseValue, Tokens, Value, Emplace, TokensOf;
    ms, comma := [], false;
    if p.lookahead != RightBrace {
      AdvanceShrinks(p);
      var q := Match(p, String).value;
      AdvanceShrinks(q);
      var q2 := Match(q, Colon).value;
      var (v, q3) := ParseValue(q2).value;
      var e' := Emplace(e, Member(p.text, v));
      EndParsed(q2);
      if q3.lookahead != Comma {
        var m := MemberFormed(p, q, q2, ts, r);
        ms := [m];
      } else {
        var q4 := Match(q3, Comma).value;
        AdvanceShrinks(q3);
        ms, comma := MembersForm(q4, e', ts, r);
        var more := MemberTokens(ms, comma, ts);
        MovedOver(q3, Mark(',' as int), q4, more, r);
        var m := MemberFormed(p, q, q2, [Mark(',' as int)] + more, r);
        FirstOf([m], ms);
        Unit(ms);
        comma := comma || ms == [];
        ms := [m] + ms;
      }
    }
  }

  lemma {:induction false} MemberFormed(p: Parser, q: Parser, q2: Parser, ts: seq<Lexeme>, r: Parser)
    returns (m: MemberForm)
    requires Match(p, String) == Ok(q) && Match(q, Colon) == Ok(q2) && q2.lookahead != Eof && ParseValue(q2).Ok?
    requires var q3 := ParseValue(q2).value.1; q3.lookahead != Integer && Passes(q3, ts, r)
    ensures m.key.kind == String && Sound(m.value) && MemberOf(m) == Member(p.text, ParseValue(q2).value.0)
    ensures Passes(p, TokensOf(m, ts), r)
    decreases Size(q2), 1
  {
    hide Passes, Advance, Size, ParseValue, Tokens, Value;
    var f := ValueForm(q2, ts, r);
    var key := Lexeme([], String, p.text, 0);
    MovedOver(q, Mark(':' as int), q2, Tokens(f, ts), r);
    MovedOver(p, key, q, [Mark(':' as int)] + Tokens(f, ts), r);
    m := MemberForm(key, f);
  }

  /**
   A text is parsed to `e` if and only if its tokens are those of a form that stands for `e`, or there
   are none and `e` is null.
   */
  lemma ParsesExactly(s: seq<byte>, e: Element)
    ensures Parse(s) == Ok(e)
       <==> (Scans(s, []) && e == Null) || exists f :: Sound(f) && Value(f) == e && Scans(s, Tokens(f, []))
  {
    hide ParseValue, Value, Tokens;
    var start := Advance(Parser(Source(s, []), [], 0, Undef));
    hide Advance;
    if Parse(s) == Ok(e) {
      var (p, q) := (start.value, ParseValue(start.value).value.1);
      if p.lookahead == Eof {
        EndParsed(p);
      } else {
        assert Passes(q, [], q);
        var f := ValueForm(p, [], q);
        assert Scans(s, Tokens(f, []));
      }
    }
    if Scans(s, []) && e == Null {
      EndParsed(start.value);
    }
    forall f | Sound(f) && Value(f) == e && Scans(s, Tokens(f, []))
      ensures Parse(s) == Ok(e)
    {
      var r :| Passes(start.value, Tokens(f, []), r) && r.lookahead == Eof;
      var q := ValueParsed(start.value, f, [], r);
    }
  }

  lemma EndParsed(p: Parser)
    ensures p.lookahead == Eof ==> ParseValue(p) == Ok((Null, p)) && Passes(p, [], p)
  {
  }
}
