/**
 Reading a JSON text in any of its forms: white space between the tokens, any spelling of the
 strings, members in any order.
 */
module JsonSpaces {
  import opened Utf8
  import opened Sequences
  import opened Text
  import opened JsonElement
  import opened JsonLexer
  import opened JsonParser
  import opened JsonTokens
  import opened JsonForms
  import opened JsonGrammar

  // ---- texts with white space ----

  // The text consists of the tokens, with white space before, between and behind them.
  ghost predicate Spaced(s: seq<byte>, ts: seq<Lexeme>)
    decreases |ts|
  {
    if ts == [] then AllWhite(s)
    else exists w, r :: AllWhite(w) && s == w + (ts[0].bytes + r) && Spaced(r, ts[1..])
  }

  // Every token can be read, and can be told from the one behind it.
  ghost predicate Legible(ts: seq<Lexeme>)
  {
    ts == [] || (IsLexeme(ts[0]) && Legible(ts[1..]) && (NeedsStop(ts[0]) && |ts| > 1 ==> Stops(ts[1].bytes)))
  }

  // The text `s` is what is left, whether or not its first character has been read and put back.
  predicate Remains(src: Source, s: seq<byte>)
  {
    src == Source(s, []) || (Stops(s) && src == PutBackHead(s))
  }

  lemma PutBackRead(n: int, src: Source, s: seq<byte>)
    requires Remains(src, s)
    ensures Run(Begin(n), src) == Run(Begin(n), Source(s, []))
  {
    if src != Source(s, []) {
      ReadHead(s);
      hide OnChar;
    }
  }

  lemma EndRead(n: int)
    ensures Run(Begin(n), Source([], [])) == Ok((Begin(n).(token := Eof, text := [0]), Source([], [])))
  {
    FirstByte(0);
    LastTurn(Begin(n), Source([], []), 0, Source([], []), Begin(n).(token := Eof, text := [0]), false);
  }

  lemma StopsAhead(t: Lexeme, r: seq<byte>, ts: seq<Lexeme>)
    requires Legible([t] + ts) && Spaced(r, ts) && NeedsStop(t)
    ensures Stops(r)
  {
    hide IsLexeme;
    if ts == [] {
      assert r == [] || r[0] in {0x20, 0x09, 0x0A, 0x0D};
    } else {
      var w, r' :| AllWhite(w) && r == w + (ts[0].bytes + r') && Spaced(r', ts[1..]);
      assert ([t] + ts)[1] == ts[0] && ([t] + ts)[1..] == ts;
      assert IsLexeme(ts[0]);
      NoEmptyLexeme(ts[0]);
      assert r[0] == if w == [] then ts[0].bytes[0] else w[0];
    }
  }

  lemma NoEmptyLexeme(t: Lexeme)
    requires IsLexeme(t)
    ensures t.bytes != [] && t.kind != Eof
  {
  }

  lemma EndIsRead(p: Parser, s: seq<byte>) returns (q: Parser)
    requires AllWhite(s) && Remains(p.src, s)
    ensures Advance(p) == Ok(q) && q.lookahead == Eof
  {
    PutBackRead(p.number, p.src, s);
    hide Run, Stops, AllWhite;
    Unit(s);
    WhiteSkipped(p.number, s, []);
    EndRead(p.number);
    q := Advance(p).value;
  }

  lemma NextIsRead(p: Parser, s: seq<byte>, ts: seq<Lexeme>) returns (q: Parser, more: seq<byte>)
    requires ts != [] && Legible(ts) && Spaced(s, ts) && Remains(p.src, s)
    ensures Advance(p) == Ok(q) && Shows(q, ts[0]) && ts[0].kind != Eof
    ensures Spaced(more, ts[1..]) && Remains(q.src, more)
  {
    PutBackRead(p.number, p.src, s);
    hide Run, IsLexeme, Stops, AllWhite;
    var w;
    w, more :| AllWhite(w) && s == w + (ts[0].bytes + more) && Spaced(more, ts[1..]);
    FirstOf(ts, []);
    hide Spaced;
    WhiteSkipped(p.number, w, ts[0].bytes + more);
    if NeedsStop(ts[0]) {
      StopsAhead(ts[0], more, ts[1..]);
    }
    var after := LexemeRead(ts[0], p.number, more);
    NoEmptyLexeme(ts[0]);
    q := Advance(p).value;
  }

  // The tokens are read one after the other.
  lemma {:induction false} ReadsAll(p: Parser, s: seq<byte>, ts: seq<Lexeme>) returns (q: Parser, r: Parser)
    requires Legible(ts) && Spaced(s, ts) && Remains(p.src, s)
    ensures Advance(p) == Ok(q) && Passes(q, ts, r) && r.lookahead == Eof
    decreases |ts|
  {
    hide Advance, IsLexeme, Stops, AllWhite, Remains, Shows;
    if ts == [] {
      q := EndIsRead(p, s);
      r := q;
    } else {
      var more;
      q, more := NextIsRead(p, s, ts);
      hide Spaced;
      var q2;
      q2, r := ReadsAll(q, more, ts[1..]);
    }
  }

  /** The scanner finds the tokens wherever white space stands between them. */
  lemma SpacesSkipped(s: seq<byte>, ts: seq<Lexeme>)
    requires Legible(ts) && Spaced(s, ts)
    ensures Scans(s, ts)
  {
    hide Legible, Spaced, Advance;
    var q, r := ReadsAll(Parser(Source(s, []), [], 0, Undef), s, ts);
  }

  // ---- reading a form ----

  // What can stand behind a value.
  predicate Follows(ts: seq<Lexeme>)
  {
    ts == [] || ts[0] == Mark(',' as int) || ts[0] == Mark(']' as int) || ts[0] == Mark('}' as int)
  }

  lemma {:induction false} LegibleBefore(t: Lexeme, ts: seq<Lexeme>)
    requires IsLexeme(t) && Legible(ts) && (NeedsStop(t) ==> Follows(ts))
    ensures Legible([t] + ts)
  {
    FirstOf([t], ts);
    Unit(ts);
    hide IsLexeme;
  }

  // A mark before legible tokens.
  lemma MarkBefore(c: byte, ts: seq<Lexeme>)
    requires c in {'{' as int, '}' as int, '[' as int, ']' as int, ',' as int, ':' as int}
    requires Legible(ts)
    ensures Legible([Mark(c)] + ts) && ([Mark(c)] + ts)[0] == Mark(c)
  {
    MarkIsLexeme(c);
    hide Legible, IsLexeme;
    LegibleBefore(Mark(c), ts);
  }

  // The tokens of the form are texts that stand for their values.
  ghost predicate Written(f: Form)
  {
    match f
    case Leaf(t) => WrittenScalar(t)
    case ArrayForm(fs, _) => forall g <- fs :: Written(g)
    case ObjectForm(ms, _) => forall m <- ms :: WrittenString(m.key) && Written(m.value)
  }

  lemma {:induction false} FormIsLegible(f: Form, ts: seq<Lexeme>)
    requires Written(f) && Legible(ts) && Follows(ts)
    ensures Legible(Tokens(f, ts)) && Sound(f)
    decreases f
  {
    hide Legible, IsLexeme, WrittenScalar, WrittenString;
    match f
    case Leaf(t) =>
      ScalarIsLexeme(t);
      LegibleBefore(t, ts);
    case ArrayForm(fs, comma) =>
      MarkBefore(']' as int, ts);
      ItemsAreLegible(fs, comma, [Mark(']' as int)] + ts);
      MarkBefore('[' as int, ItemTokens(fs, comma, [Mark(']' as int)] + ts));
    case ObjectForm(ms, comma) =>
      MarkBefore('}' as int, ts);
      MembersAreLegible(ms, comma, [Mark('}' as int)] + ts);
      MarkBefore('{' as int, MemberTokens(ms, comma, [Mark('}' as int)] + ts));
  }

  lemma {:induction false} ItemsAreLegible(fs: seq<Form>, comma: bool, ts: seq<Lexeme>)
    requires (forall g <- fs :: Written(g)) && Legible(ts) && Follows(ts)
    ensures Legible(ItemTokens(fs, comma, ts)) && forall g <- fs :: Sound(g)
    decreases fs
  {
    hide Legible, Tokens, Written, Sound;
    if fs != [] {
      FirstOf(fs, []);
      ItemsAreLegible(fs[1..], comma, ts);
      MarkBefore(',' as int, ItemTokens(fs[1..], comma, ts));
      FormIsLegible(fs[0], if |fs| == 1 && !comma then ts else [Mark(',' as int)] + ItemTokens(fs[1..], comma, ts));
    }
  }

  lemma {:induction false} MembersAreLegible(ms: seq<MemberForm>, comma: bool, ts: seq<Lexeme>)
    requires (forall m <- ms :: WrittenString(m.key) && Written(m.value)) && Legible(ts) && Follows(ts)
    ensures Legible(MemberTokens(ms, comma, ts)) && forall m <- ms :: m.key.kind == String && Sound(m.value)
    decreases ms
  {
    hide Legible, Tokens, Written, Sound, IsLexeme, WrittenString;
    if ms != [] {
      FirstOf(ms, []);
      MembersAreLegible(ms[1..], comma, ts);
      MarkBefore(',' as int, MemberTokens(ms[1..], comma, ts));
      MemberIsLegible(ms[0], if |ms| == 1 && !comma then ts else [Mark(',' as int)] + MemberTokens(ms[1..], comma, ts));
    }
  }

  lemma {:induction false} MemberIsLegible(m: MemberForm, ts: seq<Lexeme>)
    requires WrittenString(m.key) && Written(m.value) && Legible(ts) && Follows(ts)
    ensures Legible(TokensOf(m, ts)) && m.key.kind == String && Sound(m.value)
    decreases m
  {
    hide Legible, Tokens, Written, Sound, IsLexeme;
    FormIsLegible(m.value, ts);
    MarkBefore(':' as int, Tokens(m.value, ts));
    var xs :| AllProper(xs) && m.key == StringOf(xs);
    StringIsLexeme(xs);
    LegibleBefore(m.key, [Mark(':' as int)] + Tokens(m.value, ts));
  }

  /** A text is parsed to the value of its form, wherever white space stands between the tokens. */
  lemma EveryFormIsRead(f: Form, s: seq<byte>)
    requires Written(f) && Spaced(s, Tokens(f, []))
    ensures Sound(f) && Parse(s) == Ok(Value(f))
  {
    FormIsLegible(f, []);
    hide *;
    SpacesSkipped(s, Tokens(f, []));
    ParsesExactly(s, Value(f));
  }
}
