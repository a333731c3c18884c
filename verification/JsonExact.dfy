/**
 Exactly which elements survive printing and parsing, as long as no object has more than one member.
 */
module JsonExact {
  import opened Utf8
  import Sequences
  import opened Text
  import opened JsonElement
  import opened JsonLexer
  import opened JsonParser
  import opened JsonTokens
  import opened JsonRoundTrip
  import opened JsonStrings
  import opened JsonKeys

  predicate Slim(e: Element)
  {
    match e
    case Array(items) => forall i :: 0 <= i < |items| ==> Slim(items[i])
    case Object(ms) => |ms| <= 1 && forall i :: 0 <= i < |ms| ==> Slim(ms[i].value)
    case _ => true
  }

  // ---- integers ----

  predicate Fits(n: int)
  {
    -INT_MAX <= n <= INT_MAX
  }

  lemma NumberTurn(l: Lexer, ch: unicode)
    requires l.token == Undef && (l.mode == Number ==> 0 <= l.number <= INT_MAX) && OnChar(l, ch).Ok?
    ensures var l' := OnChar(l, ch).value.lexer;
      && (l'.token == Integer || Fits(l.number) ==> Fits(l'.number))
      && (l'.token == Undef && l'.mode == Number ==> 0 <= l'.number <= INT_MAX)
  {
    hide Encode, Ascii, HexValue, Unescaped;
  }

  lemma {:induction false} NumberFits(l: Lexer, src: Source)
    requires l.token == Undef && (l.mode == Number ==> 0 <= l.number <= INT_MAX) && Run(l, src).Ok?
    ensures var l' := Run(l, src).value.0; l'.token == Integer || Fits(l.number) ==> Fits(l'.number)
    decreases Left(src), Rank(l.mode)
  {
    TurnOk(l, src);
    var ch := NextChar(src).value.0;
    var l' := OnChar(l, ch).value.lexer;
    NumberTurn(l, ch);
    hide NextChar, OnChar, Fits;
    if l'.token == Undef {
      NextCharLeft(src);
      GoesOn(l, ch);
      NumberFits(l', NextChar(src).value.1);
    }
  }

  // ---- arrays ----

  lemma {:induction false} ArrayGrows(e: Element, p: Parser)
    requires ParseArray(e, p).Ok?
    ensures var e' := ParseArray(e, p).value.0; e' == e || (e'.Array? && ItemsOf(e) <= e'.items)
    ensures e.Array? ==> ParseArray(e, p).value.0.Array?
    decreases Size(p)
  {
    if p.lookahead != RightBracket && p.lookahead != Eof {
      var (v, q) := ParseValue(p).value;
      if q.lookahead == Comma {
        AdvanceShrinks(q);
        hide Advance, ParseValue;
        ArrayGrows(EmplaceBack(e, v), Match(q, Comma).value);
      }
    }
  }

  lemma ObjectGrows(p: Parser)
    requires ParseObject(Null, p).Ok?
    ensures ParseObject(Null, p).value.0.Null? || ParseObject(Null, p).value.0.Object?
  {
    if p.lookahead != RightBrace && p.lookahead != Eof {
      var q2 := Match(Match(p, String).value, Colon).value;
      var (v, q3) := ParseValue(q2).value;
      var o := Member(p.text, v);
      assert Emplace(Null, o) == Object([o]);
      hide Advance, ParseValue;
      if q3.lookahead == Comma {
        ObjectKeeps(Object([o]), Match(q3, Comma).value, o);
      }
    }
  }

  // ---- what is read back was printable ----

  // The parser makes `e` of the value at the head of the text.
  predicate Returned(text: seq<byte>, n: int, e: Element)
  {
    var p := At(text, n);
    p.Ok? && ParseValue(p.value).Ok? && ParseValue(p.value).value.0 == e
  }

  lemma StringWasReadable(s: seq<byte>, r: seq<byte>, n: int)
    requires Returned(Print(Str(s)) + r, n, Str(s))
    ensures ReadableText(s)
  {
    var l := Begin(n).(mode := InString);
    var rest := EscapeAll(s) + ([QUOTE] + r);
    var text := Print(Str(s)) + r;
    QuotedText(EscapeAll(s), r);
    assert At(text, n) == Advance(Parser(Source(text, []), [], n, Undef));
    assert l.mode == InString && l.token == Undef && l.text == [] && InsideString(l.mode);
    assert l.text + s == s;
    OpenQuote(rest, n);
    TextGrows(l, Source(rest, []));
    hide Run, ReadableText, EscapeAll;
    ReadBack(l, s, r);
  }

  // What is parsed as an integer is a number of the element's width.
  lemma IntegerFits(k: int, r: seq<byte>, n: int)
    requires Returned(Print(Int(k)) + r, n, Int(k))
    ensures Fits(k)
  {
    var text := Print(Int(k)) + r;
    var p := At(text, n).value;
    assert At(text, n) == Advance(Parser(Source(text, []), [], n, Undef));
    hide Print, At;
    NumberFits(Begin(n), Source(text, []));
    hide Run, Fits;
    match p.lookahead
    case Integer =>
      NumberFits(Begin(p.number), p.src);
    case LeftBrace =>
      ObjectGrows(Advance(p).value);
    case LeftBracket =>
      ArrayGrows(Null, Advance(p).value);
    case _ =>
  }

  // The element at the head of the items was read back, and the parser goes on behind it.
  lemma ItemWasReadBack(items: seq<Element>, acc: Element, p: Parser) returns (v: Element)
    requires items != [] && ParseArray(acc, p).Ok?
    requires ParseArray(acc, p).value.0 == Array(ItemsOf(acc) + NullifiedItems(items))
    ensures p.lookahead != RightBracket && p.lookahead != Eof
    ensures ParseValue(p).Ok? && ParseValue(p).value.0 == Nullified(items[0])
    ensures var q := ParseValue(p).value.1;
      q.lookahead == Comma ==>
        Advance(q).Ok? && ParseArray(EmplaceBack(acc, Nullified(items[0])), Advance(q).value) == ParseArray(acc, p)
  {
    var a, b := ItemsOf(acc), NullifiedItems(items);
    assert b == [Nullified(items[0])] + NullifiedItems(items[1..]);
    assert (a + b)[|a|] == Nullified(items[0]) && Array(a + b) != acc;
    hide NullifiedItems, Nullified;
    var (v', q) := ParseValue(p).value;
    v := v';
    hide ParseValue, Advance;
    if q.lookahead == Comma {
      ArrayGrows(EmplaceBack(acc, v), Match(q, Comma).value);
      assert (a + [v])[|a|] == v;
    }
  }

  lemma {:induction false} ItemsWerePrintable(items: seq<Element>, acc: Element, r: seq<byte>, n: int)
    requires items != [] && (forall i :: 0 <= i < |items| ==> Slim(items[i]))
    requires Ends(r) && Head(r) == ']' as int && Unquoted(r)
    requires var p := At(PrintItems(items) + r, n);
      p.Ok? && ParseArray(acc, p.value).Ok?
      && ParseArray(acc, p.value).value.0 == Array(ItemsOf(acc) + NullifiedItems(items))
    ensures forall i :: 0 <= i < |items| ==> Printable(items[i])
    decreases items, 0
  {
    var p := At(PrintItems(items) + r, n).value;
    UnfoldItems(items, acc, r);
    var v := ItemWasReadBack(items, acc, p);
    hide Print, PrintItems, Nullified, NullifiedItems, At, Printable, Slim, ParseValue, ParseArray;
    if |items| == 1 {
      WasPrintable(items[0], r, n);
    } else {
      var rest := PrintItems(items[1..]) + r;
      Separated(items[1..], r);
      WasPrintable(items[0], [',' as int] + rest, n);
      Reads(items[0], [',' as int] + rest, n);
      var q := ParseValue(p).value.1;
      assert q == Behind([',' as int] + rest, q.number);
      AdvanceOverComma(rest, q.number);
      ItemsWerePrintable(items[1..], EmplaceBack(acc, Nullified(items[0])), r, q.number);
      assert forall i :: 0 < i < |items| ==> items[i] == items[1..][i - 1];
    }
  }

  lemma Separated(items: seq<Element>, r: seq<byte>)
    requires Unquoted(r)
    ensures Unquoted([',' as int] + (PrintItems(items) + r)) && Ends([',' as int] + (PrintItems(items) + r))
  {
    ItemsUnquoted(items);
    hide PrintItems;
    UnquotedBoth(PrintItems(items), r);
    UnquotedPlain([',' as int]);
    UnquotedBoth([',' as int], PrintItems(items) + r);
  }

  lemma {:induction false} WasPrintable(e: Element, r: seq<byte>, n: int)
    requires Slim(e) && Ends(r) && Unquoted(r)
    requires Returned(Print(e) + r, n, Nullified(e))
    ensures Printable(e)
    decreases e, 1
  {
    hide Returned, Print, PlainText, ReadableText, Unquoted;
    match e
    case Null =>
    case Boolean(_) =>
    case Int(k) =>
      IntegerFits(k, r, n);
    case Str(s) =>
      StringWasReadable(s, r, n);
    case Array(items) =>
      if items != [] {
        ArrayWasPrintable(items, r, n);
      }
    case Object(ms) =>
      if ms != [] {
        assert ms == [Member(ms[0].key, ms[0].value)];
        MemberWasPrintable(ms[0].key, ms[0].value, r, n);
      }
  }

  lemma {:induction false} ArrayWasPrintable(items: seq<Element>, r: seq<byte>, n: int)
    requires items != [] && Slim(Array(items)) && Ends(r) && Unquoted(r)
    requires Returned(Print(Array(items)) + r, n, Nullified(Array(items)))
    ensures forall i :: 0 <= i < |items| ==> Printable(items[i])
    decreases items, 1
  {
    ArrayOpens(items, r, n);
    UnquotedPlain([']' as int]);
    UnquotedBoth([']' as int], r);
    hide At, Print, PrintItems, NullifiedItems, Printable, ParseArray, Returned, Unquoted;
    ItemsWerePrintable(items, Null, [']' as int] + r, n);
  }

  lemma ArrayOpens(items: seq<Element>, r: seq<byte>, n: int)
    requires items != [] && Returned(Print(Array(items)) + r, n, Nullified(Array(items)))
    ensures var p := At(PrintItems(items) + ([']' as int] + r), n);
      p.Ok? && ParseArray(Null, p.value).Ok?
      && ParseArray(Null, p.value).value.0 == Array(ItemsOf(Null) + NullifiedItems(items))
  {
    var text := PrintItems(items) + ([']' as int] + r);
    ArrayText(items, r);
    hide Run, Print, PrintItems, NullifiedItems, Nullified;
    AdvancePunctuation('[' as int, text, n);
    var p := Parser(Source(text, []), ['[' as int], n, LeftBracket);
    assert Punctuation('[' as int) == LeftBracket;
    assert Advance(p) == At(text, n);
    hide At, Advance, ParseArray;
  }

  lemma ArrayText(items: seq<Element>, r: seq<byte>)
    requires items != []
    ensures Print(Array(items)) + r == ['[' as int] + (PrintItems(items) + ([']' as int] + r))
    ensures Nullified(Array(items)) == Array(NullifiedItems(items))
    ensures ItemsOf(Null) + NullifiedItems(items) == NullifiedItems(items)
  {
    hide PrintItems, NullifiedItems;
  }

  lemma {:induction false} MemberWasPrintable(k: seq<byte>, v: Element, r: seq<byte>, n: int)
    requires Slim(v) && Ends(r) && Unquoted(r)
    requires Returned(Print(Object([Member(k, v)])) + r, n, Nullified(Object([Member(k, v)])))
    ensures PlainText(k) && Printable(v)
    decreases v, 2
  {
    var tail := ['}' as int] + r;
    ObjectOfOne(k, v, r);
    UnquotedPlain(['}' as int]);
    UnquotedBoth(['}' as int], r);
    assert Ends(tail);
    hide Unquoted, PlainText, Print, KeyText, Nullified, At;
    ReturnedKey(k, v, r, n);
    MemberOpens(k, v, tail, Nullified(v), n);
    hide Returned, Printable, Slim;
    WasPrintable(v, tail, n);
  }

  lemma ReturnedKey(k: seq<byte>, v: Element, r: seq<byte>, n: int)
    requires Unquoted(r) && Returned(Print(Object([Member(k, v)])) + r, n, Object([Member(k, Nullified(v))]))
    ensures PlainText(k)
  {
    hide Unquoted, PlainText, Print, Nullified, At, ParseValue;
    ReadBackKey(k, v, Nullified(v), r, n);
  }

  // The value behind a plain key.
  lemma MemberOpens(k: seq<byte>, v: Element, tail: seq<byte>, w: Element, n: int)
    requires PlainText(k) && Returned(['{' as int] + KeyText(k, v, tail), n, Object([Member(k, w)]))
    ensures Returned(Print(v) + tail, n, w)
  {
    var text := Print(v) + tail;
    ReadsKey(k, text, n);
    assert At(KeyText(k, v, tail), n) == At(Quoted(k) + ([':' as int] + text), n);
    AtKey(k, [':' as int] + text, n);
    AdvancePunctuation('{' as int, KeyText(k, v, tail), n);
    var p := Parser(Source(KeyText(k, v, tail), []), ['{' as int], n, LeftBrace);
    assert Punctuation('{' as int) == LeftBrace;
    assert Advance(p) == At(KeyText(k, v, tail), n);
    assert Advance(Parser(Source(text, []), [':' as int], n, Colon)) == At(text, n);
    hide Run, Print, ParseValue, KeyText, Advance, At, PlainText;
    FirstMember(p, k, w);
  }

  /** Printing and parsing gives an element back, empty containers as null, exactly when it is printable. */
  lemma SurvivesExactly(e: Element)
    requires Slim(e)
    ensures Parse(Print(e)) == Ok(Nullified(e)) <==> Printable(e)
  {
    if Printable(e) {
      RoundTrip(e);
    }
    hide *;
    if Parse(Print(e)) == Ok(Nullified(e)) {
      Sequences.Unit(Print(e));
      ParseReturns(Print(e), Nullified(e));
      NothingFollows();
      WasPrintable(e, [], 0);
    }
  }

  lemma ParseReturns(text: seq<byte>, e: Element)
    requires Parse(text) == Ok(e)
    ensures Returned(text, 0, e)
  {
    hide ParseValue, Run;
  }

  lemma NothingFollows()
    ensures Ends([]) && Unquoted([])
  {
  }
}
