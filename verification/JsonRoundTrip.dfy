/**
 Printing a JSON element and parsing the text gives the element back, except that empty
 arrays and objects come back as null.
 */
module JsonRoundTrip {
  import opened Utf8
  import Sequences
  import opened Text
  import opened JsonElement
  import opened JsonLexer
  import opened JsonParser
  import opened JsonTokens

  // ---- the elements that survive ----

  ghost predicate ReadableText(s: seq<byte>)
  {
    exists us :: AllReadable(us) && s == EncodeAll(us)
  }

  ghost predicate PlainText(s: seq<byte>)
  {
    exists us :: Plain(us) && s == EncodeAll(us)
  }

  ghost predicate Printable(e: Element)
  {
    match e
    case Int(n) => -INT_MAX <= n <= INT_MAX
    case Str(s) => ReadableText(s)
    case Array(items) => forall i :: 0 <= i < |items| ==> Printable(items[i])
    case Object(members) =>
      Sorted(members) && forall i :: 0 <= i < |members| ==> PlainText(members[i].key) && Printable(members[i].value)
    case _ => true
  }

  // The members of a `std::map` come in the order of their keys, each key once.
  predicate Sorted(ms: seq<Member>)
  {
    forall i, j :: 0 <= i < j < |ms| ==> Less(ms[i].key, ms[j].key)
  }

  // What the parser makes of the element.
  function Nullified(e: Element): Element
  {
    match e
    case Array(items) => if items == [] then Null else Array(NullifiedItems(items))
    case Object(members) => if members == [] then Null else Object(NullifiedMembers(members))
    case _ => e
  }

  function NullifiedItems(items: seq<Element>): seq<Element>
  {
    if items == [] then [] else [Nullified(items[0])] + NullifiedItems(items[1..])
  }

  function NullifiedMembers(ms: seq<Member>): seq<Member>
  {
    if ms == [] then [] else [Member(ms[0].key, Nullified(ms[0].value))] + NullifiedMembers(ms[1..])
  }

  // ---- the parser between values ----

  // The parser when its look-ahead is the first token of `text`.
  function At(text: seq<byte>, n: int): Verdict<Parser>
  {
    Advance(Parser(Source(text, []), [], n, Undef))
  }

  // The parser when its look-ahead is the delimiter at the head of `r`.
  function Behind(r: seq<byte>, n: int): Parser
    requires Ends(r)
  {
    Parser(Source(if r == [] then [] else r[1..], []), [Head(r)], n, Punctuation(Head(r)))
  }

  lemma AdvanceToDelimiter(r: seq<byte>, p: Parser)
    requires Ends(r) && (p.src == Source(r, []) || p.src == PutBackHead(r))
    ensures Advance(p) == Ok(Behind(r, p.number))
  {
    ReadHead(r);
    var (l, rest) := (Begin(p.number), Source(if r == [] then [] else r[1..], []));
    var l' := l.(token := Punctuation(Head(r)), text := [Head(r)]);
    DelimiterTurn(r, p.number);
    hide Run, NextChar, OnChar, Punctuation;
    LastTurn(l, p.src, Head(r), rest, l', false);
  }

  lemma DelimiterTurn(r: seq<byte>, n: int)
    requires Ends(r)
    ensures OnChar(Begin(n), Head(r)) == Ok(Step(Begin(n).(token := Punctuation(Head(r)), text := [Head(r)]), false))
    ensures Punctuation(Head(r)) != Undef
  {
    FirstByte(Head(r));
  }

  lemma AdvancePunctuation(c: byte, r: seq<byte>, n: int)
    requires 0 < c < 0x80 && Punctuation(c) != Undef
    ensures At([c] + r, n) == Ok(Parser(Source(r, []), [c], n, Punctuation(c)))
  {
    ReadAscii(c, r);
    FirstByte(c);
    LastTurn(Begin(n), Source([c] + r, []), c, Source(r, []), Begin(n).(token := Punctuation(c), text := [c]), false);
  }

  // The value `e` has been read from a text that goes on with `r`.
  predicate ReadsAs(p: Verdict<Parser>, e: Element, r: seq<byte>)
    requires Ends(r)
  {
    p.Ok? && p.value.lookahead != Eof && p.value.lookahead != RightBracket && p.value.lookahead != RightBrace
    && var v := ParseValue(p.value);
    v.Ok? && v.value.0 == e && v.value.1 == Behind(r, v.value.1.number)
  }

  // ---- scalar values ----

  // A value of one token, with the delimiter behind it.
  lemma SimpleReadsAs(p: Parser, e: Element, r: seq<byte>)
    requires Ends(r) && Advance(p) == Ok(Behind(r, p.number))
    requires match p.lookahead
      case NullToken => e == Null
      case True => e == Boolean(true)
      case False => e == Boolean(false)
      case Integer => e == Int(p.number)
      case String => e == Str(p.text)
      case _ => false
    ensures ReadsAs(Ok(p), e, r)
  {
    hide Advance;
  }

  lemma ReadsWord(w: seq<byte>, e: Element, r: seq<byte>, n: int)
    requires w != [] && Word(w) && Ends(r)
    requires match WordToken(w) { case NullToken => e == Null case True => e == Boolean(true)
                                  case False => e == Boolean(false) case _ => false }
    ensures ReadsAs(At(w + r, n), e, r)
  {
    RunLiteral(w, r, n);
    hide Run, Word, WordToken, ReadsAs, ParseValue, OnChar, NextChar;
    AdvanceToDelimiter(r, At(w + r, n).value);
    hide Advance, Behind;
    SimpleReadsAs(At(w + r, n).value, e, r);
  }

  lemma Words()
    ensures var w := Ascii("true"); w != [] && Word(w) && WordToken(w) == True
    ensures var w := Ascii("false"); w != [] && Word(w) && WordToken(w) == False
    ensures var w := Ascii("null"); w != [] && Word(w) && WordToken(w) == NullToken
  {
    assert |Ascii("true")| == 4 && |Ascii("false")| == 5 && |Ascii("null")| == 4;
    assert Ascii("true")[0] == 't' as int && Ascii("null")[0] == 'n' as int;
  }

  lemma ReadsLiteral(e: Element, r: seq<byte>, n: int)
    requires (e.Null? || e.Boolean?) && Ends(r)
    ensures ReadsAs(At(Print(e) + r, n), e, r)
  {
    Words();
    hide Run, At, ReadsAs, Word;
    ReadsWord(Print(e), e, r, n);
  }

  lemma ReadsInteger(k: int, r: seq<byte>, n: int)
    requires -INT_MAX <= k <= INT_MAX && Ends(r)
    ensures ReadsAs(At(Print(Int(k)) + r, n), Int(k), r)
  {
    RunInteger(k, r, n);
    assert Print(Int(k)) == PrintInt(k);
    hide Run, PrintInt, NextChar, Digits, ReadsAs, ParseValue, OnChar;
    AdvanceToDelimiter(r, At(PrintInt(k) + r, n).value);
    hide Advance, Behind;
    SimpleReadsAs(At(PrintInt(k) + r, n).value, Int(k), r);
  }

  lemma AtString(s: seq<byte>, r: seq<byte>, n: int)
    requires ReadableText(s)
    ensures At(Quoted(EscapeAll(s)) + r, n) == Ok(Parser(Source(r, []), s, n, String))
  {
    var us :| AllReadable(us) && s == EncodeAll(us);
    var q := ['\"' as int];
    QuotedText(EscapeAll(s), r);
    assert AllReadable(us) && s == EncodeAll(us);
    hide Run, EscapeAll, EncodeAll, AllReadable, NextChar, OnChar, Escape, Encode, Quoted;
    OpenQuote(EscapeAll(s) + (q + r), n);
    var hx := RunEscapedString(Begin(n).(mode := InString), us, r);
    Sequences.Unit(s);
  }

  lemma QuotedText(s: seq<byte>, r: seq<byte>)
    ensures Quoted(s) + r == ['\"' as int] + (s + (['\"' as int] + r))
  {
  }

  lemma ReadsString(s: seq<byte>, r: seq<byte>, n: int)
    requires ReadableText(s) && Ends(r)
    ensures ReadsAs(At(Print(Str(s)) + r, n), Str(s), r)
  {
    AtString(s, r, n);
    assert Print(Str(s)) == Quoted(EscapeAll(s));
    hide Run, EscapeAll, ReadableText, Quoted, At, Print, ReadsAs, ParseValue, OnChar, NextChar;
    AdvanceToDelimiter(r, At(Quoted(EscapeAll(s)) + r, n).value);
    hide Advance, Behind;
    SimpleReadsAs(At(Quoted(EscapeAll(s)) + r, n).value, Str(s), r);
  }

  lemma ReadsKey(s: seq<byte>, r: seq<byte>, n: int)
    requires PlainText(s)
    ensures At(Quoted(s) + ([':' as int] + r), n) == Ok(Parser(Source([':' as int] + r, []), s, n, String))
    ensures Advance(At(Quoted(s) + ([':' as int] + r), n).value)
         == Ok(Parser(Source(r, []), [':' as int], n, Colon))
  {
    AtKey(s, [':' as int] + r, n);
    AdvancePunctuation(':' as int, r, n);
  }

  lemma AtKey(s: seq<byte>, t: seq<byte>, n: int)
    requires PlainText(s)
    ensures At(Quoted(s) + t, n) == Ok(Parser(Source(t, []), s, n, String))
  {
    var us :| Plain(us) && s == EncodeAll(us);
    hide Run, EncodeAll, Plain;
    var q := ['\"' as int];
    assert Quoted(s) + t == q + (s + (q + t));
    OpenQuote(s + (q + t), n);
    RunPlainString(Begin(n).(mode := InString), us, t);
    assert [] + EncodeAll(us) == s;
  }

  // ---- arrays and objects ----

  lemma {:induction false} InsertLast(ms: seq<Member>, m: Member)
    requires forall i :: 0 <= i < |ms| ==> Less(ms[i].key, m.key)
    ensures Insert(ms, m) == ms + [m]
  {
    if ms != [] {
      LessAsymmetric(ms[0].key, m.key);
      InsertLast(ms[1..], m);
    }
  }

  lemma {:induction false} LessAsymmetric(a: seq<byte>, b: seq<byte>)
    requires Less(a, b)
    ensures !Less(b, a)
    decreases |a|
  {
    if a != [] && a[0] == b[0] {
      LessAsymmetric(a[1..], b[1..]);
    }
  }

  function ItemsOf(e: Element): seq<Element>
  {
    if e.Array? then e.items else []
  }

  function MembersOf(e: Element): seq<Member>
  {
    if e.Object? then e.members else []
  }

  // The loop of `parse_array` makes `e` of `acc` and a text that goes on with `r`.
  predicate ArrayReadsAs(acc: Element, p: Verdict<Parser>, e: Element, r: seq<byte>)
    requires Ends(r)
  {
    p.Ok? && var v := ParseArray(acc, p.value);
    v.Ok? && v.value.0 == e && v.value.1 == Behind(r, v.value.1.number)
  }

  predicate ObjectReadsAs(acc: Element, p: Verdict<Parser>, e: Element, r: seq<byte>)
    requires Ends(r)
  {
    p.Ok? && var v := ParseObject(acc, p.value);
    v.Ok? && v.value.0 == e && v.value.1 == Behind(r, v.value.1.number)
  }

  // `parse_object` gets from the key at `p` to what is behind the value `m.value`.
  predicate MemberReadsAs(p: Verdict<Parser>, m: Member, r: seq<byte>)
    requires Ends(r)
  {
    && p.Ok? && p.value.lookahead == String && p.value.text == m.key
    && Advance(p.value).Ok? && Advance(p.value).value.lookahead == Colon
    && ReadsAs(Advance(Advance(p.value).value), m.value, r)
  }

  // The number left in the parser by the value at `p`.
  function NumberBehind(p: Verdict<Parser>): int
  {
    if p.Ok? && ParseValue(p.value).Ok? then ParseValue(p.value).value.1.number else 0
  }

  lemma AdvanceOverComma(rest: seq<byte>, n: int)
    ensures var q := Behind([',' as int] + rest, n); q.lookahead == Comma && Advance(q) == At(rest, n)
  {
    assert ([',' as int] + rest)[1..] == rest;
  }

  lemma ArrayStops(acc: Element, p: Verdict<Parser>, v: Element, r: seq<byte>)
    requires Ends(r) && Head(r) == ']' as int && ReadsAs(p, v, r)
    ensures ArrayReadsAs(acc, p, EmplaceBack(acc, v), r)
  {
  }

  lemma ArrayGoesOn(acc: Element, p: Verdict<Parser>, v: Element, rest: seq<byte>, e: Element, r: seq<byte>)
    requires Ends(r) && ReadsAs(p, v, [',' as int] + rest)
    requires ArrayReadsAs(EmplaceBack(acc, v), At(rest, NumberBehind(p)), e, r)
    ensures ArrayReadsAs(acc, p, e, r)
  {
    hide At;
    AdvanceOverComma(rest, NumberBehind(p));
  }

  lemma ObjectStops(acc: Element, p: Verdict<Parser>, m: Member, r: seq<byte>)
    requires Ends(r) && Head(r) == '}' as int && MemberReadsAs(p, m, r)
    ensures ObjectReadsAs(acc, p, Emplace(acc, m), r)
  {
  }

  lemma ObjectGoesOn(acc: Element, p: Verdict<Parser>, m: Member, rest: seq<byte>, n: int, e: Element, r: seq<byte>)
    requires Ends(r) && MemberReadsAs(p, m, [',' as int] + rest)
    requires n == NumberBehind(Advance(Advance(p.value).value))
    requires ObjectReadsAs(Emplace(acc, m), At(rest, n), e, r)
    ensures ObjectReadsAs(acc, p, e, r)
  {
    hide At;
    AdvanceOverComma(rest, n);
  }

  // ---- unfolding lists ----

  lemma UnfoldItems(items: seq<Element>, acc: Element, r: seq<byte>)
    requires items != []
    ensures |items| == 1 ==> PrintItems(items) + r == Print(items[0]) + r
    ensures |items| > 1 ==> PrintItems(items) + r == Print(items[0]) + ([',' as int] + (PrintItems(items[1..]) + r))
    ensures var acc' := EmplaceBack(acc, Nullified(items[0]));
      Array(ItemsOf(acc) + NullifiedItems(items)) == Array(ItemsOf(acc') + NullifiedItems(items[1..]))
    ensures |items| == 1 ==> Array(ItemsOf(acc) + NullifiedItems(items)) == EmplaceBack(acc, Nullified(items[0]))
  {
    hide Print, Nullified;
    Reassociate(ItemsOf(acc), [Nullified(items[0])], NullifiedItems(items[1..]), []);
    if |items| == 1 {
      assert NullifiedItems(items[1..]) == [];
      Reassociate(Print(items[0]), [], [], r);
    } else {
      Reassociate(Print(items[0]), [',' as int], PrintItems(items[1..]), r);
    }
  }

  lemma Reassociate<T>(a: seq<T>, b: seq<T>, c: seq<T>, d: seq<T>)
    ensures a + (b + c) + d == a + (b + (c + d)) && a + (b + c) == a + b + c
    ensures a + [] + d == a + d && a + b + [] == a + b
  {
  }

  lemma UnfoldMembers(ms: seq<Member>, acc: Element, r: seq<byte>)
    requires ms != [] && Sorted(MembersOf(acc) + ms)
    ensures |ms| == 1 ==> PrintMembers(ms) + r == PrintMember(ms[0]) + r
    ensures |ms| > 1 ==> PrintMembers(ms) + r == PrintMember(ms[0]) + ([',' as int] + (PrintMembers(ms[1..]) + r))
    ensures var acc' := Emplace(acc, Member(ms[0].key, Nullified(ms[0].value)));
      && Object(MembersOf(acc) + NullifiedMembers(ms)) == Object(MembersOf(acc') + NullifiedMembers(ms[1..]))
      && Sorted(MembersOf(acc') + ms[1..])
      && (|ms| == 1 ==> Object(MembersOf(acc) + NullifiedMembers(ms)) == acc')
  {
    hide Print, PrintMember, Nullified;
    var m := Member(ms[0].key, Nullified(ms[0].value));
    var done := MembersOf(acc);
    KeysBefore(done, ms);
    InsertLast(done, m);
    SortedAgain(done, ms, m);
    hide Insert, Sorted, Less;
    Reassociate(done, [m], NullifiedMembers(ms[1..]), []);
    if |ms| == 1 {
      assert NullifiedMembers(ms[1..]) == [];
      Reassociate(PrintMember(ms[0]), [], [], r);
    } else {
      Reassociate(PrintMember(ms[0]), [',' as int], PrintMembers(ms[1..]), r);
    }
  }

  lemma KeysBefore(done: seq<Member>, ms: seq<Member>)
    requires ms != [] && Sorted(done + ms)
    ensures forall i :: 0 <= i < |done| ==> Less(done[i].key, ms[0].key)
  {
    var a := done + ms;
    assert a[|done|] == ms[0] && forall i :: 0 <= i < |done| ==> a[i] == done[i];
  }

  lemma SortedAgain(done: seq<Member>, ms: seq<Member>, m: Member)
    requires ms != [] && Sorted(done + ms) && m.key == ms[0].key
    ensures Sorted(done + [m] + ms[1..])
  {
    var a, b := done + ms, done + [m] + ms[1..];
    assert forall i :: 0 <= i < |a| ==> a[i].key == b[i].key;
  }

  // ---- the mutual induction ----

  // The loop of `parse_array` from the first token of the items on.
  lemma {:induction false} ReadsItems(items: seq<Element>, acc: Element, r: seq<byte>, n: int)
    requires items != [] && (forall i :: 0 <= i < |items| ==> Printable(items[i]))
    requires Ends(r) && Head(r) == ']' as int
    ensures ArrayReadsAs(acc, At(PrintItems(items) + r, n), Array(ItemsOf(acc) + NullifiedItems(items)), r)
    decreases items, 0
  {
    hide Print, PrintItems, Nullified, NullifiedItems, At, ArrayReadsAs, ReadsAs, Printable, NumberBehind;
    UnfoldItems(items, acc, r);
    var p := At(PrintItems(items) + r, n);
    var v := Nullified(items[0]);
    if |items| == 1 {
      Reads(items[0], r, n);
      ArrayStops(acc, p, v, r);
    } else {
      var rest := PrintItems(items[1..]) + r;
      Reads(items[0], [',' as int] + rest, n);
      ReadsItems(items[1..], EmplaceBack(acc, v), r, NumberBehind(p));
      ArrayGoesOn(acc, p, v, rest, Array(ItemsOf(acc) + NullifiedItems(items)), r);
    }
  }

  lemma {:induction false} ReadsMembers(ms: seq<Member>, acc: Element, r: seq<byte>, n: int)
    requires ms != [] && Sorted(MembersOf(acc) + ms)
    requires forall i :: 0 <= i < |ms| ==> PlainText(ms[i].key) && Printable(ms[i].value)
    requires Ends(r) && Head(r) == '}' as int
    ensures ObjectReadsAs(acc, At(PrintMembers(ms) + r, n), Object(MembersOf(acc) + NullifiedMembers(ms)), r)
    decreases ms, 0
  {
    hide Print, PrintMember, PrintMembers, Nullified, NullifiedMembers, At, ObjectReadsAs, MemberReadsAs,
         Printable, PlainText, Sorted, NumberBehind;
    UnfoldMembers(ms, acc, r);
    var p := At(PrintMembers(ms) + r, n);
    var m := Member(ms[0].key, Nullified(ms[0].value));
    if |ms| == 1 {
      ReadsMember(ms[0], r, n);
      ObjectStops(acc, p, m, r);
    } else {
      var rest := PrintMembers(ms[1..]) + r;
      ReadsMember(ms[0], [',' as int] + rest, n);
      var k := NumberBehindMember(p, m, [',' as int] + rest);
      ReadsMembers(ms[1..], Emplace(acc, m), r, k);
      ObjectGoesOn(acc, p, m, rest, k, Object(MembersOf(acc) + NullifiedMembers(ms)), r);
    }
  }

  lemma NumberBehindMember(p: Verdict<Parser>, m: Member, r: seq<byte>) returns (k: int)
    requires Ends(r) && MemberReadsAs(p, m, r)
    ensures p.Ok? && Advance(p.value).Ok? && k == NumberBehind(Advance(Advance(p.value).value))
  {
    k := NumberBehind(Advance(Advance(p.value).value));
  }

  // One member: its key, a colon, and its value.
  lemma {:induction false} ReadsMember(m: Member, r: seq<byte>, n: int)
    requires PlainText(m.key) && Printable(m.value) && Ends(r)
    ensures MemberReadsAs(At(PrintMember(m) + r, n), Member(m.key, Nullified(m.value)), r)
    decreases m.value, 2
  {
    var v := Print(m.value) + r;
    assert PrintMember(m) + r == Quoted(m.key) + ([':' as int] + v);
    hide Print, PrintMember, Quoted, Run, PlainText, Printable, Nullified, ParseValue;
    ReadsKey(m.key, v, n);
    Reads(m.value, r, n);
    var colon := Advance(At(PrintMember(m) + r, n).value).value;
    assert Advance(colon) == At(v, n);
  }

  lemma {:induction false} ReadsArray(items: seq<Element>, r: seq<byte>, n: int)
    requires (forall i :: 0 <= i < |items| ==> Printable(items[i])) && Ends(r)
    ensures ReadsAs(At(Print(Array(items)) + r, n), Nullified(Array(items)), r)
    decreases items, 1
  {
    hide Printable, Run, ReadsAs;
    var close := [']' as int] + r;
    var text := PrintItems(items) + close;
    assert Print(Array(items)) + r == ['[' as int] + text;
    AdvancePunctuation('[' as int, text, n);
    if items == [] {
      assert text == close;
      AdvancePunctuation(']' as int, r, n);
      EmptyBracket('[' as int, At(['[' as int] + text, n).value, r);
    } else {
      ReadsItems(items, Null, close, n);
      assert ItemsOf(Null) + NullifiedItems(items) == NullifiedItems(items);
      hide Print, PrintItems, NullifiedItems;
      BracketReadsAs(At(['[' as int] + text, n).value, text, Array(NullifiedItems(items)), r);
    }
  }

  lemma EmptyBracket(c: byte, p: Parser, r: seq<byte>)
    requires Ends(r) && (c == '[' as int || c == '{' as int)
    requires p.lookahead == Punctuation(c)
    requires Advance(p) == Ok(Parser(Source(r, []), [c + 2], p.number, Punctuation(c + 2)))
    ensures ReadsAs(Ok(p), Null, r)
  {
    var q := Advance(p).value;
    AdvanceToDelimiter(r, q);
    hide Advance;
    if c == '[' as int {
      assert ParseArray(Null, q) == Ok((Null, q));
      assert ParseValue(p) == Ok((Null, Behind(r, q.number)));
    } else {
      assert ParseObject(Null, q) == Ok((Null, q));
      assert ParseValue(p) == Ok((Null, Behind(r, q.number)));
    }
  }

  lemma BracketReadsAs(p: Parser, text: seq<byte>, e: Element, r: seq<byte>)
    requires p.lookahead == LeftBracket && Ends(r) && Advance(p) == At(text, p.number)
    requires ArrayReadsAs(Null, Advance(p), e, [']' as int] + r)
    ensures ReadsAs(Ok(p), e, r)
  {
    var close := [']' as int] + r;
    assert close[1..] == r;
    var q := ParseArray(Null, Advance(p).value).value.1;
    AdvanceToDelimiter(r, q);
  }

  lemma BraceReadsAs(p: Parser, text: seq<byte>, e: Element, r: seq<byte>)
    requires p.lookahead == LeftBrace && Ends(r) && Advance(p) == At(text, p.number)
    requires ObjectReadsAs(Null, Advance(p), e, ['}' as int] + r)
    ensures ReadsAs(Ok(p), e, r)
  {
    var close := ['}' as int] + r;
    assert close[1..] == r;
    var q := ParseObject(Null, Advance(p).value).value.1;
    AdvanceToDelimiter(r, q);
  }

  lemma {:induction false} ReadsObject(ms: seq<Member>, r: seq<byte>, n: int)
    requires Sorted(ms) && (forall i :: 0 <= i < |ms| ==> PlainText(ms[i].key) && Printable(ms[i].value)) && Ends(r)
    ensures ReadsAs(At(Print(Object(ms)) + r, n), Nullified(Object(ms)), r)
    decreases ms, 1
  {
    var close := ['}' as int] + r;
    var text := PrintMembers(ms) + close;
    ObjectText(ms, r);
    hide Printable, PlainText, Run, ReadsAs, Print, PrintMembers, NullifiedMembers, Sorted, MembersOf;
    AdvancePunctuation('{' as int, text, n);
    if ms == [] {
      AdvancePunctuation('}' as int, r, n);
      EmptyBracket('{' as int, At(['{' as int] + text, n).value, r);
    } else {
      ReadsMembers(ms, Null, close, n);
      BraceReadsAs(At(['{' as int] + text, n).value, text, Object(NullifiedMembers(ms)), r);
    }
  }

  lemma ObjectText(ms: seq<Member>, r: seq<byte>)
    ensures Print(Object(ms)) + r == ['{' as int] + (PrintMembers(ms) + (['}' as int] + r))
    ensures ms == [] ==> PrintMembers(ms) + (['}' as int] + r) == ['}' as int] + r
    ensures MembersOf(Null) + ms == ms && MembersOf(Null) + NullifiedMembers(ms) == NullifiedMembers(ms)
    ensures Nullified(Object(ms)) == if ms == [] then Null else Object(NullifiedMembers(ms))
  {
  }

  lemma {:induction false} Reads(e: Element, r: seq<byte>, n: int)
    requires Printable(e) && Ends(r)
    ensures ReadsAs(At(Print(e) + r, n), Nullified(e), r)
    decreases e, 1
  {
    match e
    case Null => ReadsLiteral(e, r, n);
    case Boolean(_) => ReadsLiteral(e, r, n);
    case Int(k) => ReadsInteger(k, r, n);
    case Str(s) => ReadsString(s, r, n);
    case Array(items) => ReadsArray(items, r, n);
    case Object(ms) => ReadsObject(ms, r, n);
  }

  /** Parsing what `serialize` printed gives the element back, empty containers as null. */
  lemma RoundTrip(e: Element)
    requires Printable(e)
    ensures Parse(Print(e)) == Ok(Nullified(e))
  {
    assert Print(e) + [] == Print(e);
    Reads(e, [], 0);
  }

  // ---- a key that is not read back ----

  lemma {:induction false} Unterminated(l: Lexer, w: seq<byte>)
    requires l.mode == InString && l.token == Undef
    requires forall i :: 0 <= i < |w| ==> 0 < w[i] < 0x80 && w[i] != '\"' as int && w[i] != '\\' as int
    ensures Run(l, Source(w, [])) == Error
    decreases |w|
  {
    if w != [] {
      var l' := l.(text := l.text + [w[0]]);
      ReadAscii(w[0], w[1..]);
      FirstByte(w[0]);
      assert w == [w[0]] + w[1..];
      Turn(l, Source(w, []), w[0], Source(w[1..], []), l');
      hide Run, NextChar;
      Unterminated(l', w[1..]);
    }
  }

  // An object with a quotation mark for a key.
  const QUOTED_KEY: Element := Object([Member(['\"' as int], Null)])

  /** Keys are not escaped, so one with a quotation mark makes a text that is not JSON. */
  lemma KeyIsNotEscaped()
    ensures Parse(Print(QUOTED_KEY)) == Error
  {
    var q := ['\"' as int];
    var tail := Ascii(":null}");
    QuotedKeyText();
    AdvancePunctuation('{' as int, q + (q + (q + tail)), 0);
    var p := Parser(Source(q + (q + (q + tail)), []), ['{' as int], 0, LeftBrace);
    EmptyString(p, q + tail);
    UnterminatedString(tail);
    hide *;
    ObjectFails(p, Parser(Source(q + tail, []), [], 0, String));
    ParseFails(['{' as int] + (q + (q + (q + tail))), p);
  }

  lemma EmptyString(p: Parser, r: seq<byte>)
    requires p.src == Source(['\"' as int] + (['\"' as int] + r), [])
    ensures Advance(p) == Ok(Parser(Source(r, []), [], p.number, String))
  {
    OpenQuote(['\"' as int] + r, p.number);
    RunQuote(Begin(p.number).(mode := InString), r);
    hide Run;
  }

  lemma UnterminatedString(r: seq<byte>)
    requires r == Ascii(":null}")
    ensures Advance(Parser(Source(['\"' as int] + r, []), [], 0, String)) == Error
  {
    OpenQuote(r, 0);
    PlainTail();
    hide *;
    Unterminated(Begin(0).(mode := InString), r);
    RunFails(Parser(Source(['\"' as int] + r, []), [], 0, String));
  }

  lemma PlainTail()
    ensures var w := Ascii(":null}");
      forall i :: 0 <= i < |w| ==> 0 < w[i] < 0x80 && w[i] != '\"' as int && w[i] != '\\' as int
    ensures Begin(0).(mode := InString).mode == InString && Begin(0).(mode := InString).token == Undef
  {
  }

  lemma RunFails(p: Parser)
    requires Begin(p.number).token == Undef && Run(Begin(p.number), p.src) == Error
    ensures Advance(p) == Error
  {
    hide Run;
  }

  lemma ObjectFails(p: Parser, p': Parser)
    requires p.lookahead == LeftBrace && Advance(p) == Ok(p') && p'.lookahead == String && Advance(p') == Error
    ensures ParseValue(p) == Error
  {
    hide Advance;
    assert ParseObject(Null, p') == Error;
  }

  lemma ParseFails(input: seq<byte>, p: Parser)
    requires At(input, 0) == Ok(p) && ParseValue(p) == Error
    ensures Parse(input) == Error
  {
    hide Advance, ParseValue;
  }

  lemma QuotedKeyText()
    ensures var q := ['\"' as int];
      Print(QUOTED_KEY) == ['{' as int] + (q + (q + (q + Ascii(":null}"))))
    ensures Punctuation('{' as int) == LeftBrace
  {
    var q := ['\"' as int];
    var m := QUOTED_KEY.members[0];
    assert PrintMembers([m]) == PrintMember(m) + [] == PrintMember(m);
    assert PrintMember(m) == q + q + q + [':' as int] + Ascii("null");
    assert Print(QUOTED_KEY) == ['{' as int] + PrintMember(m) + ['}' as int];
    assert Ascii(":null}") == [':' as int] + Ascii("null") + ['}' as int];
    hide *;
  }
}
