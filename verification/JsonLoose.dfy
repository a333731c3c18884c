/**
 Printed elements with white space put between their tokens, and what the other spellings of a
 string come to.
 */
module JsonLoose {
  import opened Utf8
  import opened Sequences
  import opened Text
  import opened Numerals
  import opened JsonElement
  import opened JsonLexer
  import opened JsonParser
  import opened JsonTokens
  import opened JsonRoundTrip
  import opened JsonForms
  import opened JsonGrammar
  import opened JsonSpaces

  // The text of the tokens without white space.
  function Joined(ts: seq<Lexeme>): seq<byte>
  {
    if ts == [] then [] else ts[0].bytes + Joined(ts[1..])
  }

  lemma JoinedWith(t: Lexeme, ts: seq<Lexeme>)
    ensures Joined([t] + ts) == t.bytes + Joined(ts)
  {
    FirstOf([t], ts);
    Unit(ts);
  }

  // ---- the form in which an element is printed ----

  function SpellingOf(u: unicode): Spelling
  {
    if u == 34 then Short(0)
    else if u == 92 then Short(1)
    else if u == 47 then Short(2)
    else if u == 8 then Short(3)
    else if u == 10 then Short(5)
    else if u == 13 then Short(6)
    else if u == 9 then Short(7)
    else if u < 0x20 then Code([48, 48, HexDigit(u / 16), HexDigit(u % 16)], u)
    else Raw(u)
  }

  lemma SpellingOfIs(u: unicode)
    requires Readable(u)
    ensures Proper(SpellingOf(u)) && Spelled(SpellingOf(u)) == EscapeAll(Encode(u)) && Meant(SpellingOf(u)) == u
  {
    EscapeEncode(u);
    hide EscapeAll, Spells, HexDigit;
    if u in {34, 92, 47, 8, 10, 13, 9} {
      ShortSpelled(u);
      hide *;
    } else if u < 0x20 {
      ControlSpelled(u);
    } else if u < 0x80 {
      assert Encode(u) == Escape(u);
    }
  }

  lemma ShortSpelled(u: byte)
    requires u in {34, 92, 47, 8, 10, 13, 9}
    ensures Proper(SpellingOf(u)) && Spelled(SpellingOf(u)) == Escape(u) && Meant(SpellingOf(u)) == u
  {
    hide Encode, EscapeAll, HexDigit;
  }

  lemma ControlSpelled(u: byte)
    requires u < 0x20
    ensures var s: seq<byte> := [48, 48, HexDigit(u / 16), HexDigit(u % 16)];
      Spells(s, 16, u) && Ascii("\\u00") + [HexDigit(u / 16), HexDigit(u % 16)] == [92, 117] + s
  {
    var s: seq<byte> := [48, 48, HexDigit(u / 16), HexDigit(u % 16)];
    assert Spells(s[..1], 16, 0) && Spells(s[..2], 16, 0) by {
      assert s[..2][..1] == s[..1];
    }
    assert s[..3][..2] == s[..2] && s[..4] == s;
    assert u / 16 / 16 == 0 && Spells(s[..3], 16, u / 16);
  }

  function SpellingsOf(us: seq<unicode>): seq<Spelling>
  {
    seq(|us|, i requires 0 <= i < |us| => SpellingOf(us[i]))
  }

  lemma {:induction false} SpellingsOfIs(us: seq<unicode>)
    requires AllReadable(us)
    ensures var xs := SpellingsOf(us);
      AllProper(xs) && SpelledAll(xs) == EscapeAll(EncodeAll(us)) && MeantAll(xs) == EncodeAll(us)
    decreases |us|
  {
    hide SpellingOf, Proper, EscapeAll, Encode, Spelled, Meant;
    var xs := SpellingsOf(us);
    if us == [] {
      EscapeNothing([]);
    } else {
      SpellingOfIs(us[0]);
      SpellingsOfIs(us[1..]);
      assert xs[1..] == SpellingsOf(us[1..]);
      Tail(xs);
      EscapeAllConcat(Encode(us[0]), EncodeAll(us[1..]));
    }
  }

  lemma Tail(xs: seq<Spelling>)
    requires xs != [] && Proper(xs[0]) && AllProper(xs[1..])
    ensures AllProper(xs)
  {
    hide Proper;
    assert xs == [xs[0]] + xs[1..];
  }

  function RawAll(us: seq<unicode>): seq<Spelling>
  {
    seq(|us|, i requires 0 <= i < |us| => Raw(us[i]))
  }

  lemma {:induction false} RawAllIs(us: seq<unicode>)
    requires Plain(us)
    ensures var xs := RawAll(us); AllProper(xs) && SpelledAll(xs) == EncodeAll(us) && MeantAll(xs) == EncodeAll(us)
    decreases |us|
  {
    hide Encode;
    var xs := RawAll(us);
    if us != [] {
      RawAllIs(us[1..]);
      assert xs[1..] == RawAll(us[1..]);
      Tail(xs);
    }
  }

  // ---- the form of an element ----

  lemma TextForm(s: seq<byte>) returns (xs: seq<Spelling>)
    requires ReadableText(s)
    ensures AllProper(xs) && SpelledAll(xs) == EscapeAll(s) && MeantAll(xs) == s
  {
    var us :| AllReadable(us) && s == EncodeAll(us);
    SpellingsOfIs(us);
    xs := SpellingsOf(us);
  }

  lemma KeyForm(s: seq<byte>) returns (xs: seq<Spelling>)
    requires PlainText(s)
    ensures AllProper(xs) && SpelledAll(xs) == s && MeantAll(xs) == s
  {
    var us :| Plain(us) && s == EncodeAll(us);
    RawAllIs(us);
    xs := RawAll(us);
  }

  // The form `f` of an element is printed as `s` and read as `e`.
  ghost predicate Gives(f: Form, s: seq<byte>, e: Element)
  {
    Written(f) && Sound(f) && Value(f) == e && forall ts :: Joined(Tokens(f, ts)) == s + Joined(ts)
  }

  ghost predicate WrittenMember(m: MemberForm)
  {
    WrittenString(m.key) && m.key.kind == String && Written(m.value) && Sound(m.value)
  }

  ghost predicate ItemsGive(fs: seq<Form>, s: seq<byte>, es: seq<Element>)
  {
    && (forall g <- fs :: Written(g) && Sound(g)) && Values(fs) == es
    && forall ts :: Joined(ItemTokens(fs, false, ts)) == s + Joined(ts)
  }

  ghost predicate MembersGive(ms: seq<MemberForm>, s: seq<byte>, e: Element, e': Element)
  {
    && (forall m <- ms :: WrittenMember(m)) && WithMembers(e, ms) == e'
    && forall ts :: Joined(MemberTokens(ms, false, ts)) == s + Joined(ts)
  }

  lemma Enclosed(a: byte, s: seq<byte>, b: byte, t: seq<byte>)
    ensures [a] + (s + ([b] + t)) == [a] + s + [b] + t
  {
    Associate([a] + s, [b], t);
    Associate([a], s, [b] + t);
  }

  lemma ArrayGives(fs: seq<Form>, s: seq<byte>, es: seq<Element>)
    requires ItemsGive(fs, s, es)
    ensures Gives(ArrayForm(fs, false), ['[' as int] + s + [']' as int], if fs == [] then Null else Array(es))
  {
    var f := ArrayForm(fs, false);
    forall ts
      ensures Joined(Tokens(f, ts)) == ['[' as int] + s + [']' as int] + Joined(ts)
    {
      hide Joined, ItemTokens;
      var close := [Mark(']' as int)] + ts;
      JoinedWith(Mark(']' as int), ts);
      JoinedWith(Mark('[' as int), ItemTokens(fs, false, close));
      Enclosed('[' as int, s, ']' as int, Joined(ts));
    }
    hide Tokens, Joined;
  }

  lemma ObjectGives(ms: seq<MemberForm>, s: seq<byte>, e: Element)
    requires MembersGive(ms, s, Null, e)
    ensures Gives(ObjectForm(ms, false), ['{' as int] + s + ['}' as int], e)
  {
    var f := ObjectForm(ms, false);
    forall ts
      ensures Joined(Tokens(f, ts)) == ['{' as int] + s + ['}' as int] + Joined(ts)
    {
      hide Joined, MemberTokens;
      var close := [Mark('}' as int)] + ts;
      JoinedWith(Mark('}' as int), ts);
      JoinedWith(Mark('{' as int), MemberTokens(ms, false, close));
      Enclosed('{' as int, s, '}' as int, Joined(ts));
    }
    hide Tokens, Joined;
  }

  // What is behind a first part: a comma and more, or nothing.
  function Then(s: seq<byte>, more: bool, t: seq<byte>): seq<byte>
  {
    s + if more then [',' as int] + t else []
  }

  lemma JoinedThen(s: seq<byte>, t: seq<byte>, u: seq<byte>)
    ensures s + ([',' as int] + (t + u)) == Then(s, true, t) + u && s + u == Then(s, false, t) + u
  {
    Unit(s);
    Associate(s, [',' as int] + t, u);
    Associate([',' as int], t, u);
  }

  lemma FirstItemGives(f: Form, fs: seq<Form>, s: seq<byte>, t: seq<byte>, e: Element, es: seq<Element>)
    requires Gives(f, s, e) && ItemsGive(fs, t, es)
    ensures ItemsGive([f] + fs, Then(s, fs != [], t), [e] + es)
  {
    var gs := [f] + fs;
    FirstOf([f], fs);
    Unit(fs);
    assert forall g <- gs :: g == f || g in fs;
    forall ts
      ensures Joined(ItemTokens(gs, false, ts)) == Then(s, fs != [], t) + Joined(ts)
    {
      var more := ItemTokens(fs, false, ts);
      hide Joined, Tokens, Then;
      JoinedWith(Mark(',' as int), more);
      JoinedThen(s, t, Joined(ts));
    }
    hide Joined, Tokens, Then, Value, Sound;
  }

  lemma FirstMemberTokens(m: MemberForm, ms: seq<MemberForm>, ts: seq<Lexeme>)
    ensures MemberTokens([m] + ms, false, ts)
         == [m.key] + ([Mark(':' as int)]
                       + Tokens(m.value, if ms == [] then ts else [Mark(',' as int)] + MemberTokens(ms, false, ts)))
  {
    FirstOf([m], ms);
    Unit(ms);
    hide Tokens, Mark;
  }

  // A key as it is spelled, a colon, and a value.
  function KeyAndValue(k: seq<byte>, s: seq<byte>): seq<byte>
  {
    [34] + (k + [34]) + ([':' as int] + s)
  }

  lemma FirstMemberJoined(xs: seq<Spelling>, f: Form, ms: seq<MemberForm>, s: seq<byte>, t: seq<byte>, e: Element,
                          e1: Element, e2: Element, ts: seq<Lexeme>)
    requires AllProper(xs) && Gives(f, s, e) && MembersGive(ms, t, e1, e2)
    ensures Joined(MemberTokens([MemberForm(StringOf(xs), f)] + ms, false, ts))
         == Then(KeyAndValue(SpelledAll(xs), s), ms != [], t) + Joined(ts)
  {
    FirstMemberTokens(MemberForm(StringOf(xs), f), ms, ts);
    var comma := [Mark(',' as int)] + MemberTokens(ms, false, ts);
    var next := if ms == [] then ts else comma;
    var key := [34] + (SpelledAll(xs) + [34]);
    JoinedWith(Mark(',' as int), MemberTokens(ms, false, ts));
    JoinedWith(Mark(':' as int), Tokens(f, next));
    JoinedWith(StringOf(xs), [Mark(':' as int)] + Tokens(f, next));
    assert Joined(Tokens(f, next)) == s + Joined(next);
    assert Joined(MemberTokens(ms, false, ts)) == t + Joined(ts);
    KeyParts(key, s, Joined(next));
    assert KeyAndValue(SpelledAll(xs), s) == key + ([':' as int] + s);
    assert StringOf(xs).bytes == key && Mark(':' as int).bytes == [':' as int];
    assert Mark(',' as int).bytes == [',' as int];
    hide *;
    JoinedThen(KeyAndValue(SpelledAll(xs), s), t, Joined(ts));
  }

  lemma FirstMemberGives(xs: seq<Spelling>, f: Form, ms: seq<MemberForm>, s: seq<byte>, t: seq<byte>,
                         m: Member, e: Element, e': Element)
    requires AllProper(xs) && MeantAll(xs) == m.key && Gives(f, s, m.value) && MembersGive(ms, t, Emplace(e, m), e')
    ensures MembersGive([MemberForm(StringOf(xs), f)] + ms, Then(KeyAndValue(SpelledAll(xs), s), ms != [], t), e, e')
  {
    var first := MemberForm(StringOf(xs), f);
    var gs := [first] + ms;
    FirstOf([first], ms);
    Unit(ms);
    hide Tokens, Joined, MemberTokens, Then, KeyAndValue, SpelledAll, MeantAll;
    assert WrittenMember(first);
    hide Written, Sound, Value, WrittenMember;
    assert forall g <- gs :: g == first || g in ms;
    assert WithMembers(e, gs) == e';
    forall ts
      ensures Joined(MemberTokens(gs, false, ts))
           == Then(KeyAndValue(SpelledAll(xs), s), ms != [], t) + Joined(ts)
    {
      hide *;
      FirstMemberJoined(xs, f, ms, s, t, m.value, Emplace(e, m), e', ts);
    }
  }

  lemma KeyParts(k: seq<byte>, s: seq<byte>, u: seq<byte>)
    ensures k + ([':' as int] + (s + u)) == k + ([':' as int] + s) + u
  {
    Associate([':' as int], s, u);
    Associate(k, [':' as int] + s, u);
  }

  lemma ScalarGives(t: Lexeme) returns (f: Form)
    requires WrittenScalar(t)
    ensures Gives(f, t.bytes, ScalarOf(t))
  {
    f := Leaf(t);
    ScalarIsLexeme(t);
    forall ts
      ensures Joined(Tokens(f, ts)) == t.bytes + Joined(ts)
    {
      JoinedWith(t, ts);
    }
    hide Joined, WrittenScalar;
  }

  lemma {:induction false} PrintedForm(e: Element) returns (f: Form)
    requires Printable(e)
    ensures Gives(f, Print(e), Nullified(e))
    decreases e
  {
    hide *;
    match e
    case Array(items) =>
      f := PrintedArray(items);
    case Object(members) =>
      f := PrintedObject(members);
    case _ =>
      f := PrintedScalar(e);
  }

  lemma {:induction false} PrintedArray(items: seq<Element>) returns (f: Form)
    requires Printable(Array(items))
    ensures Gives(f, Print(Array(items)), Nullified(Array(items)))
    decreases items, 1
  {
    hide Gives, ItemsGive;
    var fs := PrintedItems(items);
    ArrayGives(fs, PrintItems(items), NullifiedItems(items));
    f := ArrayForm(fs, false);
  }

  lemma {:induction false} PrintedObject(members: seq<Member>) returns (f: Form)
    requires Printable(Object(members))
    ensures Gives(f, Print(Object(members)), Nullified(Object(members)))
    decreases members, 1
  {
    hide Gives, MembersGive, PlainText, Sorted;
    Unit(members);
    Unit(NullifiedMembers(members));
    var ms := PrintedMembers(members, Null);
    ObjectGives(ms, PrintMembers(members), Nullified(Object(members)));
    f := ObjectForm(ms, false);
  }

  lemma PrintedScalar(e: Element) returns (f: Form)
    requires Printable(e) && !e.Array? && !e.Object?
    ensures Gives(f, Print(e), Nullified(e))
  {
    hide Gives;
    match e
    case Null =>
      f := ScalarGives(NULL_WORD);
    case Boolean(b) =>
      f := ScalarGives(if b then TRUE_WORD else FALSE_WORD);
    case Int(n) =>
      f := ScalarGives(Numeral(n));
    case Str(s) =>
      var xs := TextForm(s);
      Associate([34], SpelledAll(xs), [34]);
      f := ScalarGives(StringOf(xs));
  }

  lemma {:induction false} PrintedItems(items: seq<Element>) returns (fs: seq<Form>)
    requires forall i :: 0 <= i < |items| ==> Printable(items[i])
    ensures |fs| == |items| && ItemsGive(fs, PrintItems(items), NullifiedItems(items))
    decreases items, 0
  {
    fs := [];
    if items != [] {
      var f := PrintedForm(items[0]);
      var more := PrintedItems(items[1..]);
      FirstItemGives(f, more, Print(items[0]), PrintItems(items[1..]), Nullified(items[0]), NullifiedItems(items[1..]));
      fs := [f] + more;
    }
  }

  // What the members make of the element `acc`.
  function Gathered(acc: Element, ms: seq<Member>): Element
  {
    if ms == [] then acc else Object(MembersOf(acc) + NullifiedMembers(ms))
  }

  lemma NoMembers(acc: Element)
    ensures MembersGive([], PrintMembers([]), acc, Gathered(acc, []))
  {
    hide Joined;
    assert forall s: seq<byte> :: [] + s == s;
  }

  lemma PrintedParts(ms: seq<Member>)
    requires ms != []
    ensures PrintMembers(ms) == Then(KeyAndValue(ms[0].key, Print(ms[0].value)), ms[1..] != [], PrintMembers(ms[1..]))
  {
    hide Print;
    var (k, s) := (ms[0].key, Print(ms[0].value));
    Associate([34], k, [34]);
    Associate([34] + (k + [34]), [':' as int], s);
    assert PrintMember(ms[0]) == KeyAndValue(k, s);
  }

  lemma {:induction false} PrintedMembers(ms: seq<Member>, acc: Element) returns (fs: seq<MemberForm>)
    requires Sorted(MembersOf(acc) + ms)
    requires forall i :: 0 <= i < |ms| ==> PlainText(ms[i].key) && Printable(ms[i].value)
    ensures |fs| == |ms|
    ensures MembersGive(fs, PrintMembers(ms), acc, Gathered(acc, ms))
    decreases ms, 0
  {
    fs := [];
    if ms == [] {
      NoMembers(acc);
    } else {
      hide Joined, Tokens, MemberTokens, Then, KeyAndValue, Value, Sound, MeantAll, WithMembers, SpelledAll, PlainText,
           StringOf, PrintMembers, PrintMember, Print, Sorted, Insert, MembersGive, Gives, Printable, Nullified,
           NullifiedMembers;
      var m := Member(ms[0].key, Nullified(ms[0].value));
      var xs := KeyForm(m.key);
      var f := PrintedForm(ms[0].value);
      UnfoldMembers(ms, acc, []);
      var more := PrintedMembers(ms[1..], Emplace(acc, m));
      var e := Gathered(acc, ms);
      FirstMemberGives(xs, f, more, Print(ms[0].value), PrintMembers(ms[1..]), m, acc, e);
      fs := [MemberForm(StringOf(xs), f)] + more;
      PrintedParts(ms);
    }
  }

  /** A printed element is parsed back, wherever white space is put between its tokens. */
  lemma LooseRoundTrip(e: Element) returns (f: Form)
    requires Printable(e)
    ensures Written(f) && Joined(Tokens(f, [])) == Print(e)
    ensures forall s :: Spaced(s, Tokens(f, [])) ==> Parse(s) == Ok(Nullified(e))
  {
    hide Printable, Print, Nullified, Tokens, Value, Parse, Written, Sound;
    f := PrintedForm(e);
    Unit(Print(e));
    forall s | Spaced(s, Tokens(f, []))
      ensures Parse(s) == Ok(Nullified(e))
    {
      EveryFormIsRead(f, s);
    }
  }

  // ---- two escapes for one character ----

  /** The escapes of a surrogate pair are read as two characters, and not as the one they stand for. */
  lemma EscapedPair(high: seq<byte>, h: unicode, low: seq<byte>, l: unicode)
    requires |high| == 4 && Spells(high, 16, h) && 0xD800 <= h <= 0xDBFF
    requires |low| == 4 && Spells(low, 16, l) && 0xDC00 <= l <= 0xDFFF
    ensures Parse([34, 92, 117] + high + [92, 117] + low + [34]) == Ok(Str(Encode(h) + Encode(l)))
    ensures Encode(h) + Encode(l) != Encode((h - 0xD800) * 0x400 + (l - 0xDC00) + 0x1_0000)
  {
    var xs := [Code(high, h), Code(low, l)];
    PairProper(high, h, low, l);
    TwoSpellings(xs[0], xs[1]);
    PairParts(high, low);
    SurrogateLength(h);
    SurrogateLength(l);
    hide Parse, Encode, Spells, SpelledAll, MeantAll, AllProper;
    AloneRead(xs);
  }

  lemma PairProper(high: seq<byte>, h: unicode, low: seq<byte>, l: unicode)
    requires |high| == 4 && Spells(high, 16, h) && |low| == 4 && Spells(low, 16, l)
    ensures AllProper([Code(high, h), Code(low, l)])
  {
    hide Spells;
  }

  lemma SurrogateLength(u: unicode)
    requires 0xD800 <= u <= 0xDFFF
    ensures |Encode(u)| == 3
  {
  }

  lemma TwoSpellings(a: Spelling, b: Spelling)
    requires AllProper([a, b])
    ensures SpelledAll([a, b]) == Spelled(a) + Spelled(b) && MeantAll([a, b]) == Encode(Meant(a)) + Encode(Meant(b))
  {
    hide Encode, Spelled, Meant, Proper;
    assert [a, b][1..] == [b] && [b][1..] == [] && AllProper([b]);
    assert SpelledAll([b]) == Spelled(b) + [] && MeantAll([b]) == Encode(Meant(b)) + [];
    Unit(Spelled(b));
    Unit(Encode(Meant(b)));
  }

  lemma PairParts(high: seq<byte>, low: seq<byte>)
    ensures [34] + (([92, 117] + high) + ([92, 117] + low) + [34])
         == [34, 92, 117] + high + [92, 117] + low + [34]
  {
  }

  // A string without any white space around it.
  lemma AloneRead(xs: seq<Spelling>)
    requires AllProper(xs)
    ensures Parse([34] + (SpelledAll(xs) + [34])) == Ok(Str(MeantAll(xs)))
  {
    var t := StringOf(xs);
    Alone(t);
    Unit([t]);
    hide Parse, SpelledAll, MeantAll, AllProper, Spaced;
    EveryFormIsRead(Leaf(t), t.bytes);
  }

  // A token without any white space.
  lemma Alone(t: Lexeme)
    ensures Spaced(t.bytes, [t])
  {
    assert AllWhite([]) && t.bytes == [] + (t.bytes + []) && Spaced([], [t][1..]);
  }
}
