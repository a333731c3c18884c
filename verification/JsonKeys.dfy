/**
 Which keys survive: `serialize` writes them as they are, so the scanner may find escapes in them.
 */
module JsonKeys {
  import opened Utf8
  import opened Sequences
  import opened Text
  import opened JsonElement
  import opened JsonLexer
  import opened JsonParser
  import opened JsonTokens
  import opened JsonRoundTrip
  import opened JsonStrings

  const QUOTE: byte := '\"' as int
  const BACKSLASH: byte := '\\' as int

  // ---- what an escape uses up ----

  function Backslashes(s: seq<byte>): nat
  {
    if s == [] then 0 else (if s[0] == BACKSLASH then 1 else 0) + Backslashes(s[1..])
  }

  // The number of ASCII characters.
  function Narrow(s: seq<byte>): nat
  {
    if s == [] then 0 else (if s[0] < 0x80 then 1 else 0) + Narrow(s[1..])
  }

  lemma {:induction false} CountBoth(s: seq<byte>, t: seq<byte>)
    ensures Backslashes(s + t) == Backslashes(s) + Backslashes(t) && Narrow(s + t) == Narrow(s) + Narrow(t)
    decreases |s|
  {
    if s == [] {
      Unit(t);
    } else {
      FirstOf(s, t);
      CountBoth(s[1..], t);
    }
  }

  lemma {:induction false} CountHigh(s: seq<byte>)
    requires forall i :: 0 <= i < |s| ==> s[i] >= 0x80
    ensures Backslashes(s) == 0 && Narrow(s) == 0
  {
    if s != [] {
      CountHigh(s[1..]);
    }
  }

  lemma CountEncode(u: unicode)
    ensures Backslashes(Encode(u)) == (if u == BACKSLASH then 1 else 0)
    ensures Narrow(Encode(u)) == if u < 0x80 then 1 else 0
  {
    if u < 0x80 {
      FirstByte(u);
      assert Encode(u) == [u] && [u][1..] == [];
    } else {
      assert forall i :: 0 <= i < |Encode(u)| ==> Encode(u)[i] >= 0x80;
      CountHigh(Encode(u));
      hide Encode;
    }
  }

  // ---- text that spells no ASCII character in a longer form ----

  predicate TidyAt(s: seq<byte>, i: nat)
    requires i < |s|
  {
    && s[i] != 0xC0 && s[i] != 0xC1
    && (s[i] == 0xE0 ==> i + 1 < |s| && s[i + 1] >= 0xA0)
    && (s[i] == 0xF0 ==> i + 1 < |s| && s[i + 1] >= 0x90)
  }

  predicate Tidy(s: seq<byte>)
  {
    forall i :: 0 <= i < |s| ==> TidyAt(s, i)
  }

  lemma TidyBoth(s: seq<byte>, t: seq<byte>)
    requires Tidy(s) && Tidy(t)
    ensures Tidy(s + t)
  {
    forall i | 0 <= i < |s + t| ensures TidyAt(s + t, i) {
      if i < |s| {
        assert TidyAt(s, i);
      } else {
        assert TidyAt(t, i - |s|);
      }
    }
  }

  lemma TidyBehind(s: seq<byte>, k: nat)
    requires Tidy(s) && k <= |s|
    ensures Tidy(s[k..])
  {
    forall i | 0 <= i < |s[k..]| ensures TidyAt(s[k..], i) {
      assert TidyAt(s, k + i);
    }
  }

  lemma TidyEncode(u: unicode)
    requires u <= 0x10FFFF || u >= 0x1_0000_0000 - 209712
    ensures Tidy(Encode(u))
  {
    var s := Encode(u);
    forall i | 0 <= i < |s| ensures TidyAt(s, i) {
    }
  }

  lemma TidyDecode(s: seq<byte>)
    requires s != [] && s[0] >= 0x80 && Whole(s) && Tidy(s)
    ensures Decode(s) >= 0x80
  {
    assert TidyAt(s, 0);
  }

  // A character that is read lies in the range of Unicode.
  lemma InRange(src: Source)
    requires src.pushback == [] && NextChar(src).Ok?
    ensures NextChar(src).value.0 <= 0x10FFFF && NextChar(src).value.1.pushback == []
  {
    NoSurrogate(src);
    if src.rest != [] && src.rest[0] >= 0x80 {
      ReadLong(src.rest);
      assert src == Source(src.rest, []);
    }
    hide Decode;
  }

  // The digits of an escape so far are small, or a little below the place where they wrap.
  predicate HexNear(l: Lexer)
  {
    match l.mode
    case Hex(k) => 1 <= k <= 4 && (k > 1 ==> Near(l.hx, Up(k), Down(k)))
    case _ => true
  }

  lemma TidyTurn(l: Lexer, ch: unicode)
    requires InsideString(l.mode) && l.token == Undef && HexNear(l) && Tidy(l.text)
    requires ch <= 0x10FFFF && OnChar(l, ch).Ok?
    ensures HexNear(OnChar(l, ch).value.lexer) && Tidy(OnChar(l, ch).value.lexer.text)
  {
    var l' := OnChar(l, ch).value.lexer;
    match l.mode
    case Hex(k) =>
      HexTurn(l, k, ch);
      hide OnChar, Encode;
      TidyEncode(if k < 4 then 0 else l'.hx);
      if k == 4 {
        TidyBoth(l.text, Encode(l'.hx));
      }
      hide Tidy;
    case AfterBackslash =>
      AfterTurn(l, ch);
      TidyEncode(Unescaped(ch));
      FirstByte(Unescaped(ch));
      hide OnChar, Encode, Tidy, Unescaped;
      TidyBoth(l.text, [Unescaped(ch)]);
    case _ =>
      TidyEncode(ch);
      TidyBoth(l.text, Encode(ch));
      hide Tidy, Encode;
  }

  /** Whatever is scanned inside a string, its text spells no ASCII character in a longer form. */
  lemma {:induction false} TextTidy(l: Lexer, src: Source)
    requires InsideString(l.mode) && l.token == Undef && HexNear(l) && Tidy(l.text) && src.pushback == []
    ensures Run(l, src).Ok? ==> Tidy(Run(l, src).value.0.text)
    decreases Left(src), Rank(l.mode)
  {
    var n := NextChar(src);
    if n.Ok? && OnChar(l, n.value.0).Ok? {
      var l' := OnChar(l, n.value.0).value.lexer;
      InRange(src);
      TidyTurn(l, n.value.0);
      TextTurn(l, n.value.0);
      hide NextChar, OnChar, Tidy, HexNear;
      if l'.token == Undef {
        NextCharLeft(src);
        GoesOn(l, n.value.0);
        TextTidy(l', n.value.1);
      }
    }
    hide NextChar, OnChar, Tidy, HexNear;
  }

  // ---- reading a key ----

  // The character at the head of a key; it does not reach beyond the key.
  lemma ReadRaw(r: seq<byte>, t: seq<byte>) returns (u: unicode, k: nat)
    requires r != [] && Tidy(r) && t != [] && t[0] < 0x80 && NextChar(Source(r + t, [])).Ok?
    ensures 0 < k <= |r| && NextChar(Source(r + t, [])) == Ok((u, Source(r[k..] + t, []))) && Readable(u)
    ensures Tidy(r[k..])
    ensures Backslashes(r) == (if u == BACKSLASH then 1 else 0) + Backslashes(r[k..])
    ensures Narrow(r) == (if u < 0x80 then 1 else 0) + Narrow(r[k..])
  {
    if r[0] < 0x80 {
      u, k := r[0], 1;
      FirstOf(r, t);
      ReadAscii(u, r[1..] + t);
    } else {
      u, k := ReadRawLong(r, t);
    }
    TidyBehind(r, k);
  }

  lemma ReadRawLong(r: seq<byte>, t: seq<byte>) returns (u: unicode, k: nat)
    requires r != [] && r[0] >= 0x80 && Tidy(r) && t != [] && t[0] < 0x80 && NextChar(Source(r + t, [])).Ok?
    ensures 0 < k <= |r| && NextChar(Source(r + t, [])) == Ok((u, Source(r[k..] + t, []))) && Readable(u) && u >= 0x80
    ensures Backslashes(r) == Backslashes(r[k..]) && Narrow(r) == Narrow(r[k..])
  {
    hide *;
    var x := r + t;
    assert x[0] == r[0];
    ReadLong(x);
    k := 1 + Following(r[0]);
    WholeWithin(r, t);
    SameHead(x, r, k);
    TidyDecode(r);
    u := Decode(r);
    assert r[..k] + r[k..] == r;
    assert x[k..] == r[k..] + t;
    CountBoth(r[..k], r[k..]);
    CountHigh(r[..k]);
  }

  lemma WholeWithin(r: seq<byte>, t: seq<byte>)
    requires r != [] && r[0] >= 0x80 && t != [] && t[0] < 0x80 && Whole(r + t)
    ensures var k := 1 + Following(r[0]);
      k <= |r| && (r + t)[..k] == r[..k] && forall i :: 0 <= i < k ==> r[i] >= 0x80
  {
    var x := r + t;
    var f := Following(r[0]);
    assert x[0] == r[0];
    assert x[|r|] == t[0];
    assert forall i :: 0 <= i < |r| ==> x[i] == r[i];
  }

  // Up to the first quotation mark there are only ASCII characters and no backslash.
  predicate Unquoted(w: seq<byte>)
  {
    w == [] || w[0] == QUOTE || (w[0] < 0x80 && w[0] != BACKSLASH && Unquoted(w[1..]))
  }

  // The text with which the key is left behind when its quotation mark is taken for a part of it.
  lemma {:induction false} Past(l: Lexer, w: seq<byte>) returns (y: seq<byte>)
    requires l.mode == InString && l.token == Undef && Unquoted(w) && Run(l, Source(w, [])).Ok?
    ensures Run(l, Source(w, [])).value.0.text == l.text + y && Backslashes(y) == 0
    decreases |w|
  {
    y := [];
    if w != [] {
      FirstOf(w, []);
      ReadAscii(w[0], w[1..]);
      Unit(l.text);
      if w[0] == QUOTE {
        RunQuote(l, w[1..]);
      } else {
        FirstByte(w[0]);
        CountEncode(w[0]);
        var l' := l.(text := l.text + [w[0]]);
        assert w[0] != 0 && OnChar(l, w[0]) == Ok(Step(l', false));
        hide NextChar, OnChar, Encode;
        Turn(l, Source(w, []), w[0], Source(w[1..], []), l');
        hide Run;
        y := Past(l', w[1..]);
        Associate(l.text, [w[0]], y);
        CountBoth([w[0]], y);
        y := [w[0]] + y;
      }
    }
  }

  // The scanned text `x` shows that an escape or a quotation mark stood in the raw text `r`.
  predicate Loses(x: seq<byte>, r: seq<byte>)
  {
    Backslashes(x) < Backslashes(r) || (Backslashes(x) == Backslashes(r) && Narrow(x) < Narrow(r))
  }

  function Closed(r: seq<byte>, rest: seq<byte>): seq<byte>
  {
    r + ([QUOTE] + rest)
  }

  predicate Follows(rest: seq<byte>)
  {
    rest != [] && rest[0] == ':' as int && Unquoted(rest)
  }

  // A quotation mark is no fourth digit of the code of a backslash.
  lemma QuoteDigit(l: Lexer)
    requires l.mode == Hex(4) && l.token == Undef && OnChar(l, QUOTE).Ok?
    ensures OnChar(l, QUOTE).value.lexer.hx != BACKSLASH
  {
    var y := 16 * l.hx + 0x1_0000_0000 - 14;
    assert HexValue(QUOTE) == 0x1_0000_0000 - 14;
    assert OnChar(l, QUOTE).value.lexer.hx == y % 0x1_0000_0000;
    hide OnChar, HexValue;
    NotEven(l.hx, y / 0x1_0000_0000);
  }

  lemma NotEven(h: nat, q: nat)
    ensures 16 * h + 0x1_0000_0000 - 14 != 0x1_0000_0000 * q + 0x5C
  {
    assert 16 * h + 0x1_0000_0000 - 14 == 16 * (h + 0x1000_0000 - 1) + 2;
    assert 0x1_0000_0000 * q + 0x5C == 16 * (0x1000_0000 * q + 5) + 12;
  }

  // One digit of an escape.
  lemma DigitTurn(l: Lexer, k: nat, ch: unicode)
    requires l.mode == Hex(k) && 1 <= k <= 4 && l.token == Undef && OnChar(l, ch).Ok?
    ensures var l' := OnChar(l, ch).value.lexer;
      && l'.token == Undef && !OnChar(l, ch).value.retract && ch != BACKSLASH && ch != ':' as int
      && if k < 4 then l'.mode == Hex(k + 1) && l'.text == l.text
         else l'.mode == InString && l'.text == l.text + Encode(l'.hx)
  {
    assert OnChar(l, ch) == OnHex(l, k, ch);
    hide Encode, OnChar;
  }

  // The digits of an escape when the key has ended among them.
  lemma HexEnd(l: Lexer, k: nat, rest: seq<byte>) returns (x: seq<byte>)
    requires l.mode == Hex(k) && 1 <= k <= 4 && l.token == Undef && Follows(rest)
    requires Run(l, Source([QUOTE] + rest, [])).Ok?
    ensures Run(l, Source([QUOTE] + rest, [])).value.0.text == l.text + x && Backslashes(x) == 0
  {
    var src := Source([QUOTE] + rest, []);
    TurnOk(l, src);
    ReadAscii(QUOTE, rest);
    DigitTurn(l, k, QUOTE);
    var l' := OnChar(l, QUOTE).value.lexer;
    Turn(l, src, QUOTE, Source(rest, []), l');
    if k < 4 {
      FirstOf(rest, []);
      ReadAscii(':' as int, rest[1..]);
      hide Run, NextChar, OnChar, Tidy;
      TurnOk(l', Source(rest, []));
      DigitTurn(l', k + 1, ':' as int);
      x := [];
    } else {
      QuoteDigit(l);
      hide Run, NextChar, OnChar, Tidy;
      x := Past(l', rest);
      CountEncode(l'.hx);
      CountBoth(Encode(l'.hx), x);
      Associate(l.text, Encode(l'.hx), x);
      x := Encode(l'.hx) + x;
    }
  }

  // The digits of an escape, the rest of the key, and what may follow it.
  lemma {:induction false} HexKey(l: Lexer, k: nat, r: seq<byte>, rest: seq<byte>) returns (x: seq<byte>)
    requires l.mode == Hex(k) && 1 <= k <= 4 && l.token == Undef && Tidy(r) && Follows(rest)
    requires Run(l, Source(Closed(r, rest), [])).Ok?
    ensures Run(l, Source(Closed(r, rest), [])).value.0.text == l.text + x
    ensures Backslashes(x) <= Backslashes(r) || (Backslashes(x) == Backslashes(r) + 1 && Narrow(x) <= Narrow(r) + 1)
    decreases |r|, 5 - k
  {
    var t := [QUOTE] + rest;
    var src := Source(Closed(r, rest), []);
    Unit(t);
    if r == [] {
      x := HexEnd(l, k, rest);
    } else {
      TurnOk(l, src);
      hide Run, NextChar, OnChar, Tidy;
      var u, n := ReadRaw(r, t);
      DigitTurn(l, k, u);
      var l' := OnChar(l, u).value.lexer;
      Turn(l, src, u, Source(Closed(r[n..], rest), []), l');
      hide Closed;
      if k < 4 {
        x := HexKey(l', k + 1, r[n..], rest);
      } else {
        var us;
        x, us := ScanKey(l', r[n..], rest);
        CountEncode(l'.hx);
        CountBoth(Encode(l'.hx), x);
        Associate(l.text, Encode(l'.hx), x);
        x := Encode(l'.hx) + x;
      }
    }
  }

  // What follows a backslash, the rest of the key, and what may follow it.
  lemma {:induction false} EscapeKey(l: Lexer, r: seq<byte>, rest: seq<byte>) returns (x: seq<byte>)
    requires l.mode == AfterBackslash && l.token == Undef && Tidy(r) && Follows(rest)
    requires Run(l, Source(Closed(r, rest), [])).Ok?
    ensures Run(l, Source(Closed(r, rest), [])).value.0.text == l.text + x
    ensures Backslashes(x) <= Backslashes(r) || (Backslashes(x) == Backslashes(r) + 1 && Narrow(x) <= Narrow(r))
    decreases |r|, 6
  {
    var t := [QUOTE] + rest;
    var src := Source(Closed(r, rest), []);
    TurnOk(l, src);
    if r == [] {
      Unit(t);
      ReadAscii(QUOTE, rest);
      EscapeTurn(l, QUOTE);
      var l' := OnChar(l, QUOTE).value.lexer;
      Turn(l, src, QUOTE, Source(rest, []), l');
      hide Run, NextChar, OnChar;
      x := Past(l', rest);
      Added(l.text, QUOTE, x);
      x := [QUOTE] + x;
    } else {
      var u, n := ReadRaw(r, t);
      EscapeTurn(l, u);
      var l' := OnChar(l, u).value.lexer;
      Turn(l, src, u, Source(Closed(r[n..], rest), []), l');
      hide Run, NextChar, OnChar, Closed, Unescaped;
      if u == 'u' as int {
        x := HexKey(l', 1, r[n..], rest);
      } else {
        var b, us := Unescaped(u), [];
        x, us := ScanKey(l', r[n..], rest);
        Added(l.text, b, x);
        x := [b] + x;
      }
    }
  }

  lemma Added(text: seq<byte>, b: byte, x: seq<byte>)
    ensures (text + [b]) + x == text + ([b] + x)
    ensures Backslashes([b] + x) == (if b == BACKSLASH then 1 else 0) + Backslashes(x)
    ensures Narrow([b] + x) == (if b < 0x80 then 1 else 0) + Narrow(x)
  {
    Associate(text, [b], x);
    assert ([b] + x)[1..] == x;
  }

  // A run that succeeds has taken its first turn.
  lemma TurnOk(l: Lexer, src: Source)
    requires l.token == Undef && Run(l, src).Ok?
    ensures NextChar(src).Ok? && OnChar(l, NextChar(src).value.0).Ok?
  {
    hide NextChar, OnChar;
  }

  lemma EscapeTurn(l: Lexer, ch: unicode)
    requires l.mode == AfterBackslash && l.token == Undef && OnChar(l, ch).Ok?
    ensures var l' := OnChar(l, ch).value.lexer;
      && l'.token == Undef && !OnChar(l, ch).value.retract
      && (if ch == 'u' as int then l' == l.(mode := Hex(1))
          else l'.mode == InString && l'.text == l.text + [Unescaped(ch)])
    ensures Unescaped(ch) < 0x80 && (Unescaped(ch) == BACKSLASH <==> ch == BACKSLASH) && Unescaped(QUOTE) == QUOTE
    ensures ch != 'u' as int ==> ch < 0x80
  {
    hide Encode;
  }

  lemma StringTurn(l: Lexer, ch: unicode)
    requires l.mode == InString && l.token == Undef && OnChar(l, ch).Ok? && ch != QUOTE
    ensures var l' := OnChar(l, ch).value.lexer;
      && l'.token == Undef && !OnChar(l, ch).value.retract && ch != 0
      && l' == if ch == BACKSLASH then l.(mode := AfterBackslash) else l.(text := l.text + Encode(ch))
  {
    hide Encode;
  }

  // A key up to the quotation mark that ends it for the scanner.
  lemma {:induction false} ScanKey(l: Lexer, r: seq<byte>, rest: seq<byte>) returns (x: seq<byte>, us: seq<unicode>)
    requires l.mode == InString && l.token == Undef && Tidy(r) && Follows(rest)
    requires Run(l, Source(Closed(r, rest), [])).Ok?
    ensures Run(l, Source(Closed(r, rest), [])).value.0.text == l.text + x
    ensures Loses(x, r)
      || (Plain(us) && x == EncodeAll(us) && Backslashes(x) == Backslashes(r) && Narrow(x) == Narrow(r))
    decreases |r|, 7
  {
    var t := [QUOTE] + rest;
    var src := Source(Closed(r, rest), []);
    TurnOk(l, src);
    Unit(l.text);
    x, us := [], [];
    if r == [] {
      Unit(t);
      RunQuote(l, rest);
    } else {
      var u, n := ReadRaw(r, t);
      if u == QUOTE {
        LastTurn(l, src, u, Source(Closed(r[n..], rest), []), l.(token := String), false);
      } else {
        StringTurn(l, u);
        var l' := OnChar(l, u).value.lexer;
        Turn(l, src, u, Source(Closed(r[n..], rest), []), l');
        hide Run, NextChar, OnChar, Closed;
        if u == BACKSLASH {
          x := EscapeKey(l', r[n..], rest);
        } else {
          x, us := ScanKey(l', r[n..], rest);
          hide EncodeAll, Plain, Readable;
          OneMore(l.text, u, x, us);
          x, us := Encode(u) + x, [u] + us;
        }
      }
    }
  }

  lemma OneMore(text: seq<byte>, u: unicode, x: seq<byte>, us: seq<unicode>)
    ensures (text + Encode(u)) + x == text + (Encode(u) + x)
    ensures Backslashes(Encode(u) + x) == (if u == BACKSLASH then 1 else 0) + Backslashes(x)
    ensures Narrow(Encode(u) + x) == (if u < 0x80 then 1 else 0) + Narrow(x)
    ensures EncodeAll([u] + us) == Encode(u) + EncodeAll(us)
    ensures Plain(us) && Readable(u) && u != 0 && u != QUOTE && u != BACKSLASH ==> Plain([u] + us)
  {
    Associate(text, Encode(u), x);
    CountEncode(u);
    CountBoth(Encode(u), x);
    assert ([u] + us)[1..] == us;
    hide Encode;
  }

  // ---- what follows a key ----

  lemma {:induction false} UnquotedBoth(v: seq<byte>, w: seq<byte>)
    requires Unquoted(v) && Unquoted(w)
    ensures Unquoted(v + w)
    decreases |v|
  {
    if v == [] {
      Unit(w);
    } else {
      FirstOf(v, w);
      if v[0] != QUOTE {
        UnquotedBoth(v[1..], w);
      }
    }
  }

  lemma {:induction false} UnquotedPlain(v: seq<byte>)
    requires forall i :: 0 <= i < |v| ==> v[i] < 0x80 && v[i] != BACKSLASH
    ensures Unquoted(v)
  {
    if v != [] {
      UnquotedPlain(v[1..]);
    }
  }

  lemma {:induction false} DigitsPlain(n: nat)
    ensures forall i :: 0 <= i < |Digits(n)| ==> Digits(n)[i] < 0x80 && Digits(n)[i] != BACKSLASH
  {
    if n >= 10 {
      DigitsPlain(n / 10);
    }
  }

  /** Outside its quotation marks a printed element has only ASCII characters and no backslash. */
  lemma {:induction false} PrintUnquoted(e: Element)
    ensures Unquoted(Print(e))
    decreases e
  {
    match e
    case Null => UnquotedPlain(Print(e));
    case Boolean(_) => UnquotedPlain(Print(e));
    case Int(n) =>
      DigitsPlain(if n < 0 then -n else n);
      hide Digits;
      UnquotedPlain(Print(e));
    case Str(s) =>
      assert Print(e)[0] == QUOTE;
    case Array(items) =>
      ItemsUnquoted(items);
      Enclosed('[' as int, PrintItems(items), ']' as int);
    case Object(ms) =>
      MembersUnquoted(ms);
      Enclosed('{' as int, PrintMembers(ms), '}' as int);
  }

  lemma Enclosed(a: byte, w: seq<byte>, b: byte)
    requires a < 0x80 && a != BACKSLASH && b < 0x80 && b != BACKSLASH && Unquoted(w)
    ensures Unquoted([a] + w + [b])
  {
    UnquotedPlain([a]);
    UnquotedPlain([b]);
    UnquotedBoth([a], w);
    UnquotedBoth([a] + w, [b]);
  }

  lemma {:induction false} ItemsUnquoted(items: seq<Element>)
    ensures Unquoted(PrintItems(items))
    decreases items
  {
    if items != [] {
      PrintUnquoted(items[0]);
      if |items| == 1 {
        Unit(Print(items[0]));
      } else {
        ItemsUnquoted(items[1..]);
        UnquotedPlain([',' as int]);
        UnquotedBoth([',' as int], PrintItems(items[1..]));
        UnquotedBoth(Print(items[0]), [',' as int] + PrintItems(items[1..]));
      }
      hide Print, Unquoted;
    }
  }

  lemma MembersUnquoted(ms: seq<Member>)
    ensures Unquoted(PrintMembers(ms))
  {
    if ms != [] {
      var k := Quoted(ms[0].key);
      assert k[0] == QUOTE && PrintMember(ms[0])[0] == QUOTE;
      assert PrintMembers(ms)[0] == QUOTE;
    }
    hide Print;
  }

  // ---- the members of a parsed object ----

  lemma {:induction false} InsertKeeps(ms: seq<Member>, m: Member, o: Member)
    requires o in ms
    ensures o in Insert(ms, m)
  {
    if !Less(m.key, ms[0].key) && Less(ms[0].key, m.key) && o != ms[0] {
      InsertKeeps(ms[1..], m, o);
    }
    hide Less;
  }

  lemma {:induction false} ObjectKeeps(e: Element, p: Parser, o: Member)
    requires e.Object? && o in e.members && ParseObject(e, p).Ok?
    ensures ParseObject(e, p).value.0.Object? && o in ParseObject(e, p).value.0.members
    decreases Size(p)
  {
    if p.lookahead != RightBrace && p.lookahead != Eof {
      var q := Match(p, String).value;
      AdvanceShrinks(p);
      var q2 := Match(q, Colon).value;
      AdvanceShrinks(q);
      var (v, q3) := ParseValue(q2).value;
      InsertKeeps(e.members, Member(p.text, v), o);
      if q3.lookahead == Comma {
        AdvanceShrinks(q3);
        hide Advance, ParseValue, Insert;
        ObjectKeeps(Emplace(e, Member(p.text, v)), Match(q3, Comma).value, o);
      }
    }
  }

  // The first key of the text is a key of the object, with the value that follows it.
  lemma FirstMember(p: Parser, k: seq<byte>, w: Element)
    requires p.lookahead == LeftBrace && ParseValue(p).Ok? && ParseValue(p).value.0 == Object([Member(k, w)])
    ensures Advance(p).Ok?
    ensures var q := Advance(p).value;
      q.lookahead == String ==>
        && q.text == k && Advance(q).Ok? && Advance(q).value.lookahead == Colon && Advance(Advance(q).value).Ok?
        && ParseValue(Advance(Advance(q).value).value).Ok?
        && ParseValue(Advance(Advance(q).value).value).value.0 == w
  {
    var q := Advance(p).value;
    assert ParseObject(Null, q).Ok? && ParseObject(Null, q).value.0 == Object([Member(k, w)]);
    hide ParseValue;
    if q.lookahead == String {
      FirstKey(q, k, w);
    }
  }

  lemma FirstKey(q: Parser, k: seq<byte>, w: Element)
    requires q.lookahead == String && ParseObject(Null, q).Ok? && ParseObject(Null, q).value.0 == Object([Member(k, w)])
    ensures q.text == k && Advance(q).Ok? && Advance(q).value.lookahead == Colon && Advance(Advance(q).value).Ok?
    ensures ParseValue(Advance(Advance(q).value).value).Ok?
    ensures ParseValue(Advance(Advance(q).value).value).value.0 == w
  {
    hide Advance, ParseValue;
    var q2 := Advance(Advance(q).value).value;
    var (v, q3) := ParseValue(q2).value;
    var o := Member(q.text, v);
    assert Emplace(Null, o) == Object([o]);
    if q3.lookahead == Comma {
      ObjectKeeps(Object([o]), Match(q3, Comma).value, o);
    }
  }

  // ---- the keys that survive ----

  // The text of an object of one member from its key on.
  function KeyText(k: seq<byte>, v: Element, tail: seq<byte>): seq<byte>
  {
    Quoted(k) + ([':' as int] + (Print(v) + tail))
  }

  // A key that is the text of its token is plain.
  lemma KeyIsPlain(k: seq<byte>, v: Element, tail: seq<byte>, n: int)
    requires Unquoted(tail)
    ensures var p := At(KeyText(k, v, tail), n);
      p.Ok? ==> p.value.lookahead == String && (p.value.text == k ==> PlainText(k))
  {
    var l := Begin(n).(mode := InString);
    var rest := [':' as int] + (Print(v) + tail);
    var src := Source(Closed(k, rest), []);
    KeyFollows(v, tail);
    QuotedKey(k, rest);
    assert KeyText(k, v, tail) == Quoted(k) + rest;
    assert l.mode == InString && l.token == Undef && l.text == [] && InsideString(l.mode) && HexNear(l) && Tidy(l.text);
    assert At(KeyText(k, v, tail), n) == Advance(Parser(Source(KeyText(k, v, tail), []), [], n, Undef));
    OpenQuote(Closed(k, rest), n);
    TextGrows(l, src);
    TextTidy(l, src);
    hide Run, Tidy, Closed, Print, Quoted, KeyText, Begin, Follows;
    if Run(l, src).Ok? && Run(l, src).value.0.text == k {
      var x, us := ScanKey(l, k, rest);
      Unit(x);
      assert Plain(us) && k == EncodeAll(us);
      hide Plain, EncodeAll;
    }
  }

  lemma KeyFollows(v: Element, tail: seq<byte>)
    requires Unquoted(tail)
    ensures Follows([':' as int] + (Print(v) + tail))
  {
    PrintUnquoted(v);
    hide Print;
    UnquotedBoth(Print(v), tail);
    UnquotedPlain([':' as int]);
    UnquotedBoth([':' as int], Print(v) + tail);
  }

  lemma QuotedKey(k: seq<byte>, rest: seq<byte>)
    ensures Quoted(k) + rest == [QUOTE] + Closed(k, rest)
  {
  }

  lemma ObjectOfOne(k: seq<byte>, v: Element, r: seq<byte>)
    ensures Print(Object([Member(k, v)])) + r == ['{' as int] + KeyText(k, v, ['}' as int] + r)
    ensures Nullified(Object([Member(k, v)])) == Object([Member(k, Nullified(v))])
  {
    var m := Member(k, v);
    assert PrintMembers([m]) == PrintMember(m) + [];
    assert NullifiedMembers([m][1..]) == [];
    hide Print, Nullified;
  }

  // An object of one member that is read back has a plain key.
  lemma ReadBackKey(k: seq<byte>, v: Element, w: Element, r: seq<byte>, n: int)
    requires Unquoted(r)
    requires var p := At(Print(Object([Member(k, v)])) + r, n);
      p.Ok? && ParseValue(p.value).Ok? && ParseValue(p.value).value.0 == Object([Member(k, w)])
    ensures PlainText(k)
  {
    var tail := ['}' as int] + r;
    UnquotedPlain(['}' as int]);
    UnquotedBoth(['}' as int], r);
    ObjectOfOne(k, v, r);
    KeyIsPlain(k, v, tail, n);
    AdvancePunctuation('{' as int, KeyText(k, v, tail), n);
    var p := At(Print(Object([Member(k, v)])) + r, n).value;
    hide Run, Print, KeyText, ParseValue, PlainText, Unquoted;
    FirstMember(p, k, w);
  }

  /** A key survives exactly when it is UTF-8 of characters that survive, with no quote, backslash or zero. */
  lemma KeySurvives(k: seq<byte>, v: Element)
    requires Printable(v)
    ensures Parse(Print(Object([Member(k, v)]))) == Ok(Object([Member(k, Nullified(v))])) <==> PlainText(k)
  {
    var e := Object([Member(k, v)]);
    ObjectOfOne(k, v, []);
    if PlainText(k) {
      assert Printable(e);
      hide *;
      RoundTrip(e);
    }
    Unit(Print(e));
    if Parse(Print(e)) == Ok(Object([Member(k, Nullified(v))])) {
      hide Print, ParseValue, PlainText, Printable, Run;
      ReadBackKey(k, v, Nullified(v), [], 0);
    }
  }
}
