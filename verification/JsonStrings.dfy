/**
 Which strings survive printing and parsing.
 */
module JsonStrings {
  import opened Utf8
  import opened Sequences
  import opened JsonElement
  import opened JsonLexer
  import opened JsonParser
  import opened JsonTokens
  import opened JsonRoundTrip

  // A byte that is not ASCII comes from the string itself.
  lemma HighByte(s: seq<byte>, t: seq<byte>)
    requires t != [] && t[0] < 0x80
    ensures var x := EscapeAll(s) + t;
      x != [] && (x[0] >= 0x80 ==> s != [] && x == [s[0]] + (EscapeAll(s[1..]) + t))
  {
    if s == [] {
      Unit(t);
    } else {
      Associate(Escape(s[0]), EscapeAll(s[1..]), t);
      EscapeHead(s[0]);
      FirstOf(Escape(s[0]), EscapeAll(s[1..]) + t);
      hide Escape;
    }
  }

  lemma {:induction false} HighBytes(s: seq<byte>, t: seq<byte>, n: nat)
    requires t != [] && t[0] < 0x80
    requires var x := EscapeAll(s) + t; n <= |x| && forall j :: 0 <= j < n ==> x[j] >= 0x80
    ensures var x := EscapeAll(s) + t; n <= |s| && x[..n] == s[..n] && x[n..] == EscapeAll(s[n..]) + t
  {
    hide *;
    var x := EscapeAll(s) + t;
    if n == 0 {
      Sequences.Ends(x);
      Sequences.Ends(s);
    } else {
      HighByte(s, t);
      var rest := EscapeAll(s[1..]) + t;
      OneFurther(x, n, s[0], rest);
      HighBytes(s[1..], t, n - 1);
      OneFurther(s, n, s[0], s[1..]);
      FirstOf(s, []);
    }
  }

  lemma OneFurther(x: seq<byte>, n: nat, c: byte, rest: seq<byte>)
    requires x == [c] + rest && 0 < n
    ensures n <= |x| ==> x[..n] == [c] + rest[..n - 1] && x[n..] == rest[n - 1..]
    ensures forall j :: 0 <= j < |rest| ==> rest[j] == x[j + 1]
  {
  }

  lemma EscapeHead(c: byte)
    ensures Escape(c) != [] && (c >= 0x80 ==> Escape(c) == [c]) && (c < 0x80 ==> Escape(c)[0] < 0x80)
  {
  }

  lemma {:induction false} NoSurrogate(src: Source)
    requires src.pushback == []
    ensures var r := NextChar(src); r.Ok? ==> !(0xD800 <= r.value.0 <= 0xDFFF) && r.value.1.pushback == []
    decreases |src.rest|
  {
    var n := NextUnicode(src.rest);
    if n.Ok? && 0xD800 <= n.value.0 <= 0xDBFF {
      NoSurrogate(Source(n.value.1, []));
    }
    hide NextUnicode;
  }

  lemma Bounded(x: seq<byte>)
    requires x != [] && Following(x[0]) < |x|
    ensures Following(x[0]) < 3 ==> Decode(x) < 0x1_0000
    ensures Following(x[0]) <= 3
  {
  }

  // A character that is read in full is one that the parser hands on, or it is refused.
  lemma ReadLong(x: seq<byte>)
    requires x != [] && x[0] >= 0x80
    ensures var r := NextChar(Source(x, []));
      r.Ok? ==> Whole(x) && r == Ok((Decode(x), Source(x[1 + Following(x[0])..], []))) && Readable(Decode(x))
  {
    if Whole(x) {
      var u := Decode(x);
      var rest := x[1 + Following(x[0])..];
      Bounded(x);
      assert NextUnicode(x).Ok? ==> NextUnicode(x) == Ok((u, rest)) && (Following(x[0]) == 3 ==> u <= 0x10FFFF);
      NoSurrogate(Source(rest, []));
    }
    hide Decode, NextUnicode, Whole, Following;
  }

  // ---- the text of a string only grows ----

  predicate InsideString(m: Mode)
  {
    m.InString? || m.AfterBackslash? || m.Hex?
  }

  lemma TextTurn(l: Lexer, ch: unicode)
    requires InsideString(l.mode) && l.token == Undef && OnChar(l, ch).Ok?
    ensures var l' := OnChar(l, ch).value.lexer;
      InsideString(l'.mode) && l.text <= l'.text && (l'.token == Undef || l'.token == String)
      && !OnChar(l, ch).value.retract
  {
    hide Encode;
  }

  lemma {:induction false} TextGrows(l: Lexer, src: Source)
    requires InsideString(l.mode) && l.token == Undef
    ensures var q := Run(l, src); q.Ok? ==> l.text <= q.value.0.text && q.value.0.token == String
    decreases Left(src), Rank(l.mode)
  {
    var n := NextChar(src);
    if n.Ok? && OnChar(l, n.value.0).Ok? {
      var l' := OnChar(l, n.value.0).value.lexer;
      TextTurn(l, n.value.0);
      if l'.token == Undef {
        NextCharLeft(src);
        GoesOn(l, n.value.0);
        hide NextChar, OnChar;
        TextGrows(l', n.value.1);
      }
    }
    hide NextChar, OnChar;
  }

  // ---- an escape that was not written by the printer ----

  // Small, or a little below the place where 32 bits wrap around.
  predicate Near(h: unicode, m: nat, n: nat)
  {
    h <= m || h >= 0x1_0000_0000 - n
  }

  lemma Wraps(y: nat, q: nat)
    requires q * 0x1_0000_0000 <= y < (q + 1) * 0x1_0000_0000
    ensures y % 0x1_0000_0000 == y - q * 0x1_0000_0000
  {
  }

  lemma NearDigit(hx: unicode, m: nat, n: nat, d: unicode)
    requires Near(hx, m, n) && Near(d, 15, 48) && m <= 0xFFF && n <= 0xFFFF
    ensures Near((16 * hx + d) % 0x1_0000_0000, 16 * m + 15, 16 * n + 48)
  {
    var y := 16 * hx + d;
    if y < 0x1_0000_0000 {
      Wraps(y, 0);
    } else if y < 2 * 0x1_0000_0000 {
      Wraps(y, 1);
    } else if y < 16 * 0x1_0000_0000 {
      Wraps(y, 15);
    } else {
      Wraps(y, 16);
    }
  }

  lemma DigitNear(ch: unicode)
    requires HexValue(ch) != -1
    ensures 0 <= HexValue(ch) < 0x1_0000_0000 && Near(HexValue(ch), 15, 48)
  {
    if ch < '0' as int {
      Wraps(ch - '0' as int + 0x1_0000_0000, 0);
    }
  }

  // How far the digits of an escape can have come before the digit `k`.
  function Up(k: nat): nat
  {
    if k <= 1 then 0 else if k == 2 then 15 else if k == 3 then 255 else 4095
  }

  function Down(k: nat): nat
  {
    if k <= 1 then 0 else if k == 2 then 48 else if k == 3 then 816 else 13104
  }

  lemma HexTurn(l: Lexer, k: nat, ch: unicode)
    requires l.mode == Hex(k) && 1 <= k <= 4 && (k > 1 ==> Near(l.hx, Up(k), Down(k))) && OnChar(l, ch).Ok?
    ensures var l' := OnChar(l, ch).value.lexer;
      if k < 4 then l'.mode == Hex(k + 1) && l'.text == l.text && Near(l'.hx, Up(k + 1), Down(k + 1))
      else l'.mode == InString && l'.text == l.text + Encode(l'.hx) && Near(l'.hx, 0xFFFF, 209712)
  {
    DigitNear(ch);
    NearDigit(if k == 1 then 0 else l.hx, Up(k), Down(k), HexValue(ch));
    assert OnChar(l, ch) == OnHex(l, k, ch);
    hide HexValue, Encode, OnChar;
  }

  // The digits of an escape, whatever they are, add one character.
  lemma {:induction false} HexRun(l: Lexer, k: nat, src: Source) returns (h: unicode)
    requires l.mode == Hex(k) && 1 <= k <= 4 && l.token == Undef && (k > 1 ==> Near(l.hx, Up(k), Down(k)))
    ensures Near(h, 0xFFFF, 209712)
    ensures var q := Run(l, src); q.Ok? ==> l.text + Encode(h) <= q.value.0.text
    decreases 4 - k
  {
    h := 0;
    var n := NextChar(src);
    if n.Ok? && OnChar(l, n.value.0).Ok? {
      var l' := OnChar(l, n.value.0).value.lexer;
      HexTurn(l, k, n.value.0);
      TextTurn(l, n.value.0);
      HexGoesOn(l, k, n.value.0);
      hide NextChar, OnChar, Near, Encode, Up, Down;
      if k < 4 {
        h := HexRun(l', k + 1, n.value.1);
      } else {
        h := l'.hx;
        TextGrows(l', n.value.1);
      }
    }
    hide NextChar, OnChar, Near, Encode, Up, Down;
  }

  lemma HexGoesOn(l: Lexer, k: nat, ch: unicode)
    requires l.mode == Hex(k) && l.token == Undef && OnChar(l, ch).Ok?
    ensures OnChar(l, ch).value.lexer.token == Undef
  {
    hide Encode, HexValue;
  }

  // No such character is written as a backslash in a longer form.
  lemma NotBackslash(h: unicode, s: seq<byte>)
    requires Near(h, 0xFFFF, 209712)
    requires s != [] && s[0] >= 0x80 && Whole(s) && Decode(s) == '\\' as int
    ensures !(Encode(h) <= s)
  {
    if Following(s[0]) == 1 {
      assert s[0] == 0xC1;
    } else if Following(s[0]) == 2 {
      assert s[0] == 0xE0 && s[1] == 0x81;
    } else {
      assert Following(s[0]) == 3 ==> s[0] == 0xF0;
    }
    FirstOfFar(h);
  }

  lemma FirstOfFar(h: unicode)
    requires h <= 0xFFFF || h >= 0x1_0000_0000 - 209712
    ensures Encode(h)[0] != 0xC1 && Encode(h)[0] != 0xF0
    ensures Encode(h)[0] == 0xE0 ==> |Encode(h)| == 3 && Encode(h)[1] >= 0xA0
  {
  }

  // What follows a backslash adds an ASCII byte or the character of an escape.
  lemma EscapeRun(l: Lexer, src: Source) returns (b: byte, h: unicode)
    requires l.mode == AfterBackslash && l.token == Undef
    ensures b < 0x80 && Near(h, 0xFFFF, 209712)
    ensures var q := Run(l, src);
      q.Ok? ==> l.text + [b] <= q.value.0.text || l.text + Encode(h) <= q.value.0.text
  {
    b, h := 0, 0;
    var n := NextChar(src);
    if n.Ok? && OnChar(l, n.value.0).Ok? {
      var l' := OnChar(l, n.value.0).value.lexer;
      TextTurn(l, n.value.0);
      AfterTurn(l, n.value.0);
      hide NextChar, OnChar, Near, Encode, Unescaped;
      if n.value.0 == 'u' as int {
        h := HexRun(l', 1, n.value.1);
      } else {
        b := Unescaped(n.value.0);
        TextGrows(l', n.value.1);
      }
    }
    hide NextChar, OnChar, Near, Encode;
  }

  lemma AfterTurn(l: Lexer, ch: unicode)
    requires l.mode == AfterBackslash && l.token == Undef && OnChar(l, ch).Ok?
    ensures var l' := OnChar(l, ch).value.lexer;
      l'.token == Undef && (if ch == 'u' as int then l' == l.(mode := Hex(1)) else l'.text == l.text + [Unescaped(ch)])
    ensures Unescaped(ch) < 0x80
  {
    hide Encode;
  }

  lemma Cancel<T>(a: seq<T>, b: seq<T>, c: seq<T>)
    ensures a + b <= a + c <==> b <= c
  {
    assert a + b <= a + c ==> b == (a + b)[|a|..] && c == (a + c)[|a|..];
  }

  // A character in a longer form than its own is not read back as it was.
  lemma LongIsLost(l: Lexer, s: seq<byte>, next: Source)
    requires l.mode == InString && l.token == Undef
    requires s != [] && s[0] >= 0x80 && Whole(s) && Decode(s) < 0x80 && OnChar(l, Decode(s)).Ok?
    ensures var l' := OnChar(l, Decode(s)).value.lexer;
      if l'.token != Undef then l'.text == l.text
      else var q := Run(l', next); q.Ok? ==> q.value.0.text != l.text + s
    ensures l.text != l.text + s
  {
    var u := Decode(s);
    var l' := OnChar(l, u).value.lexer;
    FirstByte(u);
    assert l'.token == Undef ==>
             if u == '\\' as int then l' == l.(mode := AfterBackslash)
             else l'.mode == InString && l'.text == l.text + [u];
    hide OnChar, Run, Encode, Decode, Whole, Following;
    if l'.token == Undef && Run(l', next).Ok? && Run(l', next).value.0.text == l.text + s {
      if u == '\\' as int {
        var b, h := EscapeRun(l', next);
        Cancel(l.text, [b], s);
        Cancel(l.text, Encode(h), s);
        NotBackslash(h, s);
      } else {
        TextGrows(l', next);
        Cancel(l.text, [u], s);
      }
    }
  }

  lemma EscapedByte(s: seq<byte>, t: seq<byte>)
    requires s != [] && s[0] < 0x80
    ensures EscapeAll(s) + t == EscapeAll(Encode(s[0])) + (EscapeAll(s[1..]) + t) && Readable(s[0])
  {
    assert Encode(s[0]) == [s[0]] && [s[0]] + s[1..] == s;
    EscapeAllConcat([s[0]], s[1..]);
    Associate(EscapeAll([s[0]]), EscapeAll(s[1..]), t);
    hide EscapeAll;
  }

  lemma FirstHigh(s: seq<byte>, t: seq<byte>)
    requires s != [] && s[0] >= 0x80
    ensures var x := EscapeAll(s) + t; x != [] && x[0] == s[0]
  {
    EscapeHead(s[0]);
    hide Escape;
  }

  // A character that is read back as it was stands in the string in its own form.
  lemma ReadBackLong(l: Lexer, s: seq<byte>, t: seq<byte>) returns (u: unicode, k: nat)
    requires l.mode == InString && l.token == Undef && s != [] && s[0] >= 0x80 && t != [] && t[0] < 0x80
    requires var q := Run(l, Source(EscapeAll(s) + t, [])); q.Ok? && q.value.0.text == l.text + s
    ensures 0 < k <= |s| && Readable(u) && Encode(u) == s[..k]
    ensures Run(l, Source(EscapeAll(s) + t, []))
         == Run(l.(text := l.text + Encode(u)), Source(EscapeAll(s[k..]) + t, []))
  {
    var x := EscapeAll(s) + t;
    FirstHigh(s, t);
    ReadLong(x);
    assert NextChar(Source(x, [])).Ok?;
    k := 1 + Following(s[0]);
    WholeIsHigh(x);
    HighBytes(s, t, k);
    SameHead(x, s, k);
    u := Decode(s);
    var next := Source(x[k..], []);
    var l' := l.(text := l.text + Encode(u));
    hide EscapeAll, Decode, Following, NextChar;
    if u < 0x80 {
      LongIsLost(l, s, next);
    } else {
      Turn(l, Source(x, []), u, next, l');
      TextGrows(l', next);
      Cancel(l.text, Encode(u), s);
      hide Run;
      DecodeEncode(u);
      assert Encode(u)[0] == s[0];
    }
  }

  lemma WholeIsHigh(x: seq<byte>)
    requires x != [] && x[0] >= 0x80 && Whole(x)
    ensures 1 + Following(x[0]) <= |x| && forall j :: 0 <= j < 1 + Following(x[0]) ==> x[j] >= 0x80
  {
  }

  lemma SameHead(x: seq<byte>, s: seq<byte>, k: nat)
    requires x != [] && Whole(x) && k == 1 + Following(x[0]) <= |s| && x[..k] == s[..k]
    ensures s[0] == x[0] && Whole(s) && Decode(s) == Decode(x)
  {
    assert x[..k][0] == s[..k][0];
    assert forall i :: 0 <= i < k ==> x[..k][i] == x[i] && s[..k][i] == s[i];
    assert x[1..k] == x[..k][1..] && s[1..k] == s[..k][1..];
  }

  /** A string that is read back as it was is UTF-8 of characters that survive. */
  lemma {:induction false} ReadBack(l: Lexer, s: seq<byte>, r: seq<byte>)
    requires l.mode == InString && l.token == Undef
    requires var q := Run(l, Source(EscapeAll(s) + (['\"' as int] + r), [])); q.Ok? && q.value.0.text == l.text + s
    ensures ReadableText(s)
    decreases |s|
  {
    var t := ['\"' as int] + r;
    if s == [] {
      EmptyIsReadable();
    } else {
      var u, k, hx: unicode;
      if s[0] < 0x80 {
        u, k := s[0], 1;
        EscapedByte(s, t);
        FirstByte(u);
        hx := RunEscaped(l, u, EscapeAll(s[1..]) + t);
      } else {
        u, k := ReadBackLong(l, s, t);
        hx := l.hx;
      }
      var l' := l.(text := l.text + Encode(u), hx := hx);
      assert hx == l.hx ==> l' == l.(text := l.text + Encode(u));
      hide Run, EscapeAll, Encode, ReadableText;
      assert s[..k] + s[k..] == s && (k == 1 ==> s[..k] == [s[0]]);
      Associate(l.text, Encode(u), s[k..]);
      ReadBack(l', s[k..], r);
      Prepended(u, s[k..]);
    }
  }

  lemma EmptyIsReadable()
    ensures ReadableText([])
  {
    var us: seq<unicode> := [];
    assert AllReadable(us) && EncodeAll(us) == [];
  }

  lemma Prepended(u: unicode, s: seq<byte>)
    requires Readable(u) && ReadableText(s)
    ensures ReadableText(Encode(u) + s)
  {
    var us :| AllReadable(us) && s == EncodeAll(us);
    var all := [u] + us;
    assert all[1..] == us;
    assert AllReadable(all) && EncodeAll(all) == Encode(u) + s;
  }

  /** A string comes back as it was exactly when it is UTF-8 of characters that survive. */
  lemma StringSurvives(s: seq<byte>)
    ensures Parse(Print(Str(s))) == Ok(Str(s)) <==> ReadableText(s)
  {
    if ReadableText(s) {
      RoundTrip(Str(s));
    }
    var text := Quoted(EscapeAll(s));
    assert Print(Str(s)) == text;
    QuotedText(EscapeAll(s), []);
    Unit(text);
    Unit(['\"' as int]);
    hide ReadableText, EscapeAll;
    if Parse(text) == Ok(Str(s)) {
      hide *;
      var l := Begin(0).(mode := InString);
      InQuotes(l);
      OpenQuote(EscapeAll(s) + ['\"' as int], 0);
      TextGrows(l, Source(EscapeAll(s) + ['\"' as int], []));
      TokenIsText(text, s);
      ReadBack(l, s, []);
    }
  }

  lemma InQuotes(l: Lexer)
    requires l == Begin(0).(mode := InString)
    ensures InsideString(l.mode) && l.mode == InString && l.token == Undef && l.text == []
    ensures forall s: seq<byte> :: l.text + s == s
  {
  }

  // What is parsed as a string is the text of its token.
  lemma TokenIsText(text: seq<byte>, s: seq<byte>)
    requires Begin(0).token == Undef && Parse(text) == Ok(Str(s))
    requires var q := Run(Begin(0), Source(text, [])); q.Ok? ==> q.value.0.token == String
    ensures var q := Run(Begin(0), Source(text, [])); q.Ok? && q.value.0.text == s
  {
    hide Run;
  }

  /** A continuation byte on its own does not come back. */
  lemma LoneByte()
    ensures Parse(Print(Str([0x80]))) != Ok(Str([0x80]))
  {
    forall us: seq<unicode>
      ensures EncodeAll(us) != [0x80]
    {
      if us != [] {
        LeadingByte(us[0]);
        FirstOf(Encode(us[0]), EncodeAll(us[1..]));
      }
      hide Encode;
    }
    assert !ReadableText([0x80]);
    hide *;
    StringSurvives([0x80]);
  }

  lemma LeadingByte(u: unicode)
    ensures Encode(u) != [] && Encode(u)[0] != 0x80
  {
  }
}
