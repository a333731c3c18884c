/**
 What the scanner makes of the tokens that `serialize` writes.
 */
module JsonTokens {
  import opened Utf8
  import Sequences
  import opened Text
  import opened JsonElement
  import opened JsonLexer

  // What can follow a value inside a printed element, or at its end.
  predicate Ends(r: seq<byte>)
  {
    r == [] || r[0] == ',' as int || r[0] == ']' as int || r[0] == '}' as int
  }

  // What can follow a word or a number: that, or white space.
  predicate Stops(r: seq<byte>)
  {
    Ends(r) || r[0] == ' ' as int || r[0] == '\t' as int || r[0] == '\n' as int || r[0] == '\r' as int
  }

  // The characters of a string that survive printing and parsing.
  predicate Readable(u: unicode)
  {
    Scalar(u) && u != 0xFFFE && u != 0xFFFF
  }

  predicate AllReadable(us: seq<unicode>)
  {
    forall i :: 0 <= i < |us| ==> Readable(us[i])
  }

  // The source after the character at the head of `r` has been read and put back.
  function PutBackHead(r: seq<byte>): Source
  {
    if r == [] then Source([], [0]) else Source(r[1..], [r[0]])
  }

  function Head(r: seq<byte>): byte
  {
    if r == [] then 0 else r[0]
  }

  // ---- characters ----

  lemma ReadOne(u: unicode, r: seq<byte>)
    requires Readable(u)
    ensures NextChar(Source(Encode(u) + r, [])) == Ok((u, Source(r, [])))
  {
    DecodeEncode(u);
    var s := Encode(u);
    var f := Following(s[0]);
    assert (s + r)[0] == s[0] && |s| == 1 + f;
    assert (s + r)[1..1 + f] == s[1..1 + f];
    assert forall i :: 1 <= i <= f ==> (s + r)[i] == s[i];
    assert (s + r)[1 + f..] == r;
    assert NextUnicode(s + r) == Ok((u, r));
  }

  lemma ReadAscii(c: byte, r: seq<byte>)
    requires c < 0x80
    ensures NextChar(Source([c] + r, [])) == Ok((c, Source(r, [])))
  {
    assert ([c] + r)[1..] == r;
  }

  lemma ReadHead(r: seq<byte>)
    requires Stops(r)
    ensures NextChar(Source(r, [])) == Ok((Head(r), Source(if r == [] then [] else r[1..], [])))
    ensures NextChar(PutBackHead(r)) == Ok((Head(r), Source(if r == [] then [] else r[1..], [])))
  {
    if r != [] {
      assert r == [r[0]] + r[1..];
      ReadAscii(r[0], r[1..]);
    }
  }

  // One turn of the scanner that neither finishes the token nor puts anything back.
  lemma Turn(l: Lexer, src: Source, ch: unicode, next: Source, l': Lexer)
    requires l.token == Undef && NextChar(src) == Ok((ch, next))
    requires OnChar(l, ch) == Ok(Step(l', false)) && l'.token == Undef
    ensures Run(l, src) == Run(l', next)
  {
  }

  // The turn that finishes it.
  lemma LastTurn(l: Lexer, src: Source, ch: unicode, next: Source, l': Lexer, back: bool)
    requires l.token == Undef && NextChar(src) == Ok((ch, next))
    requires OnChar(l, ch) == Ok(Step(l', back)) && l'.token != Undef
    ensures Run(l, src) == Ok((l', if back then next.(pushback := next.pushback + [ch]) else next))
  {
  }

  // The turn that finds the end of a token in the character behind it.
  lemma TurnBack(l: Lexer, r: seq<byte>, l': Lexer)
    requires l.token == Undef && Stops(r)
    requires OnChar(l, Head(r)) == Ok(Step(l', true)) && l'.token != Undef
    ensures Run(l, Source(r, [])) == Ok((l', PutBackHead(r)))
  {
    ReadHead(r);
    var next := Source(if r == [] then [] else r[1..], []);
    LastTurn(l, Source(r, []), Head(r), next, l', true);
    assert next.pushback + [Head(r)] == [Head(r)];
  }

  lemma FirstByte(c: byte)
    requires c < 0x80
    ensures [] + Encode(c) == [c]
  {
  }

  // ---- words ----

  predicate Word(w: seq<byte>)
  {
    forall i :: 0 <= i < |w| ==> IsAlpha(w[i])
  }

  function WordToken(w: seq<byte>): Token
  {
    if w == Ascii("true") then True
    else if w == Ascii("false") then False
    else if w == Ascii("null") then NullToken
    else Undef
  }

  lemma {:induction false} RunWord(l: Lexer, w: seq<byte>, r: seq<byte>)
    requires l.mode == Literal && l.token == Undef && Word(w) && Stops(r) && WordToken(l.text + w) != Undef
    ensures Run(l, Source(w + r, [])) == Ok((l.(text := l.text + w, token := WordToken(l.text + w)), PutBackHead(r)))
    decreases |w|
  {
    hide Run, NextChar;
    if w == [] {
      assert w + r == r && l.text + w == l.text;
      TurnBack(l, r, l.(token := WordToken(l.text)));
    } else {
      assert w + r == [w[0]] + (w[1..] + r);
      ReadAscii(w[0], w[1..] + r);
      var l' := l.(text := l.text + [w[0]]);
      Turn(l, Source(w + r, []), w[0], Source(w[1..] + r, []), l');
      assert l'.text + w[1..] == l.text + w;
      RunWord(l', w[1..], r);
    }
  }

  lemma RunLiteral(w: seq<byte>, r: seq<byte>, n: int)
    requires w != [] && Word(w) && Stops(r) && WordToken(w) != Undef
    ensures Run(Begin(n), Source(w + r, []))
         == Ok((Lexer(Literal, WordToken(w), w, n, false, 0), PutBackHead(r)))
  {
    hide Run, NextChar, WordToken;
    assert w + r == [w[0]] + (w[1..] + r);
    ReadAscii(w[0], w[1..] + r);
    FirstByte(w[0]);
    var l := Lexer(Literal, Undef, [w[0]], n, false, 0);
    Turn(Begin(n), Source(w + r, []), w[0], Source(w[1..] + r, []), l);
    assert l.text + w[1..] == w;
    RunWord(l, w[1..], r);
  }

  // ---- integers ----

  function Signed(negative: bool, n: int): int
  {
    if negative then -n else n
  }

  lemma {:induction false} AccumulateGrows(m: int, ds: seq<byte>)
    requires AllDigits(ds) && m >= 0
    ensures m <= Accumulate(m, ds)
    decreases |ds|
  {
    if ds != [] {
      AccumulateGrows(10 * m + (ds[0] - '0' as int), ds[1..]);
    }
  }

  lemma {:induction false} RunDigits(l: Lexer, ds: seq<byte>, r: seq<byte>)
    requires l.mode == Number && l.token == Undef && l.number >= 0 && Stops(r)
    requires AllDigits(ds) && Accumulate(l.number, ds) <= INT_MAX
    ensures var n := Signed(l.negative, Accumulate(l.number, ds));
      Run(l, Source(ds + r, [])) == Ok((l.(text := l.text + ds, number := n, token := Integer), PutBackHead(r)))
    decreases |ds|
  {
    hide Run, NextChar;
    if ds == [] {
      assert ds + r == r && l.text + ds == l.text;
      TurnBack(l, r, l.(token := Integer, number := Signed(l.negative, l.number)));
    } else {
      assert ds + r == [ds[0]] + (ds[1..] + r);
      ReadAscii(ds[0], ds[1..] + r);
      var m := 10 * l.number + (ds[0] - '0' as int);
      AccumulateGrows(m, ds[1..]);
      var l' := l.(text := l.text + [ds[0]], number := m);
      Turn(l, Source(ds + r, []), ds[0], Source(ds[1..] + r, []), l');
      assert l'.text + ds[1..] == l.text + ds;
      RunDigits(l', ds[1..], r);
    }
  }

  // The digits of a number, with or without a sign before them.
  lemma RunNatural(l: Lexer, k: nat, r: seq<byte>)
    requires l.token == Undef && k <= INT_MAX && Stops(r)
    requires if l.negative then l.mode == Negative && k > 0 else l.mode == Start && l.text == []
    ensures var q := Run(l, Source(Digits(k) + r, []));
      q.Ok? && q.value.0.token == Integer && q.value.1 == PutBackHead(r)
      && q.value.0.number == Signed(l.negative, k)
  {
    hide Run, NextChar, Digits;
    DigitsValue(k);
    var ds := Digits(k);
    assert ds + r == [ds[0]] + (ds[1..] + r);
    ReadAscii(ds[0], ds[1..] + r);
    FirstByte(ds[0]);
    if k == 0 {
      assert ds[1..] + r == r;
      var l' := l.(mode := Zero, text := [ds[0]], number := 0);
      Turn(l, Source(ds + r, []), ds[0], Source(r, []), l');
      TurnBack(l', r, l'.(token := Integer));
    } else {
      var l' := l.(mode := Number, text := l.text + [ds[0]], number := ds[0] - '0' as int);
      Turn(l, Source(ds + r, []), ds[0], Source(ds[1..] + r, []), l');
      RunDigits(l', ds[1..], r);
    }
  }

  lemma RunInteger(k: int, r: seq<byte>, n: int)
    requires -INT_MAX <= k <= INT_MAX && Stops(r)
    ensures var q := Run(Begin(n), Source(PrintInt(k) + r, []));
      q.Ok? && q.value.0.token == Integer && q.value.0.number == k && q.value.1 == PutBackHead(r)
  {
    hide Run, NextChar, Digits;
    if k < 0 {
      var l := Begin(n).(mode := Negative, text := ['-' as int]);
      assert PrintInt(k) + r == ['-' as int] + (Digits(-k) + r);
      ReadAscii('-' as int, Digits(-k) + r);
      FirstByte('-' as int);
      Turn(Begin(n), Source(PrintInt(k) + r, []), '-' as int, Source(Digits(-k) + r, []), l);
      SignIsForgotten(l, Source(Digits(-k) + r, []));
      RunNatural(l.(negative := true), -k, r);
    } else {
      RunNatural(Begin(n), k, r);
    }
  }

  // Whether a minus sign has been seen is only looked at when the number ends.
  lemma SignIsForgotten(l: Lexer, src: Source)
    requires l.token == Undef && l.mode == Negative
    ensures Run(l, src) == Run(l.(negative := true), src)
  {
  }

  // ---- strings ----

  lemma {:induction false} EscapeAllConcat(s: seq<byte>, t: seq<byte>)
    ensures EscapeAll(s + t) == EscapeAll(s) + EscapeAll(t)
  {
    hide Escape;
    if s == [] {
      Sequences.Unit(t);
    } else {
      Sequences.FirstOf(s, t);
      EscapeAllConcat(s[1..], t);
      Sequences.Associate(Escape(s[0]), EscapeAll(s[1..]), EscapeAll(t));
    }
  }

  lemma {:induction false} EscapeNothing(s: seq<byte>)
    requires forall i :: 0 <= i < |s| ==> s[i] >= 0x80
    ensures EscapeAll(s) == s
  {
    if s != [] {
      EscapeNothing(s[1..]);
      assert [s[0]] + s[1..] == s;
    }
  }

  lemma EscapeEncode(u: unicode)
    requires Readable(u)
    ensures EscapeAll(Encode(u)) == if u < 0x80 then Escape(u) else Encode(u)
  {
    DecodeEncode(u);
    if u < 0x80 {
      assert Encode(u)[1..] == [];
      assert Escape(u) + [] == Escape(u);
    } else {
      EscapeNothing(Encode(u));
    }
  }

  // A character that stands for itself.
  lemma RunPlain(l: Lexer, u: unicode, r: seq<byte>)
    requires l.mode == InString && l.token == Undef && Readable(u)
    requires u != 0 && u != '\"' as int && u != '\\' as int
    ensures Run(l, Source(Encode(u) + r, [])) == Run(l.(text := l.text + Encode(u)), Source(r, []))
  {
    ReadOne(u, r);
    Turn(l, Source(Encode(u) + r, []), u, Source(r, []), l.(text := l.text + Encode(u)));
  }

  lemma RunBackslash(l: Lexer, r: seq<byte>)
    requires l.mode == InString && l.token == Undef
    ensures Run(l, Source(['\\' as int] + r, [])) == Run(l.(mode := AfterBackslash), Source(r, []))
  {
    ReadAscii('\\' as int, r);
    Turn(l, Source(['\\' as int] + r, []), '\\' as int, Source(r, []), l.(mode := AfterBackslash));
  }

  // A backslash and a letter.
  lemma RunShort(l: Lexer, c: byte, u: byte, r: seq<byte>)
    requires l.mode == InString && l.token == Undef && c < 0x80 && c != 'u' as int
    requires u != 0 && Unescaped(c) == u
    ensures Run(l, Source(['\\' as int, c] + r, [])) == Run(l.(text := l.text + [u]), Source(r, []))
  {
    assert ['\\' as int, c] + r == ['\\' as int] + ([c] + r);
    RunBackslash(l, [c] + r);
    ReadAscii(c, r);
    var b := l.(mode := AfterBackslash);
    Turn(b, Source([c] + r, []), c, Source(r, []), b.(mode := InString, text := l.text + [u]));
  }

  lemma RunHexDigit(l: Lexer, k: nat, d: nat, r: seq<byte>)
    requires l.mode == Hex(k) && 1 <= k < 4 && l.token == Undef && d < 16
    ensures Run(l, Source([HexDigit(d)] + r, []))
         == Run(l.(mode := Hex(k + 1), hx := (16 * (if k == 1 then 0 else l.hx) + d) % 0x1_0000_0000), Source(r, []))
  {
    ReadAscii(HexDigit(d), r);
    var l' := l.(mode := Hex(k + 1), hx := (16 * (if k == 1 then 0 else l.hx) + d) % 0x1_0000_0000);
    assert HexValue(HexDigit(d)) == d;
    Turn(l, Source([HexDigit(d)] + r, []), HexDigit(d), Source(r, []), l');
  }

  lemma ControlBytes(d1: byte, d2: byte, r: seq<byte>)
    ensures Ascii("\\u00") + [d1, d2] + r
         == ['\\' as int] + (['u' as int] + ([HexDigit(0)] + ([HexDigit(0)] + ([d1] + ([d2] + r)))))
  {
    assert HexDigit(0) == '0' as int;
  }

  lemma RunLetterU(l: Lexer, r: seq<byte>)
    requires l.mode == AfterBackslash && l.token == Undef
    ensures Run(l, Source(['u' as int] + r, [])) == Run(l.(mode := Hex(1)), Source(r, []))
  {
    ReadAscii('u' as int, r);
    Turn(l, Source(['u' as int] + r, []), 'u' as int, Source(r, []), l.(mode := Hex(1)));
  }

  // A control character written in hexadecimal.
  lemma RunControl(l: Lexer, u: byte, r: seq<byte>)
    requires l.mode == InString && l.token == Undef && u < 0x20
    ensures Run(l, Source(Ascii("\\u00") + [HexDigit(u / 16), HexDigit(u % 16)] + r, []))
         == Run(l.(text := l.text + [u], hx := u), Source(r, []))
  {
    var (d1, d2) := (HexDigit(u / 16), HexDigit(u % 16));
    var digits := [HexDigit(0)] + ([HexDigit(0)] + ([d1] + ([d2] + r)));
    ControlBytes(d1, d2, r);
    assert l.(mode := Hex(1)).(mode := InString, text := l.text + [u], hx := u) == l.(text := l.text + [u], hx := u);
    hide *;
    RunBackslash(l, ['u' as int] + digits);
    RunLetterU(l.(mode := AfterBackslash), digits);
    RunFourDigits(l.(mode := Hex(1)), u / 16, u % 16, u, r);
  }

  lemma RunFourDigits(l: Lexer, h: nat, d: nat, u: byte, r: seq<byte>)
    requires l.mode == Hex(1) && l.token == Undef && u == 16 * h + d < 0x20 && d < 16
    ensures Run(l, Source([HexDigit(0)] + ([HexDigit(0)] + ([HexDigit(h)] + ([HexDigit(d)] + r))), []))
         == Run(l.(mode := InString, text := l.text + [u], hx := u), Source(r, []))
  {
    var (l3, l4) := (l.(mode := Hex(3), hx := 0), l.(mode := Hex(4), hx := h));
    var rest := [HexDigit(d)] + r;
    assert l3.(mode := Hex(4), hx := h) == l4;
    assert l4.(mode := InString, text := l.text + [u], hx := u) == l.(mode := InString, text := l.text + [u], hx := u);
    hide *;
    RunZeros(l, [HexDigit(h)] + rest);
    RunThirdDigit(l3, h, rest);
    RunLastHexDigit(l4, h, d, u, r);
  }

  lemma RunThirdDigit(l: Lexer, h: nat, r: seq<byte>)
    requires l.mode == Hex(3) && l.token == Undef && l.hx == 0 && h < 16
    ensures Run(l, Source([HexDigit(h)] + r, [])) == Run(l.(mode := Hex(4), hx := h), Source(r, []))
  {
    var c := HexDigit(h);
    ReadAscii(c, r);
    assert HexValue(c) == h && (16 * l.hx + h) % 0x1_0000_0000 == h;
    Turn(l, Source([c] + r, []), c, Source(r, []), l.(mode := Hex(4), hx := h));
  }

  lemma RunZeros(l: Lexer, r: seq<byte>)
    requires l.mode == Hex(1) && l.token == Undef
    ensures Run(l, Source([HexDigit(0)] + ([HexDigit(0)] + r), [])) == Run(l.(mode := Hex(3), hx := 0), Source(r, []))
  {
    hide Run, HexDigit;
    RunHexDigit(l, 1, 0, [HexDigit(0)] + r);
    RunHexDigit(l.(mode := Hex(2), hx := 0), 2, 0, r);
  }

  lemma RunLastHexDigit(l: Lexer, h: nat, d: nat, u: byte, r: seq<byte>)
    requires l.mode == Hex(4) && l.token == Undef && l.hx == h && u == 16 * h + d < 0x20 && d < 16
    ensures Run(l, Source([HexDigit(d)] + r, []))
         == Run(l.(mode := InString, text := l.text + [u], hx := u), Source(r, []))
  {
    var c := HexDigit(d);
    ReadAscii(c, r);
    assert HexValue(c) == d && (16 * h + d) % 0x1_0000_0000 == u;
    Turn(l, Source([c] + r, []), c, Source(r, []), l.(mode := InString, text := l.text + [u], hx := u));
  }

  // Any character as the printer writes it.
  lemma RunEscaped(l: Lexer, u: unicode, r: seq<byte>) returns (hx: unicode)
    requires l.mode == InString && l.token == Undef && Readable(u)
    ensures Run(l, Source(EscapeAll(Encode(u)) + r, [])) == Run(l.(text := l.text + Encode(u), hx := hx), Source(r, []))
  {
    EscapeEncode(u);
    hx := l.hx;
    if u >= 0x80 {
      RunPlain(l, u, r);
    } else if u == '\"' as int {
      assert Escape(u) == ['\\' as int, '\"' as int];
      RunShort(l, '\"' as int, u, r);
    } else if u == '\\' as int {
      assert Escape(u) == ['\\' as int, '\\' as int];
      RunShort(l, '\\' as int, u, r);
    } else if u == '/' as int {
      assert Escape(u) == ['\\' as int, '/' as int];
      RunShort(l, '/' as int, u, r);
    } else if u == 8 {
      assert Escape(u) == ['\\' as int, 'b' as int];
      RunShort(l, 'b' as int, u, r);
    } else if u == '\n' as int {
      assert Escape(u) == ['\\' as int, 'n' as int];
      RunShort(l, 'n' as int, u, r);
    } else if u == '\r' as int {
      assert Escape(u) == ['\\' as int, 'r' as int];
      RunShort(l, 'r' as int, u, r);
    } else if u == '\t' as int {
      assert Escape(u) == ['\\' as int, 't' as int];
      RunShort(l, 't' as int, u, r);
    } else if u < 0x20 {
      RunControl(l, u, r);
      hx := u;
    } else {
      assert Escape(u) == Encode(u);
      RunPlain(l, u, r);
    }
  }

  lemma RunQuote(l: Lexer, r: seq<byte>)
    requires l.mode == InString && l.token == Undef
    ensures Run(l, Source(['\"' as int] + r, [])) == Ok((l.(token := String), Source(r, [])))
  {
    ReadAscii('\"' as int, r);
    LastTurn(l, Source(['\"' as int] + r, []), '\"' as int, Source(r, []), l.(token := String), false);
  }

  lemma {:induction false} RunEscapedString(l: Lexer, us: seq<unicode>, r: seq<byte>) returns (hx: unicode)
    requires l.mode == InString && l.token == Undef && AllReadable(us)
    ensures Run(l, Source(EscapeAll(EncodeAll(us)) + (['\"' as int] + r), []))
         == Ok((l.(text := l.text + EncodeAll(us), hx := hx, token := String), Source(r, [])))
    decreases |us|
  {
    var q := ['\"' as int] + r;
    if us == [] {
      assert EscapeAll(EncodeAll(us)) + q == q && l.text + EncodeAll(us) == l.text;
      RunQuote(l, r);
      hx := l.hx;
    } else {
      var rest := SplitEscaped(us, q);
      hx := RunEscaped(l, us[0], rest);
      var l' := l.(text := l.text + Encode(us[0]), hx := hx);
      hx := RunEscapedString(l', us[1..], r);
      assert l.text + EncodeAll(us) == l'.text + EncodeAll(us[1..]) by { SplitEncoded(l.text, us); }
    }
  }

  lemma SplitEscaped(us: seq<unicode>, q: seq<byte>) returns (rest: seq<byte>)
    requires us != []
    ensures rest == EscapeAll(EncodeAll(us[1..])) + q
    ensures EscapeAll(EncodeAll(us)) + q == EscapeAll(Encode(us[0])) + rest
  {
    hide EscapeAll, Encode;
    rest := EscapeAll(EncodeAll(us[1..])) + q;
    EscapeAllConcat(Encode(us[0]), EncodeAll(us[1..]));
  }

  lemma SplitEncoded(text: seq<byte>, us: seq<unicode>)
    requires us != []
    ensures text + EncodeAll(us) == text + Encode(us[0]) + EncodeAll(us[1..])
  {
    hide Encode;
  }

  // A key is printed as it is, which needs it to be free of quotes, backslashes and zeros.
  predicate Plain(us: seq<unicode>)
  {
    AllReadable(us) && forall i :: 0 <= i < |us| ==> us[i] != 0 && us[i] != '\"' as int && us[i] != '\\' as int
  }

  lemma {:induction false} RunPlainString(l: Lexer, us: seq<unicode>, r: seq<byte>)
    requires l.mode == InString && l.token == Undef && Plain(us)
    ensures Run(l, Source(EncodeAll(us) + (['\"' as int] + r), []))
         == Ok((l.(text := l.text + EncodeAll(us), token := String), Source(r, [])))
    decreases |us|
  {
    var q := ['\"' as int] + r;
    if us == [] {
      assert EncodeAll(us) + q == q && l.text + EncodeAll(us) == l.text;
      RunQuote(l, r);
    } else {
      hide Encode, Run, Readable;
      var rest := EncodeAll(us[1..]) + q;
      assert EncodeAll(us) + q == Encode(us[0]) + rest;
      RunPlain(l, us[0], rest);
      var l' := l.(text := l.text + Encode(us[0]));
      SplitEncoded(l.text, us);
      RunPlainString(l', us[1..], r);
    }
  }

  lemma OpenQuote(r: seq<byte>, n: int)
    ensures Run(Begin(n), Source(['\"' as int] + r, [])) == Run(Begin(n).(mode := InString), Source(r, []))
  {
    ReadAscii('\"' as int, r);
    Turn(Begin(n), Source(['\"' as int] + r, []), '\"' as int, Source(r, []), Begin(n).(mode := InString));
  }
}
