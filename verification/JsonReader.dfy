/**
 The JSON parser as an object that reads its input byte by byte, and the printer that
 writes to a stream.
 */
module JsonReader {
  import opened Utf8
  import opened Text
  import opened JsonElement
  import opened JsonLexer
  import opened JsonParser

  // ---- `pop_last_char` ----

  // `u` without its `o` lowest groups of six bits.
  function Above(u: nat, o: nat): nat
  {
    if o == 0 then u else Above(u, o - 1) / 0x40
  }

  function Weight(o: nat): nat
    requires o <= 3
  {
    if o == 0 then 1 else if o == 1 then 0x40 else if o == 2 then 0x1000 else 0x4_0000
  }

  // What `append` put at the end of the string, from the back.
  ghost predicate Grouped(u: unicode, e: seq<byte>)
    requires e != []
  {
    var f := Following(e[0]);
    && 1 <= f <= 3 && |e| == 1 + f && !Continuation(e[0])
    && Above(u, f) == Lead(e[0], f)
    && forall i :: 1 <= i <= f ==> Continuation(e[i]) && e[i] % 0x40 == Above(u, f - i) % 0x40
  }

  function Lead(b: byte, f: nat): nat
  {
    if f == 1 then b % 0x20 else if f == 2 then b % 0x10 else b % 0x08
  }

  lemma Groups(u: unicode)
    requires 0x80 <= u <= 0x10FFFF
    ensures Grouped(u, Encode(u))
  {
    var (v, w, x) := (u / 0x40, u / 0x40 / 0x40, u / 0x40 / 0x40 / 0x40);
    assert Above(u, 0) == u && Above(u, 1) == v && Above(u, 2) == w && Above(u, 3) == x;
    hide Above;
    if u < 0x800 {
      LowGroup(u);
      assert (0xC0 + v) % 0x20 == v;
    } else if u < 0x1_0000 {
      LowGroup(u);
      LowGroup(v);
      assert (0xE0 + w) % 0x10 == w;
    } else {
      LowGroup(u);
      LowGroup(v);
      LowGroup(w);
      assert x < 5 && x % 0x10 == x && (0xF0 + x) % 0x08 == x;
    }
  }

  lemma LowGroup(u: nat)
    ensures Continuation(0x80 + u % 0x40) && (0x80 + u % 0x40) % 0x40 == u % 0x40
  {
  }

  // One more group of six bits has been read.
  lemma AddGroup(u: nat, o: nat, low: int)
    requires o < 3 && u == Above(u, o) * Weight(o) + low
    ensures u == Above(u, o + 1) * Weight(o + 1) + (Above(u, o) % 0x40 * Weight(o) + low)
  {
    var a := Above(u, o);
    assert a == a / 0x40 * 0x40 + a % 0x40;
    assert Weight(o + 1) == 0x40 * Weight(o);
    assert a * Weight(o) == a / 0x40 * (0x40 * Weight(o)) + a % 0x40 * Weight(o);
  }

  /**
   The last character of a string and the string without it, for a string that ends with
   what `append` put there for the character `u`.
   */
  method PopLastChar(s: seq<byte>, ghost t: seq<byte>, ghost u: unicode) returns (r: unicode, rest: seq<byte>)
    requires u <= 0x10FFFF && s == t + Encode(u)
    ensures r == u && rest == t
  {
    var ch := |s| - 1;
    ghost var e := Encode(u);
    if s[ch] < 0x80 {
      LastByte(u);
      r, rest := s[ch], s[..ch];
    } else {
      LastByte(u);
      Groups(u);
      ghost var f := Following(e[0]);
      hide Encode, Above, Weight, Lead;
      var o := 0;
      var low: int := 0;
      AboveNothing(u);
      while true
        invariant 0 <= o < f <= 3 && ch == |t| + f - o && u == Above(u, o) * Weight(o) + low
        decreases f - o
      {
        hide *;
        AddGroup(u, o, low);
        GroupAt(s, t, u, e, f - o);
        low := s[ch] % 0x40 * Weight(o) + low;
        o := o + 1;
        ch := ch - 1;
        if ch == 0 || !Continuation(s[ch]) {
          LeadAt(s, t, u, e, f - o);
          break;
        }
        LeadAt(s, t, u, e, f - o);
      }
      r := Lead(s[ch], o) * Weight(o) + low;
      rest := s[..ch];
    }
  }

  lemma AboveNothing(u: nat)
    ensures u == Above(u, 0) * Weight(0) + 0
  {
  }

  lemma LastByte(u: unicode)
    requires u <= 0x10FFFF
    ensures var e := Encode(u); u < 0x80 <==> e[|e| - 1] < 0x80
    ensures u < 0x80 ==> Encode(u) == [u]
  {
    DecodeEncode(u);
  }

  lemma GroupAt(s: seq<byte>, t: seq<byte>, u: unicode, e: seq<byte>, i: nat)
    requires e != [] && Grouped(u, e) && s == t + e && 1 <= i <= Following(e[0])
    ensures |t| + i < |s| && s[|t| + i] % 0x40 == Above(u, Following(e[0]) - i) % 0x40
  {
  }

  // Only the leading byte stops the loop.
  lemma LeadAt(s: seq<byte>, t: seq<byte>, u: unicode, e: seq<byte>, i: nat)
    requires e != [] && Grouped(u, e) && s == t + e && i <= Following(e[0])
    ensures |t| + i < |s| && (i == 0 <==> !Continuation(s[|t| + i]))
    ensures i == 0 ==> Lead(s[|t|], Following(e[0])) == Above(u, Following(e[0])) && s[..|t|] == t
  {
  }

  // ---- the parser ----

  class Reader {
    const input: seq<byte>          // m_is
    var pos: nat
    var pushback: seq<unicode>      // m_buffer up to m_buffer_ptr
    var text: seq<byte>             // m_token
    var number: int                 // m_token_int
    var lookahead: Token            // m_lookahead

    // The buffer has room for two characters and never holds more than one.
    ghost predicate Valid()
      reads this
    {
      pos <= |input| && |pushback| <= 1 && forall c <- pushback :: c <= 0x10FFFF
    }

    ghost function Src(): Source
      requires Valid()
      reads this
    {
      Source(input[pos..], pushback)
    }

    ghost function Abs(): Parser
      requires Valid()
      reads this
    {
      Parser(Src(), text, number, lookahead)
    }

    constructor (input: seq<byte>)
      ensures Valid() && Abs() == Parser(Source(input, []), [], 0, Undef)
    {
      this.input, pos, pushback := input, 0, [];
      text, number, lookahead := [], 0, Undef;
    }

    method GetNextByte() returns (b: byte)
      requires Valid()
      modifies this`pos
      ensures Valid() && pos == (if old(pos) < |input| then old(pos) + 1 else old(pos))
      ensures b == if old(pos) < |input| then input[old(pos)] else 0
    {
      if pos < |input| {
        b := input[pos];
        pos := pos + 1;
      } else {
        b := 0;
      }
    }

    method GetNextUnicode() returns (r: Verdict<unicode>)
      requires Valid()
      modifies this`pos
      ensures Valid()
      ensures match NextUnicode(old(input[pos..]))
        case Ok((u, rest)) => r == Ok(u) && input[pos..] == rest
        case e => SameFailure(r, e)
    {
      ghost var rest := input[pos..];
      hide Assemble;
      var b := GetNextByte();
      var f := Following(b);
      var ch: seq<byte> := [];
      if f == 1 {
        var c0 := GetNextByte();
        ch := [c0];
      } else if f == 2 {
        var c0 := GetNextByte();
        var c1 := GetNextByte();
        ch := [c0, c1];
      } else if f == 3 {
        var c0 := GetNextByte();
        var c1 := GetNextByte();
        var c2 := GetNextByte();
        ch := [c0, c1, c2];
      }
      assert rest != [] ==> b == rest[0];
      assert rest != [] ==> forall i :: 0 <= i < f ==> ch[i] == if i + 1 < |rest| then rest[i + 1] else 0;
      if exists i :: 0 <= i < |ch| && !Continuation(ch[i]) {
        assert !Whole(rest);
        return Error;
      }
      var u := Assemble(b, ch);
      if rest != [] {
        assert Whole(rest) && rest[1..1 + f] == ch;
        assert input[pos..] == rest[1 + f..];
      }
      if f == 3 && u > 0x10FFFF {
        return Error;
      }
      return Ok(u);
    }

    // The character read is added to the token.
    method GetNextChar() returns (r: Verdict<unicode>)
      requires Valid()
      modifies this`pos, this`pushback, this`text
      ensures match NextChar(old(Src()))
        case Ok((ch, next)) => r == Ok(ch) && Valid() && Src() == next && pushback == []
            && text == old(text) + Encode(ch)
        case e => SameFailure(r, e)
      decreases |input| - pos, |pushback|
    {
      var result: unicode;
      if |pushback| > 0 {
        result := pushback[|pushback| - 1];
        pushback := pushback[..|pushback| - 1];
      } else {
        result :- GetNextUnicode();
        if result >= 0x80 {
          if result == 0xFFFF || result == 0xFFFE {
            return Error;
          } else if 0xD800 <= result <= 0xDBFF {
            NeverTrailing(Src());
            var uc2 :- GetNextChar();
            // never a trailing surrogate: reading one on its own is an error
            return Error;
          } else if 0xDC00 <= result <= 0xDFFF {
            return Error;
          }
        }
      }
      text := text + Encode(result);
      return Ok(result);
    }

    method Retract(ghost t: seq<byte>, ghost u: unicode)
      requires Valid() && pushback == [] && u <= 0x10FFFF && text == t + Encode(u)
      modifies this`pushback, this`text
      ensures Valid() && pushback == [u] && text == t
    {
      var ch;
      ch, text := PopLastChar(text, t, u);
      pushback := pushback + [ch];
    }

    method GetNextToken() returns (r: Verdict<Token>)
      requires Valid()
      modifies this`pos, this`pushback, this`text, this`number
      ensures match Run(Begin(old(number)), old(Src()))
        case Ok((l, next)) => r == Ok(l.token) && Valid() && Src() == next && text == l.text && number == l.number
        case e => SameFailure(r, e)
    {
      hide Run, NextChar, OnChar, Encode, Left, Rank;
      text := [];
      var l := Begin(number);
      while l.token == Undef
        invariant Valid() && text == l.text && number == l.number
        invariant l.token == Undef ==> Run(l, Src()) == Run(Begin(old(number)), old(Src()))
        invariant l.token != Undef ==> Run(Begin(old(number)), old(Src())) == Ok((l, Src()))
        decreases if l.token == Undef then 1 else 0, Left(Src()), Rank(l.mode)
      {
        hide Run, NextChar, OnChar, Encode, Left, Rank;
        ghost var src := Src();
        CharRange(src);
        RunFails(l, src);
        var ch :- GetNextChar();
        ghost var next := Src();
        var step :- OnChar(l, ch);
        RunTurn(l, src, ch, next);
        if step.retract {
          Retract(l.text, ch);
          assert next.pushback + [ch] == [ch];
        } else {
          text := step.lexer.text;
        }
        l := step.lexer;
        number := l.number;
      }
      return Ok(l.token);
    }

    // `m_lookahead = get_next_token()`
    method Advance() returns (r: Verdict<()>)
      requires Valid()
      modifies this
      ensures match JsonParser.Advance(old(Abs()))
        case Ok(p) => r.Ok? && Valid() && Abs() == p
        case e => SameFailure(r, e)
    {
      lookahead :- GetNextToken();
      return Ok(());
    }

    method Match(expected: Token) returns (r: Verdict<()>)
      requires Valid()
      modifies this
      ensures match JsonParser.Match(old(Abs()), expected)
        case Ok(p) => r.Ok? && Valid() && Abs() == p
        case e => SameFailure(r, e)
    {
      if lookahead != expected {
        return Error;
      }
      r := Advance();
    }

    method ParseValue() returns (r: Verdict<Element>)
      requires Valid()
      modifies this
      ensures match JsonParser.ParseValue(old(Abs()))
        case Ok((e, p)) => r == Ok(e) && Valid() && Abs() == p
        case e => SameFailure(r, e)
      decreases Size(Abs()), 0
    {
      hide JsonParser.Advance, Left;
      ghost var p := Abs();
      if p.lookahead != Eof {
        AdvanceShrinks(p);
      }
      match lookahead
      case Eof =>
        return Ok(Null);
      case NullToken =>
        var _ :- Match(lookahead);
        return Ok(Null);
      case False =>
        var _ :- Match(lookahead);
        return Ok(Boolean(false));
      case True =>
        var _ :- Match(lookahead);
        return Ok(Boolean(true));
      case Integer =>
        var _ :- Match(lookahead);
        return Ok(Int(number));
      case LeftBrace =>
        var _ :- Match(lookahead);
        var e :- ParseObject();
        var _ :- Match(RightBrace);
        return Ok(e);
      case LeftBracket =>
        var _ :- Match(lookahead);
        var e :- ParseArray();
        var _ :- Match(RightBracket);
        return Ok(e);
      case String =>
        var e := Str(text);
        var _ :- Match(lookahead);
        return Ok(e);
      case _ =>
        return Error;
    }

    method ParseObject() returns (r: Verdict<Element>)
      requires Valid()
      modifies this
      ensures match JsonParser.ParseObject(Null, old(Abs()))
        case Ok((e, p)) => r == Ok(e) && Valid() && Abs() == p
        case e => SameFailure(r, e)
      decreases Size(Abs()), 1
    {
      hide JsonParser.Advance, JsonParser.ParseValue, Left;
      var e := Null;
      while true
        invariant Valid() && JsonParser.ParseObject(e, Abs()) == JsonParser.ParseObject(Null, old(Abs()))
        invariant Size(Abs()) <= old(Size(Abs()))
        decreases Size(Abs())
      {
        hide JsonParser.Advance, JsonParser.ParseValue, Left;
        ghost var p := Abs();
        if lookahead == RightBrace || lookahead == Eof {
          break;
        }
        var name := text;
        AdvanceShrinks(p);
        var _ :- Match(String);
        ghost var q := Abs();
        AdvanceShrinks(q.(lookahead := Colon));
        var _ :- Match(Colon);
        var v :- ParseValue();
        ghost var q3 := Abs();
        e := Emplace(e, Member(name, v));
        if lookahead != Comma {
          break;
        }
        AdvanceShrinks(q3);
        var _ :- Match(lookahead);
      }
      return Ok(e);
    }

    method ParseArray() returns (r: Verdict<Element>)
      requires Valid()
      modifies this
      ensures match JsonParser.ParseArray(Null, old(Abs()))
        case Ok((e, p)) => r == Ok(e) && Valid() && Abs() == p
        case e => SameFailure(r, e)
      decreases Size(Abs()), 1
    {
      hide JsonParser.Advance, JsonParser.ParseValue, Left;
      var e := Null;
      while true
        invariant Valid() && JsonParser.ParseArray(e, Abs()) == JsonParser.ParseArray(Null, old(Abs()))
        invariant Size(Abs()) <= old(Size(Abs()))
        decreases Size(Abs())
      {
        hide JsonParser.Advance, JsonParser.ParseValue, Left;
        if lookahead == RightBracket || lookahead == Eof {
          break;
        }
        var v :- ParseValue();
        ghost var q := Abs();
        e := EmplaceBack(e, v);
        if lookahead != Comma {
          break;
        }
        AdvanceShrinks(q);
        var _ :- Match(lookahead);
      }
      return Ok(e);
    }
  }

  /** `parse_json`: what the object computes is what the parser on values does. */
  method ParseJson(json: seq<byte>) returns (r: Verdict<Element>)
    ensures match Parse(json) case Ok(e) => r == Ok(e) case e => SameFailure(r, e)
  {
    var p := new Reader(json);
    var _ :- p.Advance();
    var e :- p.ParseValue();
    if p.lookahead != Eof {
      return Error;
    }
    return Ok(e);
  }

  // One turn of the loop.
  lemma RunTurn(l: Lexer, src: Source, ch: unicode, next: Source)
    requires l.token == Undef && NextChar(src) == Ok((ch, next)) && OnChar(l, ch).Ok?
    ensures var step := OnChar(l, ch).value;
      && (step.retract ==> step.lexer.text == l.text && step.lexer.token != Undef)
      && (if step.lexer.token == Undef then
            Run(l, src) == Run(step.lexer, next)
            && (Left(next) < Left(src) || (Left(next) == Left(src) && Rank(step.lexer.mode) < Rank(l.mode)))
          else Run(l, src) == Ok((step.lexer, if step.retract then next.(pushback := next.pushback + [ch]) else next)))
  {
    RetractKeeps(l, ch);
    NextCharLeft(src);
    hide OnChar, NextChar, Left, Encode, Rank;
    if OnChar(l, ch).value.lexer.token == Undef {
      GoesOn(l, ch);
    }
  }

  lemma RetractKeeps(l: Lexer, ch: unicode)
    requires l.token == Undef && OnChar(l, ch).Ok?
    ensures var step := OnChar(l, ch).value;
      step.retract ==> step.lexer.text == l.text && step.lexer.token != Undef
  {
    hide Encode;
  }

  lemma RunFails(l: Lexer, src: Source)
    requires l.token == Undef
    ensures NextChar(src).IsFailure() ==> SameFailure(Run(l, src), NextChar(src))
    ensures NextChar(src).Ok? && OnChar(l, NextChar(src).value.0).IsFailure()
      ==> SameFailure(Run(l, src), OnChar(l, NextChar(src).value.0))
  {
  }

  ghost predicate SameFailure<T, U>(r: Verdict<T>, e: Verdict<U>)
  {
    (r.Error? && e.Error?) || (r.Beyond? && e.Beyond?)
  }

  // A surrogate is never returned, whatever its neighbours: the branch that would put a pair
  // together cannot be reached.
  lemma {:induction false} NeverTrailing(src: Source)
    requires src.pushback == []
    ensures NextChar(src).Ok? ==> Scalar(NextChar(src).value.0)
    decreases |src.rest|
  {
    var r := NextUnicode(src.rest);
    if r.Ok? && 0xD800 <= r.value.0 <= 0xDBFF {
      NeverTrailing(Source(r.value.1, []));
    }
  }

  lemma CharRange(src: Source)
    requires forall c <- src.pushback :: c <= 0x10FFFF
    ensures NextChar(src).Ok? ==> NextChar(src).value.0 <= 0x10FFFF
  {
    if src.pushback == [] {
      NeverTrailing(src);
    } else {
      assert src.pushback[|src.pushback| - 1] in src.pushback;
    }
  }
}
