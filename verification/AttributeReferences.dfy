/**
 What the references, the white space and the names in an attribute value are, in the terms of
 XML 1.0: sections 2.2, 2.3, 3.3.3, 4.1 and 4.6.
 */
module AttributeReferences {
  import opened Options
  import opened Utf8
  import opened Sequences
  import opened Numerals
  import opened AttributeValue
  import opened AttributeMeaning
  import XmlEscape

  // ---- references to characters ----

  // Production 2 of XML 1.0, and of XML 1.1.
  predicate IsChar(version10: bool, n: int)
  {
    if version10 then
      n == 0x9 || n == 0xA || n == 0xD || 0x20 <= n <= 0xD7FF || 0xE000 <= n <= 0xFFFD || 0x10000 <= n <= 0x10FFFF
    else 0x1 <= n <= 0xD7FF || 0xE000 <= n <= 0xFFFD || 0x10000 <= n <= 0x10FFFF
  }

  lemma DigitIs(c: unicode, v: nat, base: nat)
    requires IsDigitFor(c, v, base) && (base == 10 || base == 16)
    ensures IsHexDigit(c) && HexDigitValue(c) == v && (base == 10 ==> IsDecDigit(c))
  {
    DigitCodes(c, v, base);
    hide IsDigitFor;
  }

  lemma {:induction false} SpelledValue(s: text, base: nat, n: nat)
    requires (base == 10 || base == 16) && Spells(s, base, n)
    ensures Value(s, base) == n
    decreases |s|
  {
    var init, last := s[..|s| - 1], s[|s| - 1];
    DigitIs(last, n % base, base);
    assert Value(s, base) == Value(init, base) * base + HexDigitValue(last);
    if |s| == 1 {
      assert Value(init, base) == 0;
      SmallRemainder(n, base);
    } else {
      SpelledValue(init, base, n / base);
    }
    hide HexDigitValue, Value, IsDigitFor, Spells;
  }

  lemma SmallRemainder(n: nat, base: nat)
    requires base > 0
    ensures n < base ==> n % base == n
  {
  }

  lemma SpelledLegal(s: text, n: nat)
    ensures Spells(s, 10, n) ==> Legal(DecRef(s))
    ensures Spells(s, 16, n) ==> Legal(HexRef(s))
  {
    forall i, base | (base == 10 || base == 16) && Spells(s, base, n) && 0 <= i < |s|
      ensures IsHexDigit(s[i]) && (base == 10 ==> IsDecDigit(s[i]))
    {
      var v := EachDigit(s, base, n, i);
      DigitIs(s[i], v, base);
    }
    hide IsHexDigit, IsDecDigit;
  }

  // One piece alone.
  lemma OnePiece(d: Document, p: Piece)
    requires Legal(p)
    ensures Normalize(d, [], Written(p)) == GuardedPiece(d, [], p)
  {
    ScanIsGuarded(d, [], Written(p));
    ReadsPiece(p, []);
    Unit(Written(p));
    assert Pieces([]) == Some([]) && Guarded(d, [], []) == Ok([]);
    hide Pieces, Guarded, GuardedPiece, Scan, Legal, Written;
    GuardedFirst(d, [], Written(p), p, []);
    var r := GuardedPiece(d, [], p);
    assert r.Ok? ==> r.value + [] == r.value;
  }

  // The result of a reference to the number `n`: a word of 32 bits holds it.
  function Referenced(d: Document, n: nat): Result<text>
  {
    var c := n % 0x1_0000_0000;
    if IsChar(d.version10, c) then Ok([c]) else Failure
  }

  /** A decimal reference, with any leading zeros. */
  lemma DecimalReference(d: Document, s: text, n: nat)
    requires Spells(s, 10, n)
    ensures Normalize(d, [], ['&' as int, '#' as int] + s + [';' as int]) == Referenced(d, n)
  {
    SpelledLegal(s, n);
    SpelledValue(s, 10, n);
    OnePiece(d, DecRef(s));
    hide Spells, Value, Legal, Scan;
  }

  /** A hexadecimal reference, in either letter case and with any leading zeros. */
  lemma HexReference(d: Document, s: text, n: nat)
    requires Spells(s, 16, n)
    ensures Normalize(d, [], ['&' as int, '#' as int, 'x' as int] + s + [';' as int]) == Referenced(d, n)
  {
    SpelledLegal(s, n);
    SpelledValue(s, 16, n);
    OnePiece(d, HexRef(s));
    hide Spells, Value, Legal, Scan;
  }

  /** A reference to a number of more than 32 bits, which is no character, reads as the letter A. */
  lemma WrappedReference(d: Document)
    ensures !IsChar(d.version10, 0x1_0000_0041)
    ensures Normalize(d, [], ['&' as int, '#' as int, 'x' as int] + NINE_DIGITS + [';' as int]) == Ok([0x41])
  {
    var s := NINE_DIGITS;
    var n := 0x1_0000_0041;
    NineDigits();
    HexReference(d, s, n);
    hide Normalize, Spells;
  }

  // The digits 100000041.
  const NINE_DIGITS: text := [49, 48, 48, 48, 48, 48, 48, 52, 49]

  lemma NineDigits()
    ensures Spells(NINE_DIGITS, 16, 0x1_0000_0041)
  {
    var s := NINE_DIGITS;
    assert IsDigitFor(49, 1, 16) && IsDigitFor(48, 0, 16) && IsDigitFor(52, 4, 16);
    assert s[..8] == [49, 48, 48, 48, 48, 48, 48, 52] && s[..8][..7] == [49, 48, 48, 48, 48, 48, 48];
    SpelledOne(6);
    assert Spells(s[..8][..7], 16, 0x100_0000) by {
      assert s[..8][..7] == [49] + seq(6, _ => 48);
    }
    assert Spells(s[..8], 16, 0x1000_0004);
  }

  lemma {:induction false} SpelledOne(k: nat)
    ensures Spells([49] + seq(k, _ => 48), 16, Power16(k))
  {
    var s := [49] + seq(k, _ => 48);
    assert IsDigitFor(49, 1, 16) && IsDigitFor(48, 0, 16);
    if k > 0 {
      SpelledOne(k - 1);
      assert s[..|s| - 1] == [49] + seq(k - 1, _ => 48);
    }
  }

  function Power16(k: nat): nat
  {
    if k == 0 then 1 else 16 * Power16(k - 1)
  }

  // ---- text without references ----

  // The characters of white space: space, tab, line feed and carriage return.
  const WHITE: text := [0x20, 0x9, 0xA, 0xD]

  /** Other text stays as it is, with a space for each character of white space. */
  lemma {:induction false} PlainText(d: Document, s: text)
    requires '&' as int !in s && '<' as int !in s && 0 !in s
    ensures var r := Normalize(d, [], s);
      r.Ok? && |r.value| == |s| && forall i :: 0 <= i < |s| ==> r.value[i] == if s[i] in WHITE then 0x20 else s[i]
    decreases |s|
  {
    if s != [] {
      PlainText(d, s[1..]);
      assert Normalize(d, [], s) == Then([if s[0] in WHITE then 0x20 else s[0]], Normalize(d, [], s[1..]));
    }
  }

  /** The opening bracket of a tag is refused behind any such text. */
  lemma {:induction false} BracketRefused(d: Document, s: text, t: text)
    requires '&' as int !in s && 0 !in s
    ensures Normalize(d, [], s + ['<' as int] + t) == Failure
    decreases |s|
  {
    var all := s + ['<' as int] + t;
    if s != [] && s[0] != '<' as int {
      BracketRefused(d, s[1..], t);
      assert all[1..] == s[1..] + ['<' as int] + t;
    }
  }

  // ---- references to entities ----

  // Production 4 of XML 1.0: the first and the last character of every range.
  const NAME_START: seq<(int, int)> := [
    (0x3A, 0x3A), (0x41, 0x5A), (0x5F, 0x5F), (0x61, 0x7A), (0xC0, 0xD6), (0xD8, 0xF6), (0xF8, 0x2FF),
    (0x370, 0x37D), (0x37F, 0x1FFF), (0x200C, 0x200D), (0x2070, 0x218F), (0x2C00, 0x2FEF), (0x3001, 0xD7FF),
    (0xF900, 0xFDCF), (0xFDF0, 0xFFFD), (0x10000, 0xEFFFF)]

  // Production 4a: what a name may hold besides.
  const NAME_MORE: seq<(int, int)> := [
    (0x2D, 0x2D), (0x2E, 0x2E), (0x30, 0x39), (0xB7, 0xB7), (0x300, 0x36F), (0x203F, 0x2040)]

  predicate Within(c: int, ranges: seq<(int, int)>)
  {
    exists i :: 0 <= i < |ranges| && ranges[i].0 <= c <= ranges[i].1
  }

  lemma NameCharacters(c: unicode)
    ensures IsNameStartChar(c) <==> Within(c, NAME_START)
    ensures IsNameChar(c) <==> Within(c, NAME_START) || Within(c, NAME_MORE)
  {
    var r, m := NAME_START, NAME_MORE;
    assert IsNameStartChar(c) ==> exists i | 0 <= i < 16 :: r[i].0 <= c <= r[i].1 by {
      var i := if c <= 0x3A then 0 else if c <= 0x5A then 1 else if c <= 0x5F then 2 else if c <= 0x7A then 3
               else if c <= 0xD6 then 4 else if c <= 0xF6 then 5 else if c <= 0x2FF then 6 else if c <= 0x37D then 7
               else if c <= 0x1FFF then 8 else if c <= 0x200D then 9 else if c <= 0x218F then 10
               else if c <= 0x2FEF then 11 else if c <= 0xD7FF then 12 else if c <= 0xFDCF then 13
               else if c <= 0xFFFD then 14 else 15;
      assert IsNameStartChar(c) ==> r[i].0 <= c <= r[i].1;
    }
    var i := if c <= 0x2D then 0 else if c <= 0x2E then 1 else if c <= 0x39 then 2 else if c <= 0xB7 then 3
             else if c <= 0x36F then 4 else 5;
    assert IsNameChar(c) && !IsNameStartChar(c) ==> m[i].0 <= c <= m[i].1;
  }

  // Production 5.
  predicate IsName(name: text)
  {
    name != [] && Within(name[0], NAME_START)
    && forall i :: 0 <= i < |name| ==> Within(name[i], NAME_START) || Within(name[i], NAME_MORE)
  }

  /**
   A reference to an entity stands for the normalised replacement text of the first entity of that
   name, which must not be external, nor declared externally in a standalone document.
   */
  lemma EntityReference(d: Document, name: text)
    requires IsName(name)
    ensures Normalize(d, [], ['&' as int] + name + [';' as int])
      == match Lookup(d.entities, name)
         case None => Failure
         case Some(e) =>
           if e.external || (e.externallyDefined && d.standalone) then Failure
           else Normalize(d, [name], e.replacement)
  {
    forall i | 0 <= i < |name| ensures IsNameChar(name[i]) && (i == 0 ==> IsNameStartChar(name[i])) {
      NameCharacters(name[i]);
    }
    OnePiece(d, EntRef(name));
    assert [] + [name] == [name];
    if Replacement(d, name).Some? {
      LessFree(d, [], name);
      ScanIsGuarded(d, [name], Replacement(d, name).value);
    }
    hide Guarded, Scan, Within, IsNameChar, IsNameStartChar, Lookup;
  }
}
