/**
 Writing text with its special characters escaped, and reading it back as an attribute value.
 */
module XmlEscape {
  import opened Streams
  import opened Options
  import opened Utf8
  import opened Text
  import opened Sequences
  import opened AttributeValue
  import opened AttributeMeaning

  predicate IsValid10(uc: unicode)
  {
    || uc == 0x09 || uc == 0x0A || uc == 0x0D
    || 0x20 <= uc <= 0xD7FF || 0xE000 <= uc <= 0xFFFD || 0x1_0000 <= uc <= 0x10_FFFF
  }

  predicate IsValid11(uc: unicode)
  {
    || uc == 0x09 || uc == 0x0A || uc == 0x0D
    || 0x20 <= uc < 0x7F || uc == 0x85
    || 0xA0 <= uc <= 0xD7FF || 0xE000 <= uc <= 0xFFFD || 0x1_0000 <= uc <= 0x10_FFFF
  }

  // How the writer is set up: its flags and whether the version is 1.0.
  datatype Format = Format(escapeWhiteSpace: bool, escapeQuote: bool, version10: bool)

  // The characters of a literal.
  function Chars(s: string): text
  {
    Ascii(s)
  }

  // What `write_string` writes for one character.
  function WriteChar(f: Format, c: unicode): text
  {
    if c == '&' as int then Chars("&amp;")
    else if c == '<' as int then Chars("&lt;")
    else if c == '>' as int then Chars("&gt;")
    else if c == '\"' as int then (if f.escapeQuote then Chars("&quot;") else [c])
    else if c == '\n' as int then (if f.escapeWhiteSpace then Chars("&#10;") else [c])
    else if c == '\r' as int then (if f.escapeWhiteSpace then Chars("&#13;") else [c])
    else if c == '\t' as int then (if f.escapeWhiteSpace then Chars("&#9;") else [c])
    else if c == ' ' as int then [c]
    else if c >= 0xA0 || (if f.version10 then IsValid10(c) else IsValid11(c)) then [c]
    else Chars("&#") + Digits(c) + Chars(";")
  }

  function WriteAll(f: Format, s: text): text
  {
    if s == [] then [] else WriteChar(f, s[0]) + WriteAll(f, s[1..])
  }

  // `write_string`, without trimming.  A null character throws.
  method WriteString(os: Stream<unicode>, s: text, f: Format) returns (ok: bool)
    modifies os
    ensures ok <==> 0 !in s
    ensures ok ==> os.written == old(os.written) + WriteAll(f, s)
  {
    ok := true;
    var i := 0;
    Ends(s);
    WrittenNothing(f);
    hide *;
    while i < |s|
      invariant i <= |s| && 0 !in s[..i]
      invariant os.written + WriteAll(f, s[i..]) == old(os.written) + WriteAll(f, s)
    {
      Longer(s, i);
      WrittenNext(f, s, i);
      hide *;
      var c := s[i];
      if c == 0 {
        return false;
      }
      Associate(os.written, WriteChar(f, c), WriteAll(f, s[i + 1..]));
      os.Write(WriteChar(f, c));
      i := i + 1;
    }
    Unit(os.written);
  }

  lemma WrittenNothing(f: Format)
    ensures WriteAll(f, []) == []
  {
  }

  lemma WrittenNext(f: Format, s: text, i: nat)
    requires i < |s|
    ensures WriteAll(f, s[i..]) == WriteChar(f, s[i]) + WriteAll(f, s[i + 1..])
  {
    Longer(s, i);
    hide WriteChar;
  }

  // ---- what may stand in the text ----

  // The characters that must not stand for themselves: markup, and what the flags and the version add.
  predicate Forbidden(f: Format, c: unicode)
  {
    || c == '<' as int || c == '>' as int
    || (f.escapeQuote && c == '\"' as int)
    || (f.escapeWhiteSpace && c in {0x9, 0xA, 0xD})
    || (c < 0x20 && c !in {0x9, 0xA, 0xD})
    || (!f.version10 && (0x7F <= c <= 0x84 || 0x86 <= c <= 0x9F))
  }

  // What references are written with.
  predicate InReference(x: unicode)
  {
    x == '&' as int || x == '#' as int || x == ';' as int || 0x30 <= x <= 0x39 || 0x61 <= x <= 0x7A
  }

  predicate AllInReference(s: text)
  {
    s != [] && s[0] == '&' as int && forall i :: 0 <= i < |s| ==> InReference(s[i])
  }

  predicate MayRefer(c: char)
  {
    c == '&' || c == '#' || c == ';' || '0' <= c <= '9' || 'a' <= c <= 'z'
  }

  lemma LiteralReference(s: string)
    requires s != "" && s[0] == '&' && forall i :: 0 <= i < |s| ==> MayRefer(s[i])
    ensures AllInReference(Chars(s))
  {
    var r := Chars(s);
    assert |r| == |s| && forall i :: 0 <= i < |s| ==> r[i] == s[i] as int % 256;
    hide Chars, Ascii, InReference, MayRefer;
    assert r[0] == '&' as int;
    forall i | 0 <= i < |r| ensures InReference(r[i]) {
      MaysRefer(s[i]);
    }
  }

  lemma MaysRefer(c: char)
    requires MayRefer(c)
    ensures InReference(c as int % 256)
  {
    assert c as int % 256 == c as int;
  }

  lemma NamedReferences()
    ensures AllInReference(Chars("&amp;")) && AllInReference(Chars("&lt;")) && AllInReference(Chars("&gt;"))
    ensures AllInReference(Chars("&quot;")) && AllInReference(Chars("&#10;")) && AllInReference(Chars("&#13;"))
    ensures AllInReference(Chars("&#9;"))
  {
    hide Chars, AllInReference, Ascii;
    LiteralReference("&amp;");
    LiteralReference("&lt;");
    LiteralReference("&gt;");
    LiteralReference("&quot;");
    LiteralReference("&#10;");
    LiteralReference("&#13;");
    LiteralReference("&#9;");
  }

  lemma NumberedReference(n: nat)
    ensures AllInReference(Chars("&#") + Digits(n) + Chars(";"))
  {
    DigitsValue(n);
    assert forall i :: 0 <= i < |Digits(n)| ==> IsDigit(Digits(n)[i]);
    hide Digits;
  }

  lemma WrittenCharSafely(f: Format, c: unicode)
    ensures WriteChar(f, c) == [c] || AllInReference(WriteChar(f, c))
    ensures forall i :: 0 <= i < |WriteChar(f, c)| ==> !Forbidden(f, WriteChar(f, c)[i])
  {
    NamedReferences();
    NumberedReference(c);
    hide Chars, Digits, Ascii;
  }

  /** Every other character stands for itself, apart from the ampersand. */
  lemma BareExactly(f: Format, c: unicode)
    ensures WriteChar(f, c) == [c] <==> !Forbidden(f, c) && c != 0x26
  {
    assert |Chars("&amp;")| == 5 && |Chars("&lt;")| == 4 && |Chars("&gt;")| == 4 && |Chars("&quot;")| == 6;
    assert |Chars("&#10;")| == 5 && |Chars("&#13;")| == 5 && |Chars("&#9;")| == 4 && |Chars("&#")| == 2;
    hide Chars, Digits, Ascii;
  }

  /** The text holds no character that must not stand for itself, whatever is written. */
  lemma {:induction false} WrittenSafely(f: Format, v: text)
    ensures forall i :: 0 <= i < |WriteAll(f, v)| ==> !Forbidden(f, WriteAll(f, v)[i])
  {
    if v != [] {
      WrittenCharSafely(f, v[0]);
      WrittenSafely(f, v[1..]);
      hide WriteChar, Forbidden;
    }
  }

  // ---- reading back ----

  // The entities every parser knows.
  const PREDEFINED: seq<Entity> := [
    Entity(Chars("lt"), Chars("&#60;"), false, false),
    Entity(Chars("gt"), Chars("&#62;"), false, false),
    Entity(Chars("amp"), Chars("&#38;"), false, false),
    Entity(Chars("apos"), Chars("&#39;"), false, false),
    Entity(Chars("quot"), Chars("&#34;"), false, false)]

  // A document's entities come after the predefined ones.
  predicate HasPredefined(d: Document)
  {
    |d.entities| >= 5 && d.entities[..5] == PREDEFINED
  }

  // What becomes of a character that is written and read.
  function Spaced(f: Format, c: unicode): unicode
  {
    if !f.escapeWhiteSpace && IsSpace(c) then 0x20 else c
  }

  function SpacedAll(f: Format, s: text): text
  {
    if s == [] then [] else [Spaced(f, s[0])] + SpacedAll(f, s[1..])
  }

  // A control character that may not be referred to in version 1.0.
  predicate Lost(d: Document, c: unicode)
  {
    d.version10 && c < 0x20 && c != 0x09 && c != 0x0A && c != 0x0D
  }

  // The piece that is written for a character.
  function PieceOf(f: Format, c: unicode): Piece
  {
    if c == '&' as int then EntRef(Chars("amp"))
    else if c == '<' as int then EntRef(Chars("lt"))
    else if c == '>' as int then EntRef(Chars("gt"))
    else if c == '\"' as int && f.escapeQuote then EntRef(Chars("quot"))
    else if c in {9, 10, 13} && f.escapeWhiteSpace then DecRef(Digits(c))
    else if c in {9, 10, 13, 32, 34} || c >= 0xA0 || (if f.version10 then IsValid10(c) else IsValid11(c)) then Char(c)
    else DecRef(Digits(c))
  }

  lemma WrittenPiece(f: Format, c: unicode)
    requires c != 0
    ensures WriteChar(f, c) == Written(PieceOf(f, c)) && Legal(PieceOf(f, c))
  {
    WrittenEntities();
    WrittenNumeral(c);
    WrittenWhiteSpace();
    hide Ascii, Digits, Legal, Written;
    assert Written(Char(c)) == [c] by {
      assert Written(Char(c)) == [c];
    }
  }

  lemma WrittenEntities()
    ensures Chars("&amp;") == Written(EntRef(Chars("amp"))) && Legal(EntRef(Chars("amp")))
    ensures Chars("&lt;") == Written(EntRef(Chars("lt"))) && Legal(EntRef(Chars("lt")))
    ensures Chars("&gt;") == Written(EntRef(Chars("gt"))) && Legal(EntRef(Chars("gt")))
    ensures Chars("&quot;") == Written(EntRef(Chars("quot"))) && Legal(EntRef(Chars("quot")))
  {
    hide *;
    EntityTexts();
    WrittenEntity("amp");
    WrittenEntity("lt");
    WrittenEntity("gt");
    WrittenEntity("quot");
  }

  lemma EntityTexts()
    ensures "&amp;" == "&" + "amp" + ";" && "&lt;" == "&" + "lt" + ";"
    ensures "&gt;" == "&" + "gt" + ";" && "&quot;" == "&" + "quot" + ";"
  {
  }

  lemma WrittenEntity(name: string)
    requires name != "" && forall i :: 0 <= i < |name| ==> 'a' <= name[i] <= 'z'
    ensures Chars("&" + name + ";") == Written(EntRef(Chars(name))) && Legal(EntRef(Chars(name)))
  {
    var r := Chars("&" + name + ";");
    forall i | 0 <= i < |r| ensures r[i] == (['&' as int] + Chars(name) + [';' as int])[i] {
    }
    assert r == ['&' as int] + Chars(name) + [';' as int];
    LettersAreName(name);
    hide Chars, Legal;
  }

  lemma LettersAreName(name: string)
    requires name != "" && forall i :: 0 <= i < |name| ==> 'a' <= name[i] <= 'z'
    ensures Legal(EntRef(Chars(name)))
  {
    forall i | 0 <= i < |name| ensures IsNameStartChar(Chars(name)[i]) {
    }
  }

  lemma WrittenNumeral(n: nat)
    ensures Chars("&#") + Digits(n) + Chars(";") == Written(DecRef(Digits(n))) && Legal(DecRef(Digits(n)))
  {
    DigitsValue(n);
    var ds: text := Digits(n);
    assert Chars("&#") == ['&' as int, '#' as int] && Chars(";") == [';' as int];
    forall i | 0 <= i < |ds| ensures IsDecDigit(ds[i]) {
      assert IsDigit(Digits(n)[i]);
    }
  }

  lemma WrittenWhiteSpace()
    ensures Chars("&#9;") == Chars("&#") + Digits(9) + Chars(";")
    ensures Chars("&#10;") == Chars("&#") + Digits(10) + Chars(";")
    ensures Chars("&#13;") == Chars("&#") + Digits(13) + Chars(";")
  {
    assert Digits(9) == ['9' as int] && Digits(1) == ['1' as int];
    assert Digits(10) == Digits(1) + ['0' as int] && Digits(13) == Digits(1) + ['3' as int];
  }

  lemma {:induction false} ValueOfDigits(n: nat)
    ensures Value(Digits(n), 10) == n
  {
    var ds: text := Digits(n);
    if n >= 10 {
      ValueOfDigits(n / 10);
      assert ds[..|ds| - 1] == Digits(n / 10);
    } else {
      assert ds[..|ds| - 1] == [];
    }
  }

  lemma MeansNumeral(d: Document, n: unicode)
    ensures Simple(d, DecRef(Digits(n))) == if IsReferrable(d.version10, n) then Ok([n]) else Failure
  {
    ValueOfDigits(n);
    SmallWord(n);
    hide Digits, Value, IsReferrable, Word;
  }

  lemma SmallWord(n: unicode)
    ensures Word(n) == n
  {
  }

  // A text that is one reference to a character.
  lemma MeansOneNumeral(d: Document, stack: seq<text>, n: unicode)
    requires IsReferrable(d.version10, n)
    ensures Guarded(d, stack, Written(DecRef(Digits(n)))) == Ok([n])
  {
    var p := DecRef(Digits(n));
    WrittenNumeral(n);
    MeansNumeral(d, n);
    ReadsPiece(p, []);
    Unit(Written(p));
    Unit([n]);
    assert Pieces([]) == Some([]) && Guarded(d, stack, []) == Ok([]);
    hide Simple, Digits, Pieces, Guarded;
    GuardedFirst(d, stack, Written(p), p, []);
  }

  // A predefined entity stands for the character of its number.
  lemma MeansEntity(d: Document, e: Entity, n: unicode)
    requires e.replacement == Chars("&#") + Digits(n) + Chars(";") && IsReferrable(d.version10, n)
    requires Lookup(d.entities, e.name) == Some(e) && !e.external && !e.externallyDefined
    ensures GuardedPiece(d, [], EntRef(e.name)) == Ok([n])
  {
    WrittenNumeral(n);
    MeansOneNumeral(d, [] + [e.name], n);
    hide Simple, Lookup, Chars, Digits, Pieces, Guarded, IsReferrable;
  }

  lemma FindsPredefined(d: Document)
    requires HasPredefined(d)
    ensures Lookup(d.entities, Chars("lt")) == Some(PREDEFINED[0])
    ensures Lookup(d.entities, Chars("gt")) == Some(PREDEFINED[1])
    ensures Lookup(d.entities, Chars("amp")) == Some(PREDEFINED[2])
    ensures Lookup(d.entities, Chars("quot")) == Some(PREDEFINED[4])
  {
    NamesDiffer();
    assert forall i :: 0 <= i < 5 ==> d.entities[i] == d.entities[..5][i];
    hide Ascii, Chars;
    FindsAt(d.entities, 0);
    FindsAt(d.entities, 1);
    FindsAt(d.entities, 2);
    FindsAt(d.entities, 4);
  }

  lemma {:induction false} FindsAt(es: seq<Entity>, i: nat)
    requires i < |es| && forall j :: 0 <= j < i ==> es[j].name != es[i].name
    ensures Lookup(es, es[i].name) == Some(es[i])
  {
    if i > 0 {
      FindsAt(es[1..], i - 1);
    }
  }

  lemma NamesDiffer()
    ensures Chars("lt") != Chars("gt") && Chars("lt") != Chars("amp") && Chars("lt") != Chars("quot")
    ensures Chars("gt") != Chars("amp") && Chars("gt") != Chars("quot")
    ensures Chars("amp") != Chars("quot") && Chars("apos") != Chars("quot")
  {
    assert Chars("lt")[0] == 'l' as int && Chars("gt")[0] == 'g' as int;
    assert Chars("apos")[0] == 'a' as int && Chars("quot")[0] == 'q' as int;
  }

  lemma MeansPredefined(d: Document)
    requires HasPredefined(d)
    ensures GuardedPiece(d, [], EntRef(Chars("lt"))) == Ok(['<' as int])
    ensures GuardedPiece(d, [], EntRef(Chars("gt"))) == Ok(['>' as int])
    ensures GuardedPiece(d, [], EntRef(Chars("amp"))) == Ok(['&' as int])
    ensures GuardedPiece(d, [], EntRef(Chars("quot"))) == Ok(['\"' as int])
  {
    FindsPredefined(d);
    TwoDigits();
    hide Lookup, Chars, Digits, GuardedPiece;
    MeansEntity(d, PREDEFINED[0], 60);
    MeansEntity(d, PREDEFINED[1], 62);
    MeansEntity(d, PREDEFINED[2], 38);
    MeansEntity(d, PREDEFINED[4], 34);
  }

  lemma TwoDigits()
    ensures Chars("&#60;") == Chars("&#") + Digits(60) + Chars(";")
      && Chars("&#62;") == Chars("&#") + Digits(62) + Chars(";")
    ensures Chars("&#38;") == Chars("&#") + Digits(38) + Chars(";")
      && Chars("&#34;") == Chars("&#") + Digits(34) + Chars(";")
  {
    assert Digits(6) == ['6' as int] && Digits(3) == ['3' as int];
    assert Digits(60) == Digits(6) + ['0' as int] && Digits(62) == Digits(6) + ['2' as int];
    assert Digits(38) == Digits(3) + ['8' as int] && Digits(34) == Digits(3) + ['4' as int];
  }

  lemma MeansChar(d: Document, f: Format, c: unicode)
    requires HasPredefined(d) && c != 0
    ensures GuardedPiece(d, [], PieceOf(f, c)) == if Lost(d, c) then Failure else Ok([Spaced(f, c)])
  {
    hide Chars, Digits, HasPredefined, GuardedPiece, Simple, IsReferrable;
    if PieceOf(f, c).EntRef? {
      MeansPredefined(d);
    } else {
      MeansSimple(d, f, c);
    }
  }

  lemma MeansSimple(d: Document, f: Format, c: unicode)
    requires c != 0 && !PieceOf(f, c).EntRef?
    ensures GuardedPiece(d, [], PieceOf(f, c)) == if Lost(d, c) then Failure else Ok([Spaced(f, c)])
  {
    MeansNumeral(d, c);
    hide Chars, Digits;
  }

  /**
   A value that is written and read comes back as it was, or with spaces for its white space when
   that is not escaped.  Reading fails exactly when the value has a control character that version
   1.0 does not let a document refer to.
   */
  lemma {:induction false} EscapeRoundTrip(d: Document, f: Format, v: text)
    requires HasPredefined(d) && 0 !in v
    ensures Normalize(d, [], WriteAll(f, v))
      == if exists c :: c in v && Lost(d, c) then Failure else Ok(SpacedAll(f, v))
  {
    var s := WriteAll(f, v);
    ScanIsGuarded(d, [], s);
    if v != [] {
      var (p, rest) := (PieceOf(f, v[0]), WriteAll(f, v[1..]));
      WrittenPiece(f, v[0]);
      ReadsPiece(p, rest);
      GuardedFirst(d, [], s, p, rest);
      MeansChar(d, f, v[0]);
      ScanIsGuarded(d, [], rest);
      EscapeRoundTrip(d, f, v[1..]);
      assert forall c :: c in v <==> c == v[0] || c in v[1..];
    }
  }

  // White space that is not escaped comes back as spaces.
  predicate Kept(f: Format, c: unicode)
  {
    f.escapeWhiteSpace || (c != '\t' as int && c != '\n' as int && c != '\r' as int)
  }

  lemma {:induction false} NothingSpaced(f: Format, v: text)
    ensures |SpacedAll(f, v)| == |v| && (SpacedAll(f, v) == v <==> forall c :: c in v ==> Kept(f, c))
  {
    if v != [] {
      NothingSpaced(f, v[1..]);
      var s := SpacedAll(f, v);
      assert v == [v[0]] + v[1..] && s == [s[0]] + s[1..];
      assert s[0] == Spaced(f, v[0]) && s[1..] == SpacedAll(f, v[1..]);
      assert s[0] == v[0] <==> Kept(f, v[0]);
      assert forall c :: c in v <==> c == v[0] || c in v[1..];
      hide SpacedAll, Kept;
    }
  }

  /** A value comes back as it was exactly when it has no such control character and its white space is escaped. */
  lemma EscapedComesBack(d: Document, f: Format, v: text)
    requires HasPredefined(d) && 0 !in v
    ensures Normalize(d, [], WriteAll(f, v)) == Ok(v) <==> forall c :: c in v ==> !Lost(d, c) && Kept(f, c)
  {
    EscapeRoundTrip(d, f, v);
    NothingSpaced(f, v);
    hide Normalize, WriteAll, SpacedAll, Lost, Kept, HasPredefined;
  }

  /** The five predefined entities stand for their characters. */
  lemma Predefined(d: Document)
    requires HasPredefined(d)
    ensures GuardedPiece(d, [], EntRef(Chars("lt"))) == Ok([0x3C])
    ensures GuardedPiece(d, [], EntRef(Chars("gt"))) == Ok([0x3E])
    ensures GuardedPiece(d, [], EntRef(Chars("amp"))) == Ok([0x26])
    ensures GuardedPiece(d, [], EntRef(Chars("quot"))) == Ok([0x22])
    ensures GuardedPiece(d, [], EntRef(Chars("apos"))) == Ok([0x27])
  {
    MeansPredefined(d);
    AposDiffers();
    AposNumber();
    assert forall i :: 0 <= i < 5 ==> d.entities[i] == d.entities[..5][i];
    hide Lookup, Chars, Digits, GuardedPiece, Ascii;
    FindsAt(d.entities, 3);
    MeansEntity(d, PREDEFINED[3], 39);
  }

  lemma AposDiffers()
    ensures Chars("apos") != Chars("lt") && Chars("apos") != Chars("gt") && Chars("apos") != Chars("amp")
  {
  }

  lemma AposNumber()
    ensures Chars("&#39;") == Chars("&#") + Digits(39) + Chars(";")
  {
    assert Digits(39) == Digits(3) + ['9' as int] && Digits(3) == ['3' as int];
  }
}
