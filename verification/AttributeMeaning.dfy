/**
 The scanner of attribute values computes what they mean.
 */
module AttributeMeaning {
  import opened Options
  import opened Utf8
  import opened Sequences
  import opened AttributeValue

  // ---- pieces and texts ----

  predicate AllLegal(ps: seq<Piece>)
  {
    forall i :: 0 <= i < |ps| ==> Legal(ps[i])
  }

  lemma {:induction false} SemicolonAfter(b: text, rest: text)
    requires ';' as int !in b
    ensures UpToSemicolon(b + ([';' as int] + rest)) == Some(b)
  {
    if b == [] {
      Unit([';' as int] + rest);
    } else {
      FirstOf(b, [';' as int] + rest);
      assert b[0] in b;
      SemicolonAfter(b[1..], rest);
    }
  }

  // A reference in front of a text is read back.
  lemma ReadsReference(p: Piece, body: text, rest: text)
    requires Reference(body) == Some(p) && ';' as int !in body
    ensures Pieces(['&' as int] + (body + ([';' as int] + rest)))
      == match Pieces(rest) case None => None case Some(ps) => Some([p] + ps)
  {
    var tail := body + ([';' as int] + rest);
    SemicolonAfter(body, rest);
    Parts(['&' as int], tail);
    Associate(['&' as int] + body, [';' as int], rest);
    Associate(['&' as int], body, [';' as int] + rest);
    Parts(['&' as int] + body + [';' as int], rest);
    hide Reference, UpToSemicolon;
  }

  // A piece in front of a text is read back.
  lemma ReadsPiece(p: Piece, rest: text)
    requires Legal(p)
    ensures Pieces(Written(p) + rest) == match Pieces(rest) case None => None case Some(ps) => Some([p] + ps)
  {
    if p.Char? {
      Parts([p.c], rest);
    } else {
      var body := Body(p);
      BodyOf(p);
      hide Pieces, Legal, Written, Body, Reference;
      Associate(['&' as int] + body, [';' as int], rest);
      Associate(['&' as int], body, [';' as int] + rest);
      ReadsReference(p, body, rest);
    }
  }

  // What stands between `&` and `;` of a reference.
  function Body(p: Piece): text
    requires !p.Char?
  {
    match p
    case DecRef(digits) => ['#' as int] + digits
    case HexRef(digits) => ['#' as int, 'x' as int] + digits
    case EntRef(name) => name
  }

  lemma BodyOf(p: Piece)
    requires Legal(p) && !p.Char?
    ensures ';' as int !in Body(p) && Reference(Body(p)) == Some(p)
    ensures Written(p) == ['&' as int] + Body(p) + [';' as int]
  {
    match p
    case DecRef(digits) =>
      Parts(['#' as int], digits);
      assert !IsDecDigit('x' as int);
    case HexRef(digits) =>
      Parts(['#' as int, 'x' as int], digits);
    case EntRef(name) =>
  }

  lemma {:induction false} ReadsBack(ps: seq<Piece>)
    requires AllLegal(ps)
    ensures Pieces(WrittenAll(ps)) == Some(ps)
  {
    if ps != [] {
      ReadsBack(ps[1..]);
      hide Pieces, Legal, Written;
      ReadsPiece(ps[0], WrittenAll(ps[1..]));
      assert [ps[0]] + ps[1..] == ps;
    }
  }

  /** A text without null characters is made of exactly the legal pieces it is written with. */
  lemma PiecesAreWritten(s: text, ps: seq<Piece>)
    requires 0 !in s
    ensures Pieces(s) == Some(ps) <==> AllLegal(ps) && WrittenAll(ps) == s
  {
    hide Pieces, AllLegal, WrittenAll;
    if Pieces(s) == Some(ps) {
      Reads(s, ps);
    }
    if AllLegal(ps) && WrittenAll(ps) == s {
      ReadsBack(ps);
    }
  }

  lemma {:induction false} Reads(s: text, ps: seq<Piece>)
    requires 0 !in s && Pieces(s) == Some(ps)
    ensures AllLegal(ps) && WrittenAll(ps) == s
    decreases |s|
  {
    if s != [] {
      FirstOf(s, []);
      hide Reference, Legal, Written;
      if s[0] == '&' as int {
        var body := UpToSemicolon(s[1..]).value;
        var rest := s[|body| + 2..];
        AroundBody(s, body);
        WrittenBody(body, ps[0]);
        hide UpToSemicolon, Pieces;
        Reads(rest, ps[1..]);
      } else {
        Reads(s[1..], ps[1..]);
        WrittenChar(s[0]);
      }
    }
  }

  lemma AroundBody(s: text, body: text)
    requires s != [] && s[0] == '&' as int && UpToSemicolon(s[1..]) == Some(body)
    ensures |body| + 2 <= |s| && s == ['&' as int] + body + [';' as int] + s[|body| + 2..]
  {
    assert s[1..][..|body|] == body && s[1..][|body|] == ';' as int;
  }

  lemma WrittenChar(c: unicode)
    ensures Written(Char(c)) == [c]
    ensures Legal(Char(c)) <==> c != 0 && c != '&' as int && c != '<' as int
  {
  }

  lemma WrittenBody(body: text, p: Piece)
    requires Reference(body) == Some(p)
    ensures Legal(p) && !p.Char? && Written(p) == ['&' as int] + body + [';' as int]
  {
    if |body| >= 2 && body[0] == '#' as int && body[1] == 'x' as int {
      assert body == ['#' as int, 'x' as int] + body[2..];
    } else if body != [] && body[0] == '#' as int {
      FirstOf(body, []);
    }
    hide Legal;
  }

  // ---- the scanner inside a reference ----

  // Reading goes on after a part of a value.
  function AndThen(r: Result<text>, d: Document, stack: seq<text>, s: text): Result<text>
  {
    match r case Failure => Failure case Ok(a) => Then(a, Scan(d, stack, Start, s))
  }

  // One more digit.
  lemma ValueMore(p: text, c: unicode, base: nat)
    requires IsHexDigit(c)
    ensures Value(p + [c], base) == Value(p, base) * base + HexDigitValue(c)
    ensures Word(Word(Value(p, base)) * base + HexDigitValue(c)) == Word(Value(p + [c], base))
  {
    assert (p + [c])[..|p|] == p;
    WordTwice(Value(p, base), base, HexDigitValue(c));
  }

  lemma WordTwice(a: nat, b: nat, c: nat)
    ensures Word(Word(a) * b + c) == Word(a * b + c)
  {
    var (q, r) := (a / 0x1_0000_0000, a % 0x1_0000_0000);
    Distribute(q, r, b);
    WordWraps(r * b + c, q * b);
  }

  lemma Distribute(q: nat, r: nat, b: nat)
    ensures (q * 0x1_0000_0000 + r) * b == q * b * 0x1_0000_0000 + r * b
  {
  }

  lemma WordWraps(n: nat, k: nat)
    ensures Word(n + k * 0x1_0000_0000) == Word(n)
  {
  }

  // What the scanner makes of a reference and the text behind it.
  function Finish(d: Document, stack: seq<text>, p: Option<Piece>, s: text): Result<text>
  {
    match p
    case None => Failure
    case Some(p) => AndThen(GuardedPiece(d, stack, p), d, stack, s)
  }

  // The reference of which `read` has been read ends at the next `;`.
  function FinishAt(d: Document, stack: seq<text>, read: text, s: text): Result<text>
  {
    match UpToSemicolon(s)
    case None => Failure
    case Some(b) => Finish(d, stack, Reference(read + b), s[|b| + 1..])
  }

  lemma FinishLater(d: Document, stack: seq<text>, read: text, s: text)
    requires s != [] && s[0] != ';' as int
    ensures FinishAt(d, stack, read, s) == FinishAt(d, stack, read + [s[0]], s[1..])
  {
    hide Finish, Reference;
    match UpToSemicolon(s[1..])
    case None =>
    case Some(b) =>
      assert UpToSemicolon(s) == Some([s[0]] + b);
      assert s[|[s[0]] + b| + 1..] == s[1..][|b| + 1..];
      assert read + ([s[0]] + b) == read + [s[0]] + b;
  }

  lemma FinishNow(d: Document, stack: seq<text>, read: text, s: text)
    ensures s == [] ==> FinishAt(d, stack, read, s) == Failure
    ensures s != [] && s[0] == ';' as int ==> FinishAt(d, stack, read, s) == Finish(d, stack, Reference(read), s[1..])
  {
    assert read + [] == read;
    hide Finish, Reference;
  }

  lemma FinishNever(d: Document, stack: seq<text>, read: text, s: text)
    requires forall b :: Reference(read + b) == None
    ensures FinishAt(d, stack, read, s) == Failure
  {
    hide Reference;
  }

  // The scanner has read that part of a reference.
  ghost predicate Inside(m: Mode, read: text)
  {
    match m
    case Start => false
    case ReferenceStart => read == []
    case CharReferenceStart => read == ['#' as int]
    case HexCharReference => read == ['#' as int, 'x' as int]
    case HexCharReference2(v) =>
      && |read| > 2 && read[0] == '#' as int && read[1] == 'x' as int
      && (forall i :: 2 <= i < |read| ==> IsHexDigit(read[i])) && v == Word(Value(read[2..], 16))
    case DecCharReference(v) =>
      && |read| > 1 && read[0] == '#' as int
      && (forall i :: 1 <= i < |read| ==> IsDecDigit(read[i])) && v == Word(Value(read[1..], 10))
    case EntityReference(name) =>
      read == name && name != [] && IsNameStartChar(name[0]) && forall i :: 0 <= i < |name| ==> IsNameChar(name[i])
  }

  lemma GoesInside(d: Document, m: Mode, read: text, c: unicode)
    requires Inside(m, read) && c != ';' as int && OnChar(d, m, c).Go?
    ensures OnChar(d, m, c).add == [] && Inside(OnChar(d, m, c).mode, read + [c])
  {
    if m.CharReferenceStart? || m.DecCharReference? {
      GoesInsideDec(d, m, read, c);
    } else if m.HexCharReference? || m.HexCharReference2? {
      GoesInsideHex(d, m, read, c);
    }
  }

  lemma GoesInsideDec(d: Document, m: Mode, read: text, c: unicode)
    requires (m.CharReferenceStart? || m.DecCharReference?) && Inside(m, read) && c != ';' as int && OnChar(d, m, c).Go?
    ensures OnChar(d, m, c).add == [] && Inside(OnChar(d, m, c).mode, read + [c])
  {
    if IsDecDigit(c) {
      ValueMore(read[1..], c, 10);
      assert (read + [c])[1..] == read[1..] + [c];
      assert m.CharReferenceStart? ==> Word(Value(read[1..], 10)) == 0;
      hide Value, Word;
    }
  }

  lemma GoesInsideHex(d: Document, m: Mode, read: text, c: unicode)
    requires (m.HexCharReference? || m.HexCharReference2?) && Inside(m, read) && c != ';' as int && OnChar(d, m, c).Go?
    ensures OnChar(d, m, c).add == [] && Inside(OnChar(d, m, c).mode, read + [c])
  {
    ValueMore(read[2..], c, 16);
    assert (read + [c])[2..] == read[2..] + [c];
    if m.HexCharReference? {
      assert Value(read[2..], 16) == 0;
      assert Word(HexDigitValue(c)) == HexDigitValue(c);
    }
    hide Value, Word;
  }

  lemma FailsInside(d: Document, m: Mode, read: text, c: unicode, b: text)
    requires Inside(m, read) && c != ';' as int && (c == 0 || OnChar(d, m, c) == Fail)
    ensures Reference(read + [c] + b) == None
  {
    var body := read + [c] + b;
    assert body[|read|] == c;
    match m
    case HexCharReference => assert body[2..][0] == c;
    case HexCharReference2(v) => assert body[2..][|read| - 2] == c;
    case CharReferenceStart =>
      assert body[1] == c;
      assert body[1..][0] == c;
    case DecCharReference(v) =>
      assert body[1] == read[1] && IsDecDigit(read[1]);
      assert body[1..][|read| - 1] == c;
    case EntityReference(name) =>
      assert body[0] == name[0];
    case _ =>
  }

  lemma EndsInside(d: Document, stack: seq<text>, m: Mode, read: text)
    requires Inside(m, read)
    ensures match OnChar(d, m, ';' as int)
      case Fail => Reference(read) == None || GuardedPiece(d, stack, Reference(read).value) == Failure
      case Go(next, add) => next == Start && Reference(read).Some?
          && GuardedPiece(d, stack, Reference(read).value) == Ok(add)
      case Refer(name) => Reference(read) == Some(EntRef(name))
  {
  }

  lemma ScanStep(d: Document, stack: seq<text>, m: Mode, s: text)
    requires m != Start
    ensures s == [] || s[0] == 0 ==> Scan(d, stack, m, s) == Failure
    ensures s != [] && OnChar(d, m, s[0]) == Fail ==> Scan(d, stack, m, s) == Failure
    ensures s != [] && s[0] != 0 && OnChar(d, m, s[0]).Go? && OnChar(d, m, s[0]).add == []
      ==> Scan(d, stack, m, s) == Scan(d, stack, OnChar(d, m, s[0]).mode, s[1..])
  {
    hide OnChar, Replacement;
    if s != [] && s[0] != 0 && OnChar(d, m, s[0]).Go? {
      var r := Scan(d, stack, OnChar(d, m, s[0]).mode, s[1..]);
      assert r.Ok? ==> [] + r.value == r.value;
    }
  }

  lemma {:induction false} ScanReference(d: Document, stack: seq<text>, m: Mode, read: text, s: text)
    requires Inside(m, read)
    ensures Scan(d, stack, m, s) == FinishAt(d, stack, read, s)
    decreases Free(d, stack), 1, |s|
  {
    FinishNow(d, stack, read, s);
    ScanStep(d, stack, m, s);
    if s != [] && s[0] == ';' as int {
      EndsInside(d, stack, m, read);
      hide OnChar, Reference, FinishAt, UpToSemicolon;
      if OnChar(d, m, s[0]).Refer? {
        var name := OnChar(d, m, s[0]).name;
        if name !in stack && Replacement(d, name).Some? {
          LessFree(d, stack, name);
          ScanIsGuarded(d, stack + [name], Replacement(d, name).value);
        }
      }
    } else if s != [] {
      FinishLater(d, stack, read, s);
      hide FinishAt, Reference, UpToSemicolon, Scan;
      if s[0] != 0 && OnChar(d, m, s[0]).Go? {
        GoesInside(d, m, read, s[0]);
        ScanReference(d, stack, OnChar(d, m, s[0]).mode, read + [s[0]], s[1..]);
      } else {
        forall b ensures Reference(read + [s[0]] + b) == None {
          FailsInside(d, m, read, s[0], b);
        }
        FinishNever(d, stack, read + [s[0]], s[1..]);
      }
    }
  }

  // The first piece of a text and what is behind it.
  lemma GuardedFirst(d: Document, stack: seq<text>, s: text, p: Piece, rest: text)
    requires Pieces(s) == match Pieces(rest) case None => None case Some(ps) => Some([p] + ps)
    ensures Guarded(d, stack, s)
      == match GuardedPiece(d, stack, p)
         case Failure => Failure
         case Ok(r) => Then(r, Guarded(d, stack, rest))
  {
    hide Pieces, GuardedPiece;
    if Pieces(rest).Some? {
      var ps := Pieces(rest).value;
      assert ([p] + ps)[0] == p && ([p] + ps)[1..] == ps;
    }
  }

  /** The scanner succeeds on the texts that have a meaning, and gives it. */
  lemma {:induction false} ScanIsGuarded(d: Document, stack: seq<text>, s: text)
    ensures Scan(d, stack, Start, s) == Guarded(d, stack, s)
    decreases Free(d, stack), 2, |s|
  {
    if s != [] && s[0] != 0 {
      if s[0] == '&' as int {
        ScanReference(d, stack, ReferenceStart, [], s[1..]);
        var r := Scan(d, stack, ReferenceStart, s[1..]);
        assert r.Ok? ==> [] + r.value == r.value;
        match UpToSemicolon(s[1..])
        case None =>
        case Some(b) =>
          assert [] + b == b && s[1..][|b| + 1..] == s[|b| + 2..];
          ScanIsGuarded(d, stack, s[|b| + 2..]);
          if Reference(b).Some? {
            GuardedFirst(d, stack, s, Reference(b).value, s[|b| + 2..]);
          }
      } else if s[0] != '<' as int {
        ScanIsGuarded(d, stack, s[1..]);
        GuardedFirst(d, stack, s, Char(s[0]), s[1..]);
      }
    }
  }
}
