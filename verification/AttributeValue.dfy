/**
 Attribute values: references in them are expanded, and white space becomes spaces
 (XML 1.0, sections 3.3.3 and 4.1).
 */
module AttributeValue {
  import opened Options
  import opened Utf8

  type text = seq<unicode>

  // ---- classes of characters ----

  predicate IsNameStartChar(uc: unicode)
  {
    || uc == ':' as int
    || 'A' as int <= uc <= 'Z' as int
    || uc == '_' as int
    || 'a' as int <= uc <= 'z' as int
    || 0xC0 <= uc <= 0xD6
    || 0xD8 <= uc <= 0xF6
    || 0xF8 <= uc <= 0x2FF
    || 0x370 <= uc <= 0x37D
    || 0x37F <= uc <= 0x1FFF
    || 0x200C <= uc <= 0x200D
    || 0x2070 <= uc <= 0x218F
    || 0x2C00 <= uc <= 0x2FEF
    || 0x3001 <= uc <= 0xD7FF
    || 0xF900 <= uc <= 0xFDCF
    || 0xFDF0 <= uc <= 0xFFFD
    || 0x10000 <= uc <= 0xEFFFF
  }

  predicate IsNameChar(uc: unicode)
  {
    || uc == '-' as int
    || uc == '.' as int
    || '0' as int <= uc <= '9' as int
    || uc == 0xB7
    || IsNameStartChar(uc)
    || 0x300 <= uc <= 0x36F
    || 0x203F <= uc <= 0x2040
  }

  predicate IsSpace(uc: unicode)
  {
    uc == 0x20 || uc == 0x09 || uc == 0x0D || uc == 0x0A
  }

  predicate IsReferrable(version10: bool, uc: unicode)
  {
    || (if version10 then uc == 0x09 || uc == 0x0A || uc == 0x0D || 0x1F < uc < 0xD800 else 0 < uc < 0xD800)
    || 0xDFFF < uc < 0xFFFE
    || 0xFFFF < uc < 0x11_0000
  }

  predicate IsDecDigit(c: unicode)
  {
    '0' as int <= c <= '9' as int
  }

  predicate IsHexDigit(c: unicode)
  {
    'a' as int <= c <= 'f' as int || 'A' as int <= c <= 'F' as int || '0' as int <= c <= '9' as int
  }

  function HexDigitValue(c: unicode): unicode
    requires IsHexDigit(c)
  {
    if 'a' as int <= c <= 'f' as int then c - 'a' as int + 10
    else if 'A' as int <= c <= 'F' as int then c - 'A' as int + 10
    else c - '0' as int
  }

  // Character references are computed in 32 bits.
  function Word(n: nat): unicode
  {
    n % 0x1_0000_0000
  }

  // ---- entities ----


  datatype Result<T> = Ok(value: T) | Failure

  datatype Entity = Entity(name: text, replacement: text, external: bool, externallyDefined: bool)

  datatype Document = Document(entities: seq<Entity>, standalone: bool, version10: bool)

  function Lookup(es: seq<Entity>, name: text): (r: Option<Entity>)
    ensures r.Some? ==> r.value in es && r.value.name == name
  {
    if es == [] then None else if es[0].name == name then Some(es[0]) else Lookup(es[1..], name)
  }

  // The replacement text, unless the entity may not be referenced in an attribute value.
  function Replacement(d: Document, name: text): (r: Option<text>)
    ensures r.Some? ==> name in Names(d)
  {
    match Lookup(d.entities, name)
    case None => None
    case Some(e) =>
      assert e.name == name;
      if e.external || (e.externallyDefined && d.standalone) then None else Some(e.replacement)
  }

  function Names(d: Document): set<text>
  {
    set e <- d.entities :: e.name
  }

  // The number of declared entities that are not being expanded.
  function Free(d: Document, stack: seq<text>): nat
  {
    |Names(d) - Elements(stack)|
  }

  function Elements(stack: seq<text>): set<text>
  {
    set name <- stack :: name
  }

  lemma LessFree(d: Document, stack: seq<text>, name: text)
    requires name in Names(d) && name !in stack
    ensures Free(d, stack + [name]) < Free(d, stack)
  {
    var before := Names(d) - Elements(stack);
    forall n ensures n in Elements(stack + [name]) <==> n in Elements(stack) || n == name {
      assert n in stack + [name] <==> n in stack || n == name;
    }
    assert Names(d) - Elements(stack + [name]) == before - {name};
    assert name in before;
  }

  // ---- the scanner ----

  datatype Mode =
    | Start
    | ReferenceStart
    | CharReferenceStart
    | HexCharReference
    | HexCharReference2(charref: unicode)
    | DecCharReference(charref: unicode)
    | EntityReference(name: text)

  // What one character does: the scanner goes on and may add something to the result, or it meets
  // the end of a reference to an entity, or it fails.
  datatype Turn = Go(mode: Mode, add: text) | Refer(name: text) | Fail

  function OnChar(d: Document, m: Mode, c: unicode): Turn
  {
    if c == '<' as int then Fail
    else
      match m
      case Start =>
        if IsSpace(c) then Go(Start, [0x20])
        else if c == '&' as int then Go(ReferenceStart, [])
        else Go(Start, [c])
      case ReferenceStart =>
        if c == '#' as int then Go(CharReferenceStart, [])
        else if IsNameStartChar(c) then Go(EntityReference([c]), [])
        else Fail
      case CharReferenceStart =>
        if c == 'x' as int then Go(HexCharReference, [])
        else if IsDecDigit(c) then Go(DecCharReference(c - '0' as int), [])
        else Fail
      case DecCharReference(charref) =>
        if IsDecDigit(c) then Go(DecCharReference(Word(charref * 10 + (c - '0' as int))), [])
        else Referred(d, charref, c)
      case HexCharReference =>
        if IsHexDigit(c) then Go(HexCharReference2(HexDigitValue(c)), []) else Fail
      case HexCharReference2(charref) =>
        if IsHexDigit(c) then Go(HexCharReference2(Word(charref * 16 + HexDigitValue(c))), [])
        else Referred(d, charref, c)
      case EntityReference(name) =>
        if c == ';' as int then Refer(name)
        else if IsNameChar(c) then Go(EntityReference(name + [c]), [])
        else Fail
  }

  function Referred(d: Document, charref: unicode, c: unicode): Turn
  {
    if c == ';' as int && IsReferrable(d.version10, charref) then Go(Start, [charref]) else Fail
  }

  function Then(a: text, r: Result<text>): Result<text>
  {
    match r case Ok(b) => Ok(a + b) case Failure => Failure
  }

  // The loop of `normalize_attribute_value`: what is still added to the result.  A null character
  // reads as the end.
  function Scan(d: Document, stack: seq<text>, m: Mode, s: text): Result<text>
    decreases Free(d, stack), |s|
  {
    if s == [] || s[0] == 0 then
      if m == Start then Ok([]) else Failure
    else
      match OnChar(d, m, s[0])
      case Fail => Failure
      case Go(next, add) => Then(add, Scan(d, stack, next, s[1..]))
      case Refer(name) =>
        if name in stack then Failure
        else
          match Replacement(d, name)
          case None => Failure
          case Some(replacement) =>
            LessFree(d, stack, name);
            match Scan(d, stack + [name], Start, replacement)
            case Failure => Failure
            case Ok(r) => Then(r, Scan(d, stack, Start, s[1..]))
  }

  function Normalize(d: Document, stack: seq<text>, s: text): Result<text>
  {
    Scan(d, stack, Start, s)
  }

  // ---- what an attribute value means ----

  datatype Piece =
    | Char(c: unicode)
    | DecRef(digits: text)
    | HexRef(digits: text)
    | EntRef(name: text)

  // How a piece is written.
  function Written(p: Piece): text
  {
    match p
    case Char(c) => [c]
    case DecRef(digits) => ['&' as int, '#' as int] + digits + [';' as int]
    case HexRef(digits) => ['&' as int, '#' as int, 'x' as int] + digits + [';' as int]
    case EntRef(name) => ['&' as int] + name + [';' as int]
  }

  function WrittenAll(ps: seq<Piece>): text
  {
    if ps == [] then [] else Written(ps[0]) + WrittenAll(ps[1..])
  }

  predicate Legal(p: Piece)
  {
    match p
    case Char(c) => c != 0 && c != '&' as int && c != '<' as int
    case DecRef(digits) => digits != [] && forall i :: 0 <= i < |digits| ==> IsDecDigit(digits[i])
    case HexRef(digits) => digits != [] && forall i :: 0 <= i < |digits| ==> IsHexDigit(digits[i])
    case EntRef(name) =>
      name != [] && IsNameStartChar(name[0]) && forall i :: 0 <= i < |name| ==> IsNameChar(name[i])
  }

  // What stands between `&` and `;`.
  function Reference(body: text): Option<Piece>
  {
    var p :=
      if |body| >= 2 && body[0] == '#' as int && body[1] == 'x' as int then HexRef(body[2..])
      else if body != [] && body[0] == '#' as int then DecRef(body[1..])
      else EntRef(body);
    if Legal(p) then Some(p) else None
  }

  // The part before the first `;`, if there is one.
  function UpToSemicolon(s: text): (r: Option<text>)
    ensures r.Some? ==> |r.value| < |s| && s[..|r.value|] == r.value && s[|r.value|] == ';' as int
    ensures r.Some? ==> ';' as int !in r.value
    ensures r.None? ==> ';' as int !in s
  {
    if s == [] then None
    else if s[0] == ';' as int then Some([])
    else
      match UpToSemicolon(s[1..])
      case None => None
      case Some(r) => Some([s[0]] + r)
  }

  // The pieces a text up to its first null character is made of.
  function Pieces(s: text): Option<seq<Piece>>
  {
    if s == [] || s[0] == 0 then Some([])
    else if s[0] == '&' as int then
      match UpToSemicolon(s[1..])
      case None => None
      case Some(body) =>
        match Reference(body)
        case None => None
        case Some(p) =>
          match Pieces(s[|body| + 2..])
          case None => None
          case Some(ps) => Some([p] + ps)
    else if s[0] == '<' as int then None
    else
      match Pieces(s[1..])
      case None => None
      case Some(ps) => Some([Char(s[0])] + ps)
  }

  // ---- the meaning, with and without the guard against recursion ----

  // What a text stands for while the entities in `stack` are being expanded.
  function Guarded(d: Document, stack: seq<text>, s: text): Result<text>
    decreases Free(d, stack), |s| + 1, 1
  {
    match Pieces(s)
    case None => Failure
    case Some(ps) => GuardedPieces(d, stack, ps)
  }

  function GuardedPieces(d: Document, stack: seq<text>, ps: seq<Piece>): Result<text>
    decreases Free(d, stack), 0, |ps|
  {
    if ps == [] then Ok([])
    else
      match GuardedPiece(d, stack, ps[0])
      case Failure => Failure
      case Ok(r) => Then(r, GuardedPieces(d, stack, ps[1..]))
  }

  function GuardedPiece(d: Document, stack: seq<text>, p: Piece): Result<text>
    decreases Free(d, stack), 0, 0
  {
    if !p.EntRef? then Simple(d, p)
    else if p.name in stack then Failure
    else
      match Replacement(d, p.name)
      case None => Failure
      case Some(replacement) =>
        LessFree(d, stack, p.name);
        Guarded(d, stack + [p.name], replacement)
  }

  function Simple(d: Document, p: Piece): Result<text>
    requires !p.EntRef?
  {
    match p
    case Char(c) => Ok([if IsSpace(c) then 0x20 else c])
    case DecRef(digits) => Character(d, Value(digits, 10))
    case HexRef(digits) => Character(d, Value(digits, 16))
  }

  // The number that digits stand for.
  function Value(digits: text, base: nat): nat
  {
    if digits == [] then 0
    else
      var d := digits[|digits| - 1];
      Value(digits[..|digits| - 1], base) * base + if IsHexDigit(d) then HexDigitValue(d) else 0
  }

  function Character(d: Document, n: nat): Result<text>
  {
    if IsReferrable(d.version10, Word(n)) then Ok([Word(n)]) else Failure
  }

  // What a text stands for with references replaced to a depth of `k`, and no guard.
  function Unfold(d: Document, k: nat, s: text): Result<text>
    decreases k, |s| + 1, 1
  {
    match Pieces(s)
    case None => Failure
    case Some(ps) => UnfoldPieces(d, k, ps)
  }

  function UnfoldPieces(d: Document, k: nat, ps: seq<Piece>): Result<text>
    decreases k, 0, |ps|
  {
    if ps == [] then Ok([])
    else
      match UnfoldPiece(d, k, ps[0])
      case Failure => Failure
      case Ok(r) => Then(r, UnfoldPieces(d, k, ps[1..]))
  }

  function UnfoldPiece(d: Document, k: nat, p: Piece): Result<text>
    decreases k, 0, 0
  {
    if !p.EntRef? then Simple(d, p)
    else
      match Replacement(d, p.name)
      case None => Failure
      case Some(replacement) => if k == 0 then Failure else Unfold(d, k - 1, replacement)
  }
}
