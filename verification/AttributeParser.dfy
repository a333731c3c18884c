/**
 The parser's stack of sources, and the scanner of attribute values that reads from it.
 */
module AttributeParser {
  import opened Options
  import opened Utf8
  import opened AttributeValue
  import opened AttributeMeaning
  import XmlSpaces

  // `source_state`: what is left of a string, and what the parser has put aside for it.
  datatype SourceState = SourceState(rest: text, inserted: bool, token: text, buffer: text)

  datatype State =
    | AtStart
    | AtReferenceStart
    | AtCharReferenceStart
    | AtHexCharReference
    | AtHexCharReference2
    | AtDecCharReference
    | AtEntityReference

  function ModeOf(state: State, charref: unicode, name: text): Mode
  {
    match state
    case AtStart => Start
    case AtReferenceStart => ReferenceStart
    case AtCharReferenceStart => CharReferenceStart
    case AtHexCharReference => HexCharReference
    case AtHexCharReference2 => HexCharReference2(charref)
    case AtDecCharReference => DecCharReference(charref)
    case AtEntityReference => EntityReference(name)
  }

  class Parser {
    const document: Document
    const validating: bool
    var sources: seq<SourceState>     // m_source, with its top at the end
    var token: text                   // m_token
    var buffer: text                  // m_buffer up to m_buffer_ptr
    var entitiesOnStack: seq<text>

    constructor (document: Document, validating: bool)
      ensures this.document == document && this.validating == validating
      ensures sources == [] && token == [] && buffer == [] && entitiesOnStack == []
    {
      this.document, this.validating := document, validating;
      sources, token, buffer, entitiesOnStack := [], [], [], [];
    }

    method PushDataSource(s: text, inserted: bool)
      modifies this`sources, this`token, this`buffer
      ensures sources == old(sources) + [SourceState(s, inserted, old(token), old(buffer))]
      ensures token == [] && buffer == []
    {
      sources := sources + [SourceState(s, inserted, token, buffer)];
      token, buffer := [], [];
    }

    method PopDataSource()
      requires sources != []
      modifies this`sources, this`token, this`buffer
      ensures sources == old(sources)[..|old(sources)| - 1]
      ensures token == old(sources)[|old(sources)| - 1].token && buffer == old(sources)[|old(sources)| - 1].buffer
    {
      var top := sources[|sources| - 1];
      sources := sources[..|sources| - 1];
      token, buffer := top.token, top.buffer;
    }

    // The next character of the top of the stack, or 0 at its end.
    method ReadTop() returns (c: unicode)
      requires sources != []
      modifies this`sources
      ensures var n := |old(sources)| - 1; var top := old(sources)[n];
        && c == (if top.rest == [] then 0 else top.rest[0])
        && sources == old(sources)[n := top.(rest := if top.rest == [] then [] else top.rest[1..])]
    {
      var n := |sources| - 1;
      var top := sources[n];
      c := 0;
      if top.rest != [] {
        c := top.rest[0];
        top := top.(rest := top.rest[1..]);
      }
      sources := sources[n := top];
    }

    /**
     The character put back last, if any; otherwise the next of the sources, where an inserted one
     that is at its end makes place for the one below it.
     */
    method GetNextChar() returns (result: unicode)
      modifies this`sources, this`token, this`buffer
      ensures old(buffer) == [] && old(sources) != [] && !old(sources)[|old(sources)| - 1].inserted ==>
        var n := |old(sources)| - 1; var top := old(sources)[n];
        && result == (if top.rest == [] then 0 else top.rest[0])
        && sources == old(sources)[n := top.(rest := if top.rest == [] then [] else top.rest[1..])]
        && buffer == []
    {
      result := 0;
      if buffer != [] {
        result := buffer[|buffer| - 1];
        buffer := buffer[..|buffer| - 1];
      }
      if result == 0 {
        while sources != []
          invariant old(buffer) == [] && old(sources) != [] && !old(sources)[|old(sources)| - 1].inserted ==>
            result == 0 && sources == old(sources) && buffer == []
          decreases |sources|
        {
          result := ReadTop();
          if result == 0 && sources[|sources| - 1].inserted {
            PopDataSource();
            continue;
          }
          break;
        }
      }
      token := token + [result];
    }

    /**
     Normalizes the value in the source at the top of the stack.  The references in it are expanded
     by pushing their replacement texts, and in the end the stacks are as they were below that
     source.
     */
    method NormalizeAttributeValue() returns (r: Result<text>)
      requires buffer == [] && sources != [] && !sources[|sources| - 1].inserted
      modifies this`sources, this`token, this`buffer, this`entitiesOnStack
      ensures r == Normalize(document, old(entitiesOnStack), old(sources)[|old(sources)| - 1].rest)
      ensures r.Ok? ==>
        var n := |old(sources)| - 1;
        && sources == old(sources)[..n] && entitiesOnStack == old(entitiesOnStack)
        && token == old(sources)[n].token && buffer == old(sources)[n].buffer
      decreases Free(document, entitiesOnStack), 1
    {
      var result: text := [];
      var charref: unicode := 0;
      var name: text := [];
      var state := AtStart;
      ghost var n := |sources| - 1;
      ghost var (below, top, stack) := (sources[..n], sources[n], entitiesOnStack);
      ghost var s := top.rest;
      ScanBegins(document, stack, s);
      while true
        invariant sources == below + [top.(rest := s)] && buffer == [] && entitiesOnStack == stack
        invariant Normalize(document, stack, top.rest)
               == Then(result, Scan(document, stack, ModeOf(state, charref, name), s))
        decreases |s|
      {
        Modes(document, charref, name);
        hide *;
        var c := GetNextChar();
        if c == 0 {
          break;
        }
        ScanTurn(document, stack, result, ModeOf(state, charref, name), s);
        s := s[1..];
        if state == AtEntityReference && c == ';' as int {
          Unchanged(result);
          var value := ExpandReference(name);
          if value == Failure {
            return Failure;
          }
          result := result + value.value;
          state := AtStart;
        } else {
          var ok, add;
          ok, state, charref, name, add := Switch(state, charref, name, c);
          if !ok {
            return Failure;
          }
          result := result + add;
        }
      }
      ScanEnds(document, stack, ModeOf(state, charref, name), s);
      if state != AtStart {
        return Failure;
      }
      Unchanged(result);
      PopDataSource();
      return Ok(result);
    }

    /**
     The value of an attribute as it was written, normalized; the parser is left as it was.  In a
     standalone document that is validated a value may not change.
     */
    method NormalizeValue(s: text, cdata: bool) returns (r: Result<text>)
      modifies this`sources, this`token, this`buffer, this`entitiesOnStack
      ensures r == match Normalize(document, old(entitiesOnStack), s)
        case Failure => Failure
        case Ok(v) =>
          if document.standalone && v != s && validating then Failure
          else Ok(if cdata then v else XmlSpaces.Joined(XmlSpaces.Words(v)))
      ensures r.Ok? ==>
        && sources == old(sources) && token == old(token) && buffer == old(buffer)
        && entitiesOnStack == old(entitiesOnStack)
    {
      hide Normalize, XmlSpaces.Words, XmlSpaces.Joined;
      PushDataSource(s, false);
      r := NormalizeAttributeValue();
      if r == Failure {
        return;
      }
      var value := r.value;
      if document.standalone && value != s && validating {
        return Failure;
      }
      if !cdata {
        var a := new unicode[|value|](i requires 0 <= i < |value| => value[i]);
        assert a[..] == value;
        var o := XmlSpaces.CollapseSpaces(a);
        value := a[..o];
      }
      return Ok(value);
    }

    // The switch of the loop, apart from the end of a reference to an entity.
    method Switch(state: State, charref: unicode, name: text, c: unicode)
      returns (ok: bool, next: State, charref': unicode, name': text, add: text)
      requires !(state == AtEntityReference && c == ';' as int)
      ensures var turn := OnChar(document, ModeOf(state, charref, name), c);
        if ok then turn == Go(ModeOf(next, charref', name'), add) else turn == Fail
    {
      ok, next, charref', name', add := true, state, charref, name, [];
      if c == '<' as int {
        ok := false;
        return;
      }
      match state
      case AtStart =>
        if c == 0x20 || c == 0x09 || c == 0x0D || c == 0x0A {
          add := [0x20];
        } else if c == '&' as int {
          next := AtReferenceStart;
        } else {
          add := [c];
        }
      case AtReferenceStart =>
        if c == '#' as int {
          next := AtCharReferenceStart;
        } else if IsNameStartChar(c) {
          name' := [c];
          next := AtEntityReference;
        } else {
          ok := false;
        }
      case AtCharReferenceStart =>
        if c == 'x' as int {
          next := AtHexCharReference;
        } else if '0' as int <= c <= '9' as int {
          charref' := c - '0' as int;
          next := AtDecCharReference;
        } else {
          ok := false;
        }
      case AtDecCharReference =>
        if '0' as int <= c <= '9' as int {
          charref' := Word(charref * 10 + (c - '0' as int));
        } else if c == ';' as int && IsReferrable(document.version10, charref) {
          add := [charref];
          next := AtStart;
        } else {
          ok := false;
        }
      case AtHexCharReference =>
        if IsHexDigit(c) {
          charref' := HexDigitValue(c);
          next := AtHexCharReference2;
        } else {
          ok := false;
        }
      case AtHexCharReference2 =>
        if IsHexDigit(c) {
          charref' := Word(charref * 16 + HexDigitValue(c));
        } else if c == ';' as int && IsReferrable(document.version10, charref) {
          add := [charref];
          next := AtStart;
        } else {
          ok := false;
        }
      case AtEntityReference =>
        if IsNameChar(c) {
          name' := name + [c];
        } else {
          ok := false;
        }
    }

    // The end of a reference to an entity.
    method ExpandReference(name: text) returns (r: Result<text>)
      requires buffer == []
      modifies this`sources, this`token, this`buffer, this`entitiesOnStack
      ensures r == if name in old(entitiesOnStack) || Replacement(document, name) == None then Failure
        else Normalize(document, old(entitiesOnStack) + [name], Replacement(document, name).value)
      ensures r.Ok? ==>
        && sources == old(sources) && entitiesOnStack == old(entitiesOnStack)
        && token == old(token) && buffer == []
      decreases Free(document, entitiesOnStack), 0
    {
      if name in entitiesOnStack {
        return Failure;
      }
      ghost var stack := entitiesOnStack;
      entitiesOnStack := entitiesOnStack + [name];
      var replacement := Replacement(document, name);
      if replacement == None {
        return Failure;
      }
      LessFree(document, stack, name);
      hide Normalize, Free;
      PushDataSource(replacement.value, false);
      r := NormalizeAttributeValue();
      if r == Failure {
        return;
      }
      entitiesOnStack := entitiesOnStack[..|entitiesOnStack| - 1];
    }
  }

  lemma Modes(d: Document, charref: unicode, name: text)
    ensures forall charref, name :: ModeOf(AtStart, charref, name) == Start
    ensures OnChar(d, ModeOf(AtEntityReference, charref, name), ';' as int) == Refer(name)
  {
  }

  lemma ScanEnds(d: Document, stack: seq<text>, m: Mode, s: text)
    requires s == [] || s[0] == 0
    ensures Scan(d, stack, m, s) == if m == Start then Ok([]) else Failure
  {
  }

  lemma Unchanged(s: text)
    ensures s + [] == s
  {
  }

  lemma ScanBegins(d: Document, stack: seq<text>, s: text)
    ensures Normalize(d, stack, s) == Then([], Scan(d, stack, Start, s))
  {
    var r := Scan(d, stack, Start, s);
    assert r.Ok? ==> [] + r.value == r.value;
  }

  // One turn of the loop.
  lemma ScanTurn(d: Document, stack: seq<text>, result: text, m: Mode, s: text)
    requires s != [] && s[0] != 0
    ensures var turn := OnChar(d, m, s[0]);
      && (turn.Fail? ==> Then(result, Scan(d, stack, m, s)) == Failure)
      && (turn.Go? ==>
            Then(result, Scan(d, stack, m, s)) == Then(result + turn.add, Scan(d, stack, turn.mode, s[1..])))
      && (turn.Refer? ==>
            Then(result, Scan(d, stack, m, s))
            == if turn.name in stack || Replacement(d, turn.name) == None then Failure
               else
                 match Normalize(d, stack + [turn.name], Replacement(d, turn.name).value)
                 case Failure => Failure
                 case Ok(r) => Then(result + r, Scan(d, stack, Start, s[1..])))
      && (turn.Refer? && turn.name !in stack && Replacement(d, turn.name).Some? ==> turn.name in Names(d))
  {
    hide OnChar, Replacement;
    var turn := OnChar(d, m, s[0]);
    match turn
    case Fail =>
    case Go(next, add) => ThenThen(result, add, Scan(d, stack, next, s[1..]));
    case Refer(name) =>
      if name !in stack && Replacement(d, name).Some? {
        LessFree(d, stack, name);
        var r := Scan(d, stack + [name], Start, Replacement(d, name).value);
        if r.Ok? {
          ThenThen(result, r.value, Scan(d, stack, Start, s[1..]));
        }
      }
  }

  lemma ThenThen(a: text, b: text, r: Result<text>)
    ensures Then(a, Then(b, r)) == Then(a + b, r)
  {
    if r.Ok? {
      assert a + (b + r.value) == a + b + r.value;
    }
  }
}
