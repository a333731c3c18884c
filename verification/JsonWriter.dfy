/**
 `serialize`: writing a JSON element to a stream.
 */
module JsonWriter {
  import opened Streams
  import opened Utf8
  import opened Sequences
  import opened Text
  import opened JsonElement

  method Serialize(os: Stream<byte>, e: Element)
    modifies os
    ensures os.written == old(os.written) + Print(e)
    decreases e, 1
  {
    hide Ascii, PrintInt, EscapeAll, PrintItems, PrintMembers, Quoted;
    ghost var w := os.written;
    match e
    case Null => os.Write(Ascii("null"));
    case Boolean(b) => os.Write(if b then Ascii("true") else Ascii("false"));
    case Int(n) => os.Write(PrintInt(n));
    case Str(s) => SerializeString(os, s);
    case Array(items) =>
      Bracketed(w, ['[' as int], PrintItems(items), [']' as int]);
      os.Write(['[' as int]);
      SerializeItems(os, items);
      os.Write([']' as int]);
    case Object(members) =>
      Bracketed(w, ['{' as int], PrintMembers(members), ['}' as int]);
      os.Write(['{' as int]);
      SerializeMembers(os, members);
      os.Write(['}' as int]);
  }

  lemma Bracketed<T>(w: seq<T>, a: seq<T>, b: seq<T>, c: seq<T>)
    ensures w + a + b + c == w + (a + b + c)
  {
  }

  method SerializeItems(os: Stream<byte>, items: seq<Element>)
    modifies os
    ensures os.written == old(os.written) + PrintItems(items)
    decreases items, 0
  {
    ghost var before := os.written;
    var i := 0;
    NoItems(items);
    hide *;
    while i < |items|
      invariant 0 <= i <= |items|
      invariant os.written + PrintItems(items[i..]) == before + PrintItems(items)
    {
      hide *;
      NextItem(items, i);
      ghost var (w, tail) := (os.written, PrintItems(items[i + 1..]));
      ghost var comma := if i + 1 < |items| then [',' as int] else [];
      Associate(w + Print(items[i]), comma, tail);
      Associate(w, Print(items[i]), comma + tail);
      Unit(w + Print(items[i]));
      Serialize(os, items[i]);
      if i + 1 < |items| {
        os.Write([',' as int]);
      }
      i := i + 1;
    }
    Unit(os.written);
  }

  lemma NoItems(items: seq<Element>)
    ensures items[0..] == items && items[|items|..] == [] && PrintItems([]) == []
  {
  }

  lemma NextItem(items: seq<Element>, i: nat)
    requires i < |items|
    ensures PrintItems(items[i..])
         == Print(items[i]) + ((if i + 1 < |items| then [',' as int] else []) + PrintItems(items[i + 1..]))
  {
    assert items[i..][0] == items[i] && items[i..][1..] == items[i + 1..];
    hide Print;
  }

  method SerializeMembers(os: Stream<byte>, members: seq<Member>)
    modifies os
    ensures os.written == old(os.written) + PrintMembers(members)
    decreases members, 0
  {
    var first := true;
    var i := 0;
    assert members[0..] == members;
    while i < |members|
      invariant 0 <= i <= |members| && (first <==> i == 0)
      invariant os.written + MembersFrom(members, i) == old(os.written) + PrintMembers(members)
    {
      NextMember(members, i);
      hide Print, PrintMembers, MembersFrom, Quoted;
      ghost var w, tail := os.written, MembersFrom(members, i + 1);
      Regroup(w, if first then [] else [',' as int], Quoted(members[i].key) + [':' as int], Print(members[i].value),
          tail);
      if !first {
        os.Write([',' as int]);
      }
      os.Write(Quoted(members[i].key) + [':' as int]);
      Serialize(os, members[i].value);
      first := false;
      i := i + 1;
    }
  }

  lemma Regroup<T>(w: seq<T>, a: seq<T>, b: seq<T>, c: seq<T>, d: seq<T>)
    ensures w + (a + (b + (c + d))) == w + a + b + c + d
    ensures w + [] == w
  {
  }

  // What is still to be written when the members before the `i`-th have been.
  function MembersFrom(ms: seq<Member>, i: nat): seq<byte>
    requires i <= |ms|
  {
    (if 0 < i < |ms| then [',' as int] else []) + PrintMembers(ms[i..])
  }

  lemma NextMember(ms: seq<Member>, i: nat)
    requires i < |ms|
    ensures MembersFrom(ms, i)
         == (if i > 0 then [',' as int] else [])
            + ((Quoted(ms[i].key) + [':' as int]) + (Print(ms[i].value) + MembersFrom(ms, i + 1)))
  {
    assert ms[i..][0] == ms[i] && ms[i..][1..] == ms[i + 1..];
    hide Print, Quoted;
    var head, tail := Quoted(ms[i].key) + [':' as int], MembersFrom(ms, i + 1);
    assert PrintMembers(ms[i..]) == head + Print(ms[i].value) + tail;
    assert head + Print(ms[i].value) + tail == head + (Print(ms[i].value) + tail);
  }

  method SerializeString(os: Stream<byte>, s: seq<byte>)
    modifies os
    ensures os.written == old(os.written) + Quoted(EscapeAll(s))
  {
    ghost var before := old(os.written) + ['\"' as int];
    hide *;
    os.Write(['\"' as int]);
    WholeString(s);
    var i := 0;
    while i < |s|
      invariant 0 <= i <= |s|
      invariant os.written + EscapeAll(s[i..]) == before + EscapeAll(s)
    {
      NextByte(s, i);
      hide *;
      ghost var w := os.written;
      os.Write(Escape(s[i]));
      Associate(w, Escape(s[i]), EscapeAll(s[i + 1..]));
      i := i + 1;
    }
    Unit(os.written);
    Unit(before + EscapeAll(s));
    Enquoted(old(os.written), EscapeAll(s));
    hide *;
    os.Write(['\"' as int]);
  }

  lemma Enquoted(w: seq<byte>, s: seq<byte>)
    ensures w + ['\"' as int] + s + ['\"' as int] == w + Quoted(s)
  {
  }

  lemma WholeString(s: seq<byte>)
    ensures s[0..] == s && s[|s|..] == [] && EscapeAll(s[|s|..]) == []
  {
  }

  lemma NextByte(s: seq<byte>, i: nat)
    requires i < |s|
    ensures EscapeAll(s[i..]) == Escape(s[i]) + EscapeAll(s[i + 1..])
  {
    assert s[i..][1..] == s[i + 1..];
    hide Escape;
  }
}
