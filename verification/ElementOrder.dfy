/**
 The order of JSON elements: `operator==` and `operator<`, without floating-point numbers.
 */
module ElementOrder {
  import opened Utf8
  import opened JsonElement
  import JsonParser

  // The place of an element's type in the order of types.
  function Rank(e: Element): nat
  {
    match e
    case Null => 0
    case Boolean(_) => 1
    case Int(_) => 2
    case Object(_) => 3
    case Array(_) => 4
    case Str(_) => 5
  }

  function Size(e: Element): nat
  {
    match e
    case Array(items) => 1 + ItemsSize(items)
    case Object(members) => 1 + MembersSize(members)
    case _ => 1
  }

  function ItemsSize(x: seq<Element>): nat
  {
    if x == [] then 0 else 1 + Size(x[0]) + ItemsSize(x[1..])
  }

  function MembersSize(x: seq<Member>): nat
  {
    if x == [] then 0 else 2 + Size(x[0].value) + MembersSize(x[1..])
  }

  predicate Equal(a: Element, b: Element)
    decreases a
  {
    match (a, b)
    case (Array(x), Array(y)) => EqualItems(x, y)
    case (Object(x), Object(y)) => EqualMembers(x, y)
    case (Str(x), Str(y)) => x == y
    case (Int(x), Int(y)) => x == y
    case (Boolean(x), Boolean(y)) => x == y
    case _ => a.Null? && b.Null?
  }

  predicate EqualItems(x: seq<Element>, y: seq<Element>)
    decreases x
  {
    if x == [] || y == [] then x == [] && y == [] else Equal(x[0], y[0]) && EqualItems(x[1..], y[1..])
  }

  predicate EqualMembers(x: seq<Member>, y: seq<Member>)
    decreases x
  {
    if x == [] || y == [] then x == [] && y == []
    else x[0].key == y[0].key && Equal(x[0].value, y[0].value) && EqualMembers(x[1..], y[1..])
  }

  predicate Less(a: Element, b: Element)
    decreases Size(a) + Size(b)
  {
    match (a, b)
    case (Array(x), Array(y)) => LessItems(x, y)
    case (Object(x), Object(y)) => LessMembers(x, y)
    case (Str(x), Str(y)) => JsonParser.Less(x, y)
    case (Int(x), Int(y)) => x < y
    case (Boolean(x), Boolean(y)) => !x && y
    case _ => Rank(a) < Rank(b)
  }

  // Vectors, strings and maps compare as C++ compares ranges: by the first place where one is less.
  predicate LessItems(x: seq<Element>, y: seq<Element>)
    decreases ItemsSize(x) + ItemsSize(y)
  {
    if y == [] then false
    else if x == [] then true
    else Less(x[0], y[0]) || (!Less(y[0], x[0]) && LessItems(x[1..], y[1..]))
  }

  predicate LessMembers(x: seq<Member>, y: seq<Member>)
    decreases MembersSize(x) + MembersSize(y)
  {
    if y == [] then false
    else if x == [] then true
    else LessMember(x[0], y[0]) || (!LessMember(y[0], x[0]) && LessMembers(x[1..], y[1..]))
  }

  // A pair: the key decides, then the value.
  predicate LessMember(m: Member, n: Member)
    decreases Size(m.value) + Size(n.value) + 1
  {
    JsonParser.Less(m.key, n.key) || (!JsonParser.Less(n.key, m.key) && Less(m.value, n.value))
  }

  /** Equal elements are the same element. */
  lemma {:induction false} EqualIsSame(a: Element, b: Element)
    ensures Equal(a, b) <==> a == b
    decreases a
  {
    match (a, b)
    case (Array(x), Array(y)) => EqualItemsIsSame(x, y);
    case (Object(x), Object(y)) => EqualMembersIsSame(x, y);
    case _ =>
  }

  lemma {:induction false} EqualItemsIsSame(x: seq<Element>, y: seq<Element>)
    ensures EqualItems(x, y) <==> x == y
    decreases x
  {
    if x != [] && y != [] {
      EqualIsSame(x[0], y[0]);
      EqualItemsIsSame(x[1..], y[1..]);
      assert x == [x[0]] + x[1..] && y == [y[0]] + y[1..];
    }
  }

  lemma {:induction false} EqualMembersIsSame(x: seq<Member>, y: seq<Member>)
    ensures EqualMembers(x, y) <==> x == y
    decreases x
  {
    if x != [] && y != [] {
      EqualIsSame(x[0].value, y[0].value);
      EqualMembersIsSame(x[1..], y[1..]);
      assert x == [x[0]] + x[1..] && y == [y[0]] + y[1..];
    }
  }

  // Exactly one of three.
  predicate One(p: bool, q: bool, r: bool)
  {
    (p && !q && !r) || (!p && q && !r) || (!p && !q && r)
  }

  lemma {:induction false} BytesTrichotomy(x: seq<byte>, y: seq<byte>)
    ensures One(JsonParser.Less(x, y), JsonParser.Less(y, x), x == y)
  {
    if x != [] && y != [] {
      BytesTrichotomy(x[1..], y[1..]);
      assert x == [x[0]] + x[1..] && y == [y[0]] + y[1..];
    }
  }

  /** Of two elements one is less than the other or they are equal, and only one of these. */
  lemma {:induction false} Trichotomy(a: Element, b: Element)
    ensures One(Less(a, b), Less(b, a), Equal(a, b))
    decreases a
  {
    EqualIsSame(a, b);
    match (a, b)
    case (Array(x), Array(y)) => ItemsTrichotomy(x, y);
    case (Object(x), Object(y)) => MembersTrichotomy(x, y);
    case (Str(x), Str(y)) => BytesTrichotomy(x, y);
    case _ =>
  }

  lemma {:induction false} ItemsTrichotomy(x: seq<Element>, y: seq<Element>)
    ensures One(LessItems(x, y), LessItems(y, x), x == y)
    decreases x
  {
    if x != [] && y != [] {
      Trichotomy(x[0], y[0]);
      EqualIsSame(x[0], y[0]);
      ItemsTrichotomy(x[1..], y[1..]);
      assert x == [x[0]] + x[1..] && y == [y[0]] + y[1..];
    }
  }

  lemma {:induction false} MembersTrichotomy(x: seq<Member>, y: seq<Member>)
    ensures One(LessMembers(x, y), LessMembers(y, x), x == y)
    decreases x
  {
    if x != [] && y != [] {
      Trichotomy(x[0].value, y[0].value);
      EqualIsSame(x[0].value, y[0].value);
      BytesTrichotomy(x[0].key, y[0].key);
      MembersTrichotomy(x[1..], y[1..]);
      assert x == [x[0]] + x[1..] && y == [y[0]] + y[1..];
    }
  }

  lemma {:induction false} BytesTransitive(x: seq<byte>, y: seq<byte>, z: seq<byte>)
    requires JsonParser.Less(x, y) && JsonParser.Less(y, z)
    ensures JsonParser.Less(x, z)
  {
    if x != [] && x[0] == y[0] == z[0] {
      BytesTransitive(x[1..], y[1..], z[1..]);
    }
  }

  lemma {:induction false} Transitive(a: Element, b: Element, c: Element)
    requires Less(a, b) && Less(b, c)
    ensures Less(a, c)
    decreases a
  {
    if Rank(a) == Rank(b) == Rank(c) {
      match (a, b, c)
      case (Array(x), Array(y), Array(z)) => ItemsTransitive(x, y, z);
      case (Object(x), Object(y), Object(z)) => MembersTransitive(x, y, z);
      case (Str(x), Str(y), Str(z)) => BytesTransitive(x, y, z);
      case _ =>
    }
  }

  lemma {:induction false} ItemsTransitive(x: seq<Element>, y: seq<Element>, z: seq<Element>)
    requires LessItems(x, y) && LessItems(y, z)
    ensures LessItems(x, z)
    decreases x
  {
    if x != [] {
      FirstDecides(x[0], y[0]);
      FirstDecides(y[0], z[0]);
      FirstDecides(x[0], z[0]);
      if x[0] == y[0] == z[0] {
        ItemsTransitive(x[1..], y[1..], z[1..]);
      } else if Less(x[0], y[0]) && Less(y[0], z[0]) {
        Transitive(x[0], y[0], z[0]);
      }
    }
  }

  // Elements neither of which is less are the same.
  lemma FirstDecides(a: Element, b: Element)
    ensures One(Less(a, b), Less(b, a), a == b)
  {
    Trichotomy(a, b);
    EqualIsSame(a, b);
  }

  lemma {:induction false} MembersTransitive(x: seq<Member>, y: seq<Member>, z: seq<Member>)
    requires LessMembers(x, y) && LessMembers(y, z)
    ensures LessMembers(x, z)
    decreases x
  {
    if x != [] {
      MemberDecides(x[0], y[0]);
      MemberDecides(y[0], z[0]);
      MemberDecides(x[0], z[0]);
      if x[0] == y[0] == z[0] {
        MembersTransitive(x[1..], y[1..], z[1..]);
      } else if LessMember(x[0], y[0]) && LessMember(y[0], z[0]) {
        MemberTransitive(x[0], y[0], z[0]);
      }
    }
  }

  lemma MemberDecides(m: Member, n: Member)
    ensures One(LessMember(m, n), LessMember(n, m), m == n)
  {
    BytesTrichotomy(m.key, n.key);
    FirstDecides(m.value, n.value);
  }

  lemma {:induction false} MemberTransitive(m: Member, n: Member, o: Member)
    requires LessMember(m, n) && LessMember(n, o)
    ensures LessMember(m, o)
    decreases m
  {
    BytesTrichotomy(m.key, n.key);
    BytesTrichotomy(n.key, o.key);
    BytesTrichotomy(m.key, o.key);
    if JsonParser.Less(m.key, n.key) && JsonParser.Less(n.key, o.key) {
      BytesTransitive(m.key, n.key, o.key);
    } else if m.key == n.key == o.key {
      Transitive(m.value, n.value, o.value);
    }
  }

  // The ranges differ at `k` for the first time, and `x` is less there or ends there.
  predicate LessAt(x: seq<Element>, y: seq<Element>, k: nat)
  {
    k <= |x| && k < |y| && x[..k] == y[..k] && (k == |x| || Less(x[k], y[k]))
  }

  lemma LessAtTail(x: seq<Element>, y: seq<Element>, k: nat)
    requires x != [] && y != []
    ensures LessAt(x, y, k + 1) <==> x[0] == y[0] && LessAt(x[1..], y[1..], k)
  {
    hide Less;
    if k < |x| && k < |y| - 1 {
      assert x[..k + 1] == [x[0]] + x[1..][..k];
      assert y[..k + 1] == [y[0]] + y[1..][..k];
    }
  }

  /** What comparing ranges means: the first place where they differ decides, or the shorter is less. */
  lemma {:induction false} FirstDifference(x: seq<Element>, y: seq<Element>)
    ensures LessItems(x, y) <==> exists k :: LessAt(x, y, k)
    decreases |x|
  {
    if x == [] {
      assert y != [] ==> LessAt(x, y, 0);
    } else if y != [] {
      FirstDecides(x[0], y[0]);
      assert LessAt(x, y, 0) <==> Less(x[0], y[0]);
      FirstDifference(x[1..], y[1..]);
      if k: nat :| LessAt(x, y, k) && k > 0 {
        LessAtTail(x, y, k - 1);
      }
      if k: nat :| LessAt(x[1..], y[1..], k) {
        LessAtTail(x, y, k);
      }
      hide LessAt, Less;
    }
  }

  // ---- what is less than what ----

  /** Elements of different types: null, booleans, integers, objects, arrays, strings, in this order. */
  lemma TypesInOrder(b: bool, n: int, ms: seq<Member>, items: seq<Element>, s: seq<byte>)
    ensures Less(Null, Boolean(b)) && Less(Boolean(b), Int(n)) && Less(Int(n), Object(ms))
    ensures Less(Object(ms), Array(items)) && Less(Array(items), Str(s))
  {
  }

  /** Numbers by their value, false before true. */
  lemma ScalarsInOrder(m: int, n: int)
    ensures m < n ==> Less(Int(m), Int(n))
    ensures m >= n ==> !Less(Int(m), Int(n))
    ensures Less(Boolean(false), Boolean(true)) && !Less(Boolean(true), Boolean(false))
  {
  }

  // The texts differ at `k` for the first time, and `x` has the lower byte there or ends there.
  predicate TextLessAt(x: seq<byte>, y: seq<byte>, k: nat)
  {
    k <= |x| && k < |y| && x[..k] == y[..k] && (k == |x| || x[k] < y[k])
  }

  lemma TextLessAtTail(x: seq<byte>, y: seq<byte>, k: nat)
    requires x != [] && y != []
    ensures TextLessAt(x, y, k + 1) <==> x[0] == y[0] && TextLessAt(x[1..], y[1..], k)
  {
    if k < |x| && k < |y| - 1 {
      assert x[..k + 1] == [x[0]] + x[1..][..k];
      assert y[..k + 1] == [y[0]] + y[1..][..k];
    }
  }

  /** Strings, and the keys of objects, by the first byte that differs. */
  lemma {:induction false} TextsInOrder(x: seq<byte>, y: seq<byte>)
    ensures Less(Str(x), Str(y)) <==> exists k :: TextLessAt(x, y, k)
    ensures JsonParser.Less(x, y) <==> exists k :: TextLessAt(x, y, k)
    decreases |x|
  {
    if x == [] {
      assert y != [] ==> TextLessAt(x, y, 0);
    } else if y != [] {
      assert TextLessAt(x, y, 0) <==> x[0] < y[0];
      TextsInOrder(x[1..], y[1..]);
      if k: nat :| TextLessAt(x, y, k) && k > 0 {
        TextLessAtTail(x, y, k - 1);
      }
      if k: nat :| TextLessAt(x[1..], y[1..], k) {
        TextLessAtTail(x, y, k);
      }
      hide TextLessAt;
    }
  }

  // The lists of members differ at `k` for the first time, and there `x` has the lower key, or the
  // same key with a lower value, or it ends there.
  predicate MembersLessAt(x: seq<Member>, y: seq<Member>, k: nat)
  {
    k <= |x| && k < |y| && x[..k] == y[..k]
    && (k == |x| || JsonParser.Less(x[k].key, y[k].key) || (x[k].key == y[k].key && Less(x[k].value, y[k].value)))
  }

  lemma MembersLessAtTail(x: seq<Member>, y: seq<Member>, k: nat)
    requires x != [] && y != []
    ensures MembersLessAt(x, y, k + 1) <==> x[0] == y[0] && MembersLessAt(x[1..], y[1..], k)
  {
    hide Less;
    if k < |x| && k < |y| - 1 {
      assert x[..k + 1] == [x[0]] + x[1..][..k];
      assert y[..k + 1] == [y[0]] + y[1..][..k];
    }
  }

  /** Objects by the first member that differs. */
  lemma {:induction false} ObjectsInOrder(x: seq<Member>, y: seq<Member>)
    ensures Less(Object(x), Object(y)) <==> exists k :: MembersLessAt(x, y, k)
    decreases |x|
  {
    if x == [] {
      assert y != [] ==> MembersLessAt(x, y, 0);
    } else if y != [] {
      MemberDecides(x[0], y[0]);
      BytesTrichotomy(x[0].key, y[0].key);
      assert MembersLessAt(x, y, 0) <==> LessMember(x[0], y[0]);
      assert Less(Object(x[1..]), Object(y[1..])) == LessMembers(x[1..], y[1..]);
      assert Less(Object(x), Object(y))
          == (LessMember(x[0], y[0]) || (!LessMember(y[0], x[0]) && LessMembers(x[1..], y[1..])));
      ObjectsInOrder(x[1..], y[1..]);
      hide Less, LessMember, LessMembers;
      if k: nat :| MembersLessAt(x, y, k) && k > 0 {
        MembersLessAtTail(x, y, k - 1);
      }
      if k: nat :| MembersLessAt(x[1..], y[1..], k) {
        MembersLessAtTail(x, y, k);
      }
      hide MembersLessAt;
    }
  }
}
