/**
 The members of a parsed object: sorted by their keys, and of several members with one key the first.
 */
module JsonMembers {
  import opened Utf8
  import opened JsonElement
  import opened JsonParser
  import opened JsonGrammar
  import opened JsonRoundTrip

  // ---- the order of the keys ----

  lemma {:induction false} LessTransitive(a: seq<byte>, b: seq<byte>, c: seq<byte>)
    requires Less(a, b) && Less(b, c)
    ensures Less(a, c)
    decreases |a|
  {
    if a != [] && a[0] == b[0] == c[0] {
      LessTransitive(a[1..], b[1..], c[1..]);
    }
  }

  lemma {:induction false} LessTotal(a: seq<byte>, b: seq<byte>)
    ensures Less(a, b) || Less(b, a) || a == b
    decreases |a|
  {
    if a != [] && b != [] && a[0] == b[0] {
      LessTotal(a[1..], b[1..]);
      assert a == [a[0]] + a[1..] && b == [b[0]] + b[1..];
    }
  }

  lemma LessIrreflexive(a: seq<byte>)
    ensures !Less(a, a)
  {
    if Less(a, a) {
      LessAsymmetric(a, a);
    }
  }

  // ---- inserting a member ----

  predicate HasKey(ms: seq<Member>, k: seq<byte>)
  {
    exists i :: 0 <= i < |ms| && ms[i].key == k
  }

  lemma {:induction false} InsertMember(ms: seq<Member>, m: Member, x: Member)
    requires Sorted(ms)
    ensures x in Insert(ms, m) <==> x in ms || (x == m && !HasKey(ms, m.key))
  {
    hide Less;
    if ms != [] {
      LessIrreflexive(m.key);
      LessTotal(ms[0].key, m.key);
      Elements(ms, x);
      if Less(m.key, ms[0].key) {
        BeforeAll(ms, m.key);
      } else if Less(ms[0].key, m.key) {
        InsertMember(ms[1..], m, x);
        Elements([ms[0]] + Insert(ms[1..], m), x);
        KeyIn(ms, m.key);
      }
    }
  }

  lemma Elements(ms: seq<Member>, x: Member)
    requires ms != []
    ensures x in ms <==> x == ms[0] || x in ms[1..]
  {
    assert ms == [ms[0]] + ms[1..];
  }

  lemma KeyIn(ms: seq<Member>, k: seq<byte>)
    requires ms != []
    ensures HasKey(ms, k) <==> ms[0].key == k || HasKey(ms[1..], k)
  {
    if HasKey(ms, k) && ms[0].key != k {
      var i :| 0 <= i < |ms| && ms[i].key == k;
      assert ms[1..][i - 1] == ms[i];
    }
    if HasKey(ms[1..], k) {
      var i :| 0 <= i < |ms[1..]| && ms[1..][i].key == k;
      assert ms[i + 1] == ms[1..][i];
    }
  }

  // A key before the first one is before all of them.
  lemma BeforeAll(ms: seq<Member>, k: seq<byte>)
    requires ms != [] && Sorted(ms) && Less(k, ms[0].key)
    ensures !HasKey(ms, k) && forall i :: 0 <= i < |ms| ==> Less(k, ms[i].key)
  {
    hide Less;
    LessIrreflexive(k);
    forall i | 0 <= i < |ms|
      ensures Less(k, ms[i].key)
    {
      if i > 0 {
        LessTransitive(k, ms[0].key, ms[i].key);
      }
    }
  }

  lemma {:induction false} InsertSorted(ms: seq<Member>, m: Member)
    requires Sorted(ms)
    ensures Sorted(Insert(ms, m))
  {
    hide Less;
    if ms != [] {
      if Less(m.key, ms[0].key) {
        BeforeAll(ms, m.key);
      } else if Less(ms[0].key, m.key) {
        InsertSorted(ms[1..], m);
        AfterFirst(ms, m);
        SortedFrom(ms[0], Insert(ms[1..], m));
      }
    }
  }

  lemma SortedFrom(first: Member, ms: seq<Member>)
    requires Sorted(ms) && forall x <- ms :: Less(first.key, x.key)
    ensures Sorted([first] + ms)
  {
    hide Less;
  }

  lemma AfterFirst(ms: seq<Member>, m: Member)
    requires ms != [] && Sorted(ms) && Less(ms[0].key, m.key)
    ensures forall x <- Insert(ms[1..], m) :: Less(ms[0].key, x.key)
  {
    forall x <- Insert(ms[1..], m)
      ensures Less(ms[0].key, x.key)
    {
      hide Less, Insert;
      InsertMember(ms[1..], m, x);
      if x in ms[1..] {
        var i :| 0 <= i < |ms[1..]| && ms[1..][i] == x;
        assert ms[i + 1] == x;
      }
    }
  }

  // ---- the members of a form ----

  // The first of the members with the key of `x` is `x`.
  predicate IsFirst(ms: seq<MemberForm>, x: Member)
    requires forall m <- ms :: Sound(m.value)
  {
    && ms != []
    && (MemberOf(ms[0]) == x || (MemberOf(ms[0]).key != x.key && IsFirst(ms[1..], x)))
  }

  lemma {:induction false} MembersCollected(e: Element, ms: seq<MemberForm>, x: Member)
    requires (forall m <- ms :: Sound(m.value)) && Sorted(MembersOf(e))
    ensures Sorted(MembersOf(WithMembers(e, ms)))
    ensures x in MembersOf(WithMembers(e, ms))
       <==> x in MembersOf(e) || (!HasKey(MembersOf(e), x.key) && IsFirst(ms, x))
    decreases |ms|
  {
    hide Value, Less, Insert, HasKey, Sorted;
    if ms != [] {
      var m := MemberOf(ms[0]);
      var e' := Emplace(e, m);
      InsertSorted(MembersOf(e), m);
      InsertMember(MembersOf(e), m, x);
      KeyOfInserted(MembersOf(e), m, x.key);
      MembersCollected(e', ms[1..], x);
    }
  }

  lemma KeyOfInserted(ms: seq<Member>, m: Member, k: seq<byte>)
    requires Sorted(ms)
    ensures HasKey(Insert(ms, m), k) <==> HasKey(ms, k) || k == m.key
  {
    hide Insert, Sorted;
    if HasKey(Insert(ms, m), k) {
      var i :| 0 <= i < |Insert(ms, m)| && Insert(ms, m)[i].key == k;
      InsertMember(ms, m, Insert(ms, m)[i]);
    }
    if HasKey(ms, k) {
      var i :| 0 <= i < |ms| && ms[i].key == k;
      InsertMember(ms, m, ms[i]);
      var j :| 0 <= j < |Insert(ms, m)| && Insert(ms, m)[j] == ms[i];
    } else if k == m.key {
      InsertMember(ms, m, m);
      var j :| 0 <= j < |Insert(ms, m)| && Insert(ms, m)[j] == m;
    }
  }

  /** An object is read as its members in the order of their keys, each key with its first value. */
  lemma FirstKeyWins(ms: seq<MemberForm>, comma: bool, x: Member)
    requires ms != [] && Sound(ObjectForm(ms, comma))
    ensures var e := Value(ObjectForm(ms, comma));
      e.Object? && Sorted(e.members) && (x in e.members <==> IsFirst(ms, x))
  {
    MembersCollected(Null, ms, x);
    StaysObject(Null, ms);
  }

  lemma {:induction false} StaysObject(e: Element, ms: seq<MemberForm>)
    requires (forall m <- ms :: Sound(m.value)) && (ms != [] || e.Object?)
    ensures WithMembers(e, ms).Object?
    decreases |ms|
  {
    hide Value, Insert;
    if ms != [] {
      StaysObject(Emplace(e, MemberOf(ms[0])), ms[1..]);
    }
  }
}
