/**
 Deterministic content models (XML 1.0, appendix E): the occurrences of names in a model
 are told apart by marking each with its position, and a model is one-unambiguous when a
 marked word never offers two different positions for the same next name.
 */
module Determinism {
  import opened ContentModel

  // An occurrence of `name`: `path` leads to it from the root of the content model.
  datatype Mark<N> = Mark(path: seq<nat>, name: N)

  function Marked<N>(c: Spec<N>, p: seq<nat>): Spec<Mark<N>>
  {
    match c
    case Any => Any
    case Empty => Empty
    case Element(n) => Element(Mark(p, n))
    case Repeated(sub, rep) => Repeated(Marked(sub, p + [0]), rep)
    case Seq(subs) => Seq(MarkedAll(subs, p, 0))
    case Choice(subs, mixed) => Choice(MarkedAll(subs, p, 0), mixed)
  }

  function MarkedAll<N>(cs: seq<Spec<N>>, p: seq<nat>, i: nat): (ms: seq<Spec<Mark<N>>>)
    ensures |ms| == |cs|
  {
    if cs == [] then [] else [Marked(cs[0], p + [i])] + MarkedAll(cs[1..], p, i + 1)
  }

  function Unmark<N>(w: seq<Mark<N>>): seq<N>
  {
    seq(|w|, i requires 0 <= i < |w| => w[i].name)
  }

  // No two different occurrences compete for the same name after the same marked word.
  ghost predicate Deterministic<N(!new)>(m: Spec<Mark<N>>)
  {
    forall a: seq<Mark<N>>, b: seq<Mark<N>>, k: nat :: Agree(m, a, b, k)
  }

  ghost predicate Agree<N(!new)>(m: Spec<Mark<N>>, a: seq<Mark<N>>, b: seq<Mark<N>>, k: nat)
  {
    k < |a| && k < |b| && Matches(m, a) && Matches(m, b) && a[..k] == b[..k] && a[k].name == b[k].name
    ==> a[k] == b[k]
  }

  ghost predicate OneUnambiguous<N(!new)>(c: Spec<N>)
  {
    Deterministic(Marked(c, []))
  }

  // A model built from names only, as every model between parentheses is.
  ghost predicate NoAny<N>(c: Spec<N>)
  {
    match c
    case Any => false
    case Empty => true
    case Element(_) => true
    case Repeated(sub, _) => NoAny(sub)
    case Seq(subs) => forall s <- subs :: NoAny(s)
    case Choice(subs, _) => forall s <- subs :: NoAny(s)
  }

  // ---- words and marked words ----

  lemma {:induction false} MarkedAllAt<N(!new)>(cs: seq<Spec<N>>, p: seq<nat>, i: nat, k: nat)
    requires k < |cs|
    ensures MarkedAll(cs, p, i)[k] == Marked(cs[k], p + [i + k])
    decreases cs
  {
    if k > 0 {
      MarkedAllAt(cs[1..], p, i + 1, k - 1);
    }
  }

  lemma UnmarkConcat<N(!new)>(u: seq<Mark<N>>, v: seq<Mark<N>>)
    ensures Unmark(u + v) == Unmark(u) + Unmark(v)
  {
  }

  lemma UnmarkSlice<N(!new)>(u: seq<Mark<N>>, i: nat, j: nat)
    requires i <= j <= |u|
    ensures Unmark(u[i..j]) == Unmark(u)[i..j]
  {
  }

  // A word of the model can be marked ...
  lemma {:induction false} MarkWord<N(!new)>(c: Spec<N>, p: seq<nat>, w: seq<N>) returns (a: seq<Mark<N>>)
    requires Matches(c, w)
    ensures Matches(Marked(c, p), a) && Unmark(a) == w
    decreases c, |w|, 0
  {
    match c
    case Any =>
      a := seq(|w|, i requires 0 <= i < |w| => Mark([], w[i]));
    case Empty =>
      a := [];
    case Element(n) =>
      a := [Mark(p, n)];
    case Repeated(sub, ZeroOrOnce) =>
      if w == [] {
        a := [];
      } else {
        a := MarkWord(sub, p + [0], w);
      }
    case Repeated(sub, ZeroOrMore) =>
      a := MarkStar(sub, p + [0], w);
    case Repeated(sub, OneOrMore) =>
      a := MarkPlus(sub, p + [0], w);
    case Seq(subs) =>
      a := MarkSeq(subs, p, 0, w);
    case Choice(subs, mixed) =>
      if mixed && w == [] {
        a := [];
      } else {
        var i :| 0 <= i < |subs| && Matches(subs[i], w);
        a := MarkWord(subs[i], p + [i], w);
        MarkedAllAt(subs, p, 0, i);
      }
  }

  lemma {:induction false} MarkPlus<N(!new)>(c: Spec<N>, p: seq<nat>, w: seq<N>) returns (a: seq<Mark<N>>)
    requires Matches(Repeated(c, OneOrMore), w)
    ensures Matches(Repeated(Marked(c, p), OneOrMore), a) && Unmark(a) == w
    decreases c, |w|, 2
  {
    var k :| 0 <= k <= |w| && Matches(c, w[..k]) && MatchesStar(c, w[k..]);
    assert w[..k] + w[k..] == w;
    hide *;
    var u := MarkWord(c, p, w[..k]);
    var v := MarkStar(c, p, w[k..]);
    PlusIntro(Marked(c, p), u, v);
    UnmarkConcat(u, v);
    a := u + v;
  }

  lemma {:induction false} MarkStar<N(!new)>(c: Spec<N>, p: seq<nat>, w: seq<N>) returns (a: seq<Mark<N>>)
    requires MatchesStar(c, w)
    ensures MatchesStar(Marked(c, p), a) && Unmark(a) == w
    decreases c, |w|, 1
  {
    if w == [] {
      a := [];
    } else {
      var k :| 0 < k <= |w| && Matches(c, w[..k]) && MatchesStar(c, w[k..]);
      var u := MarkWord(c, p, w[..k]);
      var v := MarkStar(c, p, w[k..]);
      StarIntro(Marked(c, p), u, v);
      UnmarkConcat(u, v);
      a := u + v;
    }
  }

  lemma {:induction false} MarkSeq<N(!new)>(cs: seq<Spec<N>>, p: seq<nat>, i: nat, w: seq<N>)
    returns (a: seq<Mark<N>>)
    requires MatchesSeq(cs, w)
    ensures MatchesSeq(MarkedAll(cs, p, i), a) && Unmark(a) == w
    decreases cs, |w|
  {
    if cs == [] {
      a := [];
    } else {
      var k :| 0 <= k <= |w| && Matches(cs[0], w[..k]) && MatchesSeq(cs[1..], w[k..]);
      var u := MarkWord(cs[0], p + [i], w[..k]);
      var v := MarkSeq(cs[1..], p, i + 1, w[k..]);
      SeqIntro(MarkedAll(cs, p, i), u, v);
      UnmarkConcat(u, v);
      a := u + v;
    }
  }

  // ... and a marked word unmarked.
  lemma {:induction false} UnmarkWord<N(!new)>(c: Spec<N>, p: seq<nat>, a: seq<Mark<N>>)
    requires Matches(Marked(c, p), a)
    ensures Matches(c, Unmark(a))
    decreases c, |a|, 0
  {
    match c
    case Any =>
    case Empty =>
    case Element(n) =>
    case Repeated(sub, ZeroOrOnce) =>
      if a != [] {
        UnmarkWord(sub, p + [0], a);
      }
    case Repeated(sub, ZeroOrMore) =>
      UnmarkStar(sub, p + [0], a);
    case Repeated(sub, OneOrMore) =>
      UnmarkPlus(sub, p, a);
    case Seq(subs) =>
      UnmarkSeq(subs, p, 0, a);
    case Choice(subs, mixed) =>
      UnmarkChoice(subs, mixed, p, a);
  }

  lemma {:induction false} UnmarkPlus<N(!new)>(c: Spec<N>, p: seq<nat>, a: seq<Mark<N>>)
    requires Matches(Marked(Repeated(c, OneOrMore), p), a)
    ensures Matches(Repeated(c, OneOrMore), Unmark(a))
    decreases c, |a|, 2
  {
    var m := Marked(c, p + [0]);
    assert Marked(Repeated(c, OneOrMore), p) == Repeated(m, OneOrMore);
    var k :| 0 <= k <= |a| && Matches(m, a[..k]) && MatchesStar(m, a[k..]);
    hide Matches, Marked;
    UnmarkWord(c, p + [0], a[..k]);
    UnmarkStar(c, p + [0], a[k..]);
    PlusIntro(c, Unmark(a[..k]), Unmark(a[k..]));
    UnmarkConcat(a[..k], a[k..]);
    assert a[..k] + a[k..] == a;
  }

  lemma {:induction false} UnmarkChoice<N(!new)>(cs: seq<Spec<N>>, mixed: bool, p: seq<nat>, a: seq<Mark<N>>)
    requires Matches(Marked(Choice(cs, mixed), p), a)
    ensures Matches(Choice(cs, mixed), Unmark(a))
    decreases cs, |a|, 0
  {
    var ms := MarkedAll(cs, p, 0);
    assert Marked(Choice(cs, mixed), p) == Choice(ms, mixed);
    if !(mixed && a == []) {
      var i :| 0 <= i < |ms| && Matches(ms[i], a);
      MarkedAllAt(cs, p, 0, i);
      hide Marked, MarkedAll;
      UnmarkWord(cs[i], p + [i], a);
    }
  }

  lemma {:induction false} UnmarkStar<N(!new)>(c: Spec<N>, p: seq<nat>, a: seq<Mark<N>>)
    requires MatchesStar(Marked(c, p), a)
    ensures MatchesStar(c, Unmark(a))
    decreases c, |a|, 1
  {
    if a != [] {
      var m := Marked(c, p);
      var k :| 0 < k <= |a| && Matches(m, a[..k]) && MatchesStar(m, a[k..]);
      UnmarkWord(c, p, a[..k]);
      UnmarkStar(c, p, a[k..]);
      StarIntro(c, Unmark(a[..k]), Unmark(a[k..]));
      UnmarkConcat(a[..k], a[k..]);
      assert a[..k] + a[k..] == a;
    }
  }

  lemma {:induction false} UnmarkSeq<N(!new)>(cs: seq<Spec<N>>, p: seq<nat>, i: nat, a: seq<Mark<N>>)
    requires MatchesSeq(MarkedAll(cs, p, i), a)
    ensures MatchesSeq(cs, Unmark(a))
    decreases cs, |a|
  {
    if cs != [] {
      var ms := MarkedAll(cs, p, i);
      var k :| 0 <= k <= |a| && Matches(ms[0], a[..k]) && MatchesSeq(ms[1..], a[k..]);
      UnmarkWord(cs[0], p + [i], a[..k]);
      UnmarkSeq(cs[1..], p, i + 1, a[k..]);
      SeqIntro(cs, Unmark(a[..k]), Unmark(a[k..]));
      UnmarkConcat(a[..k], a[k..]);
      assert a[..k] + a[k..] == a;
    }
  }

  // ---- where the marks of a sub-model point ----

  ghost predicate Below<N>(x: Mark<N>, p: seq<nat>)
  {
    p <= x.path
  }

  // `x` occurs in one of the children of `p` from the `i`-th on.
  ghost predicate BelowFrom<N>(x: Mark<N>, p: seq<nat>, i: nat)
  {
    |p| < |x.path| && p <= x.path && i <= x.path[|p|]
  }

  lemma BelowChild<N>(x: Mark<N>, p: seq<nat>, i: nat)
    ensures Below(x, p + [i]) <==> BelowFrom(x, p, i) && x.path[|p|] == i
  {
    if Below(x, p + [i]) {
      assert (p + [i])[|p|] == i && (p + [i])[..|p|] == p;
    }
    if BelowFrom(x, p, i) && x.path[|p|] == i {
      assert p + [i] == x.path[..|p| + 1];
    }
  }

  lemma {:induction false} MarksBelow<N(!new)>(c: Spec<N>, p: seq<nat>, a: seq<Mark<N>>)
    requires NoAny(c) && Matches(Marked(c, p), a)
    ensures forall k :: 0 <= k < |a| ==> Below(a[k], p)
    decreases c, |a|, 0
  {
    match c
    case Any =>
    case Empty =>
    case Element(n) =>
    case Repeated(sub, rep) =>
      if rep == ZeroOrOnce {
        if a != [] {
          MarksBelow(sub, p + [0], a);
        }
      } else {
        if rep == OneOrMore {
          PlusIsStar(Marked(sub, p + [0]), a);
        }
        MarksBelowStar(sub, p + [0], a);
      }
      forall k | 0 <= k < |a|
        ensures Below(a[k], p)
      {
        BelowChild(a[k], p, 0);
      }
    case Seq(subs) =>
      MarksBelowSeq(subs, p, 0, a);
    case Choice(subs, mixed) =>
      if a != [] {
        var ms := MarkedAll(subs, p, 0);
        var i :| 0 <= i < |ms| && Matches(ms[i], a);
        MarkedAllAt(subs, p, 0, i);
        MarksBelow(subs[i], p + [i], a);
        forall k | 0 <= k < |a|
          ensures Below(a[k], p)
        {
          BelowChild(a[k], p, i);
        }
      }
  }

  lemma {:induction false} MarksBelowStar<N(!new)>(c: Spec<N>, p: seq<nat>, a: seq<Mark<N>>)
    requires NoAny(c) && MatchesStar(Marked(c, p), a)
    ensures forall k :: 0 <= k < |a| ==> Below(a[k], p)
    decreases c, |a|, 1
  {
    if a != [] {
      var m := Marked(c, p);
      var k :| 0 < k <= |a| && Matches(m, a[..k]) && MatchesStar(m, a[k..]);
      MarksBelow(c, p, a[..k]);
      MarksBelowStar(c, p, a[k..]);
      assert a == a[..k] + a[k..];
    }
  }

  lemma {:induction false} MarksBelowSeq<N(!new)>(cs: seq<Spec<N>>, p: seq<nat>, i: nat, a: seq<Mark<N>>)
    requires (forall c <- cs :: NoAny(c)) && MatchesSeq(MarkedAll(cs, p, i), a)
    ensures forall k :: 0 <= k < |a| ==> BelowFrom(a[k], p, i)
    decreases cs, |a|
  {
    if cs != [] {
      var ms := MarkedAll(cs, p, i);
      var j :| 0 <= j <= |a| && Matches(ms[0], a[..j]) && MatchesSeq(ms[1..], a[j..]);
      MarksBelow(cs[0], p + [i], a[..j]);
      MarksBelowSeq(cs[1..], p, i + 1, a[j..]);
      forall k | 0 <= k < |a|
        ensures BelowFrom(a[k], p, i)
      {
        if k < j {
          assert a[..j][k] == a[k];
          BelowChild(a[k], p, i);
        } else {
          assert a[j..][k - j] == a[k];
        }
      }
    }
  }

  // ---- marked languages are local: only the last occurrence decides what may follow ----

  // The word of a repetition that covers index `k`.
  lemma {:induction false} StarPiece<N(!new)>(m: Spec<N>, a: seq<N>, k: nat) returns (i: nat, j: nat)
    requires MatchesStar(m, a) && k < |a|
    ensures i <= k < j <= |a|
    ensures MatchesStar(m, a[..i]) && Matches(m, a[i..j]) && MatchesStar(m, a[j..])
    decreases |a|
  {
    var h :| 0 < h <= |a| && Matches(m, a[..h]) && MatchesStar(m, a[h..]);
    if k < h {
      i, j := 0, h;
      assert a[0..h] == a[..h];
    } else {
      i, j := StarPiece(m, a[h..], k - h);
      StarIntro(m, a[..h], a[h..][..i]);
      assert a[..h] + a[h..][..i] == a[..h + i];
      assert a[h..][i..j] == a[h + i..h + j] && a[h..][j..] == a[h + j..];
      i, j := h + i, h + j;
    }
  }

  lemma NonEmptyStarIsPlus<N(!new)>(m: Spec<N>, a: seq<N>)
    requires MatchesStar(m, a) && a != []
    ensures Matches(Repeated(m, OneOrMore), a)
  {
    var h :| 0 < h <= |a| && Matches(m, a[..h]) && MatchesStar(m, a[h..]);
  }

  lemma {:induction false} Local<N(!new)>(c: Spec<N>, p: seq<nat>, a: seq<Mark<N>>, b: seq<Mark<N>>, i: nat, j: nat)
    requires NoAny(c) && Matches(Marked(c, p), a) && Matches(Marked(c, p), b)
    requires i < |a| && j < |b| && a[i] == b[j]
    ensures Matches(Marked(c, p), a[..i] + b[j..])
    decreases c, 0
  {
    match c
    case Empty =>
    case Element(n) =>
      assert a[..i] + b[j..] == b;
    case Repeated(sub, ZeroOrOnce) =>
      Local(sub, p + [0], a, b, i, j);
    case Repeated(sub, ZeroOrMore) =>
      LocalStar(sub, p + [0], a, b, i, j);
    case Repeated(sub, OneOrMore) =>
      PlusIsStar(Marked(sub, p + [0]), a);
      PlusIsStar(Marked(sub, p + [0]), b);
      LocalStar(sub, p + [0], a, b, i, j);
      NonEmptyStarIsPlus(Marked(sub, p + [0]), a[..i] + b[j..]);
    case Seq(subs) =>
      LocalSeq(subs, p, 0, a, b, i, j);
    case Choice(subs, mixed) =>
      var ms := MarkedAll(subs, p, 0);
      var h :| 0 <= h < |ms| && Matches(ms[h], a);
      var g :| 0 <= g < |ms| && Matches(ms[g], b);
      MarkedAllAt(subs, p, 0, h);
      MarkedAllAt(subs, p, 0, g);
      MarksBelow(subs[h], p + [h], a);
      MarksBelow(subs[g], p + [g], b);
      BelowChild(a[i], p, h);
      BelowChild(b[j], p, g);
      Local(subs[h], p + [h], a, b, i, j);
  }

  lemma {:induction false} LocalStar<N(!new)>(c: Spec<N>, p: seq<nat>, a: seq<Mark<N>>, b: seq<Mark<N>>, i: nat, j: nat)
    requires NoAny(c) && MatchesStar(Marked(c, p), a) && MatchesStar(Marked(c, p), b)
    requires i < |a| && j < |b| && a[i] == b[j]
    ensures MatchesStar(Marked(c, p), a[..i] + b[j..])
    decreases c, 1
  {
    var m := Marked(c, p);
    var ai, aj := StarPiece(m, a, i);
    var bi, bj := StarPiece(m, b, j);
    SpliceSlices(a, b, ai, aj, bi, bj, i, j);
    Local(c, p, a[ai..aj], b[bi..bj], i - ai, j - bi);
    StarIntro(m, a[ai..i] + b[j..bj], b[bj..]);
    StarConcat(m, a[..ai], a[ai..i] + b[j..bj] + b[bj..]);
  }

  lemma SpliceSlices<T>(a: seq<T>, b: seq<T>, ai: nat, aj: nat, bi: nat, bj: nat, i: nat, j: nat)
    requires ai <= i < aj <= |a| && bi <= j < bj <= |b|
    ensures a[ai..aj][i - ai] == a[i] && b[bi..bj][j - bi] == b[j]
    ensures a[ai..aj][..i - ai] == a[ai..i] && b[bi..bj][j - bi..] == b[j..bj]
    ensures a[..ai] + (a[ai..i] + b[j..bj] + b[bj..]) == a[..i] + b[j..]
  {
  }

  lemma {:induction false} LocalSeq<N(!new)>(cs: seq<Spec<N>>, p: seq<nat>, h: nat, a: seq<Mark<N>>, b: seq<Mark<N>>,
      i: nat, j: nat)
    requires forall c <- cs :: NoAny(c)
    requires MatchesSeq(MarkedAll(cs, p, h), a) && MatchesSeq(MarkedAll(cs, p, h), b)
    requires i < |a| && j < |b| && a[i] == b[j]
    ensures MatchesSeq(MarkedAll(cs, p, h), a[..i] + b[j..])
    decreases cs, 0
  {
    var ms := MarkedAll(cs, p, h);
    var k :| 0 <= k <= |a| && Matches(ms[0], a[..k]) && MatchesSeq(ms[1..], a[k..]);
    var l :| 0 <= l <= |b| && Matches(ms[0], b[..l]) && MatchesSeq(ms[1..], b[l..]);
    SideOf(cs, p, h, a, k, i);
    SideOf(cs, p, h, b, l, j);
    hide Matches, MatchesSeq, Below, BelowFrom, NoAny;
    if i < k {
      Local(cs[0], p + [h], a[..k], b[..l], i, j);
      SpliceInHead(a, b, k, l, i, j);
      SeqIntro(ms, a[..k][..i] + b[..l][j..], b[l..]);
    } else {
      LocalSeq(cs[1..], p, h + 1, a[k..], b[l..], i - k, j - l);
      SpliceInTail(a, b, k, l, i, j);
      SeqIntro(ms, a[..k], a[k..][..i - k] + b[l..][j - l..]);
    }
  }

  lemma SpliceInHead<T>(a: seq<T>, b: seq<T>, k: nat, l: nat, i: nat, j: nat)
    requires i < k <= |a| && j < l <= |b|
    ensures a[..k][..i] + b[..l][j..] + b[l..] == a[..i] + b[j..]
  {
  }

  lemma SpliceInTail<T>(a: seq<T>, b: seq<T>, k: nat, l: nat, i: nat, j: nat)
    requires k <= i < |a| && l <= j < |b|
    ensures a[..k] + (a[k..][..i - k] + b[l..][j - l..]) == a[..i] + b[j..]
  {
  }

  // The mark of a symbol tells whether it belongs to the head of a sequence.
  lemma SideOf<N(!new)>(cs: seq<Spec<N>>, p: seq<nat>, h: nat, a: seq<Mark<N>>, k: nat, i: nat)
    requires cs != [] && (forall c <- cs :: NoAny(c)) && k <= |a| && i < |a|
    requires Matches(MarkedAll(cs, p, h)[0], a[..k]) && MatchesSeq(MarkedAll(cs, p, h)[1..], a[k..])
    ensures i < k <==> Below(a[i], p + [h])
  {
    BelowChild(a[i], p, h);
    if i < k {
      MarksBelow(cs[0], p + [h], a[..k]);
      assert a[..k][i] == a[i];
    } else {
      MarksBelowSeq(cs[1..], p, h + 1, a[k..]);
      assert a[k..][i - k] == a[i];
    }
  }

  // ---- what determinism says about the parts of a model ----

  lemma DeterministicAt<N(!new)>(m: Spec<Mark<N>>, a: seq<Mark<N>>, b: seq<Mark<N>>, k: nat)
    requires Deterministic(m) && Matches(m, a) && Matches(m, b) && k < |a| && k < |b|
    requires a[..k] == b[..k] && a[k].name == b[k].name
    ensures a[k] == b[k]
  {
    assert Agree(m, a, b, k);
  }

  // Marked words are determined by their names as far as those agree.
  lemma {:induction false} SameMarks<N(!new)>(m: Spec<Mark<N>>, a: seq<Mark<N>>, b: seq<Mark<N>>, k: nat)
    requires Deterministic(m) && Matches(m, a) && Matches(m, b) && k <= |a| && k <= |b|
    requires Unmark(a)[..k] == Unmark(b)[..k]
    ensures a[..k] == b[..k]
    decreases k
  {
    if k > 0 {
      assert Unmark(a)[..k][..k - 1] == Unmark(a)[..k - 1] && Unmark(b)[..k][..k - 1] == Unmark(b)[..k - 1];
      SameMarks(m, a, b, k - 1);
      assert Unmark(a)[..k][k - 1] == a[k - 1].name && Unmark(b)[..k][k - 1] == b[k - 1].name;
      DeterministicAt(m, a, b, k - 1);
      assert a[..k] == a[..k - 1] + [a[k - 1]] && b[..k] == b[..k - 1] + [b[k - 1]];
    }
  }

  // A model inherits determinism from a model around it: every word of the inner one
  // stands between the same two words of the outer one.
  lemma DeterministicPart<N(!new)>(m: Spec<Mark<N>>, part: Spec<Mark<N>>, u: seq<Mark<N>>, v: seq<Mark<N>>)
    requires Deterministic(m)
    requires forall a :: Matches(part, a) ==> Matches(m, u + a + v)
    ensures Deterministic(part)
  {
    forall a: seq<Mark<N>>, b: seq<Mark<N>>, k: nat
      | k < |a| && k < |b| && Matches(part, a) && Matches(part, b) && a[..k] == b[..k] && a[k].name == b[k].name
      ensures a[k] == b[k]
    {
      var a', b' := u + a + v, u + b + v;
      assert a'[..|u| + k] == u + a[..k] && b'[..|u| + k] == u + b[..k];
      assert a'[|u| + k] == a[k] && b'[|u| + k] == b[k];
      DeterministicAt(m, a', b', |u| + k);
    }
  }

  lemma DeterministicSub<N(!new)>(m: Spec<Mark<N>>, rep: Repetition)
    requires Deterministic(Repeated(m, rep))
    ensures Deterministic(m)
    ensures rep != ZeroOrOnce ==> Deterministic(Repeated(m, ZeroOrMore))
  {
    var e: seq<Mark<N>> := [];
    forall a | Matches(m, a)
      ensures Matches(Repeated(m, rep), e + a + e)
    {
      assert e + a + e == a;
      match rep
      case ZeroOrOnce =>
      case ZeroOrMore => StarOne(m, a);
      case OneOrMore => PlusOne(m, a);
    }
    DeterministicPart(Repeated(m, rep), m, e, e);
    if rep == OneOrMore {
      forall a: seq<Mark<N>>, b: seq<Mark<N>>, k: nat
        | k < |a| && k < |b| && MatchesStar(m, a) && MatchesStar(m, b) && a[..k] == b[..k] && a[k].name == b[k].name
        ensures a[k] == b[k]
      {
        NonEmptyStarIsPlus(m, a);
        NonEmptyStarIsPlus(m, b);
        DeterministicAt(Repeated(m, rep), a, b, k);
      }
    }
  }

  lemma DeterministicAlternative<N(!new)>(ms: seq<Spec<Mark<N>>>, mixed: bool, i: nat)
    requires Deterministic(Choice(ms, mixed)) && i < |ms|
    ensures Deterministic(ms[i])
  {
    var e: seq<Mark<N>> := [];
    forall a | Matches(ms[i], a)
      ensures Matches(Choice(ms, mixed), e + a + e)
    {
      assert e + a + e == a;
    }
    DeterministicPart(Choice(ms, mixed), ms[i], e, e);
  }

  lemma DeterministicHeadTail<N(!new)>(cs: seq<Spec<N>>, p: seq<nat>, i: nat)
    requires cs != [] && (forall c <- cs :: WellFormed(c)) && Deterministic(Seq(MarkedAll(cs, p, i)))
    ensures Deterministic(Marked(cs[0], p + [i])) && Deterministic(Seq(MarkedAll(cs[1..], p, i + 1)))
  {
    var ms := MarkedAll(cs, p, i);
    var e: seq<Mark<N>> := [];
    var w := HasWord(cs[0]);
    var u := MarkWord(cs[0], p + [i], w);
    var w' := SeqHasWord(cs[1..]);
    var v := MarkSeq(cs[1..], p, i + 1, w');
    forall a | Matches(ms[0], a)
      ensures Matches(Seq(ms), e + a + v)
    {
      SeqIntro(ms, a, v);
      assert e + a + v == a + v;
    }
    DeterministicPart(Seq(ms), ms[0], e, v);
    forall a | Matches(Seq(ms[1..]), a)
      ensures Matches(Seq(ms), u + a + e)
    {
      SeqIntro(ms, u, a);
      assert u + a + e == u + a;
    }
    DeterministicPart(Seq(ms), Seq(ms[1..]), u, e);
  }

  // ---- the same facts about unmarked words ----

  // After a word of the head of a sequence, a name cannot both continue the head and
  // begin the rest.
  lemma SeqExclusive<N(!new)>(cs: seq<Spec<N>>, p: seq<nat>, i: nat, w: seq<N>, n: N, t: seq<N>, r: seq<N>)
    requires cs != [] && (forall c <- cs :: WellFormed(c) && NoAny(c)) && Deterministic(Seq(MarkedAll(cs, p, i)))
    requires Matches(cs[0], w) && Matches(cs[0], w + [n] + t)
    ensures !MatchesSeq(cs[1..], [n] + r)
  {
    if MatchesSeq(cs[1..], [n] + r) {
      var ms := MarkedAll(cs, p, i);
      var a := MarkWord(cs[0], p + [i], w + [n] + t);
      var rest := MarkSeq(cs[1..], p, i + 1, [n] + r);
      var b := MarkWord(cs[0], p + [i], w);
      SeqIntro(ms, a, rest);
      SeqIntro(ms, b, rest);
      NextMark(Seq(ms), a, rest, b, rest, w, n);
      MarksBelow(cs[0], p + [i], a);
      MarksBelowSeq(cs[1..], p, i + 1, rest);
      BelowChild(a[|w|], p, i);
      assert false;
    }
  }

  // One marked word goes on with `n` inside its first part, the other begins its second
  // part with it, and the names before are the same: so is the occurrence.
  lemma NextMark<N(!new)>(m: Spec<Mark<N>>, a: seq<Mark<N>>, a': seq<Mark<N>>, b: seq<Mark<N>>, b': seq<Mark<N>>,
                          w: seq<N>, n: N)
    requires Deterministic(m) && Matches(m, a + a') && Matches(m, b + b')
    requires |w| < |a| && Unmark(a)[..|w| + 1] == w + [n]
    requires b' != [] && Unmark(b) == w && Unmark(b')[0] == n
    ensures a[|w|] == b'[0]
  {
    var k := |w|;
    assert |b| == k;
    UnmarkConcat(a, a');
    UnmarkConcat(b, b');
    assert Unmark(a + a')[..k + 1] == w + [n];
    assert Unmark(b + b')[..k + 1] == w + [n];
    SameMarks(m, a + a', b + b', k + 1);
    assert (a + a')[..k + 1][k] == a[k] && (b + b')[..k + 1][k] == b'[0];
  }

  // Two alternatives cannot begin with the same name.
  lemma ChoiceExclusive<N(!new)>(cs: seq<Spec<N>>, mixed: bool, p: seq<nat>, i: nat, j: nat, n: N, t: seq<N>, r: seq<N>)
    requires (forall c <- cs :: NoAny(c)) && Deterministic(Choice(MarkedAll(cs, p, 0), mixed))
    requires i < |cs| && j < |cs| && Matches(cs[i], [n] + t) && Matches(cs[j], [n] + r)
    ensures i == j
  {
    var a := MarkAlternative(cs, mixed, p, i, n, t);
    var b := MarkAlternative(cs, mixed, p, j, n, r);
    DeterministicAt(Choice(MarkedAll(cs, p, 0), mixed), a, b, 0);
    BelowChild(a[0], p, i);
    BelowChild(b[0], p, j);
  }

  lemma MarkAlternative<N(!new)>(cs: seq<Spec<N>>, mixed: bool, p: seq<nat>, i: nat, n: N, t: seq<N>)
    returns (a: seq<Mark<N>>)
    requires (forall c <- cs :: NoAny(c)) && i < |cs| && Matches(cs[i], [n] + t)
    ensures Matches(Choice(MarkedAll(cs, p, 0), mixed), a)
    ensures a != [] && a[0].name == n && Below(a[0], p + [i])
  {
    a := MarkWord(cs[i], p + [i], [n] + t);
    MarkedAllAt(cs, p, 0, i);
    MarksBelow(cs[i], p + [i], a);
    assert a[0].name == Unmark(a)[0];
  }

  // The round in progress up to its last occurrence, followed by what comes after that
  // occurrence in the round that covers it in another reading of the word.
  lemma SpliceRound<N(!new)>(c: Spec<N>, p: seq<nat>, w1: seq<N>, w2: seq<N>, t: seq<N>, b: seq<Mark<N>>)
    returns (j: nat)
    requires NoAny(c) && Deterministic(Repeated(Marked(c, p), ZeroOrMore)) && w2 != []
    requires MatchesStar(c, w1) && Matches(c, w2 + t) && MatchesStar(Marked(c, p), b)
    requires |w1| + |w2| <= |b| && Unmark(b)[..|w1| + |w2|] == w1 + w2
    ensures |w1| + |w2| <= j <= |b| && MatchesStar(Marked(c, p), b[j..])
    ensures Matches(c, w2 + Unmark(b)[|w1| + |w2|..j])
  {
    var a1, a2 := MarkBoth(c, p, w1, w2 + t);
    var i;
    i, j := StarPiece(Marked(c, p), b, |w1| + |w2| - 1);
    LastMark(c, p, w1, w2, t, a1, a2, b);
    SpliceWord(c, p, a2, b, w2, t, i, |w1| + |w2|, j);
  }

  lemma SpliceWord<N(!new)>(c: Spec<N>, p: seq<nat>, a: seq<Mark<N>>, b: seq<Mark<N>>, w: seq<N>, t: seq<N>,
                            i: nat, k: nat, j: nat)
    requires NoAny(c) && w != [] && Unmark(a) == w + t && |w| <= |a|
    requires i < k <= j <= |b| && a[|w| - 1] == b[k - 1]
    requires Matches(Marked(c, p), a) && Matches(Marked(c, p), b[i..j])
    ensures Matches(c, w + Unmark(b)[k..j])
  {
    hide *;
    assert b[i..j][k - 1 - i] == b[k - 1];
    Local(c, p, a, b[i..j], |w| - 1, k - 1 - i);
    var joined := a[..|w| - 1] + b[i..j][k - 1 - i..];
    UnmarkWord(c, p, joined);
    UnmarkSplice(a, b, w, t, i, k, j, joined);
  }

  lemma UnmarkSplice<N(!new)>(a: seq<Mark<N>>, b: seq<Mark<N>>, w: seq<N>, t: seq<N>, i: nat, k: nat, j: nat,
      joined: seq<Mark<N>>)
    requires w != [] && Unmark(a) == w + t && |w| <= |a|
    requires i < k <= j <= |b| && a[|w| - 1] == b[k - 1]
    requires joined == a[..|w| - 1] + b[i..j][k - 1 - i..]
    ensures Unmark(joined) == w + Unmark(b)[k..j]
  {
    var l := |w|;
    assert b[i..j][k - 1 - i..] == [b[k - 1]] + b[k..j];
    assert joined == a[..l] + b[k..j];
    assert Unmark(a[..l]) == w by {
      assert forall h :: 0 <= h < l ==> a[h].name == Unmark(a)[h] == w[h];
    }
    UnmarkConcat(a[..l], b[k..j]);
    UnmarkSlice(b, k, j);
  }

  // A repetition that is inside a round after `w2` and whose words go on with `n` either goes
  // on with `n` in that round, or has finished the round and can begin another with `n`.
  lemma StarResume<N(!new)>(c: Spec<N>, p: seq<nat>, w1: seq<N>, w2: seq<N>, t: seq<N>, n: N, v: seq<N>)
    requires NoAny(c) && Deterministic(Repeated(Marked(c, p), ZeroOrMore)) && w2 != []
    requires MatchesStar(c, w1) && Matches(c, w2 + t) && MatchesStar(c, w1 + w2 + [n] + v)
    ensures Prefix(c, w2 + [n]) || (Matches(c, w2) && Prefix(c, [n]))
  {
    hide Matches, MatchesStar, Deterministic, NoAny;
    var w := w1 + w2 + [n] + v;
    var k := |w1| + |w2|;
    var b := MarkStar(c, p, w);
    assert w[..k] == w1 + w2;
    var j := SpliceRound(c, p, w1, w2, t, b);
    assert w[k..] == [n] + v;
    if j > k {
      assert w[k..j] == [n] + w[k + 1..j];
      assert w2 + w[k..j] == w2 + [n] + w[k + 1..j];
      PrefixIntro(c, w2 + [n], w[k + 1..j]);
    } else {
      assert w2 + w[k..k] == w2;
      UnmarkStar(c, p, b[k..]);
      assert Unmark(b[k..]) == w[k..];
      FirstRound(c, n, v);
    }
  }

  lemma FirstRound<N(!new)>(c: Spec<N>, n: N, v: seq<N>)
    requires MatchesStar(c, [n] + v)
    ensures Prefix(c, [n])
  {
    var w := [n] + v;
    var h :| 0 < h <= |w| && Matches(c, w[..h]) && MatchesStar(c, w[h..]);
    assert w[..h] == [n] + w[1..h];
    PrefixIntro(c, [n], w[1..h]);
  }

  lemma PrefixIntro<N(!new)>(c: Spec<N>, w: seq<N>, v: seq<N>)
    requires Matches(c, w + v)
    ensures Prefix(c, w)
  {
  }

  // And if it may stop after `w2`, the round is complete there.
  lemma StarComplete<N(!new)>(c: Spec<N>, p: seq<nat>, w1: seq<N>, w2: seq<N>, t: seq<N>)
    requires NoAny(c) && Deterministic(Repeated(Marked(c, p), ZeroOrMore)) && w2 != []
    requires MatchesStar(c, w1) && Matches(c, w2 + t) && MatchesStar(c, w1 + w2)
    ensures Matches(c, w2)
  {
    var b := MarkStar(c, p, w1 + w2);
    var k := |w1| + |w2|;
    assert |b| == k && (w1 + w2)[..k] == w1 + w2;
    var j := SpliceRound(c, p, w1, w2, t, b);
    assert w2 + (w1 + w2)[k..k] == w2;
  }

  lemma MarkBoth<N(!new)>(c: Spec<N>, p: seq<nat>, u: seq<N>, v: seq<N>) returns (a: seq<Mark<N>>, b: seq<Mark<N>>)
    requires MatchesStar(c, u) && Matches(c, v)
    ensures MatchesStar(Marked(c, p), a) && Matches(Marked(c, p), b) && MatchesStar(Marked(c, p), a + b)
    ensures Unmark(a) == u && Unmark(b) == v && Unmark(a + b) == u + v
  {
    a := MarkStar(c, p, u);
    b := MarkWord(c, p, v);
    StarAppend(Marked(c, p), a, b);
    UnmarkConcat(a, b);
  }

  // Both ways of reading `w1 + w2` end at the same occurrence.
  lemma LastMark<N(!new)>(c: Spec<N>, p: seq<nat>, w1: seq<N>, w2: seq<N>, t: seq<N>,
                          a1: seq<Mark<N>>, a2: seq<Mark<N>>, b: seq<Mark<N>>)
    requires Deterministic(Repeated(Marked(c, p), ZeroOrMore)) && w2 != []
    requires MatchesStar(Marked(c, p), a1 + a2) && MatchesStar(Marked(c, p), b)
    requires Unmark(a1) == w1 && Unmark(a2) == w2 + t
    requires |w1| + |w2| <= |b| && Unmark(b)[..|w1| + |w2|] == w1 + w2
    ensures a2[|w2| - 1] == b[|w1| + |w2| - 1]
  {
    var k := |w1| + |w2|;
    UnmarkConcat(a1, a2);
    assert |a1| == |w1| && |a2| == |w2| + |t|;
    var m := Marked(c, p);
    assert Matches(Repeated(m, ZeroOrMore), a1 + a2) && Matches(Repeated(m, ZeroOrMore), b);
    hide *;
    BeginsWithBoth(w1, w2, t);
    SameMarks(Repeated(m, ZeroOrMore), a1 + a2, b, k);
    LastOfBoth(a1, a2, b, |w2|);
  }

  lemma BeginsWithBoth<T>(a: seq<T>, b: seq<T>, c: seq<T>)
    ensures (a + (b + c))[..|a| + |b|] == a + b
  {
  }

  lemma LastOfBoth<T>(a1: seq<T>, a2: seq<T>, b: seq<T>, n: nat)
    requires 0 < n <= |a2| && |a1| + n <= |b| && (a1 + a2)[..|a1| + n] == b[..|a1| + n]
    ensures a2[n - 1] == b[|a1| + n - 1]
  {
    var k := |a1| + n;
    assert (a1 + a2)[..k][k - 1] == a2[n - 1] && b[..k][k - 1] == b[k - 1];
  }
}
