/**
 Models that stay deterministic under a repetition: what a name can do after a word, when it can
 also begin another word.
 */
module Restarting {
  import opened ContentModel
  import opened Determinism
  import opened Sequences

  // The model may be repeated.
  ghost predicate Restartable<N(!new)>(m: Spec<Mark<N>>)
  {
    Deterministic(Repeated(m, ZeroOrMore))
  }

  // ---- parts that can be repeated when the whole can ----

  lemma {:induction false} StarWithin<N(!new)>(m: Spec<N>, part: Spec<N>, a: seq<N>)
    requires (forall b :: Matches(part, b) ==> MatchesStar(m, b)) && MatchesStar(part, a)
    ensures MatchesStar(m, a)
    decreases |a|
  {
    if a != [] {
      var k :| 0 < k <= |a| && Matches(part, a[..k]) && MatchesStar(part, a[k..]);
      StarWithin(m, part, a[k..]);
      StarConcat(m, a[..k], a[k..]);
      assert a[..k] + a[k..] == a;
    }
  }

  lemma RestartablePart<N(!new)>(m: Spec<Mark<N>>, part: Spec<Mark<N>>)
    requires Restartable(m) && forall b :: Matches(part, b) ==> MatchesStar(m, b)
    ensures Restartable(part)
  {
    forall a: seq<Mark<N>>, b: seq<Mark<N>>, k: nat
      | k < |a| && k < |b| && MatchesStar(part, a) && MatchesStar(part, b) && a[..k] == b[..k] && a[k].name == b[k].name
      ensures a[k] == b[k]
    {
      StarWithin(m, part, a);
      StarWithin(m, part, b);
      DeterministicAt(Repeated(m, ZeroOrMore), a, b, k);
    }
  }

  lemma RestartableOption<N(!new)>(m: Spec<Mark<N>>)
    requires Restartable(Repeated(m, ZeroOrOnce))
    ensures Restartable(m)
  {
    forall b | Matches(m, b) ensures MatchesStar(Repeated(m, ZeroOrOnce), b) {
      StarOne(Repeated(m, ZeroOrOnce), b);
    }
    RestartablePart(Repeated(m, ZeroOrOnce), m);
  }

  lemma RestartableAlternative<N(!new)>(ms: seq<Spec<Mark<N>>>, mixed: bool, i: nat)
    requires Restartable(Choice(ms, mixed)) && i < |ms|
    ensures Restartable(ms[i])
  {
    forall b | Matches(ms[i], b) ensures MatchesStar(Choice(ms, mixed), b) {
      StarOne(Choice(ms, mixed), b);
    }
    RestartablePart(Choice(ms, mixed), ms[i]);
  }

  lemma EmptyMarked<N(!new)>(c: Spec<N>, p: seq<nat>)
    requires Matches(c, [])
    ensures Matches(Marked(c, p), [])
  {
    var a := MarkWord(c, p, []);
    assert |a| == |Unmark(a)|;
    assert a == [];
  }

  // A head that may be empty, and a rest that may be.
  lemma RestartableRest<N(!new)>(cs: seq<Spec<N>>, p: seq<nat>, i: nat)
    requires cs != [] && Restartable(Seq(MarkedAll(cs, p, i))) && Matches(cs[0], [])
    ensures Restartable(Seq(MarkedAll(cs[1..], p, i + 1)))
  {
    var ms := MarkedAll(cs, p, i);
    EmptyMarked(cs[0], p + [i]);
    forall b | Matches(Seq(ms[1..]), b) ensures MatchesStar(Seq(ms), b) {
      SeqIntro(ms, [], b);
      Unit(b);
      StarOne(Seq(ms), b);
    }
    RestartablePart(Seq(ms), Seq(ms[1..]));
  }

  lemma RestartableHead<N(!new)>(cs: seq<Spec<N>>, p: seq<nat>, i: nat)
    requires cs != [] && Restartable(Seq(MarkedAll(cs, p, i))) && MatchesSeq(cs[1..], [])
    ensures Restartable(Marked(cs[0], p + [i]))
  {
    var ms := MarkedAll(cs, p, i);
    var e := MarkSeq(cs[1..], p, i + 1, []);
    assert |e| == |Unmark(e)|;
    assert e == [];
    forall b | Matches(ms[0], b) ensures MatchesStar(Seq(ms), b) {
      SeqIntro(ms, b, e);
      Unit(b);
      StarOne(Seq(ms), b);
    }
    RestartablePart(Seq(ms), ms[0]);
  }

  // ---- the same name cannot be in two places ----

  // After a word of one alternative, a name that continues it cannot begin another.
  lemma StarChoiceExclusive<N(!new)>(cs: seq<Spec<N>>, mixed: bool, p: seq<nat>, i: nat, j: nat, w: seq<N>, n: N,
      t: seq<N>, r: seq<N>)
    requires (forall c <- cs :: NoAny(c)) && Restartable(Choice(MarkedAll(cs, p, 0), mixed)) && i < |cs| && j < |cs|
    requires Matches(cs[i], w) && Matches(cs[i], w + [n] + t) && Matches(cs[j], [n] + r)
    ensures i == j
  {
    var m := Choice(MarkedAll(cs, p, 0), mixed);
    MarkedAllAt(cs, p, 0, i);
    MarkedAllAt(cs, p, 0, j);
    var a := MarkWord(cs[i], p + [i], w + [n] + t);
    var b := MarkWord(cs[i], p + [i], w);
    var b' := MarkWord(cs[j], p + [j], [n] + r);
    StarNext(m, a, b, b', w, n);
    MarksBelow(cs[i], p + [i], a);
    MarksBelow(cs[j], p + [j], b');
    BelowChild(a[|w|], p, i);
    BelowChild(b'[0], p, j);
  }

  // After a word of a sequence that continues behind its head, a name cannot both do so and begin
  // the head.
  lemma StarSeqExclusive<N(!new)>(cs: seq<Spec<N>>, p: seq<nat>, i: nat, u: seq<N>, w: seq<N>, n: N, v: seq<N>,
      r: seq<N>)
    requires cs != [] && (forall c <- cs :: WellFormed(c) && NoAny(c)) && Restartable(Seq(MarkedAll(cs, p, i)))
    requires Matches(cs[0], u) && MatchesSeq(cs, u + w) && MatchesSeq(cs[1..], w + [n] + v)
    ensures !Matches(cs[0], [n] + r)
  {
    if Matches(cs[0], [n] + r) {
      var m := Seq(MarkedAll(cs, p, i));
      var a1 := MarkWord(cs[0], p + [i], u);
      var a2 := MarkSeq(cs[1..], p, i + 1, w + [n] + v);
      var b1 := MarkSeq(cs, p, i, u + w);
      var b2 := MarkWord(cs[0], p + [i], [n] + r);
      var z := SeqHasWord(cs[1..]);
      var b3 := MarkSeq(cs[1..], p, i + 1, z);
      StarSeqNext(m, a1, a2, b1, b2, b3, u, w, n, v, r);
      MarksBelowSeq(cs[1..], p, i + 1, a2);
      MarksBelow(cs[0], p + [i], b2);
      BelowChild(b2[0], p, i);
      assert false;
    }
  }

  lemma StarSeqNext<N(!new)>(m: Spec<Mark<N>>, a1: seq<Mark<N>>, a2: seq<Mark<N>>, b1: seq<Mark<N>>, b2: seq<Mark<N>>,
                             b3: seq<Mark<N>>, u: seq<N>, w: seq<N>, n: N, v: seq<N>, r: seq<N>)
    requires Restartable(m) && m.Seq? && m.subs != []
    requires Matches(m.subs[0], a1) && MatchesSeq(m.subs[1..], a2) && MatchesSeq(m.subs, b1)
    requires Matches(m.subs[0], b2) && MatchesSeq(m.subs[1..], b3)
    requires Unmark(a1) == u && Unmark(a2) == w + [n] + v && Unmark(b1) == u + w && Unmark(b2) == [n] + r
    ensures |w| < |a2| && b2 != [] && a2[|w|] == b2[0]
  {
    assert |a1| == |Unmark(a1)| && |a2| == |Unmark(a2)| && |b2| == |Unmark(b2)|;
    SeqIntro(m.subs, a1, a2);
    SeqIntro(m.subs, b2, b3);
    assert Matches(m, b1) && Matches(m, a1 + a2) && Matches(m, b2 + b3);
    hide *;
    UnmarkConcat(a1, a2);
    UnmarkConcat(b2, b3);
    assert Unmark(a1 + a2)[..|u + w| + 1] == u + w + [n];
    StarNext(m, a1 + a2, b1, b2 + b3, u + w, n);
  }

  // One word goes on with `n` where another ends and a third begins with it.
  lemma StarNext<N(!new)>(m: Spec<Mark<N>>, a: seq<Mark<N>>, b: seq<Mark<N>>, b': seq<Mark<N>>, w: seq<N>, n: N)
    requires Restartable(m) && Matches(m, a) && Matches(m, b) && Matches(m, b')
    requires |w| < |a| && Unmark(a)[..|w| + 1] == w + [n]
    requires Unmark(b) == w && b' != [] && Unmark(b')[0] == n
    ensures a[|w|] == b'[0]
  {
    StarOne(m, a);
    StarOne(m, b');
    StarIntro(m, b, b');
    Unit(a);
    var star := Repeated(m, ZeroOrMore);
    assert Deterministic(star) && Matches(star, a + []) && Matches(star, b + b');
    hide *;
    NextMark(star, a, [], b, b', w, n);
  }
}
