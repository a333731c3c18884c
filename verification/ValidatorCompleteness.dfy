/**
 Completeness of the DTD validator on deterministic content models: every prefix of every
 word is accepted, name by name and without backtracking, when each part of the model that
 has another part behind it is able to say that it is finished.
 */
module ValidatorCompleteness {
  import opened ContentModel
  import opened ValidatorState
  import opened ValidatorSoundness
  import opened Determinism

  predicate Nullable(c: Spec<Name>)
  {
    AllowEmpty(Create(c))
  }

  // A fresh machine that refuses a name says "done" if it may stay empty.  A choice only
  // passes on what its last alternative says.
  predicate YieldsFresh(c: Spec<Name>)
  {
    match c
    case Repeated(sub, OneOrMore) => !Nullable(sub) || YieldsFresh(sub)
    case Seq(subs) => !Nullable(c) || forall i :: 0 <= i < |subs| ==> YieldsFresh(subs[i])
    case Choice(subs, _) =>
      !Nullable(c) || (subs != [] && Nullable(subs[|subs| - 1]) && YieldsFresh(subs[|subs| - 1]))
    case _ => true
  }

  // A machine that has read a non-empty word says "done" when it refuses the next name.  A
  // `+` does not after its first round, unless its body may stay empty.
  predicate YieldsLater(c: Spec<Name>)
  {
    match c
    case Repeated(sub, OneOrMore) => YieldsLater(sub) && Nullable(sub) && YieldsFresh(sub)
    case Repeated(sub, _) => YieldsLater(sub)
    case Seq(subs) => forall i :: 0 <= i < |subs| ==> YieldsLater(subs[i]) && YieldsFresh(subs[i])
    case Choice(subs, _) => forall i :: 0 <= i < |subs| ==> YieldsLater(subs[i])
    case _ => true
  }

  // A repetition, perhaps optional: every name that can begin a word can also follow one.
  predicate Loops(c: Spec<Name>)
  {
    match c
    case Repeated(sub, ZeroOrOnce) => Loops(sub)
    case Repeated(_, _) => true
    case _ => false
  }

  // A machine that has read a non-empty word says "done" when it refuses a name that can
  // begin a word, so that the repetition around it can start another round.
  predicate Restarts(c: Spec<Name>)
  {
    match c
    case Repeated(sub, ZeroOrOnce) => Restarts(sub)
    case Repeated(_, _) => true
    case Seq(subs) => YieldsLater(c) || (|subs| == 2 && Loops(subs[0]) && YieldsLater(subs[1]))
    case _ => YieldsLater(c)
  }

  // Every part that is followed by another round or another part yields when that can go on.
  predicate Reliable(c: Spec<Name>)
  {
    match c
    case Repeated(sub, ZeroOrOnce) => Reliable(sub)
    case Repeated(sub, _) => Reliable(sub) && Restarts(sub)
    case Seq(subs) => ReliableSeq(subs)
    case Choice(subs, _) => forall i :: 0 <= i < |subs| ==> Reliable(subs[i])
    case _ => true
  }

  predicate ReliableSeq(cs: seq<Spec<Name>>)
  {
    cs == [] ||
    (Reliable(cs[0]) && (|cs| > 1 ==> YieldsFresh(cs[0]) && YieldsLater(cs[0])) && ReliableSeq(cs[1..]))
  }

  lemma NullableIff(c: Spec<Name>)
    ensures Nullable(c) <==> Matches(c, [])
  {
    CreateFits(c);
    AllowEmptyIsNullable(c, Create(c));
  }

  // A deterministic model built of names, at position `p` of a larger one.
  ghost predicate Model(c: Spec<Name>, p: seq<nat>)
  {
    WellFormed(c) && NoAny(c) && Deterministic(Marked(c, p))
  }

  ghost predicate ModelSeq(cs: seq<Spec<Name>>, p: seq<nat>, i: nat)
  {
    (forall c <- cs :: WellFormed(c) && NoAny(c)) && Deterministic(Seq(MarkedAll(cs, p, i)))
  }

  lemma ModelHeadTail(cs: seq<Spec<Name>>, p: seq<nat>, i: nat)
    requires cs != [] && ModelSeq(cs, p, i)
    ensures Model(cs[0], p + [i]) && ModelSeq(cs[1..], p, i + 1)
  {
    DeterministicHeadTail(cs, p, i);
  }

  lemma ModelAlternative(cs: seq<Spec<Name>>, mixed: bool, p: seq<nat>, i: nat)
    requires Model(Choice(cs, mixed), p) && i < |cs|
    ensures Model(cs[i], p + [i])
  {
    DeterministicAlternative(MarkedAll(cs, p, 0), mixed, i);
    MarkedAllAt(cs, p, 0, i);
  }

  lemma ModelSub(sub: Spec<Name>, rep: Repetition, p: seq<nat>)
    requires Model(Repeated(sub, rep), p)
    ensures Model(sub, p + [0])
    ensures rep != ZeroOrOnce ==> Deterministic(Repeated(Marked(sub, p + [0]), ZeroOrMore))
  {
    DeterministicSub(Marked(sub, p + [0]), rep);
  }

  // A refused name cannot have been possible: what is accepted stays a prefix.
  lemma Refuses(c: Spec<Name>, s: State, w: seq<Name>, n: Name)
    requires WellFormed(c) && Fits(c, s) && After(c, s, w) && !Prefix(c, w + [n])
    ensures !Step(c, s, n).result
  {
    StepSound(c, s, w, n);
    if Step(c, s, n).result {
      AfterIsPrefix(c, Step(c, s, n).state, w + [n]);
    }
  }

  // ---- how a word of a sequence divides ----

  // If `x` and `x + y` are words of the head, no word of the rest begins like `y`.
  lemma Divide(cs: seq<Spec<Name>>, p: seq<nat>, i: nat, x: seq<Name>, y: seq<Name>, z: seq<Name>)
    requires cs != [] && ModelSeq(cs, p, i)
    requires Matches(cs[0], x) && Matches(cs[0], x + y) && y != []
    requires MatchesSeq(cs[1..], z) && z != []
    ensures y[0] != z[0]
  {
    if y[0] == z[0] {
      assert y == [y[0]] + y[1..] && z == [z[0]] + z[1..];
      assert x + y == x + [y[0]] + y[1..];
      SeqExclusive(cs, p, i, x, y[0], y[1..], z[1..]);
    }
  }

  // A word that the head of a sequence has begun with `w` and not left.
  lemma DivideFirst(cs: seq<Spec<Name>>, p: seq<nat>, i: nat, w: seq<Name>, u: seq<Name>, j: nat)
    requires cs != [] && ModelSeq(cs, p, i) && Prefix(cs[0], w)
    requires j <= |w + u| && Matches(cs[0], (w + u)[..j]) && MatchesSeq(cs[1..], (w + u)[j..])
    ensures |w| <= j
  {
    if j < |w| {
      var t :| Matches(cs[0], w + t);
      assert (w + u)[..j] == w[..j];
      assert w + t == w[..j] + (w[j..] + t);
      Divide(cs, p, i, w[..j], w[j..] + t, (w + u)[j..]);
    }
  }

  // A word that the head of a sequence has left after `x`.
  lemma DivideLater(cs: seq<Spec<Name>>, p: seq<nat>, i: nat, x: seq<Name>, y: seq<Name>, u: seq<Name>, j: nat)
    requires cs != [] && ModelSeq(cs, p, i) && Matches(cs[0], x)
    requires y != [] && exists r :: MatchesSeq(cs[1..], y + r)
    requires j <= |x + y + u| && Matches(cs[0], (x + y + u)[..j]) && MatchesSeq(cs[1..], (x + y + u)[j..])
    ensures j == |x|
  {
    var w := x + y + u;
    var r :| MatchesSeq(cs[1..], y + r);
    if j > |x| {
      assert w[..j] == x + w[|x|..j];
      Divide(cs, p, i, x, w[|x|..j], y + r);
    } else if j < |x| {
      assert x == w[..j] + x[j..];
      Divide(cs, p, i, w[..j], x[j..], w[j..]);
    }
  }

  // ---- saying "done" ----

  /** After a full word, a name that cannot follow is answered with (false, true). */
  lemma {:induction false} Yield(c: Spec<Name>, p: seq<nat>, s: State, w: seq<Name>, n: Name)
    requires Model(c, p) && Fits(c, s) && After(c, s, w)
    requires Matches(c, w) && !Prefix(c, w + [n])
    requires if w == [] then YieldsFresh(c) else YieldsLater(c)
    ensures !Step(c, s, n).result && Step(c, s, n).done
    decreases c, 0
  {
    Refuses(c, s, w, n);
    match c
    case Empty =>
    case Element(_) =>
    case Repeated(sub, rep) =>
      ModelSub(sub, rep, p);
      if s.phase == Start {
        assert w + [n] == [n];
        if rep == OneOrMore {
          YieldFreshPlus(sub, p, s, n);
        }
      } else if rep == ZeroOrOnce {
        assert w[0..] == w;
        PrefixOfOption(sub, w + [n]);
        Yield(sub, p + [0], s.sub, w, n);
      } else {
        YieldRepeated(sub, rep, p, s, w, n);
      }
    case Seq(subs) =>
      if s.position == AtStart {
        NullableIff(c);
        assert w + [n] == [n];
        YieldSeqFresh(subs, p, 0, n);
      } else {
        var k := s.position.index;
        StepSeqFromIsSlice(subs, s.subs, k, n);
        AfterSeqNonEmpty(subs, s.subs, k, w);
        YieldSeq(subs, p, 0, s.subs, k, w, n);
      }
    case Choice(subs, mixed) =>
      if s.position == AtStart {
        NullableIff(c);
        assert w + [n] == [n];
        YieldChoiceFresh(subs, mixed, p, n);
      } else {
        var k := s.position.index;
        FitAllAt(subs, s.subs, k);
        AfterIsPrefix(subs[k], s.subs[k], w);
        assert w + [] == w;
        ChoiceKeeps(subs, mixed, p, k, w, []);
        ModelAlternative(subs, mixed, p, k);
        PrefixOfChoice(subs, mixed, k, w + [n]);
        Yield(subs[k], p + [k], s.subs[k], w, n);
      }
  }

  lemma PrefixOfChoice(cs: seq<Spec<Name>>, mixed: bool, k: nat, w: seq<Name>)
    requires k < |cs|
    ensures Prefix(cs[k], w) ==> Prefix(Choice(cs, mixed), w)
  {
    if Prefix(cs[k], w) {
      var v :| Matches(cs[k], w + v);
      PrefixIntro(Choice(cs, mixed), w, v);
    }
  }

  lemma PrefixOfOption(sub: Spec<Name>, w: seq<Name>)
    ensures Prefix(sub, w) ==> Prefix(Repeated(sub, ZeroOrOnce), w)
  {
    if Prefix(sub, w) {
      var v :| Matches(sub, w + v);
      PrefixIntro(Repeated(sub, ZeroOrOnce), w, v);
    }
  }

  // A choice stays with the alternative it has chosen.
  lemma ChoiceKeeps(cs: seq<Spec<Name>>, mixed: bool, p: seq<nat>, k: nat, w: seq<Name>, v: seq<Name>)
    requires Model(Choice(cs, mixed), p) && k < |cs| && w != []
    requires Prefix(cs[k], w) && Matches(Choice(cs, mixed), w + v)
    ensures Matches(cs[k], w + v)
  {
    var j :| 0 <= j < |cs| && Matches(cs[j], w + v);
    var t :| Matches(cs[k], w + t);
    assert w + v == [w[0]] + (w[1..] + v) && w + t == [w[0]] + (w[1..] + t);
    ChoiceExclusive(cs, mixed, p, j, k, w[0], w[1..] + v, w[1..] + t);
  }

  lemma {:induction false} YieldFreshPlus(sub: Spec<Name>, p: seq<nat>, s: State, n: Name)
    requires Model(sub, p + [0]) && Fits(Repeated(sub, OneOrMore), s) && s.phase == Start && s.sub == Create(sub)
    requires Matches(Repeated(sub, OneOrMore), []) && !Prefix(Repeated(sub, OneOrMore), [n])
    requires YieldsFresh(Repeated(sub, OneOrMore))
    ensures Step(sub, s.sub, n).done && !Step(sub, s.sub, n).result
    decreases sub, 1
  {
    var e: seq<Name> := [];
    assert e[..0] == [];
    NullableIff(sub);
    assert e + [n] == [n];
    PrefixOfRound(sub, OneOrMore, e, n);
    CreateAfter(sub);
    Yield(sub, p + [0], s.sub, [], n);
  }

  // A name that can begin a round can follow finished rounds.
  lemma PrefixOfRound(sub: Spec<Name>, rep: Repetition, w: seq<Name>, n: Name)
    requires rep != ZeroOrOnce && MatchesStar(sub, w)
    ensures Prefix(sub, [n]) ==> Prefix(Repeated(sub, rep), w + [n])
  {
    if Prefix(sub, [n]) {
      var v :| Matches(sub, [n] + v);
      StarAppend(sub, w, [n] + v);
      assert w + ([n] + v) == w + [n] + v;
      NonEmptyStarIsPlus(sub, w + [n] + v);
      PrefixIntro(Repeated(sub, rep), w + [n], v);
    }
  }

  lemma {:induction false} YieldRepeated(sub: Spec<Name>, rep: Repetition, p: seq<nat>, s: State, w: seq<Name>, n: Name)
    requires rep != ZeroOrOnce && Model(sub, p + [0])
    requires Deterministic(Repeated(Marked(sub, p + [0]), ZeroOrMore))
    requires Fits(Repeated(sub, rep), s) && After(Repeated(sub, rep), s, w) && s.phase != Start
    requires Matches(Repeated(sub, rep), w) && !Prefix(Repeated(sub, rep), w + [n])
    requires YieldsLater(Repeated(sub, rep))
    ensures !StepRepeated(sub, rep, s, n).result && StepRepeated(sub, rep, s, n).done
    decreases sub, 1
  {
    var k, t := InRound(sub, rep, s, w);
    hide Matches, MatchesStar, After, Step, Fits, Deterministic, WellFormed, NoAny;
    WholeRounds(sub, rep, w);
    Regroup(w, k, []);
    StarComplete(sub, p + [0], w[..k], w[k..], t);
    PrefixInRound(sub, rep, w, k, n);
    Yield(sub, p + [0], s.sub, w[k..], n);
    PrefixOfRound(sub, rep, w, n);
    RestartRefuses(sub, Step(sub, s.sub, n).state, n);
    if rep == OneOrMore && s.phase == FirstLoop {
      NullableIff(sub);
      CreateAfter(sub);
      assert [] + [n] == [n];
      Yield(sub, p + [0], Create(sub), [], n);
    }
  }

  // The round in progress of a repetition: where it began, and how it can be finished.
  lemma InRound(sub: Spec<Name>, rep: Repetition, s: State, w: seq<Name>) returns (k: nat, t: seq<Name>)
    requires Fits(Repeated(sub, rep), s) && After(Repeated(sub, rep), s, w) && s.phase != Start
    requires WellFormed(sub)
    ensures Fits(sub, s.sub) && k < |w| && After(sub, s.sub, w[k..])
    ensures Looped(sub, rep, s.phase, w[..k]) && MatchesStar(sub, w[..k])
    ensures Matches(sub, w[k..] + t) && Prefix(sub, w[k..])
  {
    k :| 0 <= k < |w| && After(sub, s.sub, w[k..]) && Looped(sub, rep, s.phase, w[..k]);
    LoopedIsStar(sub, rep, s.phase, w[..k]);
    AfterIsPrefix(sub, s.sub, w[k..]);
    t :| Matches(sub, w[k..] + t);
  }

  lemma WholeRounds(sub: Spec<Name>, rep: Repetition, w: seq<Name>)
    requires rep != ZeroOrOnce && Matches(Repeated(sub, rep), w)
    ensures MatchesStar(sub, w)
  {
    if rep == OneOrMore {
      PlusIsStar(sub, w);
    }
  }

  // A name that continues the round in progress continues the repetition.
  lemma PrefixInRound(sub: Spec<Name>, rep: Repetition, w: seq<Name>, k: nat, n: Name)
    requires rep != ZeroOrOnce && k <= |w| && MatchesStar(sub, w[..k])
    ensures Prefix(sub, w[k..] + [n]) ==> Prefix(Repeated(sub, rep), w + [n])
  {
    if Prefix(sub, w[k..] + [n]) {
      var v :| Matches(sub, w[k..] + [n] + v);
      hide Matches, MatchesStar;
      StarAppend(sub, w[..k], w[k..] + [n] + v);
      assert w[..k] + (w[k..] + [n] + v) == w + [n] + v;
      StarIsRepeated(sub, rep, w + [n] + v);
      PrefixIntro(Repeated(sub, rep), w + [n], v);
    }
  }

  lemma StarIsRepeated(sub: Spec<Name>, rep: Repetition, w: seq<Name>)
    requires rep != ZeroOrOnce && MatchesStar(sub, w) && w != []
    ensures Matches(Repeated(sub, rep), w)
  {
    NonEmptyStarIsPlus(sub, w);
  }

  lemma RestartRefuses(sub: Spec<Name>, t: State, n: Name)
    requires WellFormed(sub) && Fits(sub, t) && !Prefix(sub, [n])
    ensures Fits(sub, Reset(t)) && Reset(t) == Create(sub) && !Step(sub, Reset(t), n).result
  {
    ResetCreates(sub, t);
    CreateAfter(sub);
    assert [] + [n] == [n];
    Refuses(sub, Create(sub), [], n);
  }

  lemma LoopedIsStar(sub: Spec<Name>, rep: Repetition, phase: Phase, u: seq<Name>)
    requires Looped(sub, rep, phase, u)
    ensures MatchesStar(sub, u)
  {
    if rep == OneOrMore && phase == NextLoop {
      PlusIsStar(sub, u);
    }
  }

  // A prefix of a word of the head, or of a word of the rest after a word of the head, is
  // one of a word of the sequence.
  lemma PrefixOfHead(cs: seq<Spec<Name>>, w: seq<Name>)
    requires cs != [] && forall c <- cs :: WellFormed(c)
    ensures Prefix(cs[0], w) ==> Prefix(Seq(cs), w)
  {
    if Prefix(cs[0], w) {
      var v :| Matches(cs[0], w + v);
      var r := SeqHasWord(cs[1..]);
      SeqIntro(cs, w + v, r);
      assert w + v + r == w + (v + r);
      PrefixIntro(Seq(cs), w, v + r);
    }
  }

  lemma PrefixOfTail(cs: seq<Spec<Name>>, x: seq<Name>, y: seq<Name>)
    requires cs != [] && Matches(cs[0], x)
    ensures Prefix(Seq(cs[1..]), y) ==> Prefix(Seq(cs), x + y)
  {
    if Prefix(Seq(cs[1..]), y) {
      var v :| Matches(Seq(cs[1..]), y + v);
      SeqIntro(cs, x, y + v);
      assert x + (y + v) == x + y + v;
      PrefixIntro(Seq(cs), x + y, v);
    }
  }

  lemma {:induction false} YieldSeqFresh(cs: seq<Spec<Name>>, p: seq<nat>, i: nat, n: Name)
    requires ModelSeq(cs, p, i) && MatchesSeq(cs, []) && !Prefix(Seq(cs), [n])
    requires forall j :: 0 <= j < |cs| ==> YieldsFresh(cs[j])
    ensures FitAll(cs, CreateAll(cs))
    ensures var a := StepSeq(cs, CreateAll(cs), n); !a.result && a.done
    decreases cs
  {
    CreateAllFits(cs);
    if cs != [] {
      ModelHeadTail(cs, p, i);
      var e: seq<Name> := [];
      assert e[..0] == [] && e[0..] == [] && e + [n] == [n];
      PrefixOfHead(cs, [n]);
      PrefixOfTail(cs, [], [n]);
      CreateAfter(cs[0]);
      Yield(cs[0], p + [i], Create(cs[0]), [], n);
      YieldSeqFresh(cs[1..], p, i + 1, n);
      assert CreateAll(cs)[1..] == CreateAll(cs[1..]);
    }
  }

  lemma {:induction false} YieldSeq(cs: seq<Spec<Name>>, p: seq<nat>, i: nat, ss: seq<State>, k: nat, w: seq<Name>,
      n: Name)
    requires ModelSeq(cs, p, i) && FitAll(cs, ss) && AfterSeq(cs, ss, k, w)
    requires MatchesSeq(cs, w) && !Prefix(Seq(cs), w + [n])
    requires forall j :: 0 <= j < |cs| ==> YieldsFresh(cs[j]) && YieldsLater(cs[j])
    ensures var a := StepSeqFrom(cs, ss, k, n); !a.result && a.done
    decreases cs
  {
    hide *;
    AfterSeqIndex(cs, ss, k, w);
    ModelHeadTail(cs, p, i);
    var j := SplitWord(cs, w);
    StepSeqFromStep(cs, ss, k, n);
    if k == 0 {
      YieldSeqHere(cs, p, i, ss, w, n, j);
    } else {
      var h := LeftAfter(cs, ss, k, w);
      AfterSeqIsPrefix(cs[1..], ss[1..], k - 1, w[h..]);
      Regroup(w, h, []);
      Regroup(w, h, [n]);
      DivideLater(cs, p, i, w[..h], w[h..], [], j);
      PrefixOfTail(cs, w[..h], w[h..] + [n]);
      YieldSeq(cs[1..], p, i + 1, ss[1..], k - 1, w[h..], n);
    }
  }

  lemma {:induction false} YieldSeqHere(cs: seq<Spec<Name>>, p: seq<nat>, i: nat, ss: seq<State>, w: seq<Name>,
      n: Name, j: nat)
    requires cs != [] && ModelSeq(cs, p, i) && Model(cs[0], p + [i]) && ModelSeq(cs[1..], p, i + 1)
    requires FitAll(cs, ss) && AfterSeq(cs, ss, 0, w)
    requires j <= |w| && Matches(cs[0], w[..j]) && MatchesSeq(cs[1..], w[j..]) && !Prefix(Seq(cs), w + [n])
    requires forall j :: 0 <= j < |cs| ==> YieldsFresh(cs[j]) && YieldsLater(cs[j])
    ensures var a := StepSeq(cs, ss, n); !a.result && a.done
    decreases cs, 0
  {
    AfterIsPrefix(cs[0], ss[0], w);
    assert w == w + [];
    DivideFirst(cs, p, i, w, [], j);
    assert w[..j] == w && w[j..] == [];
    PrefixOfHead(cs, w + [n]);
    PrefixOfTail(cs, w, [n]);
    Yield(cs[0], p + [i], ss[0], w, n);
    YieldSeqFresh(cs[1..], p, i + 1, n);
  }

  // Where a sequence that stands beyond its head has left the head.
  lemma LeftAfter(cs: seq<Spec<Name>>, ss: seq<State>, k: nat, w: seq<Name>) returns (h: nat)
    requires FitAll(cs, ss) && k > 0 && AfterSeq(cs, ss, k, w)
    ensures h < |w| && Matches(cs[0], w[..h]) && AfterSeq(cs[1..], ss[1..], k - 1, w[h..])
  {
    h :| 0 <= h <= |w| && Matches(cs[0], w[..h]) && AfterSeq(cs[1..], ss[1..], k - 1, w[h..]);
    AfterSeqNonEmpty(cs[1..], ss[1..], k - 1, w[h..]);
  }

  lemma {:induction false} AfterSeqNonEmpty(cs: seq<Spec<Name>>, ss: seq<State>, k: nat, w: seq<Name>)
    requires FitAll(cs, ss) && AfterSeq(cs, ss, k, w)
    ensures w != []
    decreases cs
  {
    if k > 0 {
      var h :| 0 <= h <= |w| && Matches(cs[0], w[..h]) && AfterSeq(cs[1..], ss[1..], k - 1, w[h..]);
      AfterSeqNonEmpty(cs[1..], ss[1..], k - 1, w[h..]);
    }
  }

  lemma Regroup(w: seq<Name>, h: nat, v: seq<Name>)
    requires h <= |w|
    ensures w[..h] + w[h..] + v == w + v == w[..h] + (w[h..] + v)
    ensures v == [] ==> w + v == w
  {
  }

  // The answer of the sub-states from the `k`-th on.
  ghost function StepSeqFrom(cs: seq<Spec<Name>>, ss: seq<State>, k: nat, n: Name): ListAnswer
    requires FitAll(cs, ss) && k <= |cs|
    decreases cs
  {
    if k == 0 then StepSeq(cs, ss, n) else StepSeqFrom(cs[1..], ss[1..], k - 1, n)
  }

  lemma StepSeqFromStep(cs: seq<Spec<Name>>, ss: seq<State>, k: nat, n: Name)
    requires FitAll(cs, ss) && cs != [] && k <= |cs|
    ensures k == 0 ==> StepSeqFrom(cs, ss, k, n) == StepSeq(cs, ss, n)
    ensures k > 0 ==> StepSeqFrom(cs, ss, k, n) == StepSeqFrom(cs[1..], ss[1..], k - 1, n)
  {
  }

  lemma {:induction false} StepSeqFromIsSlice(cs: seq<Spec<Name>>, ss: seq<State>, k: nat, n: Name)
    requires FitAll(cs, ss) && k <= |cs|
    ensures FitAll(cs[k..], ss[k..])
    ensures StepSeqFrom(cs, ss, k, n) == StepSeq(cs[k..], ss[k..], n)
    decreases cs
  {
    FitAllSplit(cs, ss, k);
    if k == 0 {
      assert cs[0..] == cs && ss[0..] == ss;
    } else {
      StepSeqFromIsSlice(cs[1..], ss[1..], k - 1, n);
      assert cs[1..][k - 1..] == cs[k..] && ss[1..][k - 1..] == ss[k..];
    }
  }

  lemma {:induction false} YieldChoiceFresh(cs: seq<Spec<Name>>, mixed: bool, p: seq<nat>, n: Name)
    requires Model(Choice(cs, mixed), p) && !Prefix(Choice(cs, mixed), [n])
    requires cs != [] && Nullable(cs[|cs| - 1]) && YieldsFresh(cs[|cs| - 1])
    ensures FitAll(cs, CreateAll(cs))
    ensures var a := StepChoice(cs, CreateAll(cs), n); !a.result && a.done
    decreases cs, 1
  {
    forall i | 0 <= i < |cs|
      ensures Fits(cs[i], Create(cs[i])) && !Step(cs[i], Create(cs[i]), n).result
    {
      PrefixOfChoice(cs, mixed, i, [n]);
      CreateAfter(cs[i]);
      assert [] + [n] == [n];
      Refuses(cs[i], Create(cs[i]), [], n);
    }
    var l := |cs| - 1;
    NullableIff(cs[l]);
    PrefixOfChoice(cs, mixed, l, [n]);
    ModelAlternative(cs, mixed, p, l);
    CreateAfter(cs[l]);
    assert [] + [n] == [n];
    Yield(cs[l], p + [l], Create(cs[l]), [], n);
    ChoiceRefuses(cs, n);
  }

  lemma {:induction false} ChoiceRefuses(cs: seq<Spec<Name>>, n: Name)
    requires cs != []
    requires forall i :: 0 <= i < |cs| ==> Fits(cs[i], Create(cs[i])) && !Step(cs[i], Create(cs[i]), n).result
    ensures FitAll(cs, CreateAll(cs))
    ensures var a := StepChoice(cs, CreateAll(cs), n);
      !a.result && a.done == Step(cs[|cs| - 1], Create(cs[|cs| - 1]), n).done
    decreases cs
  {
    CreateAllFits(cs);
    if |cs| > 1 {
      ChoiceRefuses(cs[1..], n);
      assert CreateAll(cs)[1..] == CreateAll(cs[1..]);
    }
  }

  /**
   The weaker promise that is enough inside a repetition: a finished round yields to a name
   that can begin another.
   */
  lemma {:induction false} YieldRestart(c: Spec<Name>, p: seq<nat>, s: State, w: seq<Name>, n: Name)
    requires Model(c, p) && Reliable(c) && Restarts(c) && Fits(c, s) && After(c, s, w) && w != []
    requires Matches(c, w) && !Prefix(c, w + [n]) && Prefix(c, [n])
    ensures !Step(c, s, n).result && Step(c, s, n).done
    decreases c, 0
  {
    match c
    case Repeated(sub, ZeroOrOnce) =>
      YieldRestartOption(sub, p, s, w, n);
    case Repeated(_, _) =>
      LoopsOn(c, w, n);
      assert false;
    case Seq(subs) =>
      if YieldsLater(c) {
        Yield(c, p, s, w, n);
      } else {
        YieldRestartPair(subs, p, s, w, n);
      }
    case _ =>
      Yield(c, p, s, w, n);
  }

  lemma {:induction false} YieldRestartOption(sub: Spec<Name>, p: seq<nat>, s: State, w: seq<Name>, n: Name)
    requires Model(Repeated(sub, ZeroOrOnce), p) && Reliable(sub) && Restarts(sub)
    requires Fits(Repeated(sub, ZeroOrOnce), s) && After(Repeated(sub, ZeroOrOnce), s, w) && w != []
    requires Matches(sub, w) && !Prefix(Repeated(sub, ZeroOrOnce), w + [n]) && Prefix(Repeated(sub, ZeroOrOnce), [n])
    ensures var a := StepRepeated(sub, ZeroOrOnce, s, n); !a.result && a.done
    decreases sub, 1
  {
    ModelSub(sub, ZeroOrOnce, p);
    assert w[0..] == w;
    assert After(sub, s.sub, w);
    PrefixOfOption(sub, w + [n]);
    var v :| Matches(Repeated(sub, ZeroOrOnce), [n] + v);
    PrefixIntro(sub, [n], v);
    hide Matches, After, Step;
    YieldRestart(sub, p + [0], s.sub, w, n);
  }

  // A name that can begin a word of a repetition can follow any of its words.
  lemma {:induction false} LoopsOn(c: Spec<Name>, w: seq<Name>, n: Name)
    requires Loops(c) && Matches(c, w) && Prefix(c, [n])
    ensures Prefix(c, w + [n])
    decreases c
  {
    var v :| Matches(c, [n] + v);
    match c
    case Repeated(sub, ZeroOrOnce) =>
      if w == [] {
        assert w + [n] == [n];
      } else {
        PrefixIntro(sub, [n], v);
        LoopsOn(sub, w, n);
        PrefixOfOption(sub, w + [n]);
      }
    case Repeated(sub, rep) =>
      WholeRounds(sub, rep, w);
      WholeRounds(sub, rep, [n] + v);
      hide Matches, MatchesStar;
      StarConcat(sub, w, [n] + v);
      assert w + ([n] + v) == w + [n] + v;
      StarIsRepeated(sub, rep, w + [n] + v);
      PrefixIntro(c, w + [n], v);
  }

  // A sequence of a repetition and a part that may refuse while it is still empty.
  lemma {:induction false} YieldRestartPair(cs: seq<Spec<Name>>, p: seq<nat>, s: State, w: seq<Name>, n: Name)
    requires |cs| == 2 && Loops(cs[0]) && YieldsLater(cs[1])
    requires Model(Seq(cs), p) && Fits(Seq(cs), s) && After(Seq(cs), s, w) && w != []
    requires Matches(Seq(cs), w) && !Prefix(Seq(cs), w + [n]) && Prefix(Seq(cs), [n])
    ensures !Step(Seq(cs), s, n).result && Step(Seq(cs), s, n).done
  {
    var k := s.position.index;
    var j := SplitWord(cs, w);
    AfterSeqIndex(cs, s.subs, k, w);
    StepSeqFromIsSlice(cs, s.subs, k, n);
    ModelHeadTail(cs, p, 0);
    if k == 0 {
      AfterIsPrefix(cs[0], s.subs[0], w);
      Regroup(w, 0, []);
      DivideFirst(cs, p, 0, w, [], j);
      assert w[..j] == w && w[j..] == [];
      PairGoesOn(cs, w, n);
      assert false;
    } else {
      var h := LeftAfter(cs, s.subs, k, w);
      AfterSeqIsPrefix(cs[1..], s.subs[1..], k - 1, w[h..]);
      Regroup(w, h, []);
      Regroup(w, h, [n]);
      DivideLater(cs, p, 0, w[..h], w[h..], [], j);
      PrefixOfTail(cs, w[..h], w[h..] + [n]);
      assert cs[1..] == [cs[1]];
      YieldSeqLast(cs[1], p, s.subs[1..], w[h..], n);
    }
  }

  lemma PairGoesOn(cs: seq<Spec<Name>>, w: seq<Name>, n: Name)
    requires |cs| == 2 && Loops(cs[0]) && (forall c <- cs :: WellFormed(c)) && Matches(cs[0], w) && Prefix(Seq(cs), [n])
    ensures Prefix(Seq(cs), w + [n])
  {
    var v :| Matches(Seq(cs), [n] + v);
    var u := [n] + v;
    var j := SplitWord(cs, u);
    if j > 0 {
      assert u[..j] == [n] + u[1..j];
      PrefixIntro(cs[0], [n], u[1..j]);
      LoopsOn(cs[0], w, n);
      PrefixOfHead(cs, w + [n]);
    } else {
      assert u[j..] == u;
      PrefixIntro(Seq(cs[1..]), [n], v);
      PrefixOfTail(cs, w, [n]);
    }
  }

  lemma {:induction false} YieldSeqLast(c: Spec<Name>, p: seq<nat>, ss: seq<State>, w: seq<Name>, n: Name)
    requires ModelSeq([c], p, 1) && YieldsLater(c)
    requires FitAll([c], ss) && AfterSeq([c], ss, 0, w)
    requires MatchesSeq([c], w) && !Prefix(Seq([c]), w + [n])
    ensures var a := StepSeqFrom([c], ss, 0, n); !a.result && a.done
  {
    var cs := [c];
    ModelHeadTail(cs, p, 1);
    var j := SplitWord(cs, w);
    assert w[..j] == w;
    PrefixOfHead(cs, w + [n]);
    Yield(c, p + [1], ss[0], w, n);
    assert StepSeq(cs[1..], ss[1..], n) == ListAnswer([], 0, false, true);
  }

  lemma SplitWord(cs: seq<Spec<Name>>, w: seq<Name>) returns (j: nat)
    requires cs != [] && MatchesSeq(cs, w)
    ensures j <= |w| && Matches(cs[0], w[..j]) && MatchesSeq(cs[1..], w[j..])
  {
    j :| 0 <= j <= |w| && Matches(cs[0], w[..j]) && MatchesSeq(cs[1..], w[j..]);
  }

  lemma AfterSeqIndex(cs: seq<Spec<Name>>, ss: seq<State>, k: nat, w: seq<Name>)
    requires FitAll(cs, ss) && AfterSeq(cs, ss, k, w)
    ensures k < |cs| == |ss| && Fits(cs[0], ss[0]) && FitAll(cs[1..], ss[1..])
  {
  }

  // ---- accepting ----

  /** A name with which the word can go on is accepted. */
  lemma {:induction false} Progress(c: Spec<Name>, p: seq<nat>, s: State, w: seq<Name>, n: Name, v: seq<Name>)
    requires Model(c, p) && Reliable(c) && Fits(c, s) && After(c, s, w)
    requires Matches(c, w + [n] + v)
    ensures Step(c, s, n).result
    decreases c, 0
  {
    match c
    case Empty =>
    case Element(name) =>
      assert |w + [n] + v| == 1 && (w + [n] + v)[0] == n;
    case Repeated(sub, rep) =>
      ModelSub(sub, rep, p);
      if s.phase == Start || rep == ZeroOrOnce {
        ProgressOnce(sub, rep, p, s, w, n, v);
      } else {
        ProgressRepeated(sub, rep, p, s, w, n, v);
      }
    case Seq(subs) =>
      if s.position == AtStart {
        assert w + [n] + v == [n] + v;
        ProgressSeqFresh(subs, p, 0, n, v);
      } else {
        var k := s.position.index;
        StepSeqFromIsSlice(subs, s.subs, k, n);
        ProgressSeq(subs, p, 0, s.subs, k, w, n, v);
      }
    case Choice(subs, mixed) =>
      if s.position == AtStart {
        assert w + [n] + v == [] + [n] + v;
        var i :| 0 <= i < |subs| && Matches(subs[i], [] + [n] + v);
        ModelAlternative(subs, mixed, p, i);
        CreateAfter(subs[i]);
        Progress(subs[i], p + [i], Create(subs[i]), [], n, v);
        ChoiceAccepts(subs, n, i);
      } else {
        var k := s.position.index;
        FitAllAt(subs, s.subs, k);
        AfterIsPrefix(subs[k], s.subs[k], w);
        assert w + [n] + v == w + ([n] + v);
        ChoiceKeeps(subs, mixed, p, k, w, [n] + v);
        ModelAlternative(subs, mixed, p, k);
        Progress(subs[k], p + [k], s.subs[k], w, n, v);
      }
  }

  lemma {:induction false} ChoiceAccepts(cs: seq<Spec<Name>>, n: Name, i: nat)
    requires i < |cs| && Fits(cs[i], Create(cs[i])) && Step(cs[i], Create(cs[i]), n).result
    ensures FitAll(cs, CreateAll(cs)) && StepChoice(cs, CreateAll(cs), n).result
    decreases cs
  {
    CreateAllFits(cs);
    assert CreateAll(cs)[0] == Create(cs[0]) && CreateAll(cs)[1..] == CreateAll(cs[1..]);
    if i > 0 {
      ChoiceAccepts(cs[1..], n, i - 1);
    }
  }

  // A repetition asks its sub-state first, and that is enough in the first round of any
  // repetition and in the only round of a `?`.
  lemma {:induction false} ProgressOnce(sub: Spec<Name>, rep: Repetition, p: seq<nat>, s: State, w: seq<Name>,
      n: Name, v: seq<Name>)
    requires Model(sub, p + [0]) && Reliable(sub) && (s.RepeatedState? ==> s.phase == Start || rep == ZeroOrOnce)
    requires Fits(Repeated(sub, rep), s) && After(Repeated(sub, rep), s, w)
    requires Matches(Repeated(sub, rep), w + [n] + v)
    ensures StepRepeated(sub, rep, s, n).result
    decreases sub, 1
  {
    if s.phase == Start {
      assert w + [n] + v == [n] + v;
      if rep == OneOrMore {
        PlusIsStar(sub, [n] + v);
      }
      if rep != ZeroOrOnce {
        FirstRound(sub, n, v);
      } else {
        PrefixIntro(sub, [n], v);
      }
      var t :| Matches(sub, [n] + t);
      assert [] + [n] + t == [n] + t;
      CreateAfter(sub);
      Progress(sub, p + [0], s.sub, [], n, t);
    } else {
      assert w[0..] == w;
      Progress(sub, p + [0], s.sub, w, n, v);
    }
  }

  lemma {:induction false} ProgressRepeated(sub: Spec<Name>, rep: Repetition, p: seq<nat>, s: State, w: seq<Name>,
      n: Name, v: seq<Name>)
    requires rep != ZeroOrOnce && Model(sub, p + [0]) && Reliable(sub) && Restarts(sub)
    requires Deterministic(Repeated(Marked(sub, p + [0]), ZeroOrMore))
    requires Fits(Repeated(sub, rep), s) && After(Repeated(sub, rep), s, w) && s.phase != Start
    requires Matches(Repeated(sub, rep), w + [n] + v)
    ensures StepRepeated(sub, rep, s, n).result
    decreases sub, 2
  {
    var k, t := InRound(sub, rep, s, w);
    WholeRounds(sub, rep, w + [n] + v);
    hide Matches, MatchesStar, After, Step, Fits, Deterministic, WellFormed, NoAny, Reliable, Restarts;
    Regroup(w, k, []);
    StarResume(sub, p + [0], w[..k], w[k..], t, n, v);
    if Prefix(sub, w[k..] + [n]) {
      var r :| Matches(sub, w[k..] + [n] + r);
      Progress(sub, p + [0], s.sub, w[k..], n, r);
    } else {
      YieldRestart(sub, p + [0], s.sub, w[k..], n);
      RestartAccepts(sub, p, Step(sub, s.sub, n).state, n);
    }
  }

  lemma {:induction false} RestartAccepts(sub: Spec<Name>, p: seq<nat>, t: State, n: Name)
    requires Model(sub, p + [0]) && Reliable(sub) && Fits(sub, t) && Prefix(sub, [n])
    ensures Fits(sub, Reset(t)) && Step(sub, Reset(t), n).result
    decreases sub, 1
  {
    ResetCreates(sub, t);
    CreateAfter(sub);
    var r :| Matches(sub, [n] + r);
    assert [] + [n] + r == [n] + r;
    Progress(sub, p + [0], Create(sub), [], n, r);
  }

  lemma {:induction false} ProgressSeqFresh(cs: seq<Spec<Name>>, p: seq<nat>, i: nat, n: Name, v: seq<Name>)
    requires ModelSeq(cs, p, i) && ReliableSeq(cs) && MatchesSeq(cs, [n] + v)
    ensures FitAll(cs, CreateAll(cs)) && StepSeq(cs, CreateAll(cs), n).result
    decreases cs
  {
    CreateAllFits(cs);
    ModelHeadTail(cs, p, i);
    var w := [n] + v;
    var j :| 0 <= j <= |w| && Matches(cs[0], w[..j]) && MatchesSeq(cs[1..], w[j..]);
    if j > 0 {
      assert w[..j] == [n] + w[1..j];
      PrefixIntro(cs[0], [n], w[1..j]);
    } else {
      assert w[..j] == [] && w[j..] == w;
    }
    CreateAfter(cs[0]);
    assert [] + [n] == [n];
    if Prefix(cs[0], [n]) {
      var t :| Matches(cs[0], [n] + t);
      assert [] + [n] + t == [n] + t;
      Progress(cs[0], p + [i], Create(cs[0]), [], n, t);
    } else {
      Yield(cs[0], p + [i], Create(cs[0]), [], n);
      ProgressSeqFresh(cs[1..], p, i + 1, n, v);
      assert CreateAll(cs)[1..] == CreateAll(cs[1..]);
    }
  }

  lemma {:induction false} ProgressSeq(cs: seq<Spec<Name>>, p: seq<nat>, i: nat, ss: seq<State>, k: nat, w: seq<Name>,
      n: Name, v: seq<Name>)
    requires ModelSeq(cs, p, i) && ReliableSeq(cs) && FitAll(cs, ss) && AfterSeq(cs, ss, k, w)
    requires MatchesSeq(cs, w + [n] + v)
    ensures StepSeqFrom(cs, ss, k, n).result
    decreases cs
  {
    hide *;
    AfterSeqIndex(cs, ss, k, w);
    ModelHeadTail(cs, p, i);
    ReliableTail(cs);
    var u := w + [n] + v;
    var j := SplitWord(cs, u);
    StepSeqFromStep(cs, ss, k, n);
    if k == 0 {
      ProgressSeqHere(cs, p, i, ss, w, n, v, j);
    } else {
      var h := LeftAfter(cs, ss, k, w);
      AfterSeqIsPrefix(cs[1..], ss[1..], k - 1, w[h..]);
      assert w[..h] + w[h..] + ([n] + v) == u;
      DivideLater(cs, p, i, w[..h], w[h..], [n] + v, j);
      assert u[h..] == w[h..] + [n] + v;
      ProgressSeq(cs[1..], p, i + 1, ss[1..], k - 1, w[h..], n, v);
    }
  }

  lemma ReliableTail(cs: seq<Spec<Name>>)
    requires ReliableSeq(cs) && cs != []
    ensures ReliableSeq(cs[1..])
  {
  }

  lemma {:induction false} ProgressSeqHere(cs: seq<Spec<Name>>, p: seq<nat>, i: nat, ss: seq<State>, w: seq<Name>,
      n: Name, v: seq<Name>, j: nat)
    requires cs != [] && ModelSeq(cs, p, i) && ReliableSeq(cs) && Model(cs[0], p + [i]) && ModelSeq(cs[1..], p, i + 1)
    requires FitAll(cs, ss) && AfterSeq(cs, ss, 0, w)
    requires j <= |w + [n] + v| && Matches(cs[0], (w + [n] + v)[..j]) && MatchesSeq(cs[1..], (w + [n] + v)[j..])
    ensures StepSeq(cs, ss, n).result
    decreases cs, 0
  {
    var u := w + [n] + v;
    AfterIsPrefix(cs[0], ss[0], w);
    assert u == w + ([n] + v);
    DivideFirst(cs, p, i, w, [n] + v, j);
    if j > |w| {
      var t := u[|w| + 1..j];
      assert u[..j] == w + [n] + t;
      Progress(cs[0], p + [i], ss[0], w, n, t);
    } else {
      assert u[..j] == w && u[j..] == [n] + v;
      if Prefix(cs[0], w + [n]) {
        var t :| Matches(cs[0], w + [n] + t);
        SeqExclusive(cs, p, i, w, n, t, v);
      }
      Yield(cs[0], p + [i], ss[0], w, n);
      ProgressSeqFresh(cs[1..], p, i + 1, n, v);
    }
  }

  // ---- whole runs ----

  lemma {:induction false} Complete(c: Spec<Name>, p: seq<nat>, w: seq<Name>)
    requires Model(c, p) && Reliable(c) && Prefix(c, w)
    ensures RunOf(c, w).Accepted?
    decreases |w|
  {
    if w != [] {
      var u, n := w[..|w| - 1], w[|w| - 1];
      var v :| Matches(c, w + v);
      assert w + v == u + ([n] + v) && w + v == u + [n] + v;
      PrefixIntro(c, u, [n] + v);
      Complete(c, p, u);
      RunAfter(c, u);
      Progress(c, p, RunOf(c, u).state, u, n, v);
    }
  }

  /** Where any content is allowed every name is accepted. */
  lemma {:induction false} AnyAcceptsAll(w: seq<Name>)
    ensures RunOf(Any, w).Accepted?
    decreases |w|
  {
    if w != [] {
      AnyAcceptsAll(w[..|w| - 1]);
    }
  }

  // Any content, or a deterministic model each of whose inner parts yields when it is finished.
  ghost predicate Dependable(c: Spec<Name>)
  {
    c.Any? || (WellFormed(c) && NoAny(c) && OneUnambiguous(c) && Reliable(c))
  }

  /** On such a model the validator accepts exactly the prefixes of the words of the model. */
  lemma AcceptsExactlyPrefixes(c: Spec<Name>, w: seq<Name>)
    requires Dependable(c)
    ensures RunOf(c, w).Accepted? <==> Prefix(c, w)
  {
    if c.Any? {
      AnyAcceptsAll(w);
      assert Matches(c, w + []);
      return;
    }
    if RunOf(c, w).Accepted? {
      RunSound(c, w);
    }
    if Prefix(c, w) {
      Complete(c, [], w);
    }
  }
}
