/**
 The converse of completeness: when some inner part of a deterministic model does not yield,
 there is a prefix of a word that the validator refuses.
 */
module ValidatorNecessity {
  import opened ContentModel
  import opened ValidatorState
  import opened ValidatorSoundness
  import opened Determinism
  import opened ValidatorCompleteness
  import opened ValidatorRuns
  import opened Restarting
  import opened Sequences

  // What `cp` builds: names, repetitions, and sequences and choices of at least two parts.
  predicate Particle(c: Spec<Name>)
  {
    match c
    case Any => false
    case Empty => false
    case Element(_) => true
    case Repeated(sub, _) => Particle(sub)
    case Seq(subs) => |subs| >= 2 && forall i :: 0 <= i < |subs| ==> Particle(subs[i])
    case Choice(subs, mixed) => !mixed && |subs| >= 2 && forall i :: 0 <= i < |subs| ==> Particle(subs[i])
  }

  // What `contentspec` builds.
  predicate Declared(c: Spec<Name>)
  {
    c.Any? || c.Empty? || Mixed(c) || (c.Repeated? && c.rep == ZeroOrMore && Mixed(c.sub)) || Particle(c)
  }

  predicate Mixed(c: Spec<Name>)
  {
    c.Choice? && c.mixed && forall i :: 0 <= i < |c.subs| ==> c.subs[i].Element?
  }

  lemma {:induction false} ParticleBasics(c: Spec<Name>)
    requires Particle(c)
    ensures WellFormed(c) && NoAny(c)
    decreases c
  {
    match c
    case Repeated(sub, _) => ParticleBasics(sub);
    case Seq(subs) => ParticlesBasics(subs);
    case Choice(subs, _) => ParticlesBasics(subs);
    case _ =>
  }

  lemma {:induction false} ParticlesBasics(cs: seq<Spec<Name>>)
    requires forall i :: 0 <= i < |cs| ==> Particle(cs[i])
    ensures forall c <- cs :: WellFormed(c) && NoAny(c)
    decreases cs
  {
    forall i | 0 <= i < |cs| ensures WellFormed(cs[i]) && NoAny(cs[i]) {
      ParticleBasics(cs[i]);
    }
  }

  lemma {:induction false} NonEmptyWord(c: Spec<Name>) returns (w: seq<Name>)
    requires Particle(c)
    ensures w != [] && Matches(c, w)
    decreases c, 0
  {
    match c
    case Element(n) => w := [n];
    case Repeated(sub, rep) =>
      w := NonEmptyWord(sub);
      StarOne(sub, w);
      PlusOne(sub, w);
    case Seq(subs) => w := NonEmptySeqWord(subs);
    case Choice(subs, _) => w := NonEmptyWord(subs[0]);
  }

  lemma {:induction false} NonEmptySeqWord(cs: seq<Spec<Name>>) returns (w: seq<Name>)
    requires cs != [] && forall i :: 0 <= i < |cs| ==> Particle(cs[i])
    ensures w != [] && MatchesSeq(cs, w)
    decreases cs, 1
  {
    var u := NonEmptyWord(cs[0]);
    ParticlesBasics(cs);
    var v := SeqHasWord(cs[1..]);
    SeqIntro(cs, u, v);
    w := u + v;
  }

  // ---- fresh machines ----

  lemma FreshSound(c: Spec<Name>, n: Name)
    ensures !Fresh(c, n).result && Fresh(c, n).done ==> Matches(c, [])
    ensures WellFormed(c) && Fresh(c, n).result ==> Prefix(c, [n])
  {
    CreateAfter(c);
    Unit([n]);
    StepSound(c, Create(c), [], n);
    if WellFormed(c) && Fresh(c, n).result {
      AfterIsPrefix(c, Fresh(c, n).state, [n]);
    }
  }

  /** A fresh machine that does not yield refuses an impossible name without being done. */
  lemma {:induction false} StopsFresh(c: Spec<Name>, n: Name)
    requires WellFormed(c) && !YieldsFresh(c) && !Prefix(c, [n])
    ensures Stops(c, Create(c), n) && Nullable(c)
    decreases c, 0
  {
    CreateFits(c);
    FreshSound(c, n);
    match c
    case Repeated(sub, OneOrMore) =>
      NullableIff(sub);
      FirstName(sub, n);
      StopsFresh(sub, n);
    case Seq(subs) =>
      NullableIff(c);
      FreshSeq(subs, n);
      StopsFreshSeq(subs, n);
    case Choice(subs, mixed) =>
      StopsFreshChoice(subs, mixed, n);
    case _ =>
  }

  lemma FirstName(sub: Spec<Name>, n: Name)
    ensures Prefix(sub, [n]) ==> Prefix(Repeated(sub, OneOrMore), [n])
  {
    if Prefix(sub, [n]) {
      var v :| Matches(sub, [n] + v);
      PlusOne(sub, [n] + v);
      PrefixIntro(Repeated(sub, OneOrMore), [n], v);
    }
  }

  lemma {:induction false} StopsFreshSeq(cs: seq<Spec<Name>>, n: Name)
    requires (forall c <- cs :: WellFormed(c)) && MatchesSeq(cs, []) && !Prefix(Seq(cs), [n])
    requires exists i :: 0 <= i < |cs| && !YieldsFresh(cs[i])
    ensures FitAll(cs, CreateAll(cs))
    ensures var a := StepSeq(cs, CreateAll(cs), n); !a.result && !a.done
    decreases cs
  {
    CreateFits(cs[0]);
    FreshSeq(cs, n);
    SeqAtHead(cs, Create(cs[0]), n);
    var e: seq<Name> := [];
    assert e[..0] == [] && e[0..] == [];
    assert [] + [n] == [n];
    PrefixOfHead(cs, [n]);
    PrefixOfTail(cs, [], [n]);
    FreshSound(cs[0], n);
    if !YieldsFresh(cs[0]) {
      StopsFresh(cs[0], n);
    } else {
      assert exists i :: 0 <= i < |cs[1..]| && !YieldsFresh(cs[1..][i]) by {
        var i :| 0 <= i < |cs| && !YieldsFresh(cs[i]);
        assert cs[1..][i - 1] == cs[i];
      }
      StopsFreshSeq(cs[1..], n);
    }
  }

  lemma {:induction false} StopsFreshChoice(cs: seq<Spec<Name>>, mixed: bool, n: Name)
    requires WellFormed(Choice(cs, mixed)) && !YieldsFresh(Choice(cs, mixed)) && !Prefix(Choice(cs, mixed), [n])
    ensures Stops(Choice(cs, mixed), Create(Choice(cs, mixed)), n)
    decreases cs, 1
  {
    CreateFits(Choice(cs, mixed));
    if cs != [] {
      forall i | 0 <= i < |cs|
        ensures Fits(cs[i], Create(cs[i])) && !Step(cs[i], Create(cs[i]), n).result
      {
        PrefixOfChoice(cs, mixed, i, [n]);
        CreateFits(cs[i]);
        FreshSound(cs[i], n);
      }
      ChoiceRefuses(cs, n);
      var l := |cs| - 1;
      PrefixOfChoice(cs, mixed, l, [n]);
      FreshSound(cs[l], n);
      NullableIff(cs[l]);
      if Nullable(cs[l]) {
        StopsFresh(cs[l], n);
      }
    }
  }

  // ---- words after which a machine does not yield ----

  // After the word `w` every impossible name is refused without "done".
  ghost predicate Stuck(c: Spec<Name>, w: seq<Name>)
  {
    && w != [] && Matches(c, w) && RunOf(c, w).Accepted?
    && forall n :: !Prefix(c, w + [n]) ==> Stops(c, RunOf(c, w).state, n)
  }

  lemma RunRefuses(c: Spec<Name>, w: seq<Name>, n: Name)
    requires WellFormed(c) && RunOf(c, w).Accepted? && !Prefix(c, w + [n])
    ensures !Step(c, RunOf(c, w).state, n).result
  {
    RunAfter(c, w);
    Refuses(c, RunOf(c, w).state, w, n);
  }

  /**
   A reliable machine that does not always yield after a word has a word after which it never
   does.
   */
  lemma {:induction false} StopsLater(c: Spec<Name>, p: seq<nat>) returns (w: seq<Name>)
    requires Particle(c) && Model(c, p) && Reliable(c) && !YieldsLater(c)
    ensures Stuck(c, w)
    decreases c, 1
  {
    match c
    case Repeated(sub, rep) =>
      ModelSub(sub, rep, p);
      if !YieldsLater(sub) {
        w := StopsLater(sub, p + [0]);
      } else {
        w := NonEmptyWord(sub);
        Unit(w);
        PrefixIntro(sub, w, []);
        Complete(sub, p + [0], w);
      }
      StuckRound(sub, rep, w);
    case Seq(subs) =>
      LastDoesNot(subs);
      w := SeqStopsLater(subs, p, 0);
    case Choice(subs, mixed) =>
      var i :| 0 <= i < |subs| && !YieldsLater(subs[i]);
      ModelAlternative(subs, mixed, p, i);
      w := StopsLater(subs[i], p + [i]);
      StuckChoice(subs, mixed, p, i, w);
  }

  lemma StuckRound(sub: Spec<Name>, rep: Repetition, w: seq<Name>)
    requires WellFormed(sub) && w != [] && Matches(sub, w) && RunOf(sub, w).Accepted?
    requires Stuck(sub, w) || (rep == OneOrMore && (!Nullable(sub) || !YieldsFresh(sub)))
    ensures Stuck(Repeated(sub, rep), w)
  {
    RunRepeated(sub, rep, w);
    StarOne(sub, w);
    PlusOne(sub, w);
    forall n | !Prefix(Repeated(sub, rep), w + [n])
      ensures Stops(Repeated(sub, rep), RunOf(Repeated(sub, rep), w).state, n)
    {
      RoundStops(sub, rep, w, n);
    }
  }

  lemma RoundStops(sub: Spec<Name>, rep: Repetition, w: seq<Name>, n: Name)
    requires WellFormed(sub) && w != [] && Matches(sub, w) && RunOf(sub, w).Accepted?
    requires Stuck(sub, w) || (rep == OneOrMore && (!Nullable(sub) || !YieldsFresh(sub)))
    requires !Prefix(Repeated(sub, rep), w + [n])
    ensures Stops(Repeated(sub, rep), RepeatedState(rep, RunOf(sub, w).state, FirstLoop), n)
  {
    var s := RunOf(sub, w).state;
    GoesOnInRound(sub, rep, w, n);
    RunRefuses(sub, w, n);
    var a := Step(sub, s, n);
    var z := RepeatedState(rep, s, FirstLoop);
    assert Fits(Repeated(sub, rep), z);
    if !Stuck(sub, w) {
      ResetFits(sub, a.state);
      ResetCreates(sub, a.state);
      FreshSound(sub, n);
      NullableIff(sub);
      if Nullable(sub) {
        StopsFresh(sub, n);
      }
      assert !Fresh(sub, n).result && !Fresh(sub, n).done;
    }
    hide Prefix, Matches, RunOf, Nullable;
    assert Step(Repeated(sub, rep), z, n) == StepRepeated(sub, rep, z, n);
  }

  // In the first round, and at the start of another.
  lemma GoesOnInRound(sub: Spec<Name>, rep: Repetition, w: seq<Name>, n: Name)
    requires Matches(sub, w)
    ensures Prefix(sub, w + [n]) ==> Prefix(Repeated(sub, rep), w + [n])
    ensures rep != ZeroOrOnce && Prefix(sub, [n]) ==> Prefix(Repeated(sub, rep), w + [n])
  {
    StarOne(sub, w);
    if rep == ZeroOrOnce {
      PrefixOfOption(sub, w + [n]);
    } else {
      Ends(w);
      PrefixInRound(sub, rep, w, 0, n);
      PrefixOfRound(sub, rep, w, n);
    }
  }

  lemma StuckChoice(cs: seq<Spec<Name>>, mixed: bool, p: seq<nat>, i: nat, w: seq<Name>)
    requires Model(Choice(cs, mixed), p) && i < |cs| && Stuck(cs[i], w)
    ensures Stuck(Choice(cs, mixed), w)
  {
    Unit(w);
    PrefixIntro(cs[i], w, []);
    OnlyChoice(cs, mixed, p, i, w);
    RunChoice(cs, mixed, i, w);
    var s := RunOf(Choice(cs, mixed), w).state;
    forall n | !Prefix(Choice(cs, mixed), w + [n])
      ensures Stops(Choice(cs, mixed), s, n)
    {
      PrefixOfChoice(cs, mixed, i, w + [n]);
      StepChosen(cs, mixed, i, s, n);
    }
  }

  // The other alternatives refuse the first name of a word.
  lemma OnlyChoice(cs: seq<Spec<Name>>, mixed: bool, p: seq<nat>, i: nat, w: seq<Name>)
    requires Model(Choice(cs, mixed), p) && i < |cs| && w != [] && Prefix(cs[i], w)
    ensures forall j :: 0 <= j < |cs| && j != i ==> !Fresh(cs[j], w[0]).result
  {
    var v :| Matches(cs[i], w + v);
    FirstOf(w, v);
    forall j | 0 <= j < |cs| && j != i ensures !Fresh(cs[j], w[0]).result {
      FreshSound(cs[j], w[0]);
      if Prefix(cs[j], [w[0]]) {
        var t :| Matches(cs[j], [w[0]] + t);
        ChoiceExclusive(cs, mixed, p, i, j, w[0], w[1..] + v, t);
      }
    }
  }

  // ---- sequences that do not yield ----

  lemma {:induction false} ReliableParts(cs: seq<Spec<Name>>)
    requires ReliableSeq(cs)
    ensures forall i :: 0 <= i < |cs| ==> Reliable(cs[i])
    ensures forall i :: 0 <= i < |cs| - 1 ==> YieldsFresh(cs[i]) && YieldsLater(cs[i])
    decreases cs
  {
    if cs != [] {
      ReliableParts(cs[1..]);
      assert forall i :: 0 < i < |cs| ==> cs[i] == cs[1..][i - 1];
      hide Reliable, YieldsFresh, YieldsLater;
    }
  }

  lemma LastDoesNot(cs: seq<Spec<Name>>)
    requires |cs| >= 2 && ReliableSeq(cs) && !YieldsLater(Seq(cs))
    ensures var l := cs[|cs| - 1]; !YieldsLater(l) || !YieldsFresh(l)
  {
    ReliableParts(cs);
    hide YieldsFresh, ReliableSeq;
  }

  // A sequence whose parts but the last yield, and whose last part does not always.
  lemma {:induction false} SeqStopsLater(cs: seq<Spec<Name>>, p: seq<nat>, i: nat) returns (w: seq<Name>)
    requires cs != [] && (forall j :: 0 <= j < |cs| ==> Particle(cs[j])) && ModelSeq(cs, p, i) && ReliableSeq(cs)
    requires var l := cs[|cs| - 1]; !YieldsLater(l) || (|cs| >= 2 && !YieldsFresh(l))
    ensures Stuck(Seq(cs), w)
    decreases cs, 0
  {
    ModelHeadTail(cs, p, i);
    if |cs| == 1 {
      w := StopsLater(cs[0], p + [i]);
      StuckAlone(cs, w);
    } else if |cs| == 2 && YieldsLater(cs[1]) {
      w := NonEmptyWord(cs[0]);
      Unit(w);
      PrefixIntro(cs[0], w, []);
      Complete(cs[0], p + [i], w);
      StuckBefore(cs, w);
    } else {
      assert cs[1..][|cs| - 2] == cs[|cs| - 1];
      w := SeqStopsLater(cs[1..], p, i + 1);
      var u := HasWord(cs[0]);
      StuckBehind(cs, p, i, u, w);
      w := u + w;
    }
  }

  lemma StuckAlone(cs: seq<Spec<Name>>, w: seq<Name>)
    requires |cs| == 1 && Stuck(cs[0], w) && WellFormed(cs[0])
    ensures Stuck(Seq(cs), w)
  {
    var e: seq<Name> := [];
    assert MatchesSeq(cs[1..], e);
    SeqIntro(cs, w, e);
    Unit(w);
    RunHead(cs, w);
    forall n | !Prefix(Seq(cs), w + [n])
      ensures Stops(Seq(cs), RunOf(Seq(cs), w).state, n)
    {
      PrefixOfHead(cs, w + [n]);
      LeavesHead(cs, w, n);
    }
  }

  // A fresh last part that does not yield keeps the sequence from yielding.
  lemma StuckBefore(cs: seq<Spec<Name>>, w: seq<Name>)
    requires |cs| == 2 && (forall c <- cs :: WellFormed(c)) && !YieldsFresh(cs[1])
    requires w != [] && Matches(cs[0], w) && RunOf(cs[0], w).Accepted?
    ensures Stuck(Seq(cs), w)
  {
    var e: seq<Name> := [];
    StopsFreshNullable(cs[1]);
    assert cs[1..] == [cs[1]] && MatchesSeq([cs[1]][1..], e);
    SeqIntro([cs[1]], e, e);
    Unit(e);
    SeqIntro(cs, w, e);
    Unit(w);
    RunHead(cs, w);
    forall n | !Prefix(Seq(cs), w + [n])
      ensures Stops(Seq(cs), RunOf(Seq(cs), w).state, n)
    {
      BeforeStops(cs, w, n);
    }
  }

  lemma StopsFreshNullable(c: Spec<Name>)
    requires !YieldsFresh(c)
    ensures Matches(c, [])
  {
    NullableIff(c);
    match c
    case Repeated(sub, OneOrMore) => NullableIff(sub); PlusOne(sub, []);
    case _ =>
  }

  lemma BeforeStops(cs: seq<Spec<Name>>, w: seq<Name>, n: Name)
    requires |cs| == 2 && (forall c <- cs :: WellFormed(c)) && !YieldsFresh(cs[1])
    requires Matches(cs[0], w) && RunOf(cs[0], w).Accepted? && !Prefix(Seq(cs), w + [n])
    ensures RunOf(Seq(cs), w).Accepted? && Stops(Seq(cs), RunOf(Seq(cs), w).state, n)
  {
    PrefixOfHead(cs, w + [n]);
    PrefixOfTail(cs, w, [n]);
    assert cs[1..] == [cs[1]];
    PrefixOfHead([cs[1]], [n]);
    RunRefuses(cs[0], w, n);
    LeavesHead(cs, w, n);
    StopsFresh(cs[1], n);
    FreshSeq([cs[1]], n);
    SeqAtHead([cs[1]], Create(cs[1]), n);
  }

  // A word of the head in front.
  lemma StuckBehind(cs: seq<Spec<Name>>, p: seq<nat>, i: nat, u: seq<Name>, w: seq<Name>)
    requires |cs| >= 2 && ModelSeq(cs, p, i) && ReliableSeq(cs) && Matches(cs[0], u) && Stuck(Seq(cs[1..]), w)
    ensures Stuck(Seq(cs), u + w)
  {
    SeqIntro(cs, u, w);
    assert Prefix(Seq(cs[1..]), w) by {
      Unit(w);
      PrefixIntro(Seq(cs[1..]), w, []);
    }
    HeadYields(cs, p, i, u, w);
    RunPrepend(cs, u, w);
    forall n | !Prefix(Seq(cs), u + w + [n])
      ensures Stops(Seq(cs), RunOf(Seq(cs), u + w).state, n)
    {
      Associate(u, w, [n]);
      PrefixOfTail(cs, u, w + [n]);
      BehindStops(cs, Step(cs[0], RunOf(cs[0], u).state, w[0]).state, RunOf(Seq(cs[1..]), w).state, n);
    }
  }

  lemma BehindStops(cs: seq<Spec<Name>>, t: State, s: State, n: Name)
    requires InRest(cs, s) && Fits(cs[0], t) && Stops(Seq(cs[1..]), s, n)
    ensures Stops(Seq(cs), Behind(t, s), n)
  {
    StepBehind(cs, t, s, n);
    hide Step;
  }

  // After one of its words the head yields to a word of the rest.
  lemma HeadYields(cs: seq<Spec<Name>>, p: seq<nat>, i: nat, u: seq<Name>, w: seq<Name>)
    requires cs != [] && ModelSeq(cs, p, i) && Reliable(cs[0]) && YieldsFresh(cs[0]) && YieldsLater(cs[0])
    requires Matches(cs[0], u) && w != [] && Prefix(Seq(cs[1..]), w)
    ensures RunOf(cs[0], u).Accepted? && !Prefix(cs[0], u + [w[0]])
    ensures var a := Step(cs[0], RunOf(cs[0], u).state, w[0]); !a.result && a.done
  {
    ModelHeadTail(cs, p, i);
    Unit(u);
    PrefixIntro(cs[0], u, []);
    Complete(cs[0], p + [i], u);
    RunAfter(cs[0], u);
    NotInBoth(cs, p, i, u, w);
    Yield(cs[0], p + [i], RunOf(cs[0], u).state, u, w[0]);
  }

  lemma NotInBoth(cs: seq<Spec<Name>>, p: seq<nat>, i: nat, u: seq<Name>, w: seq<Name>)
    requires cs != [] && ModelSeq(cs, p, i) && Matches(cs[0], u) && w != [] && Prefix(Seq(cs[1..]), w)
    ensures !Prefix(cs[0], u + [w[0]])
  {
    var v :| Matches(Seq(cs[1..]), w + v);
    FirstOf(w, v);
    if Prefix(cs[0], u + [w[0]]) {
      var t :| Matches(cs[0], u + [w[0]] + t);
      SeqExclusive(cs, p, i, u, w[0], t, w[1..] + v);
    }
  }

  // ---- names that can begin a word and not follow one ----

  // The name can begin a word of `c`, and not follow the word `w`.
  ghost predicate Gap(c: Spec<Name>, w: seq<Name>, n: Name)
  {
    w != [] && Matches(c, w) && Prefix(c, [n]) && !Prefix(c, w + [n])
  }

  lemma FirstIsPrefix(c: Spec<Name>, w: seq<Name>)
    requires w != [] && Matches(c, w)
    ensures Prefix(c, [w[0]])
  {
    FirstOf(w, []);
    PrefixIntro(c, [w[0]], w[1..]);
  }

  lemma GapInSeq(cs: seq<Spec<Name>>, p: seq<nat>, i: nat, u: seq<Name>, w: seq<Name>, n: Name)
    requires cs != [] && ModelSeq(cs, p, i) && Restartable(Seq(MarkedAll(cs, p, i)))
    requires Matches(cs[0], u) && MatchesSeq(cs[1..], w) && w != [] && Prefix(cs[0], [n])
    ensures Gap(Seq(cs), u + w, n)
  {
    SeqIntro(cs, u, w);
    PrefixOfHead(cs, [n]);
    var r :| Matches(cs[0], [n] + r);
    if Prefix(Seq(cs), u + w + [n]) {
      var v :| Matches(Seq(cs), u + w + [n] + v);
      Associate(u + w, [n], v);
      var j := SplitWord(cs, u + w + ([n] + v));
      Unit(w);
      DivideLater(cs, p, i, u, w, [n] + v, j);
      Associate(u, w, [n] + v);
      Parts(u, w + ([n] + v));
      Associate(w, [n], v);
      hide Matches, MatchesSeq, Prefix, Restartable;
      StarSeqExclusive(cs, p, i, u, w, n, v, r);
    }
  }

  lemma GapInChoice(cs: seq<Spec<Name>>, mixed: bool, p: seq<nat>, i: nat, j: nat, w: seq<Name>, n: Name)
    requires Model(Choice(cs, mixed), p) && Restartable(Marked(Choice(cs, mixed), p))
    requires i < |cs| && j < |cs| && i != j && w != [] && Matches(cs[i], w) && Prefix(cs[j], [n])
    ensures Gap(Choice(cs, mixed), w, n)
  {
    PrefixOfChoice(cs, mixed, j, [n]);
    var r :| Matches(cs[j], [n] + r);
    if Prefix(Choice(cs, mixed), w + [n]) {
      var v :| Matches(Choice(cs, mixed), w + [n] + v);
      Associate(w, [n], v);
      Unit(w);
      PrefixIntro(cs[i], w, []);
      ChoiceKeeps(cs, mixed, p, i, w, [n] + v);
      StarChoiceExclusive(cs, mixed, p, i, j, w, n, v, r);
    }
  }

  lemma GapInOption(sub: Spec<Name>, w: seq<Name>, n: Name)
    requires Gap(sub, w, n)
    ensures Gap(Repeated(sub, ZeroOrOnce), w, n)
  {
    PrefixOfOption(sub, [n]);
    OptionPrefix(sub, w + [n]);
  }

  lemma OptionPrefix(sub: Spec<Name>, w: seq<Name>)
    ensures w != [] && Prefix(Repeated(sub, ZeroOrOnce), w) ==> Prefix(sub, w)
  {
    if w != [] && Prefix(Repeated(sub, ZeroOrOnce), w) {
      var v :| Matches(Repeated(sub, ZeroOrOnce), w + v);
      PrefixIntro(sub, w, v);
    }
  }

  /** A model that is no repetition has a word that not every first name can follow. */
  lemma {:induction false} GapWord(c: Spec<Name>, p: seq<nat>) returns (w: seq<Name>, n: Name)
    requires Particle(c) && Model(c, p) && Restartable(Marked(c, p)) && !Loops(c)
    ensures Gap(c, w, n)
    decreases c
  {
    match c
    case Element(name) =>
      w, n := [name], name;
      Unit([n]);
      PrefixIntro(c, [n], []);
    case Repeated(sub, _) =>
      ModelSub(sub, ZeroOrOnce, p);
      RestartableOption(Marked(sub, p + [0]));
      w, n := GapWord(sub, p + [0]);
      GapInOption(sub, w, n);
    case Seq(subs) =>
      ModelHeadTail(subs, p, 0);
      var u := NonEmptyWord(subs[0]);
      var v := NonEmptySeqWord(subs[1..]);
      FirstIsPrefix(subs[0], u);
      w, n := u + v, u[0];
      GapInSeq(subs, p, 0, u, v, n);
    case Choice(subs, mixed) =>
      w := NonEmptyWord(subs[0]);
      var v := NonEmptyWord(subs[1]);
      FirstIsPrefix(subs[1], v);
      n := v[0];
      GapInChoice(subs, mixed, p, 0, 1, w, n);
  }

  // ---- a repetition that cannot begin another round ----

  /**
   A reliable body of a repetition that does not let another round begin has a word after which it
   refuses, without being done, a name with which another word begins.
   */
  lemma {:induction false} StuckGap(c: Spec<Name>, p: seq<nat>) returns (w: seq<Name>, n: Name)
    requires Particle(c) && Model(c, p) && Restartable(Marked(c, p)) && Reliable(c) && !Restarts(c)
    ensures Gap(c, w, n) && RunOf(c, w).Accepted? && Stops(c, RunOf(c, w).state, n)
    decreases c
  {
    match c
    case Repeated(sub, _) =>
      ModelSub(sub, ZeroOrOnce, p);
      RestartableOption(Marked(sub, p + [0]));
      w, n := StuckGap(sub, p + [0]);
      GapInOption(sub, w, n);
      RunRepeated(sub, ZeroOrOnce, w);
    case Seq(subs) =>
      w, n := StuckGapSeq(subs, p);
    case Choice(subs, mixed) =>
      var i :| 0 <= i < |subs| && !YieldsLater(subs[i]);
      var j := if i == 0 then 1 else 0;
      ModelAlternative(subs, mixed, p, i);
      w := StopsLater(subs[i], p + [i]);
      StuckChoice(subs, mixed, p, i, w);
      var v := NonEmptyWord(subs[j]);
      FirstIsPrefix(subs[j], v);
      n := v[0];
      GapInChoice(subs, mixed, p, i, j, w, n);
  }

  lemma StuckGapSeq(cs: seq<Spec<Name>>, p: seq<nat>) returns (w: seq<Name>, n: Name)
    requires Particle(Seq(cs)) && Model(Seq(cs), p) && Restartable(Marked(Seq(cs), p))
    requires Reliable(Seq(cs)) && !Restarts(Seq(cs))
    ensures Gap(Seq(cs), w, n) && RunOf(Seq(cs), w).Accepted? && Stops(Seq(cs), RunOf(Seq(cs), w).state, n)
  {
    LastDoesNot(cs);
    ModelHeadTail(cs, p, 0);
    if |cs| == 2 && YieldsLater(cs[1]) {
      RestartablePairHead(cs, p);
      w, n := GapWord(cs[0], p + [0]);
      Unit(w);
      PrefixIntro(cs[0], w, []);
      Complete(cs[0], p + [0], w);
      StuckBefore(cs, w);
      GapInPair(cs, p, w, n);
    } else {
      assert cs[1..][|cs| - 2] == cs[|cs| - 1];
      var v := SeqStopsLater(cs[1..], p, 1);
      var u := NonEmptyWord(cs[0]);
      n := u[0];
      FirstIsPrefix(cs[0], u);
      StuckBehind(cs, p, 0, u, v);
      GapInSeq(cs, p, 0, u, v, n);
      w := u + v;
    }
  }

  lemma RestartablePairHead(cs: seq<Spec<Name>>, p: seq<nat>)
    requires |cs| == 2 && Restartable(Seq(MarkedAll(cs, p, 0))) && !YieldsFresh(cs[1])
    ensures Restartable(Marked(cs[0], p + [0])) && MatchesSeq(cs[1..], [])
  {
    StopsFreshNullable(cs[1]);
    assert cs[1..] == [cs[1]] && MatchesSeq([cs[1]][1..], []);
    SeqIntro([cs[1]], [], []);
    Unit<Name>([]);
    RestartableHead(cs, p, 0);
  }

  lemma GapInPair(cs: seq<Spec<Name>>, p: seq<nat>, w: seq<Name>, n: Name)
    requires |cs| == 2 && ModelSeq(cs, p, 0) && Restartable(Seq(MarkedAll(cs, p, 0))) && MatchesSeq(cs[1..], [])
    requires Gap(cs[0], w, n)
    ensures Gap(Seq(cs), w, n)
  {
    SeqIntro(cs, w, []);
    Unit(w);
    PrefixOfHead(cs, [n]);
    var r :| Matches(cs[0], [n] + r);
    if Prefix(Seq(cs), w + [n]) {
      var v :| Matches(Seq(cs), w + [n] + v);
      Associate(w, [n], v);
      var j := SplitWord(cs, w + ([n] + v));
      PrefixIntro(cs[0], w, []);
      DivideFirst(cs, p, 0, w, [n] + v, j);
      PairSplit(cs, p, w, n, v, r, j);
    }
  }

  lemma PairSplit(cs: seq<Spec<Name>>, p: seq<nat>, w: seq<Name>, n: Name, v: seq<Name>, r: seq<Name>, j: nat)
    requires cs != [] && ModelSeq(cs, p, 0) && Restartable(Seq(MarkedAll(cs, p, 0))) && MatchesSeq(cs, w)
    requires Matches(cs[0], w) && |w| <= j <= |w + ([n] + v)|
    requires Matches(cs[0], (w + ([n] + v))[..j]) && MatchesSeq(cs[1..], (w + ([n] + v))[j..])
    ensures Prefix(cs[0], w + [n]) || !Matches(cs[0], [n] + r)
  {
    var x := w + ([n] + v);
    if j == |w| {
      Parts(w, [n] + v);
      Unit(w);
      Unit([n] + v);
      Unit([n]);
      StarSeqExclusive(cs, p, 0, w, [], n, v, r);
    } else {
      assert x[..j] == w + [n] + x[|w| + 1..j];
      PrefixIntro(cs[0], w + [n], x[|w| + 1..j]);
    }
  }
}
