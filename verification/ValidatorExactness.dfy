/**
 Which deterministic models the validator accepts as it should: exactly the reliable ones.
 */
module ValidatorExactness {
  import opened ContentModel
  import opened ValidatorState
  import opened ValidatorSoundness
  import opened Determinism
  import opened ValidatorCompleteness
  import opened ValidatorRuns
  import opened Restarting
  import opened ValidatorNecessity
  import opened Sequences

  // After `w` the name `n` is refused although the word can go on with it.  Inside a repetition
  // that has to stay so: either the machine does not say that it is done, or a fresh one refuses
  // the name as well.
  ghost predicate Witness(c: Spec<Name>, m: Spec<Mark<Name>>, w: seq<Name>, n: Name)
  {
    && Prefix(c, w + [n]) && RunOf(c, w).Accepted?
    && var a := Step(c, RunOf(c, w).state, n);
       !a.result && (w == [] || !a.done || (Restartable(m) ==> !Fresh(c, n).result))
  }

  // What is refused with "done" is refused after a word.
  lemma DoneIsWord(c: Spec<Name>, w: seq<Name>, n: Name)
    requires RunOf(c, w).Accepted?
    ensures var a := Step(c, RunOf(c, w).state, n); !a.result && a.done ==> Matches(c, w)
  {
    RunAfter(c, w);
    StepSound(c, RunOf(c, w).state, w, n);
  }

  lemma ShorterPrefix(c: Spec<Name>, w: seq<Name>, n: Name)
    requires Prefix(c, w + [n])
    ensures Prefix(c, w)
  {
    var v :| Matches(c, w + [n] + v);
    Associate(w, [n], v);
    PrefixIntro(c, w, [n] + v);
  }

  // ---- repetitions ----

  // A refusal in the first round.
  lemma FirstRoundStep(sub: Spec<Name>, rep: Repetition, s: State, phase: Phase, n: Name)
    requires Fits(sub, s) && phase != NextLoop && !Step(sub, s, n).result
    ensures Fits(Repeated(sub, rep), RepeatedState(rep, s, phase))
    ensures var (a, z) := (Step(sub, s, n), Step(Repeated(sub, rep), RepeatedState(rep, s, phase), n));
      && (phase == Start || !Fresh(sub, n).result ==> !z.result)
      && (phase == FirstLoop && (rep == ZeroOrOnce || !a.done) ==> !z.result && z.done == a.done)
  {
    var a := Step(sub, s, n);
    ResetFits(sub, a.state);
    ResetCreates(sub, a.state);
  }

  lemma FreshRepeated(sub: Spec<Name>, rep: Repetition, n: Name)
    ensures Fresh(Repeated(sub, rep), n).result == Fresh(sub, n).result
  {
    CreateFits(sub);
    CreateFits(Repeated(sub, rep));
    var s := RepeatedState(rep, Create(sub), Start);
    assert Create(Repeated(sub, rep)) == s;
    assert Step(Repeated(sub, rep), s, n) == StepRepeated(sub, rep, s, n);
  }

  lemma RunInFirstRound(sub: Spec<Name>, rep: Repetition, w: seq<Name>, n: Name)
    requires RunOf(sub, w).Accepted? && !Step(sub, RunOf(sub, w).state, n).result
    ensures RunOf(Repeated(sub, rep), w).Accepted?
    ensures var (a, z) := (Step(sub, RunOf(sub, w).state, n),
      Step(Repeated(sub, rep), RunOf(Repeated(sub, rep), w).state, n));
      && (w == [] || !Fresh(sub, n).result ==> !z.result)
      && (w != [] && (rep == ZeroOrOnce || !a.done) ==> !z.result && z.done == a.done)
  {
    RunRepeated(sub, rep, w);
    FirstRoundStep(sub, rep, RunOf(sub, w).state, if w == [] then Start else FirstLoop, n);
    hide Step, RunOf, Fresh;
  }

  lemma PrefixInRepeated(sub: Spec<Name>, rep: Repetition, w: seq<Name>)
    requires Prefix(sub, w)
    ensures Prefix(Repeated(sub, rep), w)
  {
    var v :| Matches(sub, w + v);
    StarOne(sub, w + v);
    PlusOne(sub, w + v);
    PrefixIntro(Repeated(sub, rep), w, v);
  }

  lemma WitnessOption(sub: Spec<Name>, p: seq<nat>, w: seq<Name>, n: Name)
    requires Witness(sub, Marked(sub, p + [0]), w, n)
    ensures Witness(Repeated(sub, ZeroOrOnce), Marked(Repeated(sub, ZeroOrOnce), p), w, n)
  {
    PrefixInRepeated(sub, ZeroOrOnce, w + [n]);
    RunInFirstRound(sub, ZeroOrOnce, w, n);
    FreshRepeated(sub, ZeroOrOnce, n);
    assert Restartable(Marked(Repeated(sub, ZeroOrOnce), p)) ==> Restartable(Marked(sub, p + [0])) by {
      if Restartable(Marked(Repeated(sub, ZeroOrOnce), p)) {
        RestartableOption(Marked(sub, p + [0]));
      }
    }
    hide Restartable, Prefix, RunOf, Fresh, Step, Marked;
  }

  lemma WitnessRepeated(sub: Spec<Name>, rep: Repetition, p: seq<nat>, w: seq<Name>, n: Name)
    requires rep != ZeroOrOnce && Model(Repeated(sub, rep), p) && Witness(sub, Marked(sub, p + [0]), w, n)
    ensures Witness(Repeated(sub, rep), Marked(Repeated(sub, rep), p), w, n)
  {
    ModelSub(sub, rep, p);
    assert Restartable(Marked(sub, p + [0]));
    PrefixInRepeated(sub, rep, w + [n]);
    RunInFirstRound(sub, rep, w, n);
    FreshRepeated(sub, rep, n);
    hide Restartable, Prefix, RunOf, Fresh, Step, Marked;
  }

  // A body that does not let another round begin.
  lemma WitnessRound(sub: Spec<Name>, rep: Repetition, p: seq<nat>, w: seq<Name>, n: Name)
    requires rep != ZeroOrOnce && Gap(sub, w, n) && RunOf(sub, w).Accepted? && Stops(sub, RunOf(sub, w).state, n)
    ensures Witness(Repeated(sub, rep), Marked(Repeated(sub, rep), p), w, n)
  {
    GoesOnInRound(sub, rep, w, n);
    RunInFirstRound(sub, rep, w, n);
    hide Restartable, Prefix, RunOf, Fresh, Step, Marked;
  }

  // ---- choices ----

  lemma WitnessChoice(cs: seq<Spec<Name>>, mixed: bool, p: seq<nat>, i: nat, w: seq<Name>, n: Name)
    requires Model(Choice(cs, mixed), p) && i < |cs| && Witness(cs[i], Marked(cs[i], p + [i]), w, n)
    ensures Witness(Choice(cs, mixed), Marked(Choice(cs, mixed), p), w, n)
  {
    var c := Choice(cs, mixed);
    PrefixOfChoice(cs, mixed, i, w + [n]);
    if w == [] {
      Unit([n]);
      OnlyChoice(cs, mixed, p, i, [n]);
      NoneAccepts(cs, mixed, n);
    } else {
      ShorterPrefix(cs[i], w, n);
      OnlyChoice(cs, mixed, p, i, w);
      RunChoice(cs, mixed, i, w);
      StepChosen(cs, mixed, i, RunOf(c, w).state, n);
      if Restartable(Marked(c, p)) && Step(c, RunOf(c, w).state, n).done {
        DoneIsWord(cs[i], w, n);
        FreshChoiceRefuses(cs, mixed, p, i, w, n);
      }
    }
    hide Restartable, Prefix;
  }

  lemma NoneAccepts(cs: seq<Spec<Name>>, mixed: bool, n: Name)
    requires forall j :: 0 <= j < |cs| ==> !Fresh(cs[j], n).result
    ensures !Fresh(Choice(cs, mixed), n).result
  {
    CreateFits(Choice(cs, mixed));
    if cs != [] {
      forall j | 0 <= j < |cs| ensures Fits(cs[j], Create(cs[j])) {
        CreateFits(cs[j]);
      }
      ChoiceRefuses(cs, n);
    }
  }

  lemma FreshChoiceRefuses(cs: seq<Spec<Name>>, mixed: bool, p: seq<nat>, i: nat, w: seq<Name>, n: Name)
    requires Model(Choice(cs, mixed), p) && Restartable(Marked(Choice(cs, mixed), p)) && i < |cs|
    requires Matches(cs[i], w) && Prefix(cs[i], w + [n])
    requires Restartable(Marked(cs[i], p + [i])) ==> !Fresh(cs[i], n).result
    ensures !Fresh(Choice(cs, mixed), n).result
  {
    RestartableAlternative(MarkedAll(cs, p, 0), mixed, i);
    MarkedAllAt(cs, p, 0, i);
    var t :| Matches(cs[i], w + [n] + t);
    forall j | 0 <= j < |cs| ensures !Fresh(cs[j], n).result {
      FreshSound(cs[j], n);
      if Prefix(cs[j], [n]) {
        var r :| Matches(cs[j], [n] + r);
        StarChoiceExclusive(cs, mixed, p, i, j, w, n, t, r);
      }
    }
    NoneAccepts(cs, mixed, n);
  }

  // ---- sequences ----

  // The head does not yield to the rest.
  lemma WitnessStuckHead(cs: seq<Spec<Name>>, p: seq<nat>, i: nat) returns (w: seq<Name>, n: Name)
    requires |cs| >= 2 && (forall j :: 0 <= j < |cs| ==> Particle(cs[j])) && ModelSeq(cs, p, i) && Reliable(cs[0])
    requires !YieldsFresh(cs[0]) || !YieldsLater(cs[0])
    ensures Witness(Seq(cs), Seq(MarkedAll(cs, p, i)), w, n)
  {
    ModelHeadTail(cs, p, i);
    var v := NonEmptySeqWord(cs[1..]);
    n := v[0];
    FirstIsPrefix(Seq(cs[1..]), v);
    if !YieldsFresh(cs[0]) {
      w := [];
      StopsFreshNullable(cs[0]);
    } else {
      w := StopsLater(cs[0], p + [i]);
    }
    NotInBoth(cs, p, i, w, [n]);
    if w == [] {
      Unit([n]);
      StopsFresh(cs[0], n);
    }
    PrefixOfTail(cs, w, [n]);
    HeadStops(cs, w, n);
    hide Restartable, Prefix, RunOf, Fresh, Step, MarkedAll;
  }

  lemma HeadStops(cs: seq<Spec<Name>>, w: seq<Name>, n: Name)
    requires cs != [] && RunOf(cs[0], w).Accepted? && Stops(cs[0], RunOf(cs[0], w).state, n)
    ensures RunOf(Seq(cs), w).Accepted? && Stops(Seq(cs), RunOf(Seq(cs), w).state, n)
  {
    LeavesHead(cs, w, n);
    hide Step, RunOf;
  }

  // The head refuses a name with which its word can go on.
  lemma WitnessHead(cs: seq<Spec<Name>>, p: seq<nat>, i: nat, w: seq<Name>, n: Name)
    requires cs != [] && ModelSeq(cs, p, i) && Witness(cs[0], Marked(cs[0], p + [i]), w, n)
    ensures Witness(Seq(cs), Seq(MarkedAll(cs, p, i)), w, n)
  {
    PrefixOfHead(cs, w + [n]);
    LeavesHead(cs, w, n);
    var a := Step(cs[0], RunOf(cs[0], w).state, n);
    if a.done {
      DoneIsWord(cs[0], w, n);
      RestRefuses(cs, p, i, w, n);
      FreshHead(cs, n);
      FreshSound(Seq(cs[1..]), n);
      if Restartable(Seq(MarkedAll(cs, p, i))) && Fresh(Seq(cs[1..]), n).done {
        RestartableHead(cs, p, i);
      }
    }
    hide Restartable, Prefix, RunOf, Fresh, Step, MarkedAll;
  }

  // What can continue the head is refused by the rest.
  lemma RestRefuses(cs: seq<Spec<Name>>, p: seq<nat>, i: nat, w: seq<Name>, n: Name)
    requires cs != [] && ModelSeq(cs, p, i) && Matches(cs[0], w) && Prefix(cs[0], w + [n])
    ensures !Fresh(Seq(cs[1..]), n).result
  {
    assert WellFormed(Seq(cs[1..]));
    FreshSound(Seq(cs[1..]), n);
    if Prefix(Seq(cs[1..]), [n]) {
      NotInBoth(cs, p, i, w, [n]);
    }
  }

  // A fresh sequence accepts a name only in its head or in its rest.
  lemma FreshHead(cs: seq<Spec<Name>>, n: Name)
    requires cs != []
    ensures Fresh(Seq(cs), n).result ==>
      Fresh(cs[0], n).result || (Fresh(cs[0], n).done && !Fresh(cs[0], n).result && Fresh(Seq(cs[1..]), n).result)
  {
    CreateFits(cs[0]);
    CreateFits(Seq(cs));
    LeavesHead(cs, [], n);
    assert RunOf(cs[0], []).state == Create(cs[0]) && RunOf(Seq(cs), []).state == Create(Seq(cs));
    hide Step, RunOf;
  }

  // The rest refuses a name with which its word can go on.
  lemma WitnessRest(cs: seq<Spec<Name>>, p: seq<nat>, i: nat, u: seq<Name>, w: seq<Name>, n: Name)
    requires cs != [] && ModelSeq(cs, p, i) && Reliable(cs[0]) && YieldsFresh(cs[0]) && YieldsLater(cs[0])
    requires Matches(cs[0], u) && Witness(Seq(cs[1..]), Seq(MarkedAll(cs[1..], p, i + 1)), w, n)
    ensures Witness(Seq(cs), Seq(MarkedAll(cs, p, i)), u + w, n)
  {
    Associate(u, w, [n]);
    PrefixOfTail(cs, u, w + [n]);
    RestStep(cs, p, i, u, w, n);
    var z := Step(Seq(cs), RunOf(Seq(cs), u + w).state, n);
    if z.done && Restartable(Seq(MarkedAll(cs, p, i))) {
      DoneIsWord(Seq(cs), u + w, n);
      FreshRestRefuses(cs, p, i, u, w, n);
    }
    hide Restartable, Prefix, RunOf, Fresh, Step, MarkedAll;
  }

  lemma RestStep(cs: seq<Spec<Name>>, p: seq<nat>, i: nat, u: seq<Name>, w: seq<Name>, n: Name)
    requires cs != [] && ModelSeq(cs, p, i) && Reliable(cs[0]) && YieldsFresh(cs[0]) && YieldsLater(cs[0])
    requires Matches(cs[0], u) && RunOf(Seq(cs[1..]), w).Accepted? && Prefix(Seq(cs[1..]), w + [n])
    requires !Step(Seq(cs[1..]), RunOf(Seq(cs[1..]), w).state, n).result
    ensures RunOf(Seq(cs), u + w).Accepted?
    ensures var (a, z) := (Step(Seq(cs[1..]), RunOf(Seq(cs[1..]), w).state, n),
      Step(Seq(cs), RunOf(Seq(cs), u + w).state, n));
      !z.result && z.done == a.done
  {
    if w == [] {
      Unit([n]);
      Unit(u);
      HeadYields(cs, p, i, u, [n]);
      LeavesHead(cs, u, n);
    } else {
      ShorterPrefix(Seq(cs[1..]), w, n);
      HeadYields(cs, p, i, u, w);
      RunPrepend(cs, u, w);
      StepBehind(cs, Step(cs[0], RunOf(cs[0], u).state, w[0]).state, RunOf(Seq(cs[1..]), w).state, n);
    }
  }

  lemma FreshRestRefuses(cs: seq<Spec<Name>>, p: seq<nat>, i: nat, u: seq<Name>, w: seq<Name>, n: Name)
    requires cs != [] && ModelSeq(cs, p, i) && Restartable(Seq(MarkedAll(cs, p, i)))
    requires Matches(cs[0], u) && MatchesSeq(cs, u + w) && Prefix(Seq(cs[1..]), w + [n])
    requires w == [] ==> !Fresh(Seq(cs[1..]), n).result
    requires w != [] && Restartable(Seq(MarkedAll(cs[1..], p, i + 1))) ==> !Fresh(Seq(cs[1..]), n).result
    ensures !Fresh(Seq(cs), n).result
  {
    FreshHead(cs, n);
    FreshSound(cs[0], n);
    if Fresh(cs[0], n).result {
      var v :| Matches(Seq(cs[1..]), w + [n] + v);
      var r :| Matches(cs[0], [n] + r);
      StarSeqExclusive(cs, p, i, u, w, n, v, r);
    } else if Fresh(cs[0], n).done {
      RestartableRest(cs, p, i);
    }
    hide Restartable, Prefix, RunOf, Fresh, Step, MarkedAll;
  }

  // ---- every unreliable model has a witness ----

  lemma {:induction false} FindWitness(c: Spec<Name>, p: seq<nat>) returns (w: seq<Name>, n: Name)
    requires Particle(c) && Model(c, p) && !Reliable(c)
    ensures Witness(c, Marked(c, p), w, n)
    decreases c, 1
  {
    match c
    case Repeated(sub, rep) =>
      ModelSub(sub, rep, p);
      if Reliable(sub) {
        w, n := StuckGap(sub, p + [0]);
        WitnessRound(sub, rep, p, w, n);
      } else {
        w, n := FindWitness(sub, p + [0]);
        if rep == ZeroOrOnce {
          WitnessOption(sub, p, w, n);
        } else {
          WitnessRepeated(sub, rep, p, w, n);
        }
      }
    case Seq(subs) =>
      w, n := FindSeqWitness(subs, p, 0);
    case Choice(subs, mixed) =>
      var i :| 0 <= i < |subs| && !Reliable(subs[i]);
      ModelAlternative(subs, mixed, p, i);
      w, n := FindWitness(subs[i], p + [i]);
      WitnessChoice(subs, mixed, p, i, w, n);
  }

  lemma {:induction false} FindSeqWitness(cs: seq<Spec<Name>>, p: seq<nat>, i: nat) returns (w: seq<Name>, n: Name)
    requires (forall j :: 0 <= j < |cs| ==> Particle(cs[j])) && ModelSeq(cs, p, i) && !ReliableSeq(cs)
    ensures Witness(Seq(cs), Seq(MarkedAll(cs, p, i)), w, n)
    decreases cs, 0
  {
    ModelHeadTail(cs, p, i);
    if !Reliable(cs[0]) {
      w, n := FindWitness(cs[0], p + [i]);
      WitnessHead(cs, p, i, w, n);
    } else if |cs| > 1 && !(YieldsFresh(cs[0]) && YieldsLater(cs[0])) {
      w, n := WitnessStuckHead(cs, p, i);
    } else {
      w, n := FindSeqWitness(cs[1..], p, i + 1);
      var u := HasWord(cs[0]);
      WitnessRest(cs, p, i, u, w, n);
      w := u + w;
    }
  }

  // The models that are no particles are reliable.
  lemma MixedIsReliable(c: Spec<Name>)
    requires Declared(c) && !Particle(c) && NoAny(c)
    ensures Reliable(c) && WellFormed(c)
  {
  }

  /**
   For every model that a declaration can give, one-unambiguous unless it allows any content: the
   validator accepts every prefix of every word if and only if the model is reliable.
   */
  lemma ReliableIffComplete(c: Spec<Name>)
    requires Declared(c) && (c.Any? || OneUnambiguous(c))
    ensures Reliable(c) <==> forall w :: Prefix(c, w) ==> RunOf(c, w).Accepted?
  {
    if c.Any? {
      forall w ensures RunOf(c, w).Accepted? {
        AnyAcceptsAll(w);
      }
      return;
    }
    if Particle(c) {
      ParticleBasics(c);
    } else {
      MixedIsReliable(c);
    }
    if Reliable(c) {
      forall w | Prefix(c, w) ensures RunOf(c, w).Accepted? {
        Complete(c, [], w);
      }
    } else {
      var w, n := FindWitness(c, []);
      RunMore(c, w, n);
    }
  }
}
