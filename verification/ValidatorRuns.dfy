/**
 Runs of a content model in terms of the runs of its parts, and the words after which a
 machine refuses a name without saying that it is done.
 */
module ValidatorRuns {
  import opened ContentModel
  import opened ValidatorState
  import opened ValidatorSoundness
  import opened Determinism
  import opened ValidatorCompleteness
  import opened Sequences

  // The answer of a fresh machine.
  function Fresh(c: Spec<Name>, n: Name): Answer
  {
    CreateFits(c);
    Step(c, Create(c), n)
  }

  // A name is refused, and the machine does not say that it is done.
  ghost predicate Stops(c: Spec<Name>, s: State, n: Name)
  {
    Fits(c, s) && !Step(c, s, n).result && !Step(c, s, n).done
  }

  // ---- runs ----

  lemma RunMore(c: Spec<Name>, w: seq<Name>, n: Name)
    requires RunOf(c, w).Accepted?
    ensures var a := Step(c, RunOf(c, w).state, n);
      RunOf(c, w + [n]) == if a.result then Accepted(a.state) else Refused
  {
    assert (w + [n])[..|w|] == w;
    hide Step;
  }

  lemma RunLess(c: Spec<Name>, w: seq<Name>, n: Name)
    requires RunOf(c, w + [n]).Accepted?
    ensures RunOf(c, w).Accepted? && Step(c, RunOf(c, w).state, n).result
  {
    assert (w + [n])[..|w|] == w;
    hide Step;
  }

  // In its first round a repetition does what its sub-state does.
  lemma {:induction false} RunRepeated(sub: Spec<Name>, rep: Repetition, w: seq<Name>)
    requires RunOf(sub, w).Accepted?
    ensures RunOf(Repeated(sub, rep), w)
         == Accepted(RepeatedState(rep, RunOf(sub, w).state, if w == [] then Start else FirstLoop))
    decreases |w|
  {
    if w != [] {
      var (u, n) := (w[..|w| - 1], w[|w| - 1]);
      LastOf(w);
      RunLess(sub, u, n);
      RunMore(sub, u, n);
      RunRepeated(sub, rep, u);
      RunMore(Repeated(sub, rep), u, n);
      hide RunOf;
    }
  }

  // ---- sequences ----

  // A sequence that stands at its head.
  lemma SeqAtHead(cs: seq<Spec<Name>>, s: State, n: Name)
    requires cs != [] && Fits(cs[0], s)
    ensures FitAll(cs[1..], CreateAll(cs[1..])) && FitAll(cs, [s] + CreateAll(cs[1..]))
    ensures var a := Step(cs[0], s, n);
      var z := StepSeq(cs, [s] + CreateAll(cs[1..]), n);
      if a.result || !a.done then z == ListAnswer([a.state] + CreateAll(cs[1..]), 0, a.result, a.done)
      else
        var b := StepSeq(cs[1..], CreateAll(cs[1..]), n);
        z == ListAnswer([a.state] + b.subs, b.index + 1, b.result, b.done)
  {
    CreateAllFits(cs[1..]);
    var ss := [s] + CreateAll(cs[1..]);
    assert ss[0] == s && ss[1..] == CreateAll(cs[1..]);
  }

  lemma FreshSeq(cs: seq<Spec<Name>>, n: Name)
    ensures FitAll(cs, CreateAll(cs))
    ensures var a := StepSeq(cs, CreateAll(cs), n);
      && Fresh(Seq(cs), n).result == a.result && Fresh(Seq(cs), n).done == a.done
      && (a.result ==> Fresh(Seq(cs), n).state == SeqState(a.subs, At(a.index)))
    ensures cs != [] ==> CreateAll(cs) == [Create(cs[0])] + CreateAll(cs[1..])
  {
    CreateAllFits(cs);
  }

  lemma StepFirst(cs: seq<Spec<Name>>, s: State, n: Name)
    requires cs != [] && Fits(cs[0], s)
    ensures FitAll(cs, [s] + CreateAll(cs[1..]))
    ensures var a := StepSeq(cs, [s] + CreateAll(cs[1..]), n);
      Step(Seq(cs), SeqState([s] + CreateAll(cs[1..]), At(0)), n)
          == Answer(SeqState(a.subs, At(a.index)), a.result, a.done)
  {
    SeqAtHead(cs, s, n);
    var ss := [s] + CreateAll(cs[1..]);
    Ends(cs);
    Ends(ss);
    hide StepSeq;
    Unit(StepSeq(cs, ss, n).subs);
  }

  lemma {:induction false} RunHead(cs: seq<Spec<Name>>, w: seq<Name>)
    requires cs != [] && w != [] && RunOf(cs[0], w).Accepted?
    ensures RunOf(Seq(cs), w) == Accepted(SeqState([RunOf(cs[0], w).state] + CreateAll(cs[1..]), At(0)))
    decreases |w|
  {
    var (u, n) := (w[..|w| - 1], w[|w| - 1]);
    LastOf(w);
    RunLess(cs[0], u, n);
    RunMore(cs[0], u, n);
    var s := RunOf(cs[0], u).state;
    SeqAtHead(cs, s, n);
    hide StepSeq;
    if u == [] {
      FreshSeq(cs, n);
      RunMore(Seq(cs), u, n);
    } else {
      RunHead(cs, u);
      StepFirst(cs, s, n);
      RunMore(Seq(cs), u, n);
      hide RunOf;
    }
  }

  predicate Entered(s: State)
  {
    s.SeqState? && s.position.At?
  }

  // A sequence that has left its head, in terms of the sequence of the other parts.
  function Behind(t: State, s: State): State
    requires Entered(s)
  {
    SeqState([t] + s.subs, At(s.position.index + 1))
  }

  ghost predicate InRest(cs: seq<Spec<Name>>, s: State)
  {
    cs != [] && Fits(Seq(cs[1..]), s) && Entered(s)
  }

  lemma SeqStep(cs: seq<Spec<Name>>, s: State, n: Name)
    requires Fits(Seq(cs), s) && s.position.At?
    ensures var k := s.position.index;
      && k <= |cs| == |s.subs| && FitAll(cs[k..], s.subs[k..])
      && var a := StepSeq(cs[k..], s.subs[k..], n);
         Step(Seq(cs), s, n) == Answer(SeqState(s.subs[..k] + a.subs, At(k + a.index)), a.result, a.done)
  {
    FitAllSplit(cs, s.subs, s.position.index);
  }

  lemma BehindFits(cs: seq<Spec<Name>>, t: State, s: State)
    requires InRest(cs, s) && Fits(cs[0], t)
    ensures Fits(Seq(cs), Behind(t, s))
  {
    var ss := [t] + s.subs;
    assert FitAll(cs[1..], s.subs) && |cs[1..]| == |s.subs|;
    assert ss[0] == t && ss[1..] == s.subs;
    assert FitAll(cs, ss);
    hide FitAll;
  }

  lemma StepBehind(cs: seq<Spec<Name>>, t: State, s: State, n: Name)
    requires InRest(cs, s) && Fits(cs[0], t)
    ensures Fits(Seq(cs), Behind(t, s))
    ensures var (a, z) := (Step(Seq(cs[1..]), s, n), Step(Seq(cs), Behind(t, s), n));
      z.result == a.result && z.done == a.done && Entered(a.state) && z.state == Behind(t, a.state)
  {
    BehindFits(cs, t, s);
    SeqStep(cs[1..], s, n);
    SeqStep(cs, Behind(t, s), n);
    hide Step, StepSeq, Fits, FitAll;
    var k := s.position.index;
    SliceBehind(cs, k);
    PrependSlices(t, s.subs, k, StepSeq(cs[1..][k..], s.subs[k..], n).subs);
  }

  lemma SliceBehind<T>(s: seq<T>, k: nat)
    requires s != [] && k < |s|
    ensures s[k + 1..] == s[1..][k..]
  {
  }

  lemma PrependSlices<T>(x: T, s: seq<T>, k: nat, r: seq<T>)
    requires k <= |s|
    ensures ([x] + s)[k + 1..] == s[k..] && ([x] + s)[..k + 1] + r == [x] + (s[..k] + r)
  {
  }

  // The head is left for the rest, which goes on as it does alone.
  lemma {:induction false} RunPrepend(cs: seq<Spec<Name>>, u: seq<Name>, w: seq<Name>)
    requires cs != [] && w != [] && RunOf(cs[0], u).Accepted? && RunOf(Seq(cs[1..]), w).Accepted?
    requires var a := Step(cs[0], RunOf(cs[0], u).state, w[0]); !a.result && a.done
    ensures var s := RunOf(Seq(cs[1..]), w).state;
      && InRest(cs, s)
      && RunOf(Seq(cs), u + w) == Accepted(Behind(Step(cs[0], RunOf(cs[0], u).state, w[0]).state, s))
    decreases |w|
  {
    var (v, n) := (w[..|w| - 1], w[|w| - 1]);
    LastOf(w);
    RunLess(Seq(cs[1..]), v, n);
    RunMore(Seq(cs[1..]), v, n);
    Associate(u, v, [n]);
    var t := Step(cs[0], RunOf(cs[0], u).state, w[0]).state;
    if v == [] {
      Unit(u);
      EntersRest(cs, u, n);
    } else {
      assert v[0] == w[0];
      RunPrepend(cs, u, v);
      StepBehind(cs, t, RunOf(Seq(cs[1..]), v).state, n);
      RunMore(Seq(cs), u + v, n);
      hide RunOf, Step;
    }
  }

  lemma RunFirst(cs: seq<Spec<Name>>, u: seq<Name>, n: Name)
    requires cs != [] && RunOf(cs[0], u).Accepted?
    ensures RunOf(Seq(cs), u).Accepted? && FitAll(cs, [RunOf(cs[0], u).state] + CreateAll(cs[1..]))
    ensures var a := StepSeq(cs, [RunOf(cs[0], u).state] + CreateAll(cs[1..]), n);
      var z := Step(Seq(cs), RunOf(Seq(cs), u).state, n);
      z.result == a.result && z.done == a.done && (a.result ==> z.state == SeqState(a.subs, At(a.index)))
  {
    if u == [] {
      FreshSeq(cs, n);
      hide StepSeq;
    } else {
      RunHead(cs, u);
      StepFirst(cs, RunOf(cs[0], u).state, n);
      hide StepSeq, RunOf, Step;
    }
  }

  // The state of a sequence that has read a word of its head, and its next step.
  lemma LeavesHead(cs: seq<Spec<Name>>, u: seq<Name>, n: Name)
    requires cs != [] && RunOf(cs[0], u).Accepted?
    ensures RunOf(Seq(cs), u).Accepted?
    ensures var (a, z) := (Step(cs[0], RunOf(cs[0], u).state, n), Step(Seq(cs), RunOf(Seq(cs), u).state, n));
      if a.result || !a.done then z.result == a.result && z.done == a.done
      else
        var b := Fresh(Seq(cs[1..]), n);
        z.result == b.result && z.done == b.done
        && (b.result ==> Entered(b.state) && z.state == Behind(a.state, b.state))
  {
    var s := RunOf(cs[0], u).state;
    SeqAtHead(cs, s, n);
    FreshSeq(cs[1..], n);
    RunFirst(cs, u, n);
    hide StepSeq, RunOf, Step, Fresh;
  }

  lemma EntersRest(cs: seq<Spec<Name>>, u: seq<Name>, n: Name)
    requires cs != [] && RunOf(cs[0], u).Accepted? && RunOf(Seq(cs[1..]), [n]).Accepted?
    requires var a := Step(cs[0], RunOf(cs[0], u).state, n); !a.result && a.done
    ensures var s := RunOf(Seq(cs[1..]), [n]).state;
      && InRest(cs, s)
      && RunOf(Seq(cs), u + [n]) == Accepted(Behind(Step(cs[0], RunOf(cs[0], u).state, n).state, s))
  {
    var rest := Seq(cs[1..]);
    Unit([n]);
    RunLess(rest, [], n);
    RunMore(rest, [], n);
    LeavesHead(cs, u, n);
    RunMore(Seq(cs), u, n);
    assert RunOf(rest, []).state == Create(rest);
    hide Step, RunOf;
  }

  // ---- choices ----

  lemma {:induction false} ChoiceTakes(cs: seq<Spec<Name>>, ss: seq<State>, i: nat, n: Name)
    requires FitAll(cs, ss) && i < |cs| && ss == CreateAll(cs)
    requires Fresh(cs[i], n).result && forall j :: 0 <= j < i ==> !Fresh(cs[j], n).result
    ensures var a := StepChoice(cs, ss, n);
      a.result && a.index == i && |a.subs| == |cs| && a.subs[i] == Fresh(cs[i], n).state
    decreases cs
  {
    if i > 0 {
      assert cs[1..][i - 1] == cs[i] && CreateAll(cs)[1..] == CreateAll(cs[1..]);
      forall j | 0 <= j < i - 1 ensures !Fresh(cs[1..][j], n).result {
        assert cs[1..][j] == cs[j + 1];
      }
      hide Fresh, Step;
      ChoiceTakes(cs[1..], ss[1..], i - 1, n);
    }
  }

  lemma {:induction false} RunChoice(cs: seq<Spec<Name>>, mixed: bool, i: nat, w: seq<Name>)
    requires i < |cs| && w != [] && RunOf(cs[i], w).Accepted?
    requires forall j :: 0 <= j < |cs| && j != i ==> !Fresh(cs[j], w[0]).result
    ensures var r := RunOf(Choice(cs, mixed), w);
      && r.Accepted? && r.state.ChoiceState? && r.state.position == At(i) && i < |r.state.subs|
      && r.state.subs[i] == RunOf(cs[i], w).state
    decreases |w|
  {
    var (u, n) := (w[..|w| - 1], w[|w| - 1]);
    LastOf(w);
    RunLess(cs[i], u, n);
    RunMore(cs[i], u, n);
    if u == [] {
      CreateAllFits(cs);
      ChoiceTakes(cs, CreateAll(cs), i, n);
    } else {
      assert u[0] == w[0];
      RunChoice(cs, mixed, i, u);
      StepChosen(cs, mixed, i, RunOf(Choice(cs, mixed), u).state, n);
    }
    RunMore(Choice(cs, mixed), u, n);
    hide RunOf, StepChoice, Fresh;
  }

  // A choice that has chosen answers what the chosen alternative answers.
  lemma StepChosen(cs: seq<Spec<Name>>, mixed: bool, i: nat, s: State, n: Name)
    requires Fits(Choice(cs, mixed), s) && s.position == At(i)
    ensures i < |cs| && i < |s.subs| && Fits(cs[i], s.subs[i])
    ensures var (a, z) := (Step(cs[i], s.subs[i], n), Step(Choice(cs, mixed), s, n));
      z.result == a.result && z.done == a.done && z.state == ChoiceState(s.subs[i := a.state], mixed, At(i))
  {
    FitAllAt(cs, s.subs, i);
  }
}
