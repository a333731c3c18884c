/**
 The validator as the parser uses it: a tree of state objects that `allow` and `reset`
 update in place.
 */
module Validator {
  import opened Options
  import opened ContentModel
  import opened ValidatorState
  import opened ValidatorSoundness
  import opened ValidatorCompleteness

  function Parts(c: Spec<Name>): seq<Spec<Name>>
  {
    match c
    case Repeated(sub, _) => [sub]
    case Seq(subs) => subs
    case Choice(subs, _) => subs
    case _ => []
  }

  // No two of these trees share an object.
  ghost predicate Apart(ss: seq<StateObject>)
  {
    forall i, j :: 0 <= i < |ss| && 0 <= j < |ss| && i != j ==> ss[i].Repr !! ss[j].Repr
  }

  // An object of one of the classes derived from `state_base`; `spec` says which one.
  class StateObject {
    const spec: Spec<Name>
    const subs: seq<StateObject>  // m_sub of a repetition, m_states of a sequence or choice
    ghost const Repr: set<object>

    var done: bool                // m_done of an element
    var phase: Phase              // m_state of a repetition
    var position: Position        // m_state with m_next of a sequence, or with m_sub of a choice

    // The tree has the shape of its content model and shares no objects.  This never changes.
    ghost predicate Shaped()
      decreases spec
    {
      && this in Repr
      && |subs| == |Parts(spec)| && Apart(subs)
      && forall i :: 0 <= i < |subs| ==>
        && subs[i].Repr <= Repr && this !in subs[i].Repr
        && subs[i].spec == Parts(spec)[i] && Parts(spec)[i] < spec && subs[i].Shaped()
    }

    // The state of the whole tree as a value.
    ghost function Abs(): State
      requires Shaped()
      reads Repr
      decreases spec, 1
    {
      match spec
      case Any => AnyState
      case Empty => EmptyState
      case Element(n) => ElementState(n, done)
      case Repeated(_, rep) => RepeatedState(rep, subs[0].Abs(), phase)
      case Seq(_) => SeqState(PartsAbs(), position)
      case Choice(_, mixed) => ChoiceState(PartsAbs(), mixed, position)
    }

    ghost function PartsAbs(): (ss: seq<State>)
      requires Shaped()
      reads Repr - {this}
      ensures |ss| == |subs| && forall i :: 0 <= i < |ss| ==> ss[i] == subs[i].Abs()
      decreases spec, 0
    {
      seq(|subs|, i requires 0 <= i < |subs| && Shaped() reads Repr - {this} => subs[i].Abs())
    }

    ghost predicate Valid()
      reads Repr
    {
      Shaped() && Fits(spec, Abs())
    }

    // The constructors: no name has been seen.
    constructor (c: Spec<Name>, subs: seq<StateObject>, ghost footprint: set<object>)
      ensures spec == c && this.subs == subs
      ensures !done && phase == Start && position == AtStart
      ensures Repr == {this} + footprint
    {
      spec, this.subs := c, subs;
      done, phase, position := false, Start, AtStart;
      Repr := {this} + footprint;
    }

    // `reset` of every class.
    method Reset()
      requires Shaped()
      modifies Repr
      ensures Abs() == Create(spec)
      decreases spec, 1
    {
      ResetParts();
      done, phase, position := false, Start, AtStart;
      FreshAbs(this);
    }

    method ResetParts()
      requires Shaped()
      modifies Repr - {this}
      ensures forall j :: 0 <= j < |subs| ==> subs[j].Abs() == Create(Parts(spec)[j])
      decreases spec, 0
    {
      var i := 0;
      while i < |subs|
        invariant 0 <= i <= |subs|
        invariant forall j :: 0 <= j < i ==> subs[j].Abs() == Create(Parts(spec)[j])
      {
        subs[i].Reset();
        i := i + 1;
      }
    }

    // `allow` of every class.  `w` is what the object has accepted since it was created or
    // last reset; the parser stops at the first name that is refused.
    method Allow(n: Name, ghost w: seq<Name>) returns (result: bool, finished: bool)
      requires Valid() && After(spec, Abs(), w)
      modifies Repr
      ensures Valid() && Answer(Abs(), result, finished) == Step(spec, old(Abs()), n)
      decreases spec, 3
    {
      match spec
      case Any => result, finished := true, true;
      case Empty => result, finished := false, true;
      case Element(name) =>
        result := false;
        if !done && name == n {
          done, result := true, true;
        }
        finished := done;
      case Repeated(sub, rep) =>
        CreateAfter(sub);
        ghost var k := if phase == Start then 0 else RoundStart(sub, rep, Abs(), w);
        result, finished := AllowRepeated(n, w[k..]);
      case Seq(_) => result, finished := AllowSeq(n, w);
      case Choice(_, _) => result, finished := AllowChoice(n, w);
    }

    method AllowRepeated(n: Name, ghost w: seq<Name>) returns (result: bool, finished: bool)
      requires Valid() && spec.Repeated? && After(spec.sub, Abs().sub, w)
      modifies Repr
      ensures Valid() && Answer(Abs(), result, finished) == Step(spec, old(Abs()), n)
      decreases spec, 0
    {
      var sub, rep := subs[0], spec.rep;
      result, finished := sub.Allow(n, w);
      if phase == Start {
        if result {
          phase := FirstLoop;
        } else if rep != OneOrMore {
          finished := true;
        }
      } else if rep != ZeroOrOnce && !result && finished {
        result, finished := sub.Restart(n);
        if rep == OneOrMore && result {
          phase := NextLoop;
        } else if !result && (rep == ZeroOrMore || phase == NextLoop) {
          finished := true;
        }
      }
    }

    // The next round of a repetition.
    method Restart(n: Name) returns (result: bool, finished: bool)
      requires Valid()
      modifies Repr
      ensures Valid() && Fits(spec, ValidatorState.Reset(old(Abs())))
      ensures Answer(Abs(), result, finished) == Step(spec, ValidatorState.Reset(old(Abs())), n)
      decreases spec, 4
    {
      ResetCreates(spec, Abs());
      CreateAfter(spec);
      Reset();
      result, finished := Allow(n, []);
    }

    method AllowSeq(n: Name, ghost w: seq<Name>) returns (result: bool, finished: bool)
      requires Valid() && spec.Seq? && After(spec, Abs(), w)
      modifies Repr
      ensures Valid() && Answer(Abs(), result, finished) == Step(spec, old(Abs()), n)
      decreases spec, 2
    {
      if |subs| == 0 {
        result, finished := false, true;
      } else {
        ghost var s := Abs();
        var k := if position.AtStart? then 0 else position.index;
        ghost var u := CurrentPart(spec.subs, s.subs, k, w, position);
        position := At(k);
        FitEach(spec.subs, s.subs);
        ghost var ts;
        result, finished, ts := AskPart(k, n, s.subs, u);
        AskFirst(spec.subs, s.subs, ts, k, n, result, finished);
        result, finished, ts := AskOn(n, k, s.subs, ts, result, finished);
        SeqAnswer(spec.subs, s, ts, k, position.index, n, result, finished);
      }
    }

    // Ask the parts behind the current one until one accepts, or refuses without being done.
    method AskOn(n: Name, ghost k: nat, ghost ss: seq<State>, ghost first: seq<State>, result0: bool, finished0: bool)
      returns (result: bool, finished: bool, ghost ts: seq<State>)
      requires this in Repr && Shaped() && spec.Seq? && PartsAbs() == first && position == At(k)
        && k < |subs| == |spec.subs| == |ss|
      requires AskedInTurn(spec.subs, ss, first, k, k, n, result0, finished0)
      requires forall j :: k < j < |ss| ==> ss[j] == Create(spec.subs[j])
      modifies Repr
      ensures position.At? && PartsAbs() == ts
      ensures AskedInTurn(spec.subs, ss, ts, k, position.index, n, result, finished)
      ensures position.index < |subs| ==> result || !finished
      decreases spec, 1
    {
      hide *;
      result, finished, ts := result0, finished0, first;
      while !result && finished
        invariant position.At? && k <= position.index < |subs| && PartsAbs() == ts
        invariant AskedInTurn(spec.subs, ss, ts, k, position.index, n, result, finished)
        decreases |subs| - position.index
      {
        hide *;
        position := At(position.index + 1);
        if position.index == |subs| {
          AskEnd(spec.subs, ss, ts, k, n);
          break;
        }
        result, finished, ts := AskNextPart(position.index, n, k, ss, ts);
      }
    }

    method AskNextPart(i: nat, n: Name, ghost k: nat, ghost ss: seq<State>, ghost before: seq<State>)
      returns (result: bool, finished: bool, ghost ts: seq<State>)
      requires Shaped() && spec.Seq? && PartsAbs() == before && k < i < |subs| == |spec.subs| == |ss|
      requires AskedInTurn(spec.subs, ss, before, k, i - 1, n, false, true) && ss[i] == Create(spec.subs[i])
      modifies Repr - {this}
      ensures PartsAbs() == ts && AskedInTurn(spec.subs, ss, ts, k, i, n, result, finished)
      decreases spec, 0
    {
      AskBeyond(spec.subs, ss, before, k, i, n);
      CreateAfter(spec.subs[i]);
      result, finished, ts := AskPart(i, n, before, []);
      AskNext(spec.subs, ss, before, ts, k, i, n, result, finished);
    }

    // Ask one part.
    method AskPart(i: nat, n: Name, ghost ss: seq<State>, ghost w: seq<Name>)
      returns (result: bool, finished: bool, ghost ts: seq<State>)
      requires Shaped() && PartsAbs() == ss && i < |subs| && Parts(spec)[i] < spec
      requires Fits(Parts(spec)[i], ss[i]) && After(Parts(spec)[i], ss[i], w)
      modifies Repr - {this}
      ensures PartsAbs() == ts == ss[i := ts[i]]
      ensures Answer(ts[i], result, finished) == Step(Parts(spec)[i], ss[i], n)
      decreases Parts(spec)[i], 4
    {
      result, finished := subs[i].Allow(n, w);
      ts := ss[i := subs[i].Abs()];
    }

    method AllowChoice(n: Name, ghost w: seq<Name>) returns (result: bool, finished: bool)
      requires Valid() && spec.Choice? && After(spec, Abs(), w)
      modifies Repr
      ensures Valid() && Answer(Abs(), result, finished) == Step(spec, old(Abs()), n)
      decreases spec, 0
    {
      ghost var s := Abs();
      ghost var ts := s.subs;
      if position.AtStart? {
        result, finished, ts := AskAlternatives(n, ts);
        ChoiceAnswer(spec, s, ts, position, n, result, finished);
      } else {
        FitEach(spec.subs, ts);
        var k := position.index;
        result, finished := subs[k].Allow(n, w);
        assert PartsAbs() == ts[k := subs[k].Abs()];
        assert Abs() == Step(spec, s, n).state;
      }
    }

    // Ask the alternatives in turn until one accepts, and choose that one.
    method AskAlternatives(n: Name, ghost ss: seq<State>) returns (result: bool, finished: bool, ghost ts: seq<State>)
      requires Shaped() && spec.Choice? && position == AtStart && PartsAbs() == ss == CreateAll(spec.subs)
      modifies Repr
      ensures PartsAbs() == ts
      ensures position.At? <==> result
      ensures AskedAll(spec.subs, ss, ts, if position.At? then position.index else |subs|, n, result, finished)
      decreases spec, 0, 0
    {
      result, finished, ts := false, false, ss;
      CreateAllFits(spec.subs);
      FitEach(spec.subs, ss);
      CreateAllAt(spec.subs);
      var i := 0;
      while i < |subs|
        invariant 0 <= i <= |subs| && PartsAbs() == ts && position == AtStart
        invariant !result && AskedAll(spec.subs, ss, ts, i, n, result, finished)
        invariant forall j :: i <= j < |subs| ==> ts[j] == ss[j]
      {
        CreateAfter(spec.subs[i]);
        hide AskedAll;
        ghost var before := ts;
        result, finished, ts := AskPart(i, n, ts, []);
        AskAnother(spec.subs, ss, before, ts, i, n, result, finished);
        if result {
          position := At(i);
          break;
        }
        i := i + 1;
      }
    }
  }

  // The alternatives before the `i`-th have refused `n`, and the last one asked gave the answer.
  ghost predicate AskedAll(cs: seq<Spec<Name>>, ss: seq<State>, ts: seq<State>, i: nat, n: Name, result: bool,
      done: bool)
  {
    && |ss| == |ts| == |cs| && i <= |cs|
    && (forall j :: 0 <= j < |cs| ==> Fits(cs[j], ss[j]))
    && (forall j :: 0 <= j < i ==> Step(cs[j], ss[j], n).state == ts[j] && !Step(cs[j], ss[j], n).result)
    && (if result then i < |cs| && Step(cs[i], ss[i], n) == Answer(ts[i], true, done)
        else done == (i > 0 && Step(cs[i - 1], ss[i - 1], n).done))
    && (forall j :: i <= j < |cs| && (result ==> i < j) ==> ts[j] == ss[j])
  }

  lemma AskAnother(cs: seq<Spec<Name>>, ss: seq<State>, ts: seq<State>, us: seq<State>, i: nat, n: Name,
                   result: bool, done: bool)
    requires i < |cs| && exists d :: AskedAll(cs, ss, ts, i, n, false, d)
    requires |us| == |ts| && us == ts[i := us[i]] && Step(cs[i], ss[i], n) == Answer(us[i], result, done)
    ensures AskedAll(cs, ss, us, if result then i else i + 1, n, result, done)
  {
  }

  lemma {:induction false} StepChoiceIs(cs: seq<Spec<Name>>, ss: seq<State>, ts: seq<State>, i: nat, n: Name,
                                        result: bool, done: bool)
    requires AskedAll(cs, ss, ts, i, n, result, done) && (i == |cs| || result)
    ensures FitAll(cs, ss)
    ensures var a := StepChoice(cs, ss, n);
      a.subs == ts && a.result == result && a.done == done && (result ==> a.index == i)
    decreases cs
  {
    FitAllIntro(cs, ss);
    if cs != [] {
      assert ts == [ts[0]] + ts[1..];
      if i == 0 || |cs| == 1 {
        assert ts[1..] == ss[1..];
      } else {
        AskedRest(cs, ss, ts, i, n, result, done);
        StepChoiceIs(cs[1..], ss[1..], ts[1..], i - 1, n, result, done);
      }
    }
  }

  lemma AskedRest(cs: seq<Spec<Name>>, ss: seq<State>, ts: seq<State>, i: nat, n: Name, result: bool, done: bool)
    requires |cs| > 1 && i > 0 && AskedAll(cs, ss, ts, i, n, result, done) && (i == |cs| || result)
    ensures AskedAll(cs[1..], ss[1..], ts[1..], i - 1, n, result, done)
    ensures Fits(cs[0], ss[0]) && Step(cs[0], ss[0], n).state == ts[0] && !Step(cs[0], ss[0], n).result
  {
  }

  // `state_choice::allow`, from the questions it has asked.
  lemma ChoiceAnswer(c: Spec<Name>, s: State, ts: seq<State>, position: Position, n: Name, result: bool, done: bool)
    requires c.Choice? && Fits(c, s) && s.position == AtStart && (position.At? <==> result)
    requires AskedAll(c.subs, s.subs, ts, if position.At? then position.index else |c.subs|, n, result, done)
    ensures Step(c, s, n) == Answer(ChoiceState(ts, c.mixed, position), result, done)
  {
    StepChoiceIs(c.subs, s.subs, ts, if position.At? then position.index else |c.subs|, n, result, done);
  }

  // `state_seq::allow`, from the questions it has asked.
  lemma SeqAnswer(cs: seq<Spec<Name>>, s: State, ts: seq<State>, k: nat, i: nat, n: Name, result: bool, done: bool)
    requires Fits(Seq(cs), s) && cs != [] && k == (if s.position.AtStart? then 0 else s.position.index)
    requires AskedInTurn(cs, s.subs, ts, k, i, n, result, done) && (i < |cs| ==> result || !done)
    ensures Step(Seq(cs), s, n) == Answer(SeqState(ts, At(i)), result, done)
  {
    hide *;
    FitsSeq(cs, s);
    StepSeqUnfold(cs, s, k, n);
    AskedShape(cs, s.subs, ts, k, i, n, result, done);
    StepSeqIs(cs, s.subs, ts, k, i, n, result, done);
    SpliceHead(s.subs, ts, k);
  }

  lemma FitsSeq(cs: seq<Spec<Name>>, s: State)
    requires Fits(Seq(cs), s)
    ensures s.SeqState? && FitAll(cs, s.subs) && |s.subs| == |cs|
    ensures s.position.At? ==> s.position.index <= |cs|
  {
  }

  lemma AskedShape(cs: seq<Spec<Name>>, ss: seq<State>, ts: seq<State>, k: nat, i: nat, n: Name, result: bool,
      done: bool)
    requires AskedInTurn(cs, ss, ts, k, i, n, result, done)
    ensures |ss| == |ts| == |cs| && k <= i <= |cs| && forall j :: 0 <= j < k ==> ts[j] == ss[j]
  {
  }

  lemma StepSeqUnfold(cs: seq<Spec<Name>>, s: State, k: nat, n: Name)
    requires Fits(Seq(cs), s) && cs != [] && k == (if s.position.AtStart? then 0 else s.position.index)
    ensures k <= |cs| == |s.subs| && FitAll(cs[k..], s.subs[k..])
    ensures var a := StepSeq(cs[k..], s.subs[k..], n);
      Step(Seq(cs), s, n) == Answer(SeqState(s.subs[..k] + a.subs, At(k + a.index)), a.result, a.done)
  {
    FitAllSplit(cs, s.subs, k);
    if s.position.AtStart? {
      assert cs[0..] == cs && s.subs[0..] == s.subs;
      var a := StepSeq(cs, s.subs, n);
      assert s.subs[..0] + a.subs == a.subs;
    }
  }

  lemma SpliceHead<T>(s: seq<T>, t: seq<T>, k: nat)
    requires k <= |s| == |t| && forall j :: 0 <= j < k ==> t[j] == s[j]
    ensures s[..k] + t[k..] == t
    ensures k == 0 ==> s[k..] == s && t[k..] == t
  {
  }

  lemma FreshAbs(s: StateObject)
    requires s.Shaped() && !s.done && s.phase == Start && s.position == AtStart
    requires forall j :: 0 <= j < |s.subs| ==> s.subs[j].Abs() == Create(Parts(s.spec)[j])
    ensures s.Abs() == Create(s.spec)
  {
    CreateAllAt(Parts(s.spec));
    if s.spec.Seq? || s.spec.Choice? {
      assert s.PartsAbs() == CreateAll(Parts(s.spec));
    }
  }

  // `content_spec_*::create_state`
  method CreateState(c: Spec<Name>) returns (s: StateObject)
    ensures s.Shaped() && fresh(s.Repr) && s.spec == c && s.Abs() == Create(c)
    decreases c, 1
  {
    var subs, footprint := CreateParts(c);
    s := new StateObject(c, subs, footprint);
    FreshAbs(s);
  }

  lemma ApartAppend(ss: seq<StateObject>, s: StateObject, footprint: set<object>)
    requires Apart(ss) && s.Repr !! footprint && forall j :: 0 <= j < |ss| ==> ss[j].Repr <= footprint
    ensures Apart(ss + [s])
  {
  }

  method CreateParts(c: Spec<Name>) returns (ss: seq<StateObject>, ghost footprint: set<object>)
    ensures fresh(footprint) && |ss| == |Parts(c)| && Apart(ss)
    ensures forall j :: 0 <= j < |ss| ==>
      && ss[j].Repr <= footprint && ss[j].Shaped() && ss[j].spec == Parts(c)[j] && Parts(c)[j] < c
      && ss[j].Abs() == Create(Parts(c)[j])
    decreases c, 0
  {
    var cs := Parts(c);
    ss, footprint := [], {};
    var i := 0;
    while i < |cs|
      invariant 0 <= i == |ss| <= |cs| && fresh(footprint) && Apart(ss)
      invariant forall j :: 0 <= j < i ==>
        && ss[j].Repr <= footprint && ss[j].Shaped() && ss[j].spec == cs[j] && cs[j] < c
        && ss[j].Abs() == Create(cs[j])
    {
      var s := CreateState(cs[i]);
      ApartAppend(ss, s, footprint);
      ss, footprint := ss + [s], footprint + s.Repr;
      i := i + 1;
    }
  }

  // The sub-state a sequence is about to ask has accepted what belongs to it, and the ones
  // behind it have not been asked.
  lemma {:induction false} CurrentPart(cs: seq<Spec<Name>>, ss: seq<State>, k: nat, w: seq<Name>, position: Position)
    returns (u: seq<Name>)
    requires FitAll(cs, ss) && k < |cs|
    requires if position == AtStart then k == 0 && ss == CreateAll(cs) else AfterSeq(cs, ss, k, w)
    ensures Fits(cs[k], ss[k]) && After(cs[k], ss[k], u)
    ensures forall j :: k < j < |cs| ==> ss[j] == Create(cs[j])
    decreases cs
  {
    FitAllAt(cs, ss, k);
    if position == AtStart {
      CreateAllAt(cs);
      CreateAfter(cs[0]);
      u := [];
    } else if k == 0 {
      CreateAllAt(cs[1..]);
      assert forall j :: 0 < j < |cs| ==> ss[j] == ss[1..][j - 1] && cs[j] == cs[1..][j - 1];
      u := w;
    } else {
      var h :| 0 <= h <= |w| && Matches(cs[0], w[..h]) && AfterSeq(cs[1..], ss[1..], k - 1, w[h..]);
      u := CurrentPart(cs[1..], ss[1..], k - 1, w[h..], position);
      assert forall j :: 0 < j < |cs| ==> ss[j] == ss[1..][j - 1] && cs[j] == cs[1..][j - 1];
    }
  }

  lemma FitEach(cs: seq<Spec<Name>>, ss: seq<State>)
    requires FitAll(cs, ss)
    ensures forall j :: 0 <= j < |cs| ==> Fits(cs[j], ss[j])
  {
    forall j | 0 <= j < |cs|
      ensures Fits(cs[j], ss[j])
    {
      FitAllAt(cs, ss, j);
    }
  }

  // The sub-states from the `k`-th to the one before the `i`-th have refused `n` and said
  // "done"; the `i`-th, if there is one, has given the answer.
  ghost predicate AskedInTurn(cs: seq<Spec<Name>>, ss: seq<State>, ts: seq<State>, k: nat, i: nat, n: Name,
                              result: bool, done: bool)
  {
    && |ss| == |ts| == |cs| && k <= i <= |cs|
    && (forall j :: 0 <= j < |cs| ==> Fits(cs[j], ss[j]))
    && (forall j :: k <= j < i ==> Step(cs[j], ss[j], n) == Answer(ts[j], false, true))
    && (if i < |cs| then Step(cs[i], ss[i], n) == Answer(ts[i], result, done) else !result && done)
    && (forall j :: 0 <= j < |cs| && (j < k || i < j) ==> ts[j] == ss[j])
  }

  lemma AskFirst(cs: seq<Spec<Name>>, ss: seq<State>, ts: seq<State>, k: nat, n: Name, result: bool, done: bool)
    requires |ss| == |cs| && (forall j :: 0 <= j < |cs| ==> Fits(cs[j], ss[j]))
    requires k < |cs| && |ts| == |ss| && ts == ss[k := ts[k]] && Step(cs[k], ss[k], n) == Answer(ts[k], result, done)
    ensures AskedInTurn(cs, ss, ts, k, k, n, result, done)
  {
  }

  // The part at `i - 1` was done without accepting: go on to the `i`-th, if there is one.
  lemma AskBeyond(cs: seq<Spec<Name>>, ss: seq<State>, ts: seq<State>, k: nat, i: nat, n: Name)
    requires 0 < i < |cs| && AskedInTurn(cs, ss, ts, k, i - 1, n, false, true)
    ensures i < |ts| && ts[i] == ss[i] && Fits(cs[i], ss[i])
  {
  }

  lemma AskEnd(cs: seq<Spec<Name>>, ss: seq<State>, ts: seq<State>, k: nat, n: Name)
    requires cs != [] && AskedInTurn(cs, ss, ts, k, |cs| - 1, n, false, true)
    ensures AskedInTurn(cs, ss, ts, k, |cs|, n, false, true)
  {
  }

  lemma AskNext(cs: seq<Spec<Name>>, ss: seq<State>, ts: seq<State>, us: seq<State>, k: nat, i: nat, n: Name,
                result: bool, done: bool)
    requires 0 < i < |cs| && AskedInTurn(cs, ss, ts, k, i - 1, n, false, true)
    requires |us| == |ts| && us == ts[i := us[i]] && Step(cs[i], ss[i], n) == Answer(us[i], result, done)
    ensures AskedInTurn(cs, ss, us, k, i, n, result, done)
  {
  }

  // Such a round of questions is what `state_seq::allow` does when it stops there.
  lemma {:induction false} StepSeqIs(cs: seq<Spec<Name>>, ss: seq<State>, ts: seq<State>, k: nat, i: nat, n: Name,
                                     result: bool, done: bool)
    requires AskedInTurn(cs, ss, ts, k, i, n, result, done)
    requires i < |cs| ==> result || !done
    ensures FitAll(cs[k..], ss[k..])
    ensures StepSeq(cs[k..], ss[k..], n) == ListAnswer(ts[k..], i - k, result, done)
    decreases i - k
  {
    FitAllIntro(cs, ss);
    FitAllSplit(cs, ss, k);
    if k < |cs| {
      TailSlices(cs, k);
      TailSlices(ss, k);
      TailSlices(ts, k);
      if k < i {
        StepSeqLater(cs, ss, ts, k, i, n, result, done);
      } else {
        assert ts[k + 1..] == ss[k + 1..];
      }
    }
  }

  lemma TailSlices<T>(s: seq<T>, k: nat)
    requires k < |s|
    ensures s[k..][0] == s[k] && s[k..][1..] == s[k + 1..] && s[k..] == [s[k]] + s[k + 1..]
  {
  }

  lemma {:induction false} StepSeqLater(cs: seq<Spec<Name>>, ss: seq<State>, ts: seq<State>, k: nat, i: nat, n: Name,
                                     result: bool, done: bool)
    requires AskedInTurn(cs, ss, ts, k, i, n, result, done) && k < i
    requires i < |cs| ==> result || !done
    ensures FitAll(cs[k + 1..], ss[k + 1..])
    ensures StepSeq(cs[k + 1..], ss[k + 1..], n) == ListAnswer(ts[k + 1..], i - k - 1, result, done)
    decreases i - k, 0
  {
    var ss' := ss[k := ts[k]];
    FitAllIntro(cs, ss);
    FitAllSplit(cs, ss, k + 1);
    StepSeqIs(cs, ss', ts, k + 1, i, n, result, done);
  }

  // Where the round of a repetition that is in progress began.
  ghost function RoundStart(sub: Spec<Name>, rep: Repetition, s: State, w: seq<Name>): (k: nat)
    requires Fits(Repeated(sub, rep), s) && After(Repeated(sub, rep), s, w) && s.phase != Start
    ensures k < |w| && After(sub, s.sub, w[k..])
  {
    var k :| 0 <= k < |w| && After(sub, s.sub, w[k..]) && Looped(sub, rep, s.phase, w[..k]);
    k
  }

  lemma {:induction false} CreateAllAt(cs: seq<Spec<Name>>)
    ensures forall i :: 0 <= i < |cs| ==> CreateAll(cs)[i] == Create(cs[i])
    decreases cs
  {
    if cs != [] {
      CreateAllAt(cs[1..]);
      assert forall i :: 0 < i < |cs| ==> CreateAll(cs)[i] == CreateAll(cs[1..])[i - 1] && cs[i] == cs[1..][i - 1];
    }
  }

  // The object the parser asks about the children of one element.
  class Validator {
    const spec: Spec<Name>
    const state: StateObject
    var done: bool
    ghost var accepted: seq<Name>  // the names allowed so far

    ghost predicate Valid()
      reads this, state.Repr
    {
      && this !in state.Repr && state.Valid() && state.spec == spec
      && RunOf(spec, accepted) == Accepted(state.Abs())
      && done == (accepted != [] || Matches(spec, []))
    }

    // An element without a declaration may have any content.
    constructor (allowed: Option<Spec<Name>>)
      ensures Valid() && fresh(state.Repr) && accepted == []
      ensures spec == if allowed.Some? then allowed.value else Any
    {
      var c := if allowed.Some? then allowed.value else Any;
      var s := CreateState(c);
      spec, state, accepted := c, s, [];
      done := AllowEmpty(Create(c));
      CreateFits(c);
      AllowEmptyIsNullable(c, Create(c));
    }

    /**
     The names allowed are a prefix of a word of the content model; a name refused with
     `done` set comes after a complete word.
     */
    method Allow(n: Name) returns (result: bool)
      requires Valid() && WellFormed(spec)
      modifies this, state.Repr
      ensures result <==> RunOf(spec, old(accepted) + [n]).Accepted?
      ensures result ==> Valid() && accepted == old(accepted) + [n] && Prefix(spec, accepted)
      ensures Dependable(spec) && Prefix(spec, old(accepted) + [n]) ==> result
      ensures !result ==> accepted == old(accepted) && (done ==> Matches(spec, accepted))
    {
      RunAfter(spec, accepted);
      Verdict(spec, accepted, n);
      Expected(spec, accepted + [n]);
      hide Dependable, StateObject.Valid, StateObject.Abs, Fits, After, Step, Matches, WellFormed, RunOf, Prefix;
      result, done := state.Allow(n, accepted);
      if result {
        accepted := accepted + [n];
      }
    }

    method Done() returns (d: bool)
      requires Valid()
      ensures d <==> accepted != [] || Matches(spec, [])
    {
      d := done;
    }
  }

  lemma Expected(c: Spec<Name>, w: seq<Name>)
    ensures Dependable(c) && Prefix(c, w) ==> RunOf(c, w).Accepted?
  {
    hide Prefix;
    if Dependable(c) {
      AcceptsExactlyPrefixes(c, w);
    }
  }

  // What the answer to the name after an accepted run means.
  lemma Verdict(c: Spec<Name>, w: seq<Name>, n: Name)
    requires WellFormed(c) && RunOf(c, w).Accepted?
    ensures var a := Step(c, RunOf(c, w).state, n);
      && RunOf(c, w + [n]) == (if a.result then Accepted(a.state) else Refused)
      && (a.result ==> a.done && Prefix(c, w + [n]))
      && (!a.result && a.done ==> Matches(c, w))
  {
    var s := RunOf(c, w).state;
    assert (w + [n])[..|w|] == w;
    RunSound(c, w);
    if Step(c, s, n).result {
      AcceptedIsDone(c, s, n);
      RunSound(c, w + [n]);
    }
  }
}
