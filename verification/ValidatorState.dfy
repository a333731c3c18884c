/**
 The state machines behind the DTD validator, on values: one constructor per `state_*`
 class, and the functions its virtual methods compute.
 */
module ValidatorState {
  import opened ContentModel

  type Name = string

  datatype State =
    | AnyState
    | EmptyState
    | ElementState(name: Name, done: bool)
    | RepeatedState(rep: Repetition, sub: State, phase: Phase)
    | SeqState(subs: seq<State>, position: Position)
    | ChoiceState(subs: seq<State>, mixed: bool, position: Position)

  // `state_Start`, `state_Loop` / `state_FirstLoop` and `state_NextLoop`.
  datatype Phase = Start | FirstLoop | NextLoop

  // Where a sequence or a choice stands: `state_Start`, or at the sub-state with this index.
  // A sequence that has run off its end stands at the index one past its last sub-state.
  datatype Position = AtStart | At(index: nat)

  // What `allow` leaves behind and the two booleans it returns.
  datatype Answer = Answer(state: State, result: bool, done: bool)
  datatype ListAnswer = ListAnswer(subs: seq<State>, index: nat, result: bool, done: bool)

  // `content_spec_*::create_state`
  function Create(c: Spec<Name>): State
  {
    match c
    case Any => AnyState
    case Empty => EmptyState
    case Element(n) => ElementState(n, false)
    case Repeated(sub, rep) => RepeatedState(rep, Create(sub), Start)
    case Seq(subs) => SeqState(CreateAll(subs), AtStart)
    case Choice(subs, mixed) => ChoiceState(CreateAll(subs), mixed, AtStart)
  }

  function CreateAll(cs: seq<Spec<Name>>): (ss: seq<State>)
    ensures |ss| == |cs|
  {
    if cs == [] then [] else [Create(cs[0])] + CreateAll(cs[1..])
  }

  // `reset` of every class.
  function Reset(s: State): State
  {
    match s
    case AnyState => s
    case EmptyState => s
    case ElementState(n, _) => ElementState(n, false)
    case RepeatedState(rep, sub, _) => RepeatedState(rep, Reset(sub), Start)
    case SeqState(subs, _) => SeqState(ResetAll(subs), AtStart)
    case ChoiceState(subs, mixed, _) => ChoiceState(ResetAll(subs), mixed, AtStart)
  }

  function ResetAll(ss: seq<State>): (rs: seq<State>)
    ensures |rs| == |ss|
  {
    if ss == [] then [] else [Reset(ss[0])] + ResetAll(ss[1..])
  }

  // `allow_empty` of every class.
  predicate AllowEmpty(s: State)
  {
    match s
    case AnyState => true
    case EmptyState => true
    case ElementState(_, _) => false
    case RepeatedState(rep, sub, _) => rep != OneOrMore || AllowEmpty(sub)
    case SeqState(subs, _) => forall i :: 0 <= i < |subs| ==> AllowEmpty(subs[i])
    case ChoiceState(subs, mixed, _) => mixed || exists i :: 0 <= i < |subs| && AllowEmpty(subs[i])
  }

  // `s` is some state of the machine `create_state` makes for `c`, whatever has been asked of it.
  ghost predicate Fits(c: Spec<Name>, s: State)
  {
    match c
    case Any => s == AnyState
    case Empty => s == EmptyState
    case Element(n) => s.ElementState? && s.name == n
    case Repeated(sub, rep) => s.RepeatedState? && s.rep == rep && Fits(sub, s.sub)
    case Seq(subs) => s.SeqState? && FitAll(subs, s.subs) && (s.position.At? ==> s.position.index <= |subs|)
    case Choice(subs, mixed) =>
      && s.ChoiceState? && s.mixed == mixed && FitAll(subs, s.subs)
      && (s.position.At? ==> s.position.index < |subs|)
  }

  ghost predicate FitAll(cs: seq<Spec<Name>>, ss: seq<State>)
  {
    |cs| == |ss| && (cs != [] ==> Fits(cs[0], ss[0]) && FitAll(cs[1..], ss[1..]))
  }

  // `allow` of every class, for a state that fits `c`.
  function Step(c: Spec<Name>, s: State, n: Name): (a: Answer)
    requires Fits(c, s)
    ensures Fits(c, a.state)
    decreases c, 0
  {
    match c
    case Any => Answer(s, true, true)
    case Empty => Answer(s, false, true)
    case Element(name) =>
      if !s.done && name == n then Answer(ElementState(name, true), true, true)
      else Answer(s, false, s.done)
    case Repeated(sub, rep) => StepRepeated(sub, rep, s, n)
    case Seq(subs) =>
      if s.position.AtStart? then
        if subs == [] then Answer(s, false, true)
        else
          var a := StepSeq(subs, s.subs, n);
          Answer(SeqState(a.subs, At(a.index)), a.result, a.done)
      else
        var k := s.position.index;
        FitAllSplit(subs, s.subs, k);
        var a := StepSeq(subs[k..], s.subs[k..], n);
        FitAllJoin(subs, s.subs[..k], a.subs, k);
        Answer(SeqState(s.subs[..k] + a.subs, At(k + a.index)), a.result, a.done)
    case Choice(subs, mixed) =>
      if s.position.AtStart? then
        var a := StepChoice(subs, s.subs, n);
        Answer(ChoiceState(a.subs, mixed, if a.result then At(a.index) else AtStart), a.result, a.done)
      else
        var k := s.position.index;
        FitAllAt(subs, s.subs, k);
        var a := Step(subs[k], s.subs[k], n);
        FitAllUpdate(subs, s.subs, k, a.state);
        Answer(ChoiceState(s.subs[k := a.state], mixed, At(k)), a.result, a.done)
  }

  // `state_repeated_zero_or_once::allow`, `state_repeated_any::allow` and
  // `state_repeated_at_least_once::allow`
  function StepRepeated(sub: Spec<Name>, rep: Repetition, s: State, n: Name): (a: Answer)
    requires Fits(Repeated(sub, rep), s)
    ensures Fits(Repeated(sub, rep), a.state)
    decreases sub, 1
  {
    var a := Step(sub, s.sub, n);
    if s.phase == Start then
      var phase := if a.result then FirstLoop else Start;
      Answer(RepeatedState(rep, a.state, phase), a.result, a.done || (!a.result && rep != OneOrMore))
    else if rep == ZeroOrOnce || a.result || !a.done then
      Answer(RepeatedState(rep, a.state, s.phase), a.result, a.done)
    else
      ResetFits(sub, a.state);
      var b := Step(sub, Reset(a.state), n);
      var phase := if b.result && rep == OneOrMore then NextLoop else s.phase;
      var loops := rep == ZeroOrMore || s.phase == NextLoop;
      Answer(RepeatedState(rep, b.state, phase), b.result, b.done || (!b.result && loops))
  }

  // The loop of `state_seq::allow`: ask each sub-state in turn until one accepts, or
  // refuses without being done.
  function StepSeq(cs: seq<Spec<Name>>, ss: seq<State>, n: Name): (a: ListAnswer)
    requires FitAll(cs, ss)
    ensures FitAll(cs, a.subs) && |a.subs| == |cs| && a.index <= |cs|
    decreases cs
  {
    if cs == [] then ListAnswer([], 0, false, true)
    else
      var a := Step(cs[0], ss[0], n);
      if !a.result && a.done then
        var b := StepSeq(cs[1..], ss[1..], n);
        ListAnswer([a.state] + b.subs, b.index + 1, b.result, b.done)
      else
        ListAnswer([a.state] + ss[1..], 0, a.result, a.done)
  }

  // The loop of `state_choice::allow`: ask each alternative until one accepts.  The
  // flag of the last alternative asked is the one returned.
  function StepChoice(cs: seq<Spec<Name>>, ss: seq<State>, n: Name): (a: ListAnswer)
    requires FitAll(cs, ss)
    ensures FitAll(cs, a.subs) && (a.result ==> a.index < |cs|)
    decreases cs
  {
    if cs == [] then ListAnswer([], 0, false, false)
    else
      var a := Step(cs[0], ss[0], n);
      if a.result || |cs| == 1 then
        ListAnswer([a.state] + ss[1..], 0, a.result, a.done)
      else
        var b := StepChoice(cs[1..], ss[1..], n);
        ListAnswer([a.state] + b.subs, b.index + 1, b.result, b.done)
  }

  // ---- the shape of a machine never changes ----

  lemma {:induction false} FitAllAt(cs: seq<Spec<Name>>, ss: seq<State>, k: nat)
    requires FitAll(cs, ss) && k < |cs|
    ensures Fits(cs[k], ss[k])
    decreases cs
  {
    if k > 0 {
      FitAllAt(cs[1..], ss[1..], k - 1);
    }
  }

  lemma {:induction false} FitAllIntro(cs: seq<Spec<Name>>, ss: seq<State>)
    requires |cs| == |ss| && forall i :: 0 <= i < |cs| ==> Fits(cs[i], ss[i])
    ensures FitAll(cs, ss)
    decreases cs
  {
    if cs != [] {
      FitAllIntro(cs[1..], ss[1..]);
    }
  }

  lemma {:induction false} FitAllSplit(cs: seq<Spec<Name>>, ss: seq<State>, k: nat)
    requires FitAll(cs, ss) && k <= |cs|
    ensures FitAll(cs[..k], ss[..k]) && FitAll(cs[k..], ss[k..])
  {
    forall i | 0 <= i < |cs|
      ensures Fits(cs[i], ss[i])
    {
      FitAllAt(cs, ss, i);
    }
    FitAllIntro(cs[..k], ss[..k]);
    FitAllIntro(cs[k..], ss[k..]);
  }

  lemma {:induction false} FitAllJoin(cs: seq<Spec<Name>>, ss: seq<State>, ts: seq<State>, k: nat)
    requires k <= |cs| && FitAll(cs[..k], ss) && FitAll(cs[k..], ts)
    ensures FitAll(cs, ss + ts)
  {
    forall i | 0 <= i < |cs|
      ensures Fits(cs[i], (ss + ts)[i])
    {
      if i < k {
        FitAllAt(cs[..k], ss, i);
      } else {
        FitAllAt(cs[k..], ts, i - k);
      }
    }
    FitAllIntro(cs, ss + ts);
  }

  lemma {:induction false} FitAllUpdate(cs: seq<Spec<Name>>, ss: seq<State>, k: nat, t: State)
    requires FitAll(cs, ss) && k < |cs| && Fits(cs[k], t)
    ensures FitAll(cs, ss[k := t])
  {
    forall i | 0 <= i < |cs|
      ensures Fits(cs[i], ss[k := t][i])
    {
      FitAllAt(cs, ss, i);
    }
    FitAllIntro(cs, ss[k := t]);
  }

  lemma {:induction false} CreateFits(c: Spec<Name>)
    ensures Fits(c, Create(c))
    decreases c
  {
    match c
    case Repeated(sub, _) => CreateFits(sub);
    case Seq(subs) => CreateAllFits(subs);
    case Choice(subs, _) => CreateAllFits(subs);
    case _ =>
  }

  lemma {:induction false} CreateAllFits(cs: seq<Spec<Name>>)
    ensures FitAll(cs, CreateAll(cs))
    decreases cs
  {
    if cs != [] {
      CreateFits(cs[0]);
      CreateAllFits(cs[1..]);
    }
  }

  /** `reset()` undoes every history: it leaves the state that `create_state()` makes. */
  lemma {:induction false} ResetCreates(c: Spec<Name>, s: State)
    requires Fits(c, s)
    ensures Reset(s) == Create(c)
    decreases c
  {
    match c
    case Repeated(sub, _) => ResetCreates(sub, s.sub);
    case Seq(subs) => ResetAllCreates(subs, s.subs);
    case Choice(subs, _) => ResetAllCreates(subs, s.subs);
    case _ =>
  }

  lemma {:induction false} ResetAllCreates(cs: seq<Spec<Name>>, ss: seq<State>)
    requires FitAll(cs, ss)
    ensures ResetAll(ss) == CreateAll(cs)
    decreases cs
  {
    if cs != [] {
      ResetCreates(cs[0], ss[0]);
      ResetAllCreates(cs[1..], ss[1..]);
    }
  }

  lemma ResetFits(c: Spec<Name>, s: State)
    requires Fits(c, s)
    ensures Fits(c, Reset(s))
  {
    ResetCreates(c, s);
    CreateFits(c);
  }

  /** `allow_empty()` answers, in every state, whether the empty word is in the language. */
  lemma {:induction false} AllowEmptyIsNullable(c: Spec<Name>, s: State)
    requires Fits(c, s)
    ensures AllowEmpty(s) <==> Matches(c, [])
    decreases c
  {
    match c
    case Repeated(sub, OneOrMore) =>
      AllowEmptyIsNullable(sub, s.sub);
      var e: seq<Name> := [];
      assert e[..0] == [] && e[0..] == [];
    case Seq(subs) =>
      AllowEmptyIsNullableSeq(subs, s.subs);
    case Choice(subs, _) =>
      forall i | 0 <= i < |subs|
        ensures AllowEmpty(s.subs[i]) <==> Matches(subs[i], [])
      {
        FitAllAt(subs, s.subs, i);
        AllowEmptyIsNullable(subs[i], s.subs[i]);
      }
    case _ =>
  }

  lemma {:induction false} AllowEmptyIsNullableSeq(cs: seq<Spec<Name>>, ss: seq<State>)
    requires FitAll(cs, ss)
    ensures (forall i :: 0 <= i < |ss| ==> AllowEmpty(ss[i])) <==> MatchesSeq(cs, [])
    decreases cs
  {
    if cs != [] {
      AllowEmptyIsNullable(cs[0], ss[0]);
      AllowEmptyIsNullableSeq(cs[1..], ss[1..]);
      assert ss == [ss[0]] + ss[1..];
      var e: seq<Name> := [];
      assert e[..0] == [] && e[0..] == [];
      assert MatchesSeq(cs, []) <==> Matches(cs[0], []) && MatchesSeq(cs[1..], []);
      assert (forall i :: 0 <= i < |ss| ==> AllowEmpty(ss[i]))
        <==> AllowEmpty(ss[0]) && forall i :: 0 <= i < |ss[1..]| ==> AllowEmpty(ss[1..][i]);
    }
  }
}
