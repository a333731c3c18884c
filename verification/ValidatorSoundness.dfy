/**
 Soundness of the DTD validator: the names it accepts spell a prefix of a word of the
 content model, and the answer (false, true) is given only after a full word.
 */
module ValidatorSoundness {
  import opened ContentModel
  import opened ValidatorState

  // `s` can be the state of a machine for `c` that has accepted exactly the names `w`
  // since it was created or last reset.
  ghost predicate After(c: Spec<Name>, s: State, w: seq<Name>)
    requires Fits(c, s)
    decreases c, 0
  {
    match c
    case Any => true
    case Empty => w == []
    case Element(n) => w == if s.done then [n] else []
    case Repeated(sub, rep) =>
      if s.phase == Start then w == [] && s.sub == Create(sub)
      else exists k :: 0 <= k < |w| && After(sub, s.sub, w[k..]) && Looped(sub, rep, s.phase, w[..k])
    case Seq(subs) =>
      if s.position == AtStart then w == [] && s.subs == CreateAll(subs)
      else AfterSeq(subs, s.subs, s.position.index, w)
    case Choice(subs, _) =>
      if s.position == AtStart then w == [] && s.subs == CreateAll(subs)
      else
        var k := s.position.index;
        FitAllAt(subs, s.subs, k);
        w != [] && After(subs[k], s.subs[k], w)
  }

  // The names `u` that a repetition has read in its completed rounds.
  ghost predicate Looped(sub: Spec<Name>, rep: Repetition, phase: Phase, u: seq<Name>)
  {
    match (rep, phase)
    case (ZeroOrMore, FirstLoop) => MatchesStar(sub, u)
    case (OneOrMore, NextLoop) => Matches(Repeated(sub, OneOrMore), u)
    case (_, FirstLoop) => u == []
    case (_, _) => false
  }

  // The same for the list of sub-states of a sequence that stands at index `k`.
  ghost predicate AfterSeq(cs: seq<Spec<Name>>, ss: seq<State>, k: nat, w: seq<Name>)
    requires FitAll(cs, ss)
    decreases cs
  {
    && k < |cs|
    && if k == 0 then
         w != [] && After(cs[0], ss[0], w) && ss[1..] == CreateAll(cs[1..])
       else
         exists j :: 0 <= j <= |w| && Matches(cs[0], w[..j]) && AfterSeq(cs[1..], ss[1..], k - 1, w[j..])
  }

  lemma CreateAfter(c: Spec<Name>)
    ensures Fits(c, Create(c)) && After(c, Create(c), [])
  {
    CreateFits(c);
  }

  /** One step: an accepted name extends the word, (false, true) says the word is complete. */
  lemma {:induction false} StepSound(c: Spec<Name>, s: State, w: seq<Name>, n: Name)
    requires Fits(c, s) && After(c, s, w)
    ensures var a := Step(c, s, n);
      && (a.result ==> After(c, a.state, w + [n]))
      && (!a.result && a.done ==> Matches(c, w))
    decreases c, 0
  {
    match c
    case Any =>
    case Empty =>
    case Element(_) =>
    case Repeated(sub, rep) =>
      RepeatedSound(sub, rep, s, w, n);
    case Seq(subs) =>
      SeqStepSound(subs, s, w, n);
    case Choice(subs, mixed) =>
      ChoiceStepSound(subs, mixed, s, w, n);
  }

  lemma {:induction false} SeqStepSound(cs: seq<Spec<Name>>, s: State, w: seq<Name>, n: Name)
    requires Fits(Seq(cs), s) && After(Seq(cs), s, w)
    ensures var a := Step(Seq(cs), s, n);
      && (a.result ==> After(Seq(cs), a.state, w + [n]))
      && (!a.result && a.done ==> Matches(Seq(cs), w))
    decreases cs, 2
  {
    if s.position == AtStart {
      if cs != [] {
        SeqSoundFresh(cs, n);
        assert w + [n] == [n];
      }
    } else {
      var k := s.position.index;
      FitAllSplit(cs, s.subs, k);
      SeqSound(cs, s.subs, k, w, n, StepSeq(cs[k..], s.subs[k..], n));
    }
  }

  lemma {:induction false} ChoiceStepSound(cs: seq<Spec<Name>>, mixed: bool, s: State, w: seq<Name>, n: Name)
    requires Fits(Choice(cs, mixed), s) && After(Choice(cs, mixed), s, w)
    ensures var a := Step(Choice(cs, mixed), s, n);
      && (a.result ==> After(Choice(cs, mixed), a.state, w + [n]))
      && (!a.result && a.done ==> Matches(Choice(cs, mixed), w))
    decreases cs, 2
  {
    if s.position == AtStart {
      ChoiceSound(cs, n);
      assert w + [n] == [n];
    } else {
      var k := s.position.index;
      FitAllAt(cs, s.subs, k);
      StepSound(cs[k], s.subs[k], w, n);
    }
  }

  lemma {:induction false} RepeatedSound(sub: Spec<Name>, rep: Repetition, s: State, w: seq<Name>, n: Name)
    requires Fits(Repeated(sub, rep), s) && After(Repeated(sub, rep), s, w)
    ensures var a := StepRepeated(sub, rep, s, n);
      && (a.result ==> After(Repeated(sub, rep), a.state, w + [n]))
      && (!a.result && a.done ==> Matches(Repeated(sub, rep), w))
    decreases sub, 3
  {
    if s.phase == Start {
      RepeatedSoundStart(sub, rep, s, n);
      assert w + [n] == [n];
    } else {
      var k :| 0 <= k < |w| && After(sub, s.sub, w[k..]) && Looped(sub, rep, s.phase, w[..k]);
      hide Matches, After, Step, Fits, Looped;
      RepeatedSoundLater(sub, rep, s, w, k, n);
    }
  }

  lemma {:induction false} RepeatedSoundStart(sub: Spec<Name>, rep: Repetition, s: State, n: Name)
    requires Fits(Repeated(sub, rep), s) && s.phase == Start && s.sub == Create(sub)
    ensures var a := StepRepeated(sub, rep, s, n);
      && (a.result ==> After(Repeated(sub, rep), a.state, [n]))
      && (!a.result && a.done ==> Matches(Repeated(sub, rep), []))
    decreases sub, 2
  {
    Restart(sub, s.sub, n);
    var z := StepRepeated(sub, rep, s, n);
    if z.result {
      assert [n][0..] == [n] && [n][..0] == [];
    } else if z.done && rep == OneOrMore {
      PlusOne(sub, []);
    }
  }

  lemma {:induction false} RepeatedSoundLater(sub: Spec<Name>, rep: Repetition, s: State, w: seq<Name>, k: nat, n: Name)
    requires Fits(Repeated(sub, rep), s) && s.phase != Start && k < |w|
    requires After(sub, s.sub, w[k..]) && Looped(sub, rep, s.phase, w[..k])
    ensures var a := StepRepeated(sub, rep, s, n);
      && (a.result ==> After(Repeated(sub, rep), a.state, w + [n]))
      && (!a.result && a.done ==> Matches(Repeated(sub, rep), w))
    decreases sub, 2
  {
    StepSound(sub, s.sub, w[k..], n);
    var a := Step(sub, s.sub, n);
    var z := StepRepeated(sub, rep, s, n);
    hide Matches, After, Step, Looped;
    if a.result {
      assert w[k..] + [n] == (w + [n])[k..] && (w + [n])[..k] == w[..k];
      InLaterRound(sub, rep, z.state, w + [n], k);
    } else if a.done {
      Rounds(sub, rep, s.phase, w, k);
      if rep != ZeroOrOnce {
        Restart(sub, a.state, n);
        if z.result {
          assert (w + [n])[|w|..] == [n] && (w + [n])[..|w|] == w;
          InLaterRound(sub, rep, z.state, w + [n], |w|);
        }
      }
    }
  }

  lemma InLaterRound(sub: Spec<Name>, rep: Repetition, s: State, w: seq<Name>, k: nat)
    requires Fits(Repeated(sub, rep), s) && s.phase != Start && k < |w|
    requires After(sub, s.sub, w[k..]) && Looped(sub, rep, s.phase, w[..k])
    ensures After(Repeated(sub, rep), s, w)
  {
  }

  // A round ends: the names read so far are a whole number of rounds.
  lemma Rounds(sub: Spec<Name>, rep: Repetition, phase: Phase, w: seq<Name>, k: nat)
    requires k <= |w| && Looped(sub, rep, phase, w[..k]) && Matches(sub, w[k..])
    ensures Matches(Repeated(sub, rep), w)
    ensures rep == OneOrMore ==> Looped(sub, rep, NextLoop, w)
    ensures rep == ZeroOrMore ==> Looped(sub, rep, phase, w)
  {
    assert w[..k] + w[k..] == w;
    match rep
    case ZeroOrOnce =>
      assert w[k..] == w;
    case ZeroOrMore =>
      StarAppend(sub, w[..k], w[k..]);
    case OneOrMore =>
      if phase == FirstLoop {
        assert w[k..] == w;
        PlusOne(sub, w);
      } else {
        PlusAppend(sub, w[..k], w[k..]);
      }
  }

  // What a repetition learns from its sub-state after resetting it.
  lemma {:induction false} Restart(sub: Spec<Name>, t: State, n: Name)
    requires Fits(sub, t)
    ensures Fits(sub, Reset(t)) && Reset(t) == Create(sub)
    ensures var b := Step(sub, Reset(t), n); b.result ==> After(sub, b.state, [n])
    ensures var b := Step(sub, Reset(t), n); !b.result && b.done ==> Matches(sub, [])
    decreases sub, 1
  {
    ResetCreates(sub, t);
    CreateAfter(sub);
    StepSound(sub, Create(sub), [], n);
    assert [] + [n] == [n];
  }

  // A sequence none of whose sub-states has been asked yet.
  lemma {:induction false} SeqSoundFresh(cs: seq<Spec<Name>>, n: Name)
    ensures FitAll(cs, CreateAll(cs))
    ensures var a := StepSeq(cs, CreateAll(cs), n);
      && (a.result ==> AfterSeq(cs, a.subs, a.index, [n]))
      && (!a.result && a.done ==> MatchesSeq(cs, []))
    decreases cs, 0
  {
    CreateAllFits(cs);
    if cs != [] {
      Restart(cs[0], Create(cs[0]), n);
      CreateAfter(cs[0]);
      StepSound(cs[0], Create(cs[0]), [], n);
      assert [] + [n] == [n];
      var a := Step(cs[0], Create(cs[0]), n);
      if !a.result && a.done {
        SeqSoundFresh(cs[1..], n);
        var z := StepSeq(cs, CreateAll(cs), n);
        var b := StepSeq(cs[1..], CreateAll(cs[1..]), n);
        assert CreateAll(cs)[1..] == CreateAll(cs[1..]);
        assert z.subs[1..] == b.subs;
        assert [n][..0] == [] && [n][0..] == [n];
        if b.done && !b.result {
          var e: seq<Name> := [];
          SeqIntro(cs, e, e);
          assert e + e == e;
        }
      }
    }
  }

  // A sequence that stands at its first sub-state.
  lemma {:induction false} SeqSoundFirst(cs: seq<Spec<Name>>, ss: seq<State>, w: seq<Name>, n: Name)
    requires FitAll(cs, ss) && AfterSeq(cs, ss, 0, w)
    ensures var a := StepSeq(cs, ss, n);
      && (a.result ==> AfterSeq(cs, a.subs, a.index, w + [n]))
      && (!a.result && a.done ==> MatchesSeq(cs, w))
    decreases cs, 0
  {
    StepSound(cs[0], ss[0], w, n);
    var a := StepSeq(cs, ss, n);
    var b := Step(cs[0], ss[0], n);
    if !b.result && b.done {
      SeqSoundFresh(cs[1..], n);
      var d := StepSeq(cs[1..], ss[1..], n);
      assert a.subs[1..] == d.subs;
      assert (w + [n])[..|w|] == w && (w + [n])[|w|..] == [n];
      if d.done && !d.result {
        SeqIntro(cs, w, []);
        assert w + [] == w;
      }
    }
  }

  lemma {:induction false} SeqSound(cs: seq<Spec<Name>>, ss: seq<State>, k: nat, w: seq<Name>, n: Name, a: ListAnswer)
    requires FitAll(cs, ss) && k < |cs| == |ss| && AfterSeq(cs, ss, k, w)
    requires FitAll(cs[k..], ss[k..]) && a == StepSeq(cs[k..], ss[k..], n)
    ensures FitAll(cs, ss[..k] + a.subs)
    ensures a.result ==> AfterSeq(cs, ss[..k] + a.subs, k + a.index, w + [n])
    ensures !a.result && a.done ==> MatchesSeq(cs, w)
    decreases cs, 1
  {
    hide *;
    var ts := ss[..k] + a.subs;
    if k == 0 {
      assert cs[0..] == cs && ss[0..] == ss && ts == a.subs;
      SeqSoundFirst(cs, ss, w, n);
    } else {
      var j := LeaveHead(cs, ss, k, w);
      assert cs[1..][k - 1..] == cs[k..] && ss[1..][k - 1..] == ss[k..];
      SeqSound(cs[1..], ss[1..], k - 1, w[j..], n, a);
      TailOfSplice(ss, a.subs, k);
      SeqSoundLater(cs, ts, k + a.index, w, j, n, a);
    }
  }

  // A sequence that stands beyond its head has read a word of the head.
  lemma LeaveHead(cs: seq<Spec<Name>>, ss: seq<State>, k: nat, w: seq<Name>) returns (j: nat)
    requires FitAll(cs, ss) && k > 0 && AfterSeq(cs, ss, k, w)
    ensures k < |cs| == |ss| && Fits(cs[0], ss[0]) && FitAll(cs[1..], ss[1..])
    ensures j <= |w| && Matches(cs[0], w[..j]) && AfterSeq(cs[1..], ss[1..], k - 1, w[j..])
  {
    j :| 0 <= j <= |w| && Matches(cs[0], w[..j]) && AfterSeq(cs[1..], ss[1..], k - 1, w[j..]);
  }

  lemma TailOfSplice<T>(s: seq<T>, t: seq<T>, k: nat)
    requires 0 < k <= |s|
    ensures (s[..k] + t)[0] == s[0] && (s[..k] + t)[1..] == s[1..][..k - 1] + t
  {
    assert s[..k][1..] == s[1..][..k - 1];
  }

  lemma SeqSoundLater(cs: seq<Spec<Name>>, ts: seq<State>, k: nat, w: seq<Name>, j: nat, n: Name, a: ListAnswer)
    requires |cs| == |ts| && cs != [] && Fits(cs[0], ts[0]) && FitAll(cs[1..], ts[1..])
    requires k > 0 && j <= |w| && Matches(cs[0], w[..j])
    requires a.result ==> AfterSeq(cs[1..], ts[1..], k - 1, w[j..] + [n])
    requires !a.result && a.done ==> MatchesSeq(cs[1..], w[j..])
    ensures FitAll(cs, ts)
    ensures a.result ==> AfterSeq(cs, ts, k, w + [n])
    ensures !a.result && a.done ==> MatchesSeq(cs, w)
  {
    assert (w + [n])[..j] == w[..j] && (w + [n])[j..] == w[j..] + [n];
    if !a.result && a.done {
      SeqIntro(cs, w[..j], w[j..]);
      assert w[..j] + w[j..] == w;
    }
  }

  lemma {:induction false} ChoiceSound(cs: seq<Spec<Name>>, n: Name)
    ensures FitAll(cs, CreateAll(cs))
    ensures var a := StepChoice(cs, CreateAll(cs), n);
      && (a.result ==> a.index < |cs| && Fits(cs[a.index], a.subs[a.index])
                       && After(cs[a.index], a.subs[a.index], [n]))
      && (!a.result && a.done ==> cs != [] && Matches(cs[|cs| - 1], []))
    decreases cs, 0
  {
    CreateAllFits(cs);
    if cs != [] {
      CreateAfter(cs[0]);
      StepSound(cs[0], Create(cs[0]), [], n);
      assert [] + [n] == [n];
      var a := Step(cs[0], Create(cs[0]), n);
      if !a.result && |cs| > 1 {
        assert CreateAll(cs)[1..] == CreateAll(cs[1..]);
        ChoiceSound(cs[1..], n);
      }
    }
  }

  /** What has been accepted can always be completed to a word of the content model. */
  lemma {:induction false} AfterIsPrefix(c: Spec<Name>, s: State, w: seq<Name>)
    requires WellFormed(c) && Fits(c, s) && After(c, s, w)
    ensures Prefix(c, w)
    decreases c, 0
  {
    match c
    case Any =>
      assert Matches(c, w + []);
    case Empty =>
      assert Matches(c, w + []);
    case Element(n) =>
      assert Matches(c, w + if s.done then [] else [n]);
    case Repeated(sub, rep) =>
      if s.phase == Start {
        var v := HasWord(c);
        assert [] + v == v;
      } else {
        var k :| 0 <= k < |w| && After(sub, s.sub, w[k..]) && Looped(sub, rep, s.phase, w[..k]);
        AfterIsPrefix(sub, s.sub, w[k..]);
        RoundIsPrefix(sub, rep, s.phase, w, k);
      }
    case Seq(subs) =>
      if s.position == AtStart {
        var v := SeqHasWord(subs);
        assert [] + v == v;
      } else {
        AfterSeqIsPrefix(subs, s.subs, s.position.index, w);
        var v :| MatchesSeq(subs, w + v);
        assert Matches(c, w + v);
      }
    case Choice(subs, _) =>
      if s.position == AtStart {
        var v := HasWord(c);
        assert [] + v == v;
      } else {
        var k := s.position.index;
        FitAllAt(subs, s.subs, k);
        AfterIsPrefix(subs[k], s.subs[k], w);
        var v :| Matches(subs[k], w + v);
        assert Matches(c, w + v);
      }
  }

  lemma RoundIsPrefix(sub: Spec<Name>, rep: Repetition, phase: Phase, w: seq<Name>, k: nat)
    requires k <= |w| && Prefix(sub, w[k..]) && Looped(sub, rep, phase, w[..k])
    ensures Prefix(Repeated(sub, rep), w)
  {
    var v :| Matches(sub, w[k..] + v);
    assert (w + v)[k..] == w[k..] + v && (w + v)[..k] == w[..k];
    Rounds(sub, rep, phase, w + v, k);
  }

  lemma {:induction false} AfterSeqIsPrefix(cs: seq<Spec<Name>>, ss: seq<State>, k: nat, w: seq<Name>)
    requires (forall c <- cs :: WellFormed(c)) && FitAll(cs, ss) && AfterSeq(cs, ss, k, w)
    ensures exists v :: MatchesSeq(cs, w + v)
    decreases cs
  {
    if k == 0 {
      AfterIsPrefix(cs[0], ss[0], w);
      var v :| Matches(cs[0], w + v);
      var v' := SeqHasWord(cs[1..]);
      SeqIntro(cs, w + v, v');
      assert w + v + v' == w + (v + v');
    } else {
      var j :| 0 <= j <= |w| && Matches(cs[0], w[..j]) && AfterSeq(cs[1..], ss[1..], k - 1, w[j..]);
      AfterSeqIsPrefix(cs[1..], ss[1..], k - 1, w[j..]);
      var v :| MatchesSeq(cs[1..], w[j..] + v);
      SeqIntro(cs, w[..j], w[j..] + v);
      assert w[..j] + (w[j..] + v) == w + v;
    }
  }

  /** An accepted name is always answered with (true, true), complete content or not. */
  lemma {:induction false} AcceptedIsDone(c: Spec<Name>, s: State, n: Name)
    requires Fits(c, s) && Step(c, s, n).result
    ensures Step(c, s, n).done
    decreases c
  {
    match c
    case Repeated(sub, rep) =>
      var a := Step(sub, s.sub, n);
      if a.result {
        AcceptedIsDone(sub, s.sub, n);
      } else if s.phase != Start && rep != ZeroOrOnce && a.done {
        ResetFits(sub, a.state);
        AcceptedIsDone(sub, Reset(a.state), n);
      }
    case Seq(subs) =>
      if s.position.AtStart? {
        AcceptedIsDoneSeq(subs, s.subs, n);
      } else {
        var k := s.position.index;
        FitAllSplit(subs, s.subs, k);
        AcceptedIsDoneSeq(subs[k..], s.subs[k..], n);
      }
    case Choice(subs, _) =>
      if s.position.AtStart? {
        AcceptedIsDoneChoice(subs, s.subs, n);
      } else {
        FitAllAt(subs, s.subs, s.position.index);
        AcceptedIsDone(subs[s.position.index], s.subs[s.position.index], n);
      }
    case _ =>
  }

  lemma {:induction false} AcceptedIsDoneSeq(cs: seq<Spec<Name>>, ss: seq<State>, n: Name)
    requires FitAll(cs, ss)
    ensures StepSeq(cs, ss, n).result ==> StepSeq(cs, ss, n).done
    decreases cs
  {
    if cs != [] {
      if Step(cs[0], ss[0], n).result {
        AcceptedIsDone(cs[0], ss[0], n);
      }
      AcceptedIsDoneSeq(cs[1..], ss[1..], n);
    }
  }

  lemma {:induction false} AcceptedIsDoneChoice(cs: seq<Spec<Name>>, ss: seq<State>, n: Name)
    requires FitAll(cs, ss)
    ensures StepChoice(cs, ss, n).result ==> StepChoice(cs, ss, n).done
    decreases cs
  {
    if cs != [] {
      if Step(cs[0], ss[0], n).result {
        AcceptedIsDone(cs[0], ss[0], n);
      }
      AcceptedIsDoneChoice(cs[1..], ss[1..], n);
    }
  }

  // ---- whole runs ----

  // The run of a fresh machine over the names `w`: its state if it accepts them all.
  datatype Run = Refused | Accepted(state: State)

  function RunOf(c: Spec<Name>, w: seq<Name>): (r: Run)
    ensures r.Accepted? ==> Fits(c, r.state)
  {
    if w == [] then
      CreateFits(c);
      Accepted(Create(c))
    else
      var r := RunOf(c, w[..|w| - 1]);
      if r.Refused? then Refused
      else
        var a := Step(c, r.state, w[|w| - 1]);
        if a.result then Accepted(a.state) else Refused
  }

  lemma {:induction false} RunAfter(c: Spec<Name>, w: seq<Name>)
    requires RunOf(c, w).Accepted?
    ensures After(c, RunOf(c, w).state, w)
  {
    if w == [] {
      CreateAfter(c);
    } else {
      var u := w[..|w| - 1];
      RunAfter(c, u);
      StepSound(c, RunOf(c, u).state, u, w[|w| - 1]);
      assert u + [w[|w| - 1]] == w;
    }
  }

  /**
   Soundness over every run: the names a run accepts are a prefix of a word of the
   content model, and whatever name makes it answer (false, true) comes after a full word.
   */
  lemma RunSound(c: Spec<Name>, w: seq<Name>)
    requires WellFormed(c) && RunOf(c, w).Accepted?
    ensures Prefix(c, w)
    ensures forall n :: var a := Step(c, RunOf(c, w).state, n); !a.result && a.done ==> Matches(c, w)
  {
    RunAfter(c, w);
    var s := RunOf(c, w).state;
    AfterIsPrefix(c, s, w);
    forall n | !Step(c, s, n).result && Step(c, s, n).done
      ensures Matches(c, w)
    {
      StepSound(c, s, w, n);
    }
  }
}
