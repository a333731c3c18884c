/**
 Inputs on which the validator does not do what its content model says.
 */
module ValidatorFindings {
  import opened ContentModel
  import opened ValidatorState
  import opened ValidatorSoundness
  import opened Determinism
  import opened ValidatorCompleteness
  import opened ValidatorRuns
  import opened ValidatorNecessity
  import opened ValidatorExactness
  import opened Sequences

  const A: Spec<Name> := Element("a")
  const B: Spec<Name> := Element("b")
  const C: Spec<Name> := Element("c")

  // `(a+,b)`
  const PLUS_PAIR: Spec<Name> := Seq([Repeated(A, OneOrMore), B])

  // `((a?|b),c)`
  const OPTION_PAIR: Spec<Name> := Seq([Choice([Repeated(A, ZeroOrOnce), B], false), C])

  // `(a,b)`
  const PAIR: Spec<Name> := Seq([A, B])

  lemma MatchesPair(c: Spec<Name>, d: Spec<Name>, u: seq<Name>, v: seq<Name>)
    requires Matches(c, u) && Matches(d, v)
    ensures Matches(Seq([c, d]), u + v)
  {
    var cs := [c, d];
    assert cs[1..] == [d] && MatchesSeq([d][1..], []);
    SeqIntro([d], v, []);
    Unit(v);
    SeqIntro(cs, u, v);
  }

  lemma OneName(n: Name, m: Name)
    requires n != m
    ensures Matches(Element(n), [n]) && RunOf(Element(n), [n]) == Accepted(ElementState(n, true))
    ensures Step(Element(n), ElementState(n, true), m) == Answer(ElementState(n, true), false, true)
  {
    var w := [n];
    assert w[..0] == [];
    assert RunOf(Element(n), []) == Accepted(ElementState(n, false));
  }

  /** After one round of a `+` the name behind it is refused: `a b` for `(a+,b)`. */
  lemma PlusDoesNotYield()
    ensures Matches(PLUS_PAIR, ["a", "b"]) && RunOf(PLUS_PAIR, ["a", "b"]) == Refused
  {
    var (cs, sub) := (PLUS_PAIR.subs, Repeated(A, OneOrMore));
    PlusOne(A, ["a"]);
    OneName("a", "b");
    OneName("b", "a");
    MatchesPair(sub, B, ["a"], ["b"]);
    assert ["a"] + ["b"] == ["a", "b"];
    RunRepeated(A, OneOrMore, ["a"]);
    PlusStops(RunOf(sub, ["a"]).state);
    hide Step, RunOf, Matches;
    HeadStops(cs, ["a"], "b");
    RunMore(PLUS_PAIR, ["a"], "b");
  }

  lemma PlusStops(s: State)
    requires s == RepeatedState(OneOrMore, ElementState("a", true), FirstLoop)
    ensures Stops(Repeated(A, OneOrMore), s, "b")
  {
    OneName("a", "b");
    assert Fits(A, s.sub) && Fits(A, ElementState("a", false));
    assert Step(A, ElementState("a", false), "b") == Answer(ElementState("a", false), false, false);
    assert Step(Repeated(A, OneOrMore), s, "b") == StepRepeated(A, OneOrMore, s, "b");
  }

  /** A choice says what its last alternative says: `c` for `((a?|b),c)`. */
  lemma ChoiceDoesNotYield()
    ensures Matches(OPTION_PAIR, ["c"]) && RunOf(OPTION_PAIR, ["c"]) == Refused
  {
    var (cs, alternatives) := (OPTION_PAIR.subs, [Repeated(A, ZeroOrOnce), B]);
    var choice := Choice(alternatives, false);
    assert Matches(alternatives[0], []) && Matches(choice, []);
    OneName("c", "a");
    MatchesPair(choice, C, [], ["c"]);
    Unit(["c"]);
    NullableIff(choice);
    NullableIff(B);
    assert !YieldsFresh(choice);
    NotFirst(alternatives);
    StopsFresh(choice, "c");
    hide Step, Matches;
    HeadStops(cs, [], "c");
    RunMore(OPTION_PAIR, [], "c");
  }

  lemma NotFirst(alternatives: seq<Spec<Name>>)
    requires alternatives == [Repeated(A, ZeroOrOnce), B]
    ensures !Prefix(Choice(alternatives, false), ["c"])
  {
    forall v: seq<Name> ensures !Matches(Choice(alternatives, false), ["c"] + v) {
      assert (["c"] + v)[0] == "c";
      forall i | 0 <= i < 2 ensures !Matches(alternatives[i], ["c"] + v) {
      }
    }
  }

  /** "Done" after an accepted name does not mean that the content is complete: `a` for `(a,b)`. */
  lemma DoneTooSoon()
    ensures RunOf(PAIR, ["a"]).Accepted? && Fresh(PAIR, "a").done && !Matches(PAIR, ["a"])
  {
    var cs := PAIR.subs;
    OneName("a", "b");
    RunHead(cs, ["a"]);
    Unit(["a"]);
    RunLess(PAIR, [], "a");
    CreateFits(PAIR);
    AcceptedIsDone(PAIR, Create(PAIR), "a");
    PairLength(["a"]);
  }

  lemma PairLength(w: seq<Name>)
    ensures Matches(PAIR, w) ==> |w| == 2
  {
    if Matches(PAIR, w) {
      var j := SplitWord(PAIR.subs, w);
      var k := SplitWord(PAIR.subs[1..], w[j..]);
      assert w[..j] == ["a"] && w[j..][..k] == ["b"] && w[j..][k..] == [];
    }
  }
}
