/**
 Content models of a DTD element declaration and the language of child-name
 words each of them denotes (XML 1.0, section 3.2.1).
 */
module ContentModel {

  datatype Repetition = ZeroOrOnce | ZeroOrMore | OneOrMore

  // One constructor per `content_spec_*` class.  The names are generic so that the
  // same language definition serves plain names and names marked with a position.
  datatype Spec<N> =
    | Any
    | Empty
    | Element(name: N)
    | Repeated(sub: Spec<N>, rep: Repetition)
    | Seq(subs: seq<Spec<N>>)
    | Choice(subs: seq<Spec<N>>, mixed: bool)

  // `w` is a word of the language of `c`.
  ghost predicate Matches<N(!new)>(c: Spec<N>, w: seq<N>)
    decreases c, |w|, 0
  {
    match c
    case Any => true
    case Empty => w == []
    case Element(n) => w == [n]
    case Repeated(sub, ZeroOrOnce) => w == [] || Matches(sub, w)
    case Repeated(sub, ZeroOrMore) => MatchesStar(sub, w)
    case Repeated(sub, OneOrMore) =>
      exists k :: 0 <= k <= |w| && Matches(sub, w[..k]) && MatchesStar(sub, w[k..])
    case Seq(subs) => MatchesSeq(subs, w)
    case Choice(subs, mixed) =>
      (mixed && w == []) || exists i :: 0 <= i < |subs| && Matches(subs[i], w)
  }

  // `w` is the concatenation of any number of words of `c`.
  ghost predicate MatchesStar<N(!new)>(c: Spec<N>, w: seq<N>)
    decreases c, |w|, 1
  {
    w == [] ||
    exists k :: 0 < k <= |w| && Matches(c, w[..k]) && MatchesStar(c, w[k..])
  }

  // `w` is the concatenation of one word of each of `cs`, in order.
  ghost predicate MatchesSeq<N(!new)>(cs: seq<Spec<N>>, w: seq<N>)
    decreases cs, |w|
  {
    if cs == [] then w == []
    else exists k :: 0 <= k <= |w| && Matches(cs[0], w[..k]) && MatchesSeq(cs[1..], w[k..])
  }

  // `w` can be extended to a word of `c`.
  ghost predicate Prefix<N(!new)>(c: Spec<N>, w: seq<N>)
  {
    exists v :: Matches(c, w + v)
  }

  // A choice has an alternative unless it is mixed: the only constructor that leaves the
  // list of alternatives empty is the one for `(#PCDATA)`.
  ghost predicate WellFormed<N>(c: Spec<N>)
  {
    match c
    case Any => true
    case Empty => true
    case Element(_) => true
    case Repeated(sub, _) => WellFormed(sub)
    case Seq(subs) => forall s <- subs :: WellFormed(s)
    case Choice(subs, mixed) => (mixed || subs != []) && forall s <- subs :: WellFormed(s)
  }

  // ---- building and splitting words ----

  lemma SeqIntro<N(!new)>(cs: seq<Spec<N>>, u: seq<N>, v: seq<N>)
    requires cs != [] && Matches(cs[0], u) && MatchesSeq(cs[1..], v)
    ensures MatchesSeq(cs, u + v)
  {
    assert (u + v)[..|u|] == u && (u + v)[|u|..] == v;
  }

  lemma StarIntro<N(!new)>(c: Spec<N>, u: seq<N>, v: seq<N>)
    requires Matches(c, u) && MatchesStar(c, v)
    ensures MatchesStar(c, u + v)
  {
    if u == [] {
      assert u + v == v;
    } else {
      assert (u + v)[..|u|] == u && (u + v)[|u|..] == v;
    }
  }

  lemma StarOne<N(!new)>(c: Spec<N>, u: seq<N>)
    requires Matches(c, u)
    ensures MatchesStar(c, u)
  {
    StarIntro(c, u, []);
    assert u + [] == u;
  }

  lemma {:induction false} StarConcat<N(!new)>(c: Spec<N>, u: seq<N>, v: seq<N>)
    requires MatchesStar(c, u) && MatchesStar(c, v)
    ensures MatchesStar(c, u + v)
    decreases |u|
  {
    if u == [] {
      assert u + v == v;
    } else {
      var k :| 0 < k <= |u| && Matches(c, u[..k]) && MatchesStar(c, u[k..]);
      StarConcat(c, u[k..], v);
      StarIntro(c, u[..k], u[k..] + v);
      assert u[..k] + (u[k..] + v) == u + v;
    }
  }

  // Appending to the end of a repetition.
  lemma StarAppend<N(!new)>(c: Spec<N>, u: seq<N>, v: seq<N>)
    requires MatchesStar(c, u) && Matches(c, v)
    ensures MatchesStar(c, u + v)
  {
    StarOne(c, v);
    StarConcat(c, u, v);
  }

  lemma PlusIntro<N(!new)>(c: Spec<N>, u: seq<N>, v: seq<N>)
    requires Matches(c, u) && MatchesStar(c, v)
    ensures Matches(Repeated(c, OneOrMore), u + v)
  {
    assert (u + v)[..|u|] == u && (u + v)[|u|..] == v;
  }

  lemma PlusIsStar<N(!new)>(c: Spec<N>, w: seq<N>)
    requires Matches(Repeated(c, OneOrMore), w)
    ensures MatchesStar(c, w)
  {
    var k :| 0 <= k <= |w| && Matches(c, w[..k]) && MatchesStar(c, w[k..]);
    StarIntro(c, w[..k], w[k..]);
    assert w[..k] + w[k..] == w;
  }

  lemma PlusOne<N(!new)>(c: Spec<N>, w: seq<N>)
    requires Matches(c, w)
    ensures Matches(Repeated(c, OneOrMore), w)
  {
    PlusIntro(c, w, []);
    assert w + [] == w;
  }

  lemma PlusAppend<N(!new)>(c: Spec<N>, w: seq<N>, v: seq<N>)
    requires Matches(Repeated(c, OneOrMore), w) && Matches(c, v)
    ensures Matches(Repeated(c, OneOrMore), w + v)
  {
    var k :| 0 <= k <= |w| && Matches(c, w[..k]) && MatchesStar(c, w[k..]);
    StarAppend(c, w[k..], v);
    PlusIntro(c, w[..k], w[k..] + v);
    assert w[..k] + (w[k..] + v) == w + v;
  }

  // Every content model the parser can build has a word.
  lemma {:induction false} HasWord<N(!new)>(c: Spec<N>) returns (w: seq<N>)
    requires WellFormed(c)
    ensures Matches(c, w)
    decreases c
  {
    match c
    case Any => w := [];
    case Empty => w := [];
    case Element(n) => w := [n];
    case Repeated(sub, OneOrMore) =>
      w := HasWord(sub);
      PlusOne(sub, w);
    case Repeated(_, _) => w := [];
    case Seq(subs) => w := SeqHasWord(subs);
    case Choice(subs, mixed) =>
      if mixed {
        w := [];
      } else {
        w := HasWord(subs[0]);
      }
  }

  lemma {:induction false} SeqHasWord<N(!new)>(cs: seq<Spec<N>>) returns (w: seq<N>)
    requires forall c <- cs :: WellFormed(c)
    ensures MatchesSeq(cs, w)
    decreases cs
  {
    if cs == [] {
      w := [];
    } else {
      var u := HasWord(cs[0]);
      var v := SeqHasWord(cs[1..]);
      SeqIntro(cs, u, v);
      w := u + v;
    }
  }
}
