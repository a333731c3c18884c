/**
 Laws of sequences.
 */
module Sequences {

  lemma Associate<T>(a: seq<T>, b: seq<T>, c: seq<T>)
    ensures (a + b) + c == a + (b + c)
  {
  }

  lemma Unit<T>(s: seq<T>)
    ensures [] + s == s && s + [] == s
  {
  }

  // The first element of a sequence and the rest.
  lemma FirstOf<T>(s: seq<T>, more: seq<T>)
    requires s != []
    ensures s == [s[0]] + s[1..]
    ensures (s + more)[0] == s[0] && (s + more)[1..] == s[1..] + more
    ensures s + more == [s[0]] + (s[1..] + more)
  {
  }

  // The last element of a sequence and the part before it.
  lemma LastOf<T>(s: seq<T>)
    requires s != []
    ensures s == s[..|s| - 1] + [s[|s| - 1]]
  {
  }

  // One element more.
  lemma Longer<T>(s: seq<T>, i: nat)
    requires i < |s|
    ensures s[..i + 1] == s[..i] + [s[i]] && s[i..] == [s[i]] + s[i + 1..]
    ensures s[i..][0] == s[i] && s[i..][1..] == s[i + 1..]
  {
  }

  lemma Ends<T>(s: seq<T>)
    ensures s[0..] == s && s[..|s|] == s && s[..0] == [] && s[|s|..] == []
  {
  }

  // Two parts are found again in the whole.
  lemma Parts<T>(a: seq<T>, b: seq<T>)
    ensures (a + b)[..|a|] == a && (a + b)[|a|..] == b
  {
  }
}
