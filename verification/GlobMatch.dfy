/**
 Matching a name against a pattern with `*`, `**` and `?`.
 */
module GlobMatch {
  import opened Utf8
  import opened Sequences

  const STAR: byte := '*' as int
  const MARK: byte := '?' as int
  const SLASH: byte := '/' as int
  const BACKSLASH: byte := '\\' as int

  // `tolower` in the C locale.
  function Lower(ch: byte): byte
  {
    if 'A' as int <= ch <= 'Z' as int then ch + 32 else ch
  }

  // A character of the pattern that stands for itself; the two separators are the same.
  predicate Same(op: byte, ch: byte)
  {
    (ch == SLASH && op == BACKSLASH) || (ch == BACKSLASH && op == SLASH) || Lower(ch) == Lower(op)
  }

  // A name without separators, which a star at the end of the pattern stands for.
  predicate OneName(n: seq<byte>)
  {
    forall i :: 0 <= i < |n| ==> n[i] != SLASH && n[i] != BACKSLASH
  }

  predicate TwoStars(p: seq<byte>)
  {
    |p| > 1 && p[0] == STAR && p[1] == STAR
  }

  /**
   What patterns mean when `left` is zero: `*` stands for a run without `/`, `**` for any run, and
   `**` with a slash also for nothing.  When `left` is one the pattern behind a star finds at least
   one character left.
   */
  predicate Matches(p: seq<byte>, n: seq<byte>, left: nat)
    decreases |p|
  {
    if p == [] then n == []
    else if TwoStars(p) then
      |p| == 2
      || (p[2] == SLASH && Matches(p[3..], n, left))
      || exists k | 0 <= k <= |n| - left :: Matches(p[2..], n[k..], left)
    else if p[0] == STAR then
      if |p| == 1 then OneName(n)
      else exists k | 0 <= k <= |n| - left :: SLASH !in n[..k] && Matches(p[1..], n[k..], left)
    else n != [] && (p[0] == MARK || Same(p[0], n[0])) && Matches(p[1..], n[1..], left)
  }

  // ---- the loops ----

  method Match(pattern: seq<byte>, name: seq<byte>) returns (result: bool)
    ensures result == Matches(pattern, name, 1)
    decreases |pattern|
  {
    var i, j := 0, 0;
    Ends(pattern);
    Ends(name);
    while i < |pattern| && pattern[i] != STAR && pattern[i] != MARK
      invariant i <= |pattern| && j <= |name|
      invariant Matches(pattern, name, 1) == Matches(pattern[i..], name[j..], 1)
    {
      OneCharacter(pattern, name, i, j);
      hide *;
      if j < |name| && Same(pattern[i], name[j]) {
        i, j := i + 1, j + 1;
      } else {
        return false;
      }
    }
    var p, n := pattern[i..], name[j..];
    if p == [] {
      return n == [];
    } else if p[0] == MARK {
      if n == [] {
        return false;
      }
      result := Match(p[1..], n[1..]);
    } else {
      hide *;
      result := MatchStar(p, n);
    }
  }

  lemma OneCharacter(p: seq<byte>, n: seq<byte>, i: nat, j: nat)
    requires i < |p| && p[i] != STAR && p[i] != MARK && j <= |n|
    ensures Matches(p[i..], n[j..], 1)
            == (j < |n| && Same(p[i], n[j]) && Matches(p[i + 1..], n[j + 1..], 1))
  {
    Longer(p, i);
    if j < |n| {
      Longer(n, j);
    }
    hide Same;
  }

  // The case of a star.
  method MatchStar(p: seq<byte>, n: seq<byte>) returns (result: bool)
    requires p != [] && p[0] == STAR
    ensures result == Matches(p, n, 1)
    decreases |p|, 1
  {
    if |p| > 2 && p[1] == STAR && p[2] == SLASH {
      result := Match(p[3..], n);
      if result {
        return;
      }
    }
    if |p| == 2 && p[1] == STAR {
      return true;
    }
    if |p| == 1 {
      var j := 0;
      while j < |n|
        invariant j <= |n| && forall i :: 0 <= i < j ==> n[i] != SLASH && n[i] != BACKSLASH
      {
        if n[j] == SLASH || n[j] == BACKSLASH {
          return false;
        }
        j := j + 1;
      }
      return true;
    }
    if p[1] == STAR {
      result := MatchRun(p[2..], n);
    } else {
      result := MatchRunOfName(p[1..], n);
    }
  }

  // The loop for `**` before other characters.
  method MatchRun(q: seq<byte>, n: seq<byte>) returns (result: bool)
    ensures result == exists k | 0 <= k <= |n| - 1 :: Matches(q, n[k..], 1)
    decreases |q| + 1, 0
  {
    hide *;
    var j := 0;
    while j < |n|
      invariant j <= |n| && forall k :: 0 <= k < j ==> !Matches(q, n[k..], 1)
    {
      hide *;
      result := Match(q, n[j..]);
      if result {
        return;
      }
      j := j + 1;
    }
    return false;
  }

  // The loop for `*` before other characters.
  method MatchRunOfName(q: seq<byte>, n: seq<byte>) returns (result: bool)
    ensures result == exists k | 0 <= k <= |n| - 1 :: SLASH !in n[..k] && Matches(q, n[k..], 1)
    decreases |q| + 1, 0
  {
    hide *;
    var j := 0;
    while j < |n|
      invariant j <= |n| && forall k :: 0 <= k < j ==> !Matches(q, n[k..], 1)
      invariant SLASH !in n[..j]
    {
      hide *;
      result := Match(q, n[j..]);
      if result {
        return;
      }
      if n[j] == SLASH {
        assert forall k :: j < k <= |n| ==> n[..k][j] == SLASH;
        return false;
      }
      j := j + 1;
    }
    return false;
  }

  // ---- where the code and the meaning agree ----

  // A pattern that stands for the empty name.
  predicate Empty(p: seq<byte>)
    decreases |p|
  {
    p == [] || p == [STAR]
    || (TwoStars(p) && (|p| == 2 || Empty(p[2..]) || (p[2] == SLASH && Empty(p[3..]))))
  }

  // Somewhere two stars stand before something that may stand for nothing, as in `***`.
  predicate Stalls(p: seq<byte>)
    decreases |p|
  {
    p != []
    && if TwoStars(p) then (|p| > 2 && Empty(p[2..])) || Stalls(p[2..]) else Stalls(p[1..])
  }

  lemma {:induction false} EmptyIs(p: seq<byte>)
    ensures Empty(p) <==> Matches(p, [], 0)
    decreases |p|
  {
    var none: seq<byte> := [];
    assert none[0..] == none;
    if |p| > 2 && TwoStars(p) {
      EmptyIs(p[2..]);
      EmptyIs(p[3..]);
      assert Matches(p[2..], none, 0) ==> Matches(p[2..], none[0..], 0);
    } else if |p| > 1 && p[0] == STAR && p[1] != STAR {
      assert !Matches(p[1..], [], 0);
      assert !Empty(p);
    }
  }

  lemma {:induction false} Agree(p: seq<byte>, n: seq<byte>)
    requires !Stalls(p)
    ensures Matches(p, n, 1) <==> Matches(p, n, 0)
    decreases |p|
  {
    if TwoStars(p) && |p| > 2 {
      EmptyIs(p[2..]);
      forall k | 0 <= k <= |n| ensures Matches(p[2..], n[k..], 1) <==> Matches(p[2..], n[k..], 0) {
        Agree(p[2..], n[k..]);
      }
      if p[2] == SLASH {
        assert p[2..][1..] == p[3..];
        Agree(p[3..], n);
      }
    } else if |p| > 1 && p[0] == STAR && p[1] != STAR {
      forall k | 0 <= k <= |n| ensures Matches(p[1..], n[k..], 1) <==> Matches(p[1..], n[k..], 0) {
        Agree(p[1..], n[k..]);
      }
      assert !Matches(p[1..], [], 0);
    } else if p != [] && p[0] != STAR && n != [] {
      Agree(p[1..], n[1..]);
    }
  }

  // The length of the shortest name that a pattern stands for, and such a name.
  function Least(p: seq<byte>): nat
    decreases |p|
  {
    if p == [] then 0
    else if TwoStars(p) then Least(if |p| > 2 && p[2] == SLASH then p[3..] else p[2..])
    else if p[0] == STAR then Least(p[1..])
    else 1 + Least(p[1..])
  }

  function Shortest(p: seq<byte>): (n: seq<byte>)
    ensures |n| == Least(p)
    decreases |p|
  {
    if p == [] then []
    else if TwoStars(p) then Shortest(if |p| > 2 && p[2] == SLASH then p[3..] else p[2..])
    else if p[0] == STAR then Shortest(p[1..])
    else [p[0]] + Shortest(p[1..])
  }

  lemma {:induction false} ShortestMatches(p: seq<byte>)
    ensures Matches(p, Shortest(p), 0)
    decreases |p|
  {
    var n := Shortest(p);
    assert n[0..] == n;
    if p == [] || p == [STAR] {
    } else if TwoStars(p) {
      ShortestMatches(if |p| > 2 && p[2] == SLASH then p[3..] else p[2..]);
      assert |p| > 2 && p[2] != SLASH ==> Matches(p[2..], n[0..], 0);
    } else if p[0] == STAR {
      ShortestMatches(p[1..]);
      assert SLASH !in n[..0] && Matches(p[1..], n[0..], 0);
    } else {
      ShortestMatches(p[1..]);
      assert n[1..] == Shortest(p[1..]);
    }
  }

  lemma {:induction false} EmptyLeast(p: seq<byte>)
    requires Empty(p)
    ensures Least(p) == 0
    decreases |p|
  {
    EmptyIs(p);
    if TwoStars(p) && |p| > 2 {
      if p[2] == SLASH {
        assert !Empty(p[2..]);
        EmptyLeast(p[3..]);
      } else {
        EmptyLeast(p[2..]);
      }
    }
  }

  // Whatever matches is as long as the shortest name, and longer where the code stalls.
  lemma {:induction false} AtLeast(p: seq<byte>, n: seq<byte>)
    requires Matches(p, n, 1)
    ensures |n| >= Least(p) + if Stalls(p) then 1 else 0
    decreases |p|
  {
    if p == [] || p == [STAR] {
    } else if TwoStars(p) {
      if |p| > 2 {
        assert p[2] == SLASH ==> p[2..][1..] == p[3..] && !Empty(p[2..]);
        if p[2] == SLASH && Matches(p[3..], n, 1) {
          AtLeast(p[3..], n);
        } else {
          var k :| 0 <= k <= |n| - 1 && Matches(p[2..], n[k..], 1);
          AtLeast(p[2..], n[k..]);
          if Empty(p[2..]) {
            EmptyLeast(p[2..]);
          }
        }
      }
    } else if p[0] == STAR {
      var k :| 0 <= k <= |n| - 1 && SLASH !in n[..k] && Matches(p[1..], n[k..], 1);
      AtLeast(p[1..], n[k..]);
    } else {
      AtLeast(p[1..], n[1..]);
    }
  }

  /** The code decides what the pattern means, for every name, unless the pattern stalls. */
  lemma DecidesMeaning(p: seq<byte>)
    ensures (forall n :: Matches(p, n, 1) <==> Matches(p, n, 0)) <==> !Stalls(p)
  {
    hide Matches;
    if Stalls(p) {
      var n := Shortest(p);
      ShortestMatches(p);
      if Matches(p, n, 1) {
        AtLeast(p, n);
      }
      assert Matches(p, n, 0) && !Matches(p, n, 1);
    } else {
      forall n ensures Matches(p, n, 1) <==> Matches(p, n, 0) {
        Agree(p, n);
      }
    }
  }

  /** Three stars do not stand for nothing, though two stars and one star do. */
  lemma ThreeStars()
    ensures Matches([STAR], [], 1) && Matches([STAR, STAR], [], 1) && !Matches([STAR, STAR, STAR], [], 1)
    ensures Matches([STAR, STAR, STAR], [], 0)
  {
    var p, none: seq<byte> := [STAR, STAR, STAR], [];
    assert p[2..] == [STAR] && none[0..] == none;
    assert Matches(p[2..], none[0..], 0);
  }

  // ---- the meaning, character by character ----

  // The same character, the same letter in the other case, or the other separator.
  predicate Alike(c: byte, d: byte)
  {
    c == d || (c == 47 && d == 92) || (c == 92 && d == 47)
    || (65 <= c <= 90 && d == c + 32) || (97 <= c <= 122 && d == c - 32)
  }

  /**
   A star at the end stands for a name without separators and elsewhere for a run without slashes;
   two stars stand for any run, and before a slash also for nothing; a question mark stands for any
   character, and every other character for itself, whatever its case.
   */
  lemma MeaningByCharacter(c: byte, p: seq<byte>, n: seq<byte>)
    ensures Matches([], n, 0) <==> n == []
    ensures Matches([42], n, 0) <==> 47 !in n && 92 !in n
    ensures Matches([42, 42], n, 0)
    ensures Matches([42, 42] + p, n, 0)
      <==> p == [] || (p[0] == 47 && Matches(p[1..], n, 0)) || exists k :: 0 <= k <= |n| && Matches(p, n[k..], 0)
    ensures c != 42 ==>
              (Matches([42, c] + p, n, 0)
               <==> exists k :: 0 <= k <= |n| && 47 !in n[..k] && Matches([c] + p, n[k..], 0))
    ensures c != 42 ==>
              (Matches([c] + p, n, 0) <==> n != [] && (c == 63 || Alike(c, n[0])) && Matches(p, n[1..], 0))
  {
    var two, one, self := [42, 42] + p, [42, c] + p, [c] + p;
    assert two[2..] == p && (p != [] ==> two[2] == p[0] && two[3..] == p[1..]);
    assert one[1..] == self && self[1..] == p && one[0] == 42 && one[1] == c;
    assert self[0] == c && (p != [] ==> self[1] == p[0]);
    assert n != [] ==> (Same(c, n[0]) <==> Alike(c, n[0])) by {
      if n != [] {
        SameIsAlike(c, n[0]);
      }
    }
    assert OneName(n) <==> 47 !in n && 92 !in n;
    hide Same, Alike, OneName;
  }

  lemma SameIsAlike(c: byte, d: byte)
    ensures Same(c, d) <==> Alike(c, d)
  {
  }
}
