/**
 `glob_match`: patterns separated by semicolons, with groups, for a path.
 */
module Glob {
  import opened Utf8
  import opened Sequences
  import opened GlobMatch
  import opened GlobGroups

  const SEMICOLON: byte := ';' as int

  // A directory stands for all below it.
  function Completed(pattern: seq<byte>): seq<byte>
  {
    if pattern != [] && pattern[|pattern| - 1] == SLASH then pattern + [STAR, STAR] else pattern
  }

  // Some string that some part is expanded to matches the path.
  predicate Selects(parts: seq<seq<byte>>, path: seq<byte>)
  {
    exists i, e :: 0 <= i < |parts| && e in Expanded(parts[i]) && Matches(e, path, 1)
  }

  method MatchPath(path: seq<byte>, globPattern: seq<byte>) returns (result: bool)
    requires globPattern != []
    ensures result == Selects(Split(Completed(globPattern), SEMICOLON), path)
  {
    var pattern := globPattern;
    if pattern[|pattern| - 1] == SLASH {
      pattern := pattern + [STAR, STAR];
    }
    var patterns := Split(pattern, SEMICOLON);
    var expandedPatterns: seq<seq<byte>> := [];
    var i := 0;
    hide *;
    while i < |patterns|
      invariant i <= |patterns|
      invariant forall e :: e in expandedPatterns <==> exists k :: 0 <= k < i && e in Expanded(patterns[k])
    {
      hide *;
      ghost var before := expandedPatterns;
      expandedPatterns := ExpandGroup(patterns[i], expandedPatterns);
      assert forall e :: e in expandedPatterns <==> e in before || e in Expanded(patterns[i]);
      i := i + 1;
    }
    result := false;
    var j := 0;
    while j < |expandedPatterns|
      invariant j <= |expandedPatterns|
      invariant forall k :: 0 <= k < j ==> !Matches(expandedPatterns[k], path, 1)
    {
      hide *;
      result := Match(expandedPatterns[j], path);
      if result {
        assert expandedPatterns[j] in expandedPatterns;
        SelectsIs(patterns, expandedPatterns[j], path);
        return;
      }
      j := j + 1;
    }
    SelectsNone(patterns, expandedPatterns, path);
    return false;
  }

  lemma SelectsIs(parts: seq<seq<byte>>, e: seq<byte>, path: seq<byte>)
    requires exists k :: 0 <= k < |parts| && e in Expanded(parts[k])
    requires Matches(e, path, 1)
    ensures Selects(parts, path)
  {
    hide Matches, Expanded;
  }

  lemma SelectsNone(parts: seq<seq<byte>>, expanded: seq<seq<byte>>, path: seq<byte>)
    requires forall e :: e in expanded <==> exists k :: 0 <= k < |parts| && e in Expanded(parts[k])
    requires forall k :: 0 <= k < |expanded| ==> !Matches(expanded[k], path, 1)
    ensures !Selects(parts, path)
  {
    hide Matches, Expanded;
    forall i, e | 0 <= i < |parts| && e in Expanded(parts[i]) ensures !Matches(e, path, 1) {
      assert e in expanded;
    }
  }

  // ---- a list of patterns ----

  // The patterns with semicolons between them.
  function Listed(ts: seq<seq<byte>>): seq<byte>
  {
    if ts == [] then [] else if |ts| == 1 then ts[0] else ts[0] + ([59] + Listed(ts[1..]))
  }

  lemma {:induction false} SplitListed(ts: seq<seq<byte>>)
    requires ts != [] && forall t <- ts :: 59 !in t
    ensures Split(Listed(ts), SEMICOLON) == ts
  {
    assert ts[0] in ts;
    if |ts| == 1 {
      SplitBehind(ts[0], [], 59);
    } else {
      assert forall t <- ts[1..] :: t in ts;
      SplitListed(ts[1..]);
      SplitBehind(ts[0], Listed(ts[1..]), 59);
      FirstOf(ts, []);
    }
    hide Split, Listed;
  }

  // What stands before the last pattern.
  function Front(ts: seq<seq<byte>>): seq<byte>
  {
    if |ts| <= 1 then [] else ts[0] + ([59] + Front(ts[1..]))
  }

  lemma {:induction false} FrontAndLast(ts: seq<seq<byte>>, t: seq<byte>)
    requires ts != []
    ensures Listed(ts[..|ts| - 1] + [t]) == Front(ts) + t
  {
    if |ts| == 1 {
      assert ts[..0] + [t] == [t];
      Unit(t);
    } else {
      var more := ts[1..];
      var us := more[..|more| - 1] + [t];
      assert [ts[0]] + us == ts[..|ts| - 1] + [t];
      assert Front(ts) == ts[0] + ([59] + Front(more));
      hide Listed, Front;
      FrontAndLast(more, t);
      ListedHead(ts[0], us);
      Heads(ts[0], Front(more), t);
    }
  }

  lemma ListedHead(t: seq<byte>, ts: seq<seq<byte>>)
    requires ts != []
    ensures Listed([t] + ts) == t + ([59] + Listed(ts))
  {
    assert ([t] + ts)[1..] == ts;
  }

  lemma Heads(a: seq<byte>, b: seq<byte>, c: seq<byte>)
    ensures a + ([59] + (b + c)) == (a + ([59] + b)) + c
  {
  }

  // The patterns of a list, the last of them completed when it names a directory.
  function WithDirectory(pss: seq<seq<Piece>>): seq<seq<Piece>>
    requires pss != []
  {
    var n := |pss| - 1;
    var t := Written(pss[n]);
    if t != [] && t[|t| - 1] == 47 then pss[..n] + [pss[n] + [Char(42), Char(42)]] else pss
  }

  function AllWritten(pss: seq<seq<Piece>>): (ts: seq<seq<byte>>)
    ensures |ts| == |pss| && forall i :: 0 <= i < |pss| ==> ts[i] == Written(pss[i])
  {
    seq(|pss|, i requires 0 <= i < |pss| => Written(pss[i]))
  }

  lemma StarsWritten(ps: seq<Piece>)
    ensures Written(ps + [Char(42), Char(42)]) == Written(ps) + [42, 42]
  {
    WrittenBoth(ps, [Char(42), Char(42)]);
    assert [Char(42), Char(42)][1..] == [Char(42)] && [Char(42)][1..] == [];
    assert Written([Char(42), Char(42)]) == [42, 42];
  }

  lemma CompletedIsListed(pss: seq<seq<Piece>>)
    requires pss != [] && Written(pss[|pss| - 1]) != []
    ensures Completed(Listed(AllWritten(pss))) == Listed(AllWritten(WithDirectory(pss)))
  {
    var n, ts := |pss| - 1, AllWritten(pss);
    var t := ts[n];
    LastOf(ts);
    FrontAndLast(ts, t);
    FrontAndLast(ts, t + [42, 42]);
    CompletedBehind(Front(ts), t);
    StarsWritten(pss[n]);
    hide Listed, Written, Front, Completed;
    if t[|t| - 1] == 47 {
      LastIsReplaced(pss, pss[n] + [Char(42), Char(42)]);
    }
  }

  lemma CompletedBehind(head: seq<byte>, t: seq<byte>)
    requires t != []
    ensures Completed(head + t) == head + if t[|t| - 1] == 47 then t + [42, 42] else t
  {
    assert (head + t)[|head + t| - 1] == t[|t| - 1];
    Associate(head, t, [42, 42]);
  }

  lemma LastIsReplaced(pss: seq<seq<Piece>>, ps: seq<Piece>)
    requires pss != []
    ensures AllWritten(pss[..|pss| - 1] + [ps]) == AllWritten(pss)[..|pss| - 1] + [Written(ps)]
  {
    hide Written;
  }

  /** The punctuation of a group: braces around it, a comma between its options; two options are enough. */
  lemma GroupIsWritten(a: Branch, b: Branch)
    ensures Balanced([Group([a, b])], false) <==> Balanced(a.pieces, true) && Balanced(b.pieces, true)
    ensures WrittenPiece(Group([a, b])) == [123] + (Written(a.pieces) + ([44] + Written(b.pieces)) + [125])
  {
    assert [a, b][1..] == [b] && WrittenOptions([b]) == Written(b.pieces);
    assert WrittenOptions([a, b]) == Written(a.pieces) + ([44] + Written(b.pieces));
    assert BalancedOptions([b]) == Balanced(b.pieces, true);
    assert BalancedOptions([a, b]) == (Balanced(a.pieces, true) && Balanced(b.pieces, true));
    var g := [Group([a, b])];
    assert g[1..] == [] && Balanced(g[1..], false);
    assert Balanced(g, false) == BalancedOptions([a, b]);
    hide Written;
  }

  /**
   A path is selected by a list of patterns exactly when it is meant by a string that one of them
   stands for, where a pattern that ends in a slash stands for all below it, and no such string stalls.
   */
  lemma SelectsMeaning(pss: seq<seq<Piece>>, path: seq<byte>)
    requires pss != [] && Written(pss[|pss| - 1]) != [] && forall ps <- pss :: Balanced(ps, false) && 59 !in Written(ps)
    requires forall ps, w :: ps in WithDirectory(pss) && Means(ps, w) ==> !Stalls(w)
    ensures Selects(Split(Completed(Listed(AllWritten(pss))), SEMICOLON), path)
      <==> exists ps, w :: ps in WithDirectory(pss) && Means(ps, w) && Matches(w, path, 0)
  {
    var qss := WithDirectory(pss);
    var ts := AllWritten(qss);
    CompletedIsListed(pss);
    PartsAreBalanced(pss);
    assert ts != [] && forall t <- ts :: 59 !in t by {
      forall t | t in ts ensures 59 !in t {
        var i :| 0 <= i < |ts| && ts[i] == t;
        assert qss[i] in qss;
      }
    }
    SplitListed(ts);
    hide Matches, Expanded, Means, Balanced, Stalls, WithDirectory, Written, Listed, Completed, Split, AllWritten;
    PartsSelect(qss, path);
  }

  lemma PartsAreBalanced(pss: seq<seq<Piece>>)
    requires pss != [] && forall ps <- pss :: Balanced(ps, false) && 59 !in Written(ps)
    ensures WithDirectory(pss) != [] && forall ps <- WithDirectory(pss) :: Balanced(ps, false) && 59 !in Written(ps)
  {
    var n := |pss| - 1;
    var ps := pss[n];
    assert ps in pss;
    StarsWritten(ps);
    StarsBalanced(ps);
    hide Written, Balanced;
    assert forall qs <- pss[..n] :: qs in pss;
  }

  lemma {:induction false} StarsBalanced(ps: seq<Piece>)
    requires Balanced(ps, false)
    ensures Balanced(ps + [Char(42), Char(42)], false)
  {
    if ps == [] {
      assert ps + [Char(42), Char(42)] == [Char(42), Char(42)];
      assert [Char(42), Char(42)][1..] == [Char(42)];
    } else {
      StarsBalanced(ps[1..]);
      FirstOf(ps, [Char(42), Char(42)]);
    }
  }

  lemma PartsSelect(qss: seq<seq<Piece>>, path: seq<byte>)
    requires forall ps <- qss :: Balanced(ps, false)
    requires forall ps, w :: ps in qss && Means(ps, w) ==> !Stalls(w)
    ensures Selects(AllWritten(qss), path) <==> exists ps, w :: ps in qss && Means(ps, w) && Matches(w, path, 0)
  {
    var parts := AllWritten(qss);
    hide Matches, Expanded, Means, Balanced, Stalls, Written, AllWritten;
    if ps, w :| ps in qss && Means(ps, w) && Matches(w, path, 0) {
      var i :| 0 <= i < |qss| && qss[i] == ps;
      ExpandsToMeaning(ps, w);
      Agree(w, path);
      assert w in Expanded(parts[i]) && Matches(w, path, 1);
    }
    if i, e :| 0 <= i < |parts| && e in Expanded(parts[i]) && Matches(e, path, 1) {
      assert qss[i] in qss;
      ExpandsToMeaning(qss[i], e);
      Agree(e, path);
    }
  }
}
