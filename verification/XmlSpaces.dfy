/**
 Collapsing the spaces of an attribute value that is not character data
 (XML 1.0, section 3.3.3).
 */
module XmlSpaces {
  import opened Utf8
  import opened AttributeValue
  import opened Sequences

  const SPACE: unicode := 0x20

  // The number of characters before the first space.
  function WordLength(s: text): (n: nat)
    ensures n <= |s| && (forall i :: 0 <= i < n ==> s[i] != SPACE) && (n < |s| ==> s[n] == SPACE)
  {
    if s == [] || s[0] == SPACE then 0 else 1 + WordLength(s[1..])
  }

  // The words of a text, in order.
  function Words(s: text): seq<text>
    decreases |s|
  {
    if s == [] then []
    else if s[0] == SPACE then Words(s[1..])
    else [s[..WordLength(s)]] + Words(s[WordLength(s)..])
  }

  // The words with one space between them.
  function Joined(ws: seq<text>): text
  {
    if ws == [] then []
    else if |ws| == 1 then ws[0]
    else ws[0] + [SPACE] + Joined(ws[1..])
  }

  lemma {:induction false} WordsAreWords(s: text)
    ensures forall w <- Words(s) :: w != [] && SPACE !in w
    decreases |s|
  {
    if s != [] {
      if s[0] == SPACE {
        WordsAreWords(s[1..]);
      } else {
        WordsAreWords(s[WordLength(s)..]);
      }
    }
  }

  /** Collapsing keeps the words. */
  lemma {:induction false} WordsOfJoined(ws: seq<text>)
    requires forall w <- ws :: w != [] && SPACE !in w
    ensures Words(Joined(ws)) == ws
  {
    if ws != [] {
      var s := Joined(ws);
      var (n, rest) := (|ws[0]|, Joined(ws[1..]));
      assert forall i :: 0 <= i < n ==> s[i] == ws[0][i] && ws[0][i] in ws[0];
      WordLengthIs(s, n);
      assert s[..n] == ws[0];
      forall w | w in ws[1..] ensures w != [] && SPACE !in w {
        assert w in ws;
      }
      WordsOfJoined(ws[1..]);
      assert ws == [ws[0]] + ws[1..];
      if |ws| == 1 {
        assert s[n..] == [];
      } else {
        assert s[n..] == [SPACE] + rest;
        assert s[n..][1..] == rest;
      }
    }
  }

  /** Collapsing again changes nothing. */
  lemma CollapsedAgain(s: text)
    ensures Joined(Words(Joined(Words(s)))) == Joined(Words(s))
  {
    WordsAreWords(s);
    WordsOfJoined(Words(s));
    hide Words, Joined;
  }

  // What is no space.
  function Solid(s: text): text
  {
    if s == [] then [] else (if s[0] == 0x20 then [] else [s[0]]) + Solid(s[1..])
  }

  // No space at the ends, and no two side by side.
  predicate Tight(s: text)
  {
    (s != [] ==> s[0] != 0x20 && s[|s| - 1] != 0x20)
    && forall i :: 0 < i < |s| ==> s[i - 1] != 0x20 || s[i] != 0x20
  }

  lemma {:induction false} SolidBoth(s: text, t: text)
    ensures Solid(s + t) == Solid(s) + Solid(t)
  {
    if s == [] {
      assert s + t == t;
    } else {
      assert (s + t)[1..] == s[1..] + t;
      SolidBoth(s[1..], t);
    }
  }

  lemma {:induction false} SolidWord(w: text)
    requires SPACE !in w
    ensures Solid(w) == w
  {
    if w != [] {
      SolidWord(w[1..]);
    }
  }

  lemma {:induction false} JoinedTight(ws: seq<text>)
    requires forall w <- ws :: w != [] && SPACE !in w
    ensures Tight(Joined(ws)) && (ws != [] ==> Joined(ws) != [])
  {
    if ws != [] {
      var w, rest := ws[0], Joined(ws[1..]);
      assert forall v <- ws[1..] :: v in ws;
      JoinedTight(ws[1..]);
      assert w in ws && forall i :: 0 <= i < |w| ==> w[i] in w;
      if |ws| > 1 {
        assert Joined(ws) == w + [SPACE] + rest;
        TightTogether(w, rest);
      }
    }
  }

  lemma TightTogether(w: text, rest: text)
    requires w != [] && rest != [] && SPACE !in w && Tight(rest)
    ensures Tight(w + [SPACE] + rest)
  {
    var s := w + [SPACE] + rest;
    assert forall i :: 0 <= i < |w| ==> s[i] == w[i] && s[i] in w;
    assert forall i :: 0 <= i < |rest| ==> s[|w| + 1 + i] == rest[i];
    forall i | 0 < i < |s| ensures s[i - 1] != 0x20 || s[i] != 0x20 {
      if i > |w| + 1 {
        assert s[i - 1] == rest[i - |w| - 2] && s[i] == rest[i - |w| - 1];
      }
    }
  }

  lemma {:induction false} JoinedSolid(s: text)
    ensures Solid(Joined(Words(s))) == Solid(s)
    decreases |s|
  {
    if s != [] {
      NoSpaceInFirst(s);
      if s[0] == SPACE {
        JoinedSolid(s[1..]);
      } else {
        var n := WordLength(s);
        var rest := s[n..];
        JoinedSolid(rest);
        SolidBoth(s[..n], rest);
        assert s[..n] + rest == s;
        SolidWord(s[..n]);
        var ws := Words(rest);
        assert Words(s) == [s[..n]] + ws && Words(s)[1..] == ws;
        if ws != [] {
          SolidBoth(s[..n] + [SPACE], Joined(ws));
          SolidBoth(s[..n], [SPACE]);
        }
      }
    }
  }

  lemma NoSpaceInFirst(s: text)
    ensures SPACE !in s[..WordLength(s)]
  {
  }

  /** Collapsing leaves no space at the ends and no two side by side, and takes nothing else away. */
  lemma CollapsedShape(s: text)
    ensures Tight(Joined(Words(s))) && Solid(Joined(Words(s))) == Solid(s)
  {
    WordsAreWords(s);
    JoinedTight(Words(s));
    JoinedSolid(s);
    hide Words, Joined, Tight, Solid;
  }

  // ---- one more character at the end ----

  lemma {:induction false} WordsSpace(s: text)
    ensures Words(s + [SPACE]) == Words(s)
    decreases |s|
  {
    var t := s + [SPACE];
    if s == [] {
      assert t[1..] == [];
    } else if s[0] == SPACE {
      assert t[1..] == s[1..] + [SPACE];
      WordsSpace(s[1..]);
    } else {
      var n := WordLength(s);
      WordLengthIs(t, n);
      assert t[..n] == s[..n] && t[n..] == s[n..] + [SPACE];
      WordsSpace(s[n..]);
    }
  }

  lemma {:induction false} WordLengthIs(s: text, n: nat)
    requires n <= |s| && (forall i :: 0 <= i < n ==> s[i] != SPACE) && (n < |s| ==> s[n] == SPACE)
    ensures WordLength(s) == n
  {
    if n > 0 {
      WordLengthIs(s[1..], n - 1);
    }
  }

  // A character after a space starts a word, and any other belongs to the last one.
  lemma {:induction false} WordsMore(s: text, c: unicode)
    requires c != SPACE
    ensures var ws := Words(s);
      if s == [] || s[|s| - 1] == SPACE then Words(s + [c]) == ws + [[c]]
      else ws != [] && Words(s + [c]) == ws[..|ws| - 1] + [ws[|ws| - 1] + [c]]
    decreases |s|
  {
    var t := s + [c];
    hide Words, WordLength;
    if s == [] {
      Unit([c]);
      OneWord(t);
      NoWords();
      Unit([[c]]);
    } else if s[0] == SPACE {
      FirstOf(s, [c]);
      SkipSpace(s);
      SkipSpace(t);
      NoWords();
      WordsMore(s[1..], c);
    } else {
      var n := WordLength(s);
      if n == |s| {
        OneWord(s);
        OneWord(t);
      } else {
        FirstWord(s);
        WordLengthIs(t, n);
        FirstWord(t);
        Beyond(s, c, n);
        WordsMore(s[n..], c);
        FrontOf(s[..n], Words(s[n..]));
      }
    }
  }

  lemma Beyond(s: text, c: unicode, n: nat)
    requires n < |s|
    ensures (s + [c])[..n] == s[..n] && (s + [c])[n..] == s[n..] + [c] && s[n..][|s[n..]| - 1] == s[|s| - 1]
  {
  }

  lemma NoWords()
    ensures Words([]) == []
  {
  }

  lemma SkipSpace(s: text)
    requires s != [] && s[0] == SPACE
    ensures Words(s) == Words(s[1..])
  {
  }

  lemma OneWord(s: text)
    requires s != [] && SPACE !in s
    ensures Words(s) == [s]
  {
    WordLengthIs(s, |s|);
    assert s[..|s|] == s && s[|s|..] == [];
  }

  lemma FirstWord(s: text)
    requires s != [] && s[0] != SPACE
    ensures Words(s) == [s[..WordLength(s)]] + Words(s[WordLength(s)..])
  {
  }

  lemma FrontOf(w: text, ws: seq<text>)
    ensures ws != [] ==>
      var vs := [w] + ws; vs[..|vs| - 1] == [w] + ws[..|ws| - 1] && vs[|vs| - 1] == ws[|ws| - 1]
  {
  }

  lemma {:induction false} JoinedNew(ws: seq<text>, w: text)
    ensures Joined(ws + [w]) == (if ws == [] then w else Joined(ws) + [SPACE] + w)
  {
    if ws == [] {
      Unit([w]);
    } else {
      FirstOf(ws, [w]);
      var rest := ws[1..];
      JoinedNew(rest, w);
      if rest == [] {
        assert Joined(ws) == ws[0];
      } else {
        Associate(ws[0] + [SPACE], Joined(rest) + [SPACE], w);
        Associate(ws[0] + [SPACE], Joined(rest), [SPACE]);
      }
    }
  }

  lemma {:induction false} JoinedLonger(ws: seq<text>, c: unicode)
    requires ws != []
    ensures Joined(ws[..|ws| - 1] + [ws[|ws| - 1] + [c]]) == Joined(ws) + [c]
  {
    var (front, w) := (ws[..|ws| - 1], ws[|ws| - 1]);
    JoinedNew(front, w);
    JoinedNew(front, w + [c]);
    assert front + [w] == ws;
  }

  // What the loop of `collapse_spaces` has written for the part `s` that it has read.
  function Collapsed(s: text): text
  {
    Joined(Words(s)) + if s != [] && s[|s| - 1] == SPACE && Words(s) != [] then [SPACE] else []
  }

  lemma CollapsedMore(s: text, c: unicode)
    ensures Collapsed(s + [c])
      == if c != SPACE then Collapsed(s) + [c]
         else if s == [] || s[|s| - 1] == SPACE then Collapsed(s)
         else Collapsed(s) + [SPACE]
  {
    var ws := Words(s);
    if c == SPACE {
      WordsSpace(s);
      if s != [] && s[|s| - 1] != SPACE {
        LastWord(s);
      }
    } else {
      WordsMore(s, c);
      if s == [] || s[|s| - 1] == SPACE {
        JoinedNew(ws, [c]);
      } else {
        JoinedLonger(ws, c);
      }
    }
  }

  lemma {:induction false} LastWord(s: text)
    requires s != [] && s[|s| - 1] != SPACE
    ensures Words(s) != []
  {
    WordsMore(s[..|s| - 1], s[|s| - 1]);
    assert s[..|s| - 1] + [s[|s| - 1]] == s;
  }

  /** The text is replaced in place by its words with one space between them. */
  method CollapseSpaces(s: array<unicode>) returns (o: nat)
    modifies s
    ensures o <= s.Length && s[..o] == Joined(Words(old(s[..])))
  {
    var i := 0;
    o := 0;
    var space := true;
    ghost var was := s[..];
    Ends(was);
    assert Collapsed([]) == [];
    hide *;
    while i < s.Length
      invariant o <= i <= s.Length
      invariant forall k :: i <= k < s.Length ==> s[k] == was[k]
      invariant s[..o] == Collapsed(was[..i])
      invariant space == (i == 0 || was[i - 1] == SPACE)
    {
      hide *;
      CollapsedMore(was[..i], was[i]);
      Longer(was, i);
      if s[i] == SPACE {
        if !space {
          o := Put(s, o, SPACE);
        }
        i := i + 1;
        space := true;
      } else {
        o := Put(s, o, s[i]);
        i := i + 1;
        space := false;
      }
    }
    CollapsedEnds(was);
    ghost var done := s[..o];
    if space && o != 0 {
      o := o - 1;
      assert s[..o] == done[..o];
    }
  }

  // `*o++ = c`
  method Put(s: array<unicode>, o: nat, c: unicode) returns (next: nat)
    requires o < s.Length
    modifies s
    ensures next == o + 1 && s[..next] == old(s[..o]) + [c]
    ensures forall k :: o < k < s.Length ==> s[k] == old(s[k])
  {
    s[o] := c;
    next := o + 1;
  }

  // Only a space at the end is still to be taken away.
  lemma CollapsedEnds(s: text)
    ensures var (c, r) := (Collapsed(s), Joined(Words(s)));
      if s == [] || s[|s| - 1] == SPACE then (if c == [] then r == [] else c[..|c| - 1] == r) else c == r
  {
    NoWords();
    assert Joined([]) == [];
    var r := Joined(Words(s));
    hide Words, Joined;
    Unit(r);
    Parts(r, [SPACE]);
  }
}
