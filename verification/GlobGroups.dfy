/**
 The alternatives in braces of a pattern: what `expand_group` makes of `{a,b}`.
 */
module GlobGroups {
  import opened Utf8
  import opened Options
  import opened Sequences

  const OPEN: byte := '{' as int
  const CLOSE: byte := '}' as int
  const COMMA: byte := ',' as int

  // ---- the code ----

  // The characters before the first brace and those from it on.
  function UpToBrace(s: seq<byte>): (r: (seq<byte>, seq<byte>))
    ensures r.0 + r.1 == s && OPEN !in r.0 && CLOSE !in r.0
    ensures r.1 == [] || r.1[0] == OPEN || r.1[0] == CLOSE
  {
    if s == [] || s[0] == OPEN || s[0] == CLOSE then ([], s)
    else var (a, b) := UpToBrace(s[1..]); ([s[0]] + a, b)
  }

  datatype Found = Found(before: seq<byte>, group: seq<byte>, behind: seq<byte>)

  // The search for a group: the first opening brace whose next brace closes it behind a comma.
  function Search(s: seq<byte>): (r: Option<Found>)
    ensures r.Some? ==> s == r.value.before + [OPEN] + r.value.group + [CLOSE] + r.value.behind
                        && OPEN !in r.value.group
  {
    if s == [] then None
    else
      var (a, b) := UpToBrace(s[1..]);
      if s[0] == OPEN && COMMA in a && b != [] && b[0] == CLOSE then Some(Found([], a, b[1..]))
      else
        match Search(s[1..])
        case None => None
        case Some(f) => Some(Found([s[0]] + f.before, f.group, f.behind))
  }

  // The parts between the separators.
  function Split(s: seq<byte>, ch: byte): (parts: seq<seq<byte>>)
    ensures parts != []
  {
    if s == [] then [[]]
    else
      var rest := Split(s[1..], ch);
      if s[0] == ch then [[]] + rest else [[s[0]] + rest[0]] + rest[1..]
  }

  function Opened(s: seq<byte>): nat
  {
    if s == [] then 0 else Opened(s[1..]) + if s[0] == OPEN then 1 else 0
  }

  lemma {:induction false} OpenedBoth(s: seq<byte>, t: seq<byte>)
    ensures Opened(s + t) == Opened(s) + Opened(t)
  {
    if s == [] {
      Unit(t);
    } else {
      FirstOf(s, t);
      OpenedBoth(s[1..], t);
    }
  }

  lemma {:induction false} PartsOpen(s: seq<byte>, ch: byte)
    ensures forall o :: o in Split(s, ch) ==> Opened(o) <= Opened(s)
  {
    if s != [] {
      PartsOpen(s[1..], ch);
      var rest := Split(s[1..], ch);
      assert ([s[0]] + rest[0])[1..] == rest[0];
      assert rest[0] in rest;
    }
  }

  function With(f: Found, option: seq<byte>): seq<byte>
  {
    f.before + option + f.behind
  }

  lemma FewerOpen(s: seq<byte>, option: seq<byte>)
    requires Search(s).Some? && option in Split(Search(s).value.group, COMMA)
    ensures Opened(With(Search(s).value, option)) < Opened(s)
  {
    var f := Search(s).value;
    PartsOpen(f.group, COMMA);
    OpenedBoth(f.before + option, f.behind);
    OpenedBoth(f.before, option);
    OpenedBoth(f.before + [OPEN] + f.group + [CLOSE], f.behind);
    OpenedBoth(f.before + [OPEN] + f.group, [CLOSE]);
    OpenedBoth(f.before + [OPEN], f.group);
    OpenedBoth(f.before, [OPEN]);
    hide *;
    OneOpen();
  }

  lemma OneOpen()
    ensures Opened([OPEN]) == 1 && Opened([CLOSE]) == 0
  {
  }

  // The patterns without groups that a pattern is expanded to.
  function Expanded(p: seq<byte>): seq<seq<byte>>
    decreases Opened(p), 1, 0
  {
    match Search(p)
    case None => [p]
    case Some(f) => ExpandedAll(p, Split(f.group, COMMA))
  }

  function ExpandedAll(p: seq<byte>, options: seq<seq<byte>>): seq<seq<byte>>
    requires Search(p).Some? && forall o :: o in options ==> o in Split(Search(p).value.group, COMMA)
    decreases Opened(p), 0, |options|
  {
    if options == [] then []
    else
      FewerOpen(p, options[0]);
      Expanded(With(Search(p).value, options[0])) + ExpandedAll(p, options[1..])
  }

  method ExpandGroup(pattern: seq<byte>, before: seq<seq<byte>>) returns (expanded: seq<seq<byte>>)
    ensures expanded == before + Expanded(pattern)
    decreases Opened(pattern)
  {
    expanded := before;
    var m := Search(pattern);
    match m {
      case Some(f) =>
        var options := Split(f.group, COMMA);
        var i := 0;
        Ends(options);
        while i < |options|
          invariant i <= |options|
          invariant before + Expanded(pattern) == expanded + ExpandedAll(pattern, options[i..])
        {
          FewerOpen(pattern, options[i]);
          Longer(options, i);
          Associate(expanded, Expanded(With(f, options[i])), ExpandedAll(pattern, options[i + 1..]));
          expanded := ExpandGroup(f.before + options[i] + f.behind, expanded);
          i := i + 1;
        }
        Ends(options);
        Unit(expanded);
      case None =>
        expanded := expanded + [pattern];
    }
  }

  // ---- the meaning ----

  datatype Piece = Char(c: byte) | Group(options: seq<Branch>)

  datatype Branch = Branch(pieces: seq<Piece>)

  // How a pattern is written.
  function Written(ps: seq<Piece>): seq<byte>
  {
    if ps == [] then [] else WrittenPiece(ps[0]) + Written(ps[1..])
  }

  function WrittenPiece(p: Piece): seq<byte>
  {
    match p
    case Char(c) => [c]
    case Group(options) => [OPEN] + (WrittenOptions(options) + [CLOSE])
  }

  function WrittenOptions(os: seq<Branch>): seq<byte>
  {
    if os == [] then [] else if |os| == 1 then Written(os[0].pieces)
    else Written(os[0].pieces) + ([COMMA] + WrittenOptions(os[1..]))
  }

  // Every brace belongs to a group, every group has its own comma, and only groups have commas inside.
  predicate Balanced(ps: seq<Piece>, inside: bool)
  {
    ps != [] ==> BalancedPiece(ps[0], inside) && Balanced(ps[1..], inside)
  }

  predicate BalancedPiece(p: Piece, inside: bool)
  {
    match p
    case Char(c) => c != OPEN && c != CLOSE && (inside ==> c != COMMA)
    case Group(options) => |options| >= 2 && BalancedOptions(options)
  }

  predicate BalancedOptions(os: seq<Branch>)
  {
    os != [] ==> Balanced(os[0].pieces, true) && BalancedOptions(os[1..])
  }

  // The strings a pattern stands for: of every group one of its options.
  predicate Means(ps: seq<Piece>, w: seq<byte>)
  {
    if ps == [] then w == []
    else exists k | 0 <= k <= |w| :: MeansPiece(ps[0], w[..k]) && Means(ps[1..], w[k..])
  }

  predicate MeansPiece(p: Piece, w: seq<byte>)
  {
    match p
    case Char(c) => w == [c]
    case Group(options) => MeansOne(options, w)
  }

  predicate MeansOne(os: seq<Branch>, w: seq<byte>)
  {
    os != [] && (Means(os[0].pieces, w) || MeansOne(os[1..], w))
  }

  // ---- the first group without groups inside ----

  predicate Plain(ps: seq<Piece>)
  {
    ps != [] ==> ps[0].Char? && Plain(ps[1..])
  }

  predicate PlainOptions(os: seq<Branch>)
  {
    os != [] ==> Plain(os[0].pieces) && PlainOptions(os[1..])
  }

  // Its options.
  function First(ps: seq<Piece>): (os: seq<Branch>)
    requires !Plain(ps)
    ensures PlainOptions(os)
    decreases ps
  {
    match ps[0]
    case Char(_) => First(ps[1..])
    case Group(os) => if PlainOptions(os) then os else FirstOfOptions(os)
  }

  function FirstOfOptions(os: seq<Branch>): (r: seq<Branch>)
    requires !PlainOptions(os)
    ensures PlainOptions(r)
    decreases os
  {
    if Plain(os[0].pieces) then FirstOfOptions(os[1..]) else First(os[0].pieces)
  }

  // The pattern with `o` in its place.
  function Fill(ps: seq<Piece>, o: seq<Piece>): seq<Piece>
    requires !Plain(ps)
    decreases ps
  {
    match ps[0]
    case Char(_) => [ps[0]] + Fill(ps[1..], o)
    case Group(os) =>
      if PlainOptions(os) then o + ps[1..] else [Group(FillOptions(os, o))] + ps[1..]
  }

  function FillOptions(os: seq<Branch>, o: seq<Piece>): (r: seq<Branch>)
    requires !PlainOptions(os)
    ensures |r| == |os|
    decreases os
  {
    if Plain(os[0].pieces) then [os[0]] + FillOptions(os[1..], o) else [Branch(Fill(os[0].pieces, o))] + os[1..]
  }

  // What is written before and behind it.
  function Around(ps: seq<Piece>): (r: (seq<byte>, seq<byte>))
    requires !Plain(ps)
    decreases ps
  {
    match ps[0]
    case Char(c) => var (a, b) := Around(ps[1..]); ([c] + a, b)
    case Group(os) =>
      if PlainOptions(os) then ([], Written(ps[1..]))
      else var (a, b) := AroundOptions(os); ([OPEN] + a, b + ([CLOSE] + Written(ps[1..])))
  }

  function AroundOptions(os: seq<Branch>): (r: (seq<byte>, seq<byte>))
    requires !PlainOptions(os)
    decreases os
  {
    if Plain(os[0].pieces) then var (a, b) := AroundOptions(os[1..]); (Written(os[0].pieces) + ([COMMA] + a), b)
    else var (a, b) := Around(os[0].pieces); (a, b + if |os| == 1 then [] else [COMMA] + WrittenOptions(os[1..]))
  }

  // ---- what is written around it ----

  function GroupText(os: seq<Branch>): seq<byte>
  {
    [OPEN] + (WrittenOptions(os) + [CLOSE])
  }

  lemma {:induction false} WrittenBoth(ps: seq<Piece>, qs: seq<Piece>)
    ensures Written(ps + qs) == Written(ps) + Written(qs)
  {
    if ps == [] {
      Unit(qs);
      Unit(Written(qs));
    } else {
      FirstOf(ps, qs);
      WrittenBoth(ps[1..], qs);
      Associate(WrittenPiece(ps[0]), Written(ps[1..]), Written(qs));
      hide WrittenPiece;
    }
  }

  // The text `x` in the place of the group.
  function Inside(around: (seq<byte>, seq<byte>), x: seq<byte>): seq<byte>
  {
    around.0 + (x + around.1)
  }

  lemma InsideLonger(a: seq<byte>, b: seq<byte>, x: seq<byte>, before: seq<byte>, behind: seq<byte>)
    ensures before + Inside((a, b), x) == Inside((before + a, b), x)
    ensures Inside((a, b), x) + behind == Inside((a, b + behind), x)
    ensures Inside((a, b + []), x) == Inside((a, b), x)
    ensures before + (Inside((a, b), x) + behind) == Inside((before + a, b + behind), x)
  {
    assert b + [] == b;
  }

  // A group with the pattern behind it.
  lemma WrittenGroup(os: seq<Branch>, rest: seq<Piece>)
    ensures Written([Group(os)] + rest) == [OPEN] + (WrittenOptions(os) + ([CLOSE] + Written(rest)))
  {
    FirstOf([Group(os)], rest);
    assert ([Group(os)] + rest)[1..] == rest;
    assert Written([Group(os)] + rest) == ([OPEN] + (WrittenOptions(os) + [CLOSE])) + Written(rest);
    hide *;
    Associate([OPEN], WrittenOptions(os) + [CLOSE], Written(rest));
    Associate(WrittenOptions(os), [CLOSE], Written(rest));
  }

  lemma WrittenChar(c: byte, rest: seq<Piece>)
    ensures Written([Char(c)] + rest) == [c] + Written(rest)
  {
    assert ([Char(c)] + rest)[1..] == rest;
  }

  lemma WrittenFirst(o: Branch, os: seq<Branch>)
    ensures WrittenOptions([o] + os)
            == Written(o.pieces) + if os == [] then [] else [COMMA] + WrittenOptions(os)
  {
    assert ([o] + os)[1..] == os;
    Unit(Written(o.pieces));
    hide Written;
  }

  /** The group that is found is written inside the text around it, and so is what fills its place. */
  lemma {:induction false} WrittenAround(ps: seq<Piece>, o: seq<Piece>)
    requires !Plain(ps)
    ensures Written(ps) == Inside(Around(ps), GroupText(First(ps)))
    ensures Written(Fill(ps, o)) == Inside(Around(ps), Written(o))
    decreases ps
  {
    var rest := ps[1..];
    FirstOf(ps, []);
    match ps[0]
    case Char(c) =>
      WrittenAround(rest, o);
      WrittenChar(c, rest);
      WrittenChar(c, Fill(rest, o));
      var (a, b) := Around(rest);
      InsideLonger(a, b, GroupText(First(rest)), [c], []);
      InsideLonger(a, b, Written(o), [c], []);
      hide Written, Inside, GroupText;
    case Group(os) =>
      WrittenGroup(os, rest);
      if PlainOptions(os) {
        WrittenBoth(o, rest);
        assert Around(ps) == ([], Written(rest)) && Fill(ps, o) == o + rest && First(ps) == os;
        hide Written, WrittenOptions, Around, Fill, First;
        GroupInPlace(WrittenOptions(os), Written(rest), Written(o));
      } else {
        var (a, b) := AroundOptions(os);
        WrittenAroundOptions(os, o);
        WrittenGroup(FillOptions(os, o), rest);
        assert Around(ps) == ([OPEN] + a, b + ([CLOSE] + Written(rest)));
        assert Fill(ps, o) == [Group(FillOptions(os, o))] + rest && First(ps) == FirstOfOptions(os);
        hide Written, WrittenOptions, Inside, GroupText, Around, Fill, First;
        InsideLonger(a, b, GroupText(FirstOfOptions(os)), [OPEN], [CLOSE] + Written(rest));
        InsideLonger(a, b, Written(o), [OPEN], [CLOSE] + Written(rest));
      }
  }

  lemma GroupInPlace(g: seq<byte>, rest: seq<byte>, o: seq<byte>)
    ensures [OPEN] + (g + ([CLOSE] + rest)) == Inside(([], rest), [OPEN] + (g + [CLOSE]))
    ensures o + rest == Inside(([], rest), o)
  {
    assert [] + (o + rest) == o + rest;
  }

  lemma {:induction false} WrittenAroundOptions(os: seq<Branch>, o: seq<Piece>)
    requires !PlainOptions(os)
    ensures WrittenOptions(os) == Inside(AroundOptions(os), GroupText(FirstOfOptions(os)))
    ensures WrittenOptions(FillOptions(os, o)) == Inside(AroundOptions(os), Written(o))
    decreases os
  {
    var rest := os[1..];
    FirstOf(os, []);
    WrittenFirst(os[0], rest);
    if Plain(os[0].pieces) {
      WrittenAroundOptions(rest, o);
      WrittenFirst(os[0], FillOptions(rest, o));
      var (a, b) := AroundOptions(rest);
      var x := Written(os[0].pieces);
      assert AroundOptions(os) == (x + ([COMMA] + a), b);
      assert FillOptions(os, o) == [os[0]] + FillOptions(rest, o);
      assert FirstOfOptions(os) == FirstOfOptions(rest);
      assert rest != [];
      hide Written, WrittenOptions, Inside, GroupText, AroundOptions, FillOptions, FirstOfOptions;
      InsideLonger(a, b, GroupText(FirstOfOptions(rest)), [COMMA], []);
      InsideLonger([COMMA] + a, b, GroupText(FirstOfOptions(rest)), x, []);
      InsideLonger(a, b, Written(o), [COMMA], []);
      InsideLonger([COMMA] + a, b, Written(o), x, []);
    } else {
      WrittenAround(os[0].pieces, o);
      WrittenFirst(Branch(Fill(os[0].pieces, o)), rest);
      var (a, b) := Around(os[0].pieces);
      var t := if rest == [] then [] else [COMMA] + WrittenOptions(rest);
      assert AroundOptions(os) == (a, b + t);
      assert FillOptions(os, o) == [Branch(Fill(os[0].pieces, o))] + rest;
      assert FirstOfOptions(os) == First(os[0].pieces);
      hide Written, WrittenOptions, Inside, GroupText, AroundOptions, FillOptions, FirstOfOptions;
      InsideLonger(a, b, GroupText(First(os[0].pieces)), [], t);
      InsideLonger(a, b, Written(o), [], t);
    }
  }

  // ---- the search finds it ----

  lemma {:induction false} PlainText(ps: seq<Piece>, inside: bool)
    requires Plain(ps) && Balanced(ps, inside)
    ensures var s := Written(ps); OPEN !in s && CLOSE !in s && (inside ==> COMMA !in s)
  {
    if ps != [] {
      PlainText(ps[1..], inside);
    }
  }

  lemma {:induction false} PlainOptionsText(os: seq<Branch>)
    requires PlainOptions(os) && BalancedOptions(os)
    ensures var s := WrittenOptions(os); OPEN !in s && CLOSE !in s && (|os| >= 2 ==> COMMA in s)
  {
    if os != [] {
      PlainText(os[0].pieces, true);
      PlainOptionsText(os[1..]);
      hide Written;
      assert |os| >= 2 ==> COMMA in [COMMA] + WrittenOptions(os[1..]);
    }
  }

  // Nothing is closed before it, and it is a group the search looks for.
  lemma {:induction false} AroundOpens(ps: seq<Piece>, inside: bool)
    requires !Plain(ps) && Balanced(ps, inside)
    ensures CLOSE !in Around(ps).0 && |First(ps)| >= 2 && BalancedOptions(First(ps))
    decreases ps
  {
    match ps[0]
    case Char(_) => AroundOpens(ps[1..], inside);
    case Group(os) =>
      if !PlainOptions(os) {
        AroundOptionsOpens(os);
      }
  }

  lemma {:induction false} AroundOptionsOpens(os: seq<Branch>)
    requires !PlainOptions(os) && BalancedOptions(os)
    ensures CLOSE !in AroundOptions(os).0
    ensures |FirstOfOptions(os)| >= 2 && BalancedOptions(FirstOfOptions(os))
    decreases os
  {
    if Plain(os[0].pieces) {
      PlainText(os[0].pieces, true);
      AroundOptionsOpens(os[1..]);
    } else {
      AroundOpens(os[0].pieces, true);
    }
  }

  lemma {:induction false} BraceBehind(a: seq<byte>, brace: byte, r: seq<byte>)
    requires CLOSE !in a && (brace == OPEN || (brace == CLOSE && OPEN !in a))
    ensures var y := UpToBrace(a + ([brace] + r)).1; y != [] && y[0] == brace
    ensures OPEN !in a ==> UpToBrace(a + ([brace] + r)) == (a, [brace] + r)
  {
    if a != [] {
      FirstOf(a, [brace] + r);
      BraceBehind(a[1..], brace, r);
    } else {
      Unit([brace] + r);
    }
  }

  lemma {:induction false} Finds(a: seq<byte>, g: seq<byte>, b: seq<byte>)
    requires CLOSE !in a && OPEN !in g && CLOSE !in g && COMMA in g
    ensures Search(a + ([OPEN] + (g + ([CLOSE] + b)))) == Some(Found(a, g, b))
    decreases |a|
  {
    var r := g + ([CLOSE] + b);
    var s := a + ([OPEN] + r);
    if a == [] {
      Unit([OPEN] + r);
      assert s[1..] == r;
      BraceBehind(g, CLOSE, b);
      assert ([CLOSE] + b)[1..] == b;
    } else {
      FirstOf(a, [OPEN] + r);
      BraceBehind(a[1..], OPEN, r);
      Finds(a[1..], g, b);
    }
    hide UpToBrace;
  }

  // ---- the options are found ----

  lemma {:induction false} SplitBehind(x: seq<byte>, s: seq<byte>, ch: byte)
    requires ch !in x
    ensures Split(x + ([ch] + s), ch) == [x] + Split(s, ch)
    ensures Split(x, ch) == [x]
    decreases |x|
  {
    if x == [] {
      Unit([ch] + s);
      assert ([ch] + s)[1..] == s;
    } else {
      FirstOf(x, [ch] + s);
      FirstOf(x, []);
      SplitBehind(x[1..], s, ch);
      assert ([x[1..]] + Split(s, ch))[1..] == Split(s, ch);
      assert [x[1..]][1..] == [];
      hide Split;
    }
  }

  function Texts(os: seq<Branch>): (r: seq<seq<byte>>)
    ensures |r| == |os| && forall i :: 0 <= i < |os| ==> r[i] == Written(os[i].pieces)
  {
    if os == [] then [] else [Written(os[0].pieces)] + Texts(os[1..])
  }

  lemma {:induction false} SplitOptions(os: seq<Branch>)
    requires os != [] && PlainOptions(os) && BalancedOptions(os)
    ensures Split(WrittenOptions(os), COMMA) == Texts(os)
  {
    PlainText(os[0].pieces, true);
    FirstOf(os, []);
    if |os| == 1 {
      SplitBehind(Written(os[0].pieces), [], COMMA);
      assert Texts(os[1..]) == [];
    } else {
      SplitBehind(Written(os[0].pieces), WrittenOptions(os[1..]), COMMA);
      SplitOptions(os[1..]);
    }
    hide Split, Written;
  }

  // ---- the meaning of one choice ----

  lemma HeadMeans(p: Piece, ps: seq<Piece>, u: seq<byte>, v: seq<byte>)
    requires MeansPiece(p, u) && Means(ps, v)
    ensures Means([p] + ps, u + v)
  {
    assert ([p] + ps)[1..] == ps;
    Parts(u, v);
    assert 0 <= |u| <= |u + v| && MeansPiece(p, (u + v)[..|u|]) && Means(ps, (u + v)[|u|..]);
    hide MeansPiece;
  }

  lemma HeadOf(ps: seq<Piece>, w: seq<byte>) returns (u: seq<byte>, v: seq<byte>)
    requires ps != [] && Means(ps, w)
    ensures w == u + v && MeansPiece(ps[0], u) && Means(ps[1..], v)
  {
    var k :| 0 <= k <= |w| && MeansPiece(ps[0], w[..k]) && Means(ps[1..], w[k..]);
    return w[..k], w[k..];
  }

  lemma {:induction false} MeansJoined(ps: seq<Piece>, qs: seq<Piece>, u: seq<byte>, v: seq<byte>)
    requires Means(ps, u) && Means(qs, v)
    ensures Means(ps + qs, u + v)
    decreases ps
  {
    if ps == [] {
      Unit(qs);
      Unit(v);
    } else {
      FirstOf(ps, qs);
      hide *;
      var x, y := HeadOf(ps, u);
      MeansJoined(ps[1..], qs, y, v);
      HeadMeans(ps[0], ps[1..] + qs, x, y + v);
      Associate(x, y, v);
    }
  }

  lemma {:induction false} MeansCut(ps: seq<Piece>, qs: seq<Piece>, w: seq<byte>) returns (u: seq<byte>, v: seq<byte>)
    requires Means(ps + qs, w)
    ensures w == u + v && Means(ps, u) && Means(qs, v)
    decreases ps
  {
    if ps == [] {
      Unit(qs);
      Unit(w);
      return [], w;
    }
    FirstOf(ps, qs);
    hide *;
    var x, y := HeadOf(ps + qs, w);
    u, v := MeansCut(ps[1..], qs, y);
    HeadMeans(ps[0], ps[1..], x, u);
    Associate(x, u, v);
    u := x + u;
  }

  lemma {:induction false} OneOf(os: seq<Branch>, w: seq<byte>) returns (o: Branch)
    requires MeansOne(os, w)
    ensures o in os && Means(o.pieces, w)
  {
    if Means(os[0].pieces, w) {
      o := os[0];
    } else {
      o := OneOf(os[1..], w);
    }
  }

  lemma {:induction false} AnyOf(os: seq<Branch>, o: Branch, w: seq<byte>)
    requires o in os && Means(o.pieces, w)
    ensures MeansOne(os, w)
  {
    if os[0] != o {
      AnyOf(os[1..], o, w);
    }
  }

  // A string that the pattern stands for is one of the pattern with some option in place of the group.
  lemma {:induction false} Choose(ps: seq<Piece>, w: seq<byte>) returns (o: Branch)
    requires !Plain(ps) && First(ps) != [] && Means(ps, w)
    ensures o in First(ps) && Means(Fill(ps, o.pieces), w)
    decreases ps
  {
    var u, v := HeadOf(ps, w);
    var rest := ps[1..];
    hide Means;
    match ps[0]
    case Char(_) =>
      o := Choose(rest, v);
      HeadMeans(ps[0], Fill(rest, o.pieces), u, v);
    case Group(os) =>
      if PlainOptions(os) {
        o := OneOf(os, u);
        MeansJoined(o.pieces, rest, u, v);
      } else {
        o := ChooseOption(os, u);
        HeadMeans(Group(FillOptions(os, o.pieces)), rest, u, v);
      }
  }

  lemma {:induction false} ChooseOption(os: seq<Branch>, w: seq<byte>) returns (o: Branch)
    requires !PlainOptions(os) && FirstOfOptions(os) != [] && MeansOne(os, w)
    ensures o in FirstOfOptions(os) && MeansOne(FillOptions(os, o.pieces), w)
    decreases os
  {
    hide Means;
    var rest := os[1..];
    o := FirstOfOptions(os)[0];
    if Plain(os[0].pieces) {
      if !Means(os[0].pieces, w) {
        o := ChooseOption(rest, w);
      }
      assert FillOptions(os, o.pieces)[1..] == FillOptions(rest, o.pieces);
    } else {
      if Means(os[0].pieces, w) {
        o := Choose(os[0].pieces, w);
      }
      assert FillOptions(os, o.pieces)[1..] == rest;
    }
  }

  // And with any option it stands only for strings of the pattern.
  lemma {:induction false} Chosen(ps: seq<Piece>, o: Branch, w: seq<byte>)
    requires !Plain(ps) && o in First(ps) && Means(Fill(ps, o.pieces), w)
    ensures Means(ps, w)
    decreases ps
  {
    hide Means;
    var rest := ps[1..];
    FirstOf(ps, []);
    match ps[0]
    case Char(_) =>
      var u, v := HeadOf(Fill(ps, o.pieces), w);
      assert Fill(ps, o.pieces)[1..] == Fill(rest, o.pieces);
      Chosen(rest, o, v);
      HeadMeans(ps[0], rest, u, v);
    case Group(os) =>
      var u, v;
      if PlainOptions(os) {
        u, v := MeansCut(o.pieces, rest, w);
        AnyOf(os, o, u);
      } else {
        u, v := HeadOf(Fill(ps, o.pieces), w);
        assert Fill(ps, o.pieces)[1..] == rest;
        ChosenOption(os, o, u);
      }
      HeadMeans(ps[0], rest, u, v);
  }

  lemma {:induction false} ChosenOption(os: seq<Branch>, o: Branch, w: seq<byte>)
    requires !PlainOptions(os) && o in FirstOfOptions(os) && MeansOne(FillOptions(os, o.pieces), w)
    ensures MeansOne(os, w)
    decreases os
  {
    hide Means;
    var rest := os[1..];
    if Plain(os[0].pieces) {
      assert FillOptions(os, o.pieces)[1..] == FillOptions(rest, o.pieces);
      if !Means(os[0].pieces, w) {
        ChosenOption(rest, o, w);
      }
    } else {
      assert FillOptions(os, o.pieces)[1..] == rest;
      if Means(Fill(os[0].pieces, o.pieces), w) {
        Chosen(os[0].pieces, o, w);
      }
    }
  }

  // ---- filling keeps the pattern balanced ----

  lemma {:induction false} BalancedBoth(ps: seq<Piece>, qs: seq<Piece>, inside: bool)
    requires Balanced(ps, true) && Balanced(qs, inside)
    ensures Balanced(ps + qs, inside)
  {
    if ps == [] {
      Unit(qs);
    } else {
      FirstOf(ps, qs);
      BalancedBoth(ps[1..], qs, inside);
    }
  }

  lemma {:induction false} BalancedOne(os: seq<Branch>, o: Branch)
    requires BalancedOptions(os) && o in os
    ensures Balanced(o.pieces, true)
  {
    if os[0] != o {
      BalancedOne(os[1..], o);
    }
  }

  lemma {:induction false} FillBalanced(ps: seq<Piece>, o: Branch, inside: bool)
    requires !Plain(ps) && Balanced(ps, inside) && Balanced(o.pieces, true)
    ensures Balanced(Fill(ps, o.pieces), inside)
    decreases ps
  {
    var rest, filled := ps[1..], Fill(ps, o.pieces);
    match ps[0]
    case Char(_) =>
      FillBalanced(rest, o, inside);
      assert filled[1..] == Fill(rest, o.pieces);
    case Group(os) =>
      if PlainOptions(os) {
        BalancedBoth(o.pieces, rest, inside);
      } else {
        FillOptionsBalanced(os, o);
        assert filled[1..] == rest;
      }
  }

  lemma {:induction false} FillOptionsBalanced(os: seq<Branch>, o: Branch)
    requires !PlainOptions(os) && BalancedOptions(os) && Balanced(o.pieces, true)
    ensures BalancedOptions(FillOptions(os, o.pieces))
    decreases os
  {
    var rest, filled := os[1..], FillOptions(os, o.pieces);
    if Plain(os[0].pieces) {
      FillOptionsBalanced(rest, o);
      assert filled[1..] == FillOptions(rest, o.pieces);
    } else {
      FillBalanced(os[0].pieces, o, true);
      assert filled[1..] == rest;
    }
  }

  // ---- the theorem ----

  lemma {:induction false} PlainMeans(ps: seq<Piece>, w: seq<byte>)
    requires Plain(ps)
    ensures Means(ps, w) <==> w == Written(ps)
    decreases ps
  {
    if ps != [] {
      var c, rest := ps[0].c, ps[1..];
      FirstOf(ps, []);
      if Means(ps, w) {
        var u, v := HeadOf(ps, w);
        PlainMeans(rest, v);
      }
      if w == Written(ps) {
        PlainMeans(rest, Written(rest));
        HeadMeans(ps[0], rest, [c], Written(rest));
      }
      hide Means;
    }
  }

  // The search in what is written for a pattern with groups.
  lemma FoundIn(ps: seq<Piece>)
    requires !Plain(ps) && Balanced(ps, false)
    ensures Search(Written(ps)) == Some(Found(Around(ps).0, WrittenOptions(First(ps)), Around(ps).1))
    ensures Split(WrittenOptions(First(ps)), COMMA) == Texts(First(ps))
  {
    var (a, b) := Around(ps);
    var g := WrittenOptions(First(ps));
    WrittenAround(ps, []);
    assert Written(ps) == a + (([OPEN] + (g + [CLOSE])) + b);
    hide *;
    AroundOpens(ps, false);
    PlainOptionsText(First(ps));
    Finds(a, g, b);
    Associate([OPEN], g + [CLOSE], b);
    Associate(g, [CLOSE], b);
    SplitOptions(First(ps));
  }

  lemma {:induction false} ExpandedAny(p: seq<byte>, options: seq<seq<byte>>, w: seq<byte>)
    requires Search(p).Some? && forall o :: o in options ==> o in Split(Search(p).value.group, COMMA)
    ensures w in ExpandedAll(p, options)
            <==> exists i :: 0 <= i < |options| && w in Expanded(With(Search(p).value, options[i]))
    decreases |options|
  {
    if options != [] {
      var first, rest := Expanded(With(Search(p).value, options[0])), options[1..];
      ExpandedAny(p, rest, w);
      assert ExpandedAll(p, options) == first + ExpandedAll(p, rest);
      hide *;
      assert w in ExpandedAll(p, options) <==> w in first || w in ExpandedAll(p, rest);
      if i :| 0 <= i < |options| && w in Expanded(With(Search(p).value, options[i])) && i > 0 {
        assert rest[i - 1] == options[i];
      }
      if i :| 0 <= i < |rest| && w in Expanded(With(Search(p).value, rest[i])) {
        assert options[i + 1] == rest[i];
      }
    }
  }

  /** A pattern is expanded to exactly the strings it stands for. */
  lemma {:induction false} ExpandsToMeaning(ps: seq<Piece>, w: seq<byte>)
    requires Balanced(ps, false)
    ensures w in Expanded(Written(ps)) <==> Means(ps, w)
    decreases Opened(Written(ps))
  {
    var p := Written(ps);
    if Plain(ps) {
      PlainText(ps, false);
      PlainMeans(ps, w);
      assert Search(p).None?;
    } else {
      var os := First(ps);
      FoundIn(ps);
      var f := Search(p).value;
      ExpandedAny(p, Texts(os), w);
      assert Expanded(p) == ExpandedAll(p, Texts(os));
      hide *;
      forall o | o in os
        ensures w in Expanded(With(f, Written(o.pieces))) <==> Means(Fill(ps, o.pieces), w)
      {
        Filled(ps, o, f);
        ExpandsToMeaning(Fill(ps, o.pieces), w);
      }
      if Means(ps, w) {
        AroundOpens(ps, false);
        var o := Choose(ps, w);
        var i :| 0 <= i < |os| && os[i] == o;
        assert w in Expanded(With(f, Texts(os)[i]));
      }
      if i :| 0 <= i < |os| && w in Expanded(With(f, Texts(os)[i])) {
        Chosen(ps, os[i], w);
      }
    }
  }

  lemma Filled(ps: seq<Piece>, o: Branch, f: Found)
    requires !Plain(ps) && Balanced(ps, false) && o in First(ps) && Search(Written(ps)) == Some(f)
    ensures With(f, Written(o.pieces)) == Written(Fill(ps, o.pieces)) && Balanced(Fill(ps, o.pieces), false)
    ensures Opened(Written(Fill(ps, o.pieces))) < Opened(Written(ps))
  {
    FoundIn(ps);
    WrittenAround(ps, o.pieces);
    AroundOpens(ps, false);
    BalancedOne(First(ps), o);
    FillBalanced(ps, o, false);
    var i :| 0 <= i < |First(ps)| && First(ps)[i] == o;
    assert Texts(First(ps))[i] == Written(o.pieces);
    FewerOpen(Written(ps), Written(o.pieces));
    var (a, b) := Around(ps);
    assert With(f, Written(o.pieces)) == (a + Written(o.pieces)) + b;
    assert Written(Fill(ps, o.pieces)) == a + (Written(o.pieces) + b);
    hide *;
    Associate(a, Written(o.pieces), b);
  }
}
