/**
 The axes of a location step (XPath 1.0, section 2.2): what the walks over the tree collect.
 */
module XPathAxes {
  import opened Options
  import opened Sequences

  datatype Node = Element(name: string, nodes: seq<Node>) | Other(content: string)

  // A node of the tree: the positions that lead to it from the root.
  type Path = seq<nat>

  // ---- the tree ----

  predicate Valid(t: Node, p: Path)
    decreases |p|, 0
  {
    p == [] || (Valid(t, Up(p)) && At(t, Up(p)).Element? && p[|p| - 1] < |At(t, Up(p)).nodes|)
  }

  function Up(p: Path): (r: Path)
    requires p != []
    ensures |r| == |p| - 1
  {
    p[..|p| - 1]
  }

  function At(t: Node, p: Path): Node
    requires Valid(t, p)
    decreases |p|, 1
  {
    if p == [] then t else At(t, Up(p)).nodes[p[|p| - 1]]
  }

  predicate IsElement(t: Node, p: Path)
  {
    Valid(t, p) && At(t, p).Element?
  }

  // `parent`, `prev` and `next`; there is none in an empty option.

  function Parent(p: Path): Option<Path>
  {
    if p == [] then None else Some(Up(p))
  }

  function Prev(p: Path): Option<Path>
  {
    if p == [] || p[|p| - 1] == 0 then None else Some(Up(p) + [p[|p| - 1] - 1])
  }

  function Next(t: Node, p: Path): Option<Path>
    requires Valid(t, p)
  {
    if p == [] || p[|p| - 1] + 1 == |At(t, Up(p)).nodes| then None else Some(Up(p) + [p[|p| - 1] + 1])
  }

  // ---- where two nodes stand to each other ----

  // `p` is a descendant of `q`.
  predicate Below(p: Path, q: Path)
  {
    |q| < |p| && p[..|q|] == q
  }

  // `p` comes before `q`, and neither contains the other.
  ghost predicate Precedes(p: Path, q: Path)
  {
    exists k: nat :: DiffersAt(p, q, k) && p[k] < q[k]
  }

  predicate DiffersAt(p: Path, q: Path, k: nat)
  {
    k < |p| && k < |q| && p[..k] == q[..k] && p[k] != q[k]
  }

  // Document order.
  ghost predicate Before(p: Path, q: Path)
  {
    Below(q, p) || Precedes(p, q)
  }

  lemma {:induction false} FirstDifference(p: Path, q: Path) returns (k: nat)
    ensures k <= |p| && k <= |q| && p[..k] == q[..k]
    ensures k < |p| && k < |q| ==> p[k] != q[k]
  {
    k := 0;
    while k < |p| && k < |q| && p[k] == q[k]
      invariant k <= |p| && k <= |q| && p[..k] == q[..k]
    {
      k := k + 1;
    }
  }

  lemma Agree(p: Path, q: Path, k: nat, j: nat)
    ensures j < k && k <= |p| && k <= |q| && p[..k] == q[..k] ==> p[j] == q[j]
  {
    if j < k && k <= |p| && k <= |q| {
      assert p[j] == p[..k][j] && q[j] == q[..k][j];
    }
  }

  /** Two nodes stand to each other in exactly one of five ways. */
  lemma FiveWays(p: Path, q: Path)
    ensures p == q || Below(p, q) || Below(q, p) || Precedes(p, q) || Precedes(q, p)
    ensures p == q ==> !Below(p, q) && !Below(q, p) && !Precedes(p, q) && !Precedes(q, p)
    ensures Below(p, q) ==> !Below(q, p) && !Precedes(p, q) && !Precedes(q, p)
    ensures Precedes(p, q) ==> !Precedes(q, p)
  {
    var k := FirstDifference(p, q);
    if k < |p| && k < |q| {
      assert DiffersAt(p, q, k) && DiffersAt(q, p, k);
    } else {
      assert k == |p| ==> p[..k] == p;
      assert k == |q| ==> q[..k] == q;
    }
    forall j: nat | DiffersAt(p, q, j)
      ensures j == k && k < |p| && k < |q|
    {
      Agree(p, q, j, k);
      Agree(p, q, k, j);
    }
    assert forall j: nat :: DiffersAt(q, p, j) ==> DiffersAt(p, q, j);
  }

  // ---- collecting ----

  // A list of nodes in document order; no node comes twice.
  ghost predicate InOrder(ps: seq<Path>)
  {
    forall i, j :: 0 <= i < j < |ps| ==> Before(ps[i], ps[j])
  }

  // What a walk over the content of `context` visits.
  predicate Inside(t: Node, context: Path, deep: bool, elementsOnly: bool, p: Path)
  {
    && Valid(t, p) && Below(p, context) && (deep || |p| == |context| + 1) && (elementsOnly ==> At(t, p).Element?)
  }

  lemma ChildOf(context: Path, i: nat, p: Path)
    ensures var child := context + [i];
      && Up(child) == context && Below(child, context) && child[|context|] == i
      && (Below(p, context) && p[|context|] == i <==> p == child || Below(p, child))
  {
    var child := context + [i];
    if Below(p, context) && p[|context|] == i {
      assert p[..|child|] == child;
      if |p| == |child| {
        assert p == child;
      }
    }
    if Below(p, child) {
      assert p[..|context|] == p[..|child|][..|context|];
    }
  }

  lemma Ordered(context: Path, p: Path, q: Path)
    ensures Below(p, context) && Below(q, context) && p[|context|] < q[|context|] ==> Before(p, q)
  {
    if Below(p, context) && Below(q, context) && p[|context|] < q[|context|] {
      assert DiffersAt(p, q, |context|);
    }
  }

  lemma AppendInOrder(ps: seq<Path>, qs: seq<Path>)
    requires InOrder(ps) && InOrder(qs) && forall p, q :: p in ps && q in qs ==> Before(p, q)
    ensures InOrder(ps + qs)
  {
    var r := ps + qs;
    forall i, j | 0 <= i < j < |r| ensures Before(r[i], r[j]) {
      if i < |ps| && |ps| <= j {
        assert ps[i] in ps && qs[j - |ps|] in qs;
      }
    }
  }

  // What a walk visits in the `i`-th child and below.
  predicate InChild(t: Node, context: Path, i: nat, deep: bool, elementsOnly: bool, p: Path)
  {
    Inside(t, context, deep, elementsOnly, p) && p[|context|] == i
  }

  lemma InChildIs(t: Node, context: Path, i: nat, deep: bool, elementsOnly: bool, p: Path)
    requires IsElement(t, context) && i < |At(t, context).nodes|
    ensures var child := context + [i];
      InChild(t, context, i, deep, elementsOnly, p)
      <==> (p == child && (elementsOnly ==> At(t, child).Element?))
           || (deep && IsElement(t, child) && Inside(t, child, true, elementsOnly, p))
  {
    ChildOf(context, i, p);
    ChildOf(context, i, context + [i]);
    if Valid(t, p) && Below(p, context + [i]) {
      ElementAbove(t, p, |context| + 1);
    }
  }

  // What contains a node is an element.
  lemma {:induction false} ElementAbove(t: Node, p: Path, k: nat)
    requires Valid(t, p) && k < |p|
    ensures IsElement(t, p[..k])
  {
    if k + 1 < |p| {
      ElementAbove(t, Up(p), k);
      assert Up(p)[..k] == p[..k];
    }
  }

  // `iterate_children`: the nodes in the content of an element that satisfy the test are added to
  // the list; a node that is in the list already is skipped with all it contains.
  method IterateChildren(t: Node, context: Path, s: seq<Path>, deep: bool, pred: Path -> bool, elementsOnly: bool)
      returns (r: seq<Path>, ghost added: seq<Path>)
    requires IsElement(t, context)
    requires forall p :: p in s ==> !Below(p, context)
    ensures r == s + added && InOrder(added)
    ensures forall p :: p in added <==> Inside(t, context, deep, elementsOnly, p) && pred(p)
    ensures forall p :: p in r <==> p in s || (Inside(t, context, deep, elementsOnly, p) && pred(p))
    decreases At(t, context), 1
  {
    r, added := s, [];
    Unit(s);
    var nodes := At(t, context).nodes;
    var i := 0;
    while i < |nodes|
      invariant i <= |nodes|
      invariant r == s + added && InOrder(added)
      invariant forall p :: p in added <==>
                  exists j: nat :: j < i && InChild(t, context, j, deep, elementsOnly, p) && pred(p)
    {
      r, added := IterateChild(t, context, i, s, added, r, deep, pred, elementsOnly);
      i := i + 1;
    }
    forall p ensures p in added <==> Inside(t, context, deep, elementsOnly, p) && pred(p) {
      if Inside(t, context, deep, elementsOnly, p) {
        ElementAbove(t, p, |context|);
        ChildIndex(t, p, |context|);
        assert InChild(t, context, p[|context|], deep, elementsOnly, p);
      }
    }
  }

  lemma {:induction false} ChildIndex(t: Node, p: Path, k: nat)
    requires Valid(t, p) && k < |p|
    ensures IsElement(t, p[..k]) && p[k] < |At(t, p[..k]).nodes|
  {
    if k + 1 < |p| {
      ChildIndex(t, Up(p), k);
      assert Up(p)[..k] == p[..k];
    }
  }

  // One turn of the loop.
  method IterateChild(t: Node, context: Path, i: nat, ghost s: seq<Path>, ghost before: seq<Path>, list: seq<Path>,
                      deep: bool, pred: Path -> bool, elementsOnly: bool)
      returns (r: seq<Path>, ghost added: seq<Path>)
    requires IsElement(t, context) && i < |At(t, context).nodes|
    requires forall p :: p in s ==> !Below(p, context)
    requires list == s + before && InOrder(before)
    requires forall p :: p in before ==> exists j: nat :: j < i && InChild(t, context, j, deep, elementsOnly, p)
    ensures r == s + added && InOrder(added)
    ensures forall p :: p in added <==> p in before || (InChild(t, context, i, deep, elementsOnly, p) && pred(p))
    decreases At(t, context), 0
  {
    var child := context + [i];
    var node := At(t, context).nodes[i];
    ChildOf(context, i, child);
    NotYet(t, context, i, s, before, deep, elementsOnly);
    InEachChild(t, context, i, deep, elementsOnly);
    hide InChild, InOrder, Inside, Below, Valid;
    r, added := list, before;
    if (elementsOnly ==> node.Element?) && child !in list {
      ghost var more: seq<Path> := [];
      if pred(child) {
        r := r + [child];
        more := [child];
      }
      if deep && node.Element? {
        ghost var deeper;
        r, deeper := IterateChildren(t, child, r, true, pred, elementsOnly);
        BelowInOrder(t, child, more, deeper, elementsOnly);
        more := more + deeper;
      }
      assert forall p :: p in more <==> InChild(t, context, i, deep, elementsOnly, p) && pred(p);
      Associate(s, before, more);
      ChildInOrder(t, context, i, before, more, deep, elementsOnly);
      added := before + more;
    }
  }

  lemma InEachChild(t: Node, context: Path, i: nat, deep: bool, elementsOnly: bool)
    requires IsElement(t, context) && i < |At(t, context).nodes|
    ensures var (child, node) := (context + [i], At(t, context).nodes[i]);
      forall p :: InChild(t, context, i, deep, elementsOnly, p)
        <==> ((p == child && (elementsOnly ==> node.Element?))
              || (deep && node.Element? && Inside(t, child, true, elementsOnly, p)))
  {
    var (child, node) := (context + [i], At(t, context).nodes[i]);
    hide *;
    forall p
      ensures InChild(t, context, i, deep, elementsOnly, p)
        <==> ((p == child && (elementsOnly ==> node.Element?))
              || (deep && node.Element? && Inside(t, child, true, elementsOnly, p)))
    {
      InChildIs(t, context, i, deep, elementsOnly, p);
    }
  }

  // Nothing in or below the child has been visited.
  lemma NotYet(t: Node, context: Path, i: nat, s: seq<Path>, before: seq<Path>, deep: bool, elementsOnly: bool)
    requires forall p :: p in s ==> !Below(p, context)
    requires forall p :: p in before ==> exists j: nat :: j < i && InChild(t, context, j, deep, elementsOnly, p)
    ensures forall p :: p in s + before ==> p != context + [i] && !Below(p, context + [i])
  {
    forall p | p in s + before ensures p != context + [i] && !Below(p, context + [i]) {
      ChildOf(context, i, p);
    }
  }

  lemma BelowInOrder(t: Node, child: Path, first: seq<Path>, deeper: seq<Path>, elementsOnly: bool)
    requires (first == [] || first == [child]) && InOrder(deeper)
    requires forall p :: p in deeper ==> Inside(t, child, true, elementsOnly, p)
    ensures InOrder(first + deeper)
  {
    AppendInOrder(first, deeper);
  }

  lemma ChildInOrder(t: Node, context: Path, i: nat, before: seq<Path>, more: seq<Path>, deep: bool, elementsOnly: bool)
    requires InOrder(before) && InOrder(more)
    requires forall p :: p in before ==> exists j: nat :: j < i && InChild(t, context, j, deep, elementsOnly, p)
    requires forall p :: p in more ==> InChild(t, context, i, deep, elementsOnly, p)
    ensures InOrder(before + more)
  {
    forall p, q | p in before && q in more ensures Before(p, q) {
      Ordered(context, p, q);
    }
    AppendInOrder(before, more);
  }

  // ---- the axes ----

  datatype AxisType =
    | ParentAxis | Ancestor | AncestorOrSelf | Self | Child | Descendant | DescendantOrSelf
    | Following | FollowingSibling | Preceding | PrecedingSibling

  predicate Distinct(ps: seq<Path>)
  {
    forall i, j :: 0 <= i < j < |ps| ==> ps[i] != ps[j]
  }

  // A node to one side of `c`, or a sibling on one side, apart from the direction.
  predicate Aside(t: Node, c: Path, sibling: bool, elementsOnly: bool, p: Path)
  {
    Valid(t, p) && (elementsOnly ==> At(t, p).Element?) && (sibling ==> p != [] && c != [] && Up(p) == Up(c))
  }

  // The walks along one side pass over what is no element, unless it is inside an element they come to.
  predicate PassedOver(t: Node, c: Path, sibling: bool, p: Path)
  {
    Valid(t, p) && !At(t, p).Element? && p != [] && (sibling || Below(c, Up(p)))
  }

  // What a walk along one side sees, apart from the direction.
  predicate Seen(t: Node, c: Path, sibling: bool, elementsOnly: bool, p: Path)
  {
    && Valid(t, p) && p != [] && c != []
    && (At(t, p).Element? || (!elementsOnly && !sibling && !Below(c, Up(p))))
    && (sibling ==> Up(p) == Up(c))
  }

  // What is before, or behind, the `x`-th child of `u`.
  lemma AroundChild(u: Path, x: nat, p: Path)
    ensures Precedes(p, u + [x]) <==> Precedes(p, u) || (Below(p, u) && p[|u|] < x)
    ensures Precedes(u + [x], p) <==> Precedes(u, p) || (Below(p, u) && p[|u|] > x)
  {
    forall k: nat ensures DiffersAt(p, u + [x], k) <==> DiffersAt(p, u, k) || (k == |u| && Below(p, u) && p[|u|] != x) {
      DifferAtChild(u, x, p, k);
    }
    assert forall k: nat :: DiffersAt(u + [x], p, k) <==> DiffersAt(p, u + [x], k);
    assert forall k: nat :: DiffersAt(u, p, k) <==> DiffersAt(p, u, k);
  }

  lemma DifferAtChild(u: Path, x: nat, p: Path, k: nat)
    ensures DiffersAt(p, u + [x], k) <==> DiffersAt(p, u, k) || (k == |u| && Below(p, u) && p[|u|] != x)
  {
    if k <= |u| {
      assert (u + [x])[..k] == u[..k] && u[..|u|] == u;
    }
  }

  lemma UpAndLast(n: Path)
    requires n != []
    ensures n == Up(n) + [n[|n| - 1]]
  {
  }

  // `p` lies to the right of `n`, or to the left.
  ghost predicate Side(right: bool, p: Path, n: Path)
  {
    if right then Precedes(n, p) else Precedes(p, n)
  }

  // `next` or `prev`
  function Neighbour(t: Node, right: bool, n: Path): Option<Path>
    requires Valid(t, n)
  {
    if right then Next(t, n) else Prev(n)
  }

  lemma SeenIs(t: Node, right: bool, c: Path, sibling: bool, elementsOnly: bool, p: Path)
    requires Side(right, p, c)
    ensures Seen(t, c, sibling, elementsOnly, p)
      <==> Aside(t, c, sibling, elementsOnly, p) && !PassedOver(t, c, sibling, p)
  {
    NothingAside(p);
    NothingAside(c);
    hide Precedes;
  }

  lemma SeenAside(t: Node, c: Path, elementsOnly: bool)
    ensures forall right, sibling, p :: Side(right, p, c) ==>
              (Seen(t, c, sibling, elementsOnly, p)
               <==> Aside(t, c, sibling, elementsOnly, p) && !PassedOver(t, c, sibling, p))
  {
    forall right, sibling, p | Side(right, p, c)
      ensures Seen(t, c, sibling, elementsOnly, p)
        <==> Aside(t, c, sibling, elementsOnly, p) && !PassedOver(t, c, sibling, p)
    {
      SeenIs(t, right, c, sibling, elementsOnly, p);
    }
    hide *;
  }

  // What lies on one side of a node is what is in and below its neighbour on that side, and what
  // lies on that side of the neighbour.
  lemma SideStep(t: Node, right: bool, n: Path, p: Path)
    requires Valid(t, n) && Valid(t, p)
    ensures match Neighbour(t, right, n)
      case None => n != [] ==> (Side(right, p, n) <==> Side(right, p, Up(n)))
      case Some(m) => Side(right, p, n) <==> p == m || Below(p, m) || Side(right, p, m)
  {
    if n != [] {
      if right {
        Rightwards(n, p);
        Rightmost(t, n, p);
      } else {
        Leftwards(n, p);
      }
    }
    hide Precedes, Below, Valid, At;
  }

  lemma Leftwards(n: Path, p: Path)
    requires n != []
    ensures n[|n| - 1] == 0 ==> (Precedes(p, n) <==> Precedes(p, Up(n)))
    ensures n[|n| - 1] > 0 ==>
      var m := Up(n) + [n[|n| - 1] - 1]; Precedes(p, n) <==> p == m || Below(p, m) || Precedes(p, m)
  {
    var (u, x) := (Up(n), n[|n| - 1]);
    UpAndLast(n);
    AroundChild(u, x, p);
    if x > 0 {
      AroundChild(u, x - 1, p);
      ChildOf(u, x - 1, p);
    }
    hide *;
  }

  lemma Rightwards(n: Path, p: Path)
    requires n != []
    ensures var m := Up(n) + [n[|n| - 1] + 1]; Precedes(n, p) <==> p == m || Below(p, m) || Precedes(m, p)
  {
    UpAndLast(n);
    RightOf(Up(n), n[|n| - 1], n[|n| - 1] + 1, p);
  }

  lemma RightOf(u: Path, x: nat, y: nat, p: Path)
    requires y == x + 1
    ensures Precedes(u + [x], p) <==> p == u + [y] || Below(p, u + [y]) || Precedes(u + [y], p)
  {
    AroundChild(u, x, p);
    AroundChild(u, y, p);
    ChildOf(u, y, p);
    hide *;
  }

  lemma Rightmost(t: Node, n: Path, p: Path)
    requires Valid(t, n) && n != [] && Valid(t, p)
    ensures n[|n| - 1] + 1 == |At(t, Up(n)).nodes| ==> (Precedes(n, p) <==> Precedes(Up(n), p))
  {
    UpAndLast(n);
    AroundChild(Up(n), n[|n| - 1], p);
    if Below(p, Up(n)) {
      ChildIndex(t, p, |n| - 1);
      assert p[..|n| - 1] == Up(n);
    }
    hide Precedes, Below, Valid, At;
  }

  lemma NeighbourOf(t: Node, right: bool, n: Path)
    requires Valid(t, n) && Neighbour(t, right, n).Some?
    ensures var m := Neighbour(t, right, n).value;
      && n != [] && m != [] && Up(m) == Up(n) && Valid(t, m) && Side(right, m, n)
      && (if right then m[|m| - 1] > n[|n| - 1] else m[|m| - 1] < n[|n| - 1])
  {
    var m := Neighbour(t, right, n).value;
    assert Up(m) == Up(n);
    UpAndLast(n);
    UpAndLast(m);
    AroundChild(Up(n), n[|n| - 1], m);
    ChildOf(Up(n), m[|m| - 1], m);
    hide Precedes;
  }

  lemma NothingAside(p: Path)
    ensures !Precedes(p, []) && !Precedes([], p)
  {
  }

  // The walk along one side of `c` has come to `n`.
  ghost predicate Walked(t: Node, right: bool, c: Path, sibling: bool, n: Path)
  {
    && Valid(t, n) && (n == [] || Below(c, Up(n)))
    && (sibling ==> c != [] ==> n != [] && Up(n) == Up(c))
    && forall p :: Valid(t, p) && Side(right, p, n) ==> Side(right, p, c)
  }

  // What the neighbour adds to the walk.
  predicate Visits(t: Node, m: Path, sibling: bool, elementsOnly: bool, p: Path)
  {
    IsElement(t, m) && (p == m || (!sibling && Inside(t, m, true, elementsOnly, p)))
  }

  lemma SideTurn(t: Node, right: bool, c: Path, sibling: bool, elementsOnly: bool, n: Path, m: Path, p: Path)
    requires Walked(t, right, c, sibling, n) && Neighbour(t, right, n) == Some(m) && Valid(t, p)
    ensures Seen(t, c, sibling, elementsOnly, p) && Side(right, p, c) && !Side(right, p, m)
      <==> (Seen(t, c, sibling, elementsOnly, p) && Side(right, p, c) && !Side(right, p, n))
           || Visits(t, m, sibling, elementsOnly, p)
    ensures Visits(t, m, sibling, elementsOnly, p) || p == m || Below(p, m) ==> Side(right, p, n)
  {
    SideStep(t, right, n, p);
    NeighbourOf(t, right, n);
    FiveWays(p, m);
    if p == m {
      hide Precedes, Valid, At;
    } else if Below(p, m) {
      BelowNeighbour(t, right, c, sibling, elementsOnly, m, p);
      hide Precedes, Seen, Visits, Valid, At;
    } else {
      hide Precedes, Seen, Valid, At;
    }
  }

  lemma BelowNeighbour(t: Node, right: bool, c: Path, sibling: bool, elementsOnly: bool, m: Path, p: Path)
    requires Valid(t, p) && Below(p, m) && m != [] && Side(right, m, c)
    requires sibling ==> c != [] && Up(m) == Up(c)
    ensures Seen(t, c, sibling, elementsOnly, p) <==> Visits(t, m, sibling, elementsOnly, p)
  {
    ElementAbove(t, p, |m|);
    FiveWays(m, c);
    BelowTwice(c, p, m);
    hide Precedes;
  }

  lemma BelowTwice(c: Path, p: Path, m: Path)
    requires p != []
    ensures Below(p, m) && Below(c, Up(p)) ==> Below(c, m)
  {
    if Below(p, m) && Below(c, Up(p)) {
      assert Up(p)[..|m|] == m && c[..|Up(p)|][..|m|] == c[..|m|];
    }
  }

  // The neighbour is an element that is collected, with all it contains unless only siblings are
  // asked for.
  method Visit(t: Node, e: Path, s: seq<Path>, sibling: bool, pred: Path -> bool, elementsOnly: bool)
      returns (r: seq<Path>, ghost added: seq<Path>)
    requires Valid(t, e) && forall p :: p in s ==> p != e && !Below(p, e)
    ensures r == s + added && InOrder(added)
    ensures forall p :: p in added <==> Visits(t, e, sibling, elementsOnly, p) && pred(p)
  {
    r, added := s, [];
    Unit(s);
    if !At(t, e).Element? {
      return;
    }
    if pred(e) {
      r := r + [e];
      added := [e];
    }
    if !sibling {
      ghost var deeper;
      r, deeper := IterateChildren(t, e, r, true, pred, elementsOnly);
      BelowInOrder(t, e, added, deeper, elementsOnly);
      Associate(s, added, deeper);
      added := added + deeper;
    }
  }

  // The nodes that the walk has passed when it has come to `n`.
  ghost predicate Passed(t: Node, right: bool, c: Path, sibling: bool, elementsOnly: bool, n: Option<Path>, p: Path)
  {
    Seen(t, c, sibling, elementsOnly, p) && Side(right, p, c) && (n.Some? ==> !Side(right, p, n.value))
  }

  lemma Begins(t: Node, right: bool, c: Path, sibling: bool, elementsOnly: bool)
    requires IsElement(t, c)
    ensures Walked(t, right, c, sibling, c) && forall p :: !Passed(t, right, c, sibling, elementsOnly, Some(c), p)
  {
    hide Precedes;
  }

  lemma GoesUp(t: Node, right: bool, c: Path, sibling: bool, elementsOnly: bool, n: Path)
    requires Walked(t, right, c, sibling, n) && Neighbour(t, right, n) == None
    ensures !sibling && n != [] ==> Walked(t, right, c, sibling, Up(n))
    ensures var next := if sibling then None else Parent(n);
      forall p ::
        Passed(t, right, c, sibling, elementsOnly, Some(n), p) <==> Passed(t, right, c, sibling, elementsOnly, next, p)
  {
    if n != [] && Up(n) != [] {
      BelowTwice(c, Up(n), Up(Up(n)));
    }
    forall p | Valid(t, p)
      ensures if n == [] then !Side(right, p, n) else Side(right, p, n) <==> Side(right, p, Up(n))
      ensures sibling && Seen(t, c, sibling, elementsOnly, p) ==> !Side(right, p, n)
    {
      SideStep(t, right, n, p);
      NothingAside(p);
      if sibling && Seen(t, c, sibling, elementsOnly, p) {
        UpAndLast(p);
        NotAbove(right, p, Up(p), p[|p| - 1]);
      }
    }
    hide Precedes, Below;
  }

  // A child is not to the side of what contains it.
  lemma NotAbove(right: bool, p: Path, u: Path, x: nat)
    requires p == u + [x]
    ensures !Side(right, p, u)
  {
    ChildOf(u, x, p);
    FiveWays(p, u);
  }

  lemma GoesAside(t: Node, right: bool, c: Path, sibling: bool, elementsOnly: bool, n: Path, m: Path)
    requires Walked(t, right, c, sibling, n) && Neighbour(t, right, n) == Some(m)
    ensures Walked(t, right, c, sibling, m)
    ensures forall p ::
      Passed(t, right, c, sibling, elementsOnly, Some(m), p)
      <==> Passed(t, right, c, sibling, elementsOnly, Some(n), p) || Visits(t, m, sibling, elementsOnly, p)
    ensures forall p :: Passed(t, right, c, sibling, elementsOnly, Some(n), p) ==> p != m && !Below(p, m)
  {
    NeighbourOf(t, right, n);
    forall p | Valid(t, p)
      ensures Passed(t, right, c, sibling, elementsOnly, Some(m), p)
        <==> Passed(t, right, c, sibling, elementsOnly, Some(n), p) || Visits(t, m, sibling, elementsOnly, p)
      ensures Side(right, p, m) || p == m || Below(p, m) ==> Side(right, p, n)
    {
      SideTurn(t, right, c, sibling, elementsOnly, n, m, p);
      SideStep(t, right, n, p);
    }
    hide Precedes, Below, Side;
  }

  lemma StaysDistinct(s: seq<Path>, added: seq<Path>)
    requires Distinct(s) && InOrder(added) && forall p :: p in added ==> p !in s
    ensures Distinct(s + added)
  {
    var r := s + added;
    forall i, j | 0 <= i < j < |r| ensures r[i] != r[j] {
      if |s| <= i {
        assert Before(added[i - |s|], added[j - |s|]);
        FiveWays(r[i], r[j]);
      } else if |s| <= j {
        assert r[j] in added && r[i] in s;
      }
    }
  }

  /**
   `iterate_following` and `iterate_preceding`: from neighbour to neighbour, and up where there is
   none.
   */
  method IterateAside(t: Node, right: bool, c: Path, sibling: bool, pred: Path -> bool, elementsOnly: bool)
      returns (s: seq<Path>)
    requires IsElement(t, c)
    ensures Distinct(s)
    ensures forall p :: p in s <==> Seen(t, c, sibling, elementsOnly, p) && Side(right, p, c) && pred(p)
  {
    s := [];
    var n := Some(c);
    Begins(t, right, c, sibling, elementsOnly);
    while n.Some?
      invariant n.Some? ==> Walked(t, right, c, sibling, n.value)
      invariant Distinct(s)
      invariant forall p :: p in s <==> Passed(t, right, c, sibling, elementsOnly, n, p) && pred(p)
      decreases if n.Some? then 1 + |n.value| else 0, if n.Some? then Room(t, right, n.value) else 0
    {
      var more := Neighbour(t, right, n.value);
      RoomLess(t, right, n.value);
      if more == None {
        GoesUp(t, right, c, sibling, elementsOnly, n.value);
        if sibling {
          n := None;
          break;
        }
        n := Parent(n.value);
      } else {
        GoesAside(t, right, c, sibling, elementsOnly, n.value, more.value);
        hide *;
        n := more;
        ghost var (before, added) := (s, []);
        s, added := Visit(t, n.value, s, sibling, pred, elementsOnly);
        StaysDistinct(before, added);
      }
    }
  }

  // The number of neighbours on one side.
  function Room(t: Node, right: bool, n: Path): nat
    requires Valid(t, n)
  {
    if n == [] then 0 else if right then |At(t, Up(n)).nodes| - n[|n| - 1] else n[|n| - 1]
  }

  lemma RoomLess(t: Node, right: bool, n: Path)
    requires Valid(t, n)
    ensures match Neighbour(t, right, n)
      case None => true
      case Some(m) => Valid(t, m) && |m| == |n| && Room(t, right, m) < Room(t, right, n)
  {
    if Neighbour(t, right, n).Some? {
      NeighbourOf(t, right, n);
    }
  }

  // `iterate_ancestor`: the walk upwards ends below a document.
  method IterateAncestor(t: Node, isDocument: bool, e: Path, s: seq<Path>, pred: Path -> bool) returns (r: seq<Path>)
    requires IsElement(t, e) && Distinct(s) && forall p :: p in s ==> !Below(e, p)
    ensures Distinct(r)
    ensures forall p :: p in r <==> p in s || (Below(e, p) && !(isDocument && p == []) && pred(p))
  {
    r := s;
    var n := e;
    while true
      invariant n == e || Below(e, n)
      invariant Distinct(r)
      invariant forall p :: p in r <==> p in s || (Below(e, p) && !(isDocument && p == []) && pred(p) && |p| >= |n|)
      decreases |n|
    {
      if n == [] {
        break;
      }
      UpTheTree(e, n);
      n := Up(n);
      if isDocument && n == [] {
        break;
      }
      if pred(n) {
        r := r + [n];
      }
    }
  }

  lemma UpTheTree(e: Path, n: Path)
    requires (n == e || Below(e, n)) && n != []
    ensures Below(e, Up(n)) && forall p :: Below(e, p) && |p| == |n| - 1 ==> p == Up(n)
  {
    assert n == e[..|n|];
  }

  // What is on an axis, by the definition of the axis.
  ghost predicate OnAxis(t: Node, axis: AxisType, elementsOnly: bool, c: Path, p: Path)
  {
    match axis
    case ParentAxis => c != [] && p == Up(c)
    case Ancestor => Below(c, p)
    case AncestorOrSelf => p == c || Below(c, p)
    case Self => p == c
    case Child => Inside(t, c, false, elementsOnly, p)
    case Descendant => Inside(t, c, true, elementsOnly, p)
    case DescendantOrSelf => p == c || Inside(t, c, true, elementsOnly, p)
    case Following => Aside(t, c, false, elementsOnly, p) && Precedes(c, p)
    case FollowingSibling => Aside(t, c, true, elementsOnly, p) && Precedes(c, p)
    case Preceding => Aside(t, c, false, elementsOnly, p) && Precedes(p, c)
    case PrecedingSibling => Aside(t, c, true, elementsOnly, p) && Precedes(p, c)
  }

  /** Axes by positions: children below the context, ancestors on the way to it, siblings beside it. */
  lemma AxesByPosition(t: Node, elementsOnly: bool, c: Path, p: Path)
    ensures var fits := p != [] && Valid(t, p) && (elementsOnly ==> At(t, p).Element?);
      && (OnAxis(t, Child, elementsOnly, c, p) <==> fits && Up(p) == c)
      && (OnAxis(t, AncestorOrSelf, elementsOnly, c, p) <==> |p| <= |c| && c[..|p|] == p)
      && (OnAxis(t, FollowingSibling, elementsOnly, c, p)
          <==> fits && c != [] && Up(p) == Up(c) && p[|p| - 1] > c[|c| - 1])
      && (OnAxis(t, PrecedingSibling, elementsOnly, c, p)
          <==> fits && c != [] && Up(p) == Up(c) && p[|p| - 1] < c[|c| - 1])
  {
    if p != [] && c != [] && Up(p) == Up(c) {
      SiblingsByPlace(p, c);
      SiblingsByPlace(c, p);
    }
    hide Precedes, Valid;
    assert p != [] && Up(p) == c ==> p[..|c|] == c;
  }

  lemma SiblingsByPlace(p: Path, q: Path)
    requires p != [] && q != [] && Up(p) == Up(q)
    ensures Precedes(p, q) <==> p[|p| - 1] < q[|q| - 1]
  {
    var k := |p| - 1;
    if p[k] < q[k] {
      assert DiffersAt(p, q, k);
    }
    forall j: nat | DiffersAt(p, q, j) ensures j == k {
      Agree(p, q, k, j);
    }
  }

  // What is on an axis and yet not collected: a document above the context, and text beside it.
  predicate Skips(t: Node, isDocument: bool, axis: AxisType, c: Path, p: Path)
  {
    match axis
    case Ancestor => isDocument && p == []
    case AncestorOrSelf => isDocument && p == [] && p != c
    case Following => PassedOver(t, c, false, p)
    case FollowingSibling => PassedOver(t, c, true, p)
    case Preceding => PassedOver(t, c, false, p)
    case PrecedingSibling => PassedOver(t, c, true, p)
    case _ => false
  }

  // What a step collects.
  ghost predicate Collected(t: Node, isDocument: bool, axis: AxisType, elementsOnly: bool, c: Path, p: Path)
  {
    IsElement(t, c) && OnAxis(t, axis, elementsOnly, c, p) && !Skips(t, isDocument, axis, c, p)
  }

  /** A step collects the nodes of its axis that satisfy the test, each once, apart from those it skips. */
  method Evaluate(t: Node, isDocument: bool, axis: AxisType, c: Path, pred: Path -> bool, elementsOnly: bool)
      returns (result: seq<Path>)
    requires Valid(t, c)
    ensures Distinct(result)
    ensures forall p :: p in result <==> Collected(t, isDocument, axis, elementsOnly, c, p) && pred(p)
  {
    result := [];
    if !At(t, c).Element? {
      return;
    }
    hide Aside, PassedOver, Precedes, Below, Inside, Valid;
    var self := if pred(c) then [c] else [];
    SelfIs(c);
    match axis
    case ParentAxis =>
      if c != [] && pred(Up(c)) {
        result := [Up(c)];
      }
    case Ancestor => result := IterateAncestor(t, isDocument, c, [], pred);
    case AncestorOrSelf => result := IterateAncestor(t, isDocument, c, self, pred);
    case Self => result := self;
    case Child => result := Children(t, c, [], false, pred, elementsOnly);
    case Descendant => result := Children(t, c, [], true, pred, elementsOnly);
    case DescendantOrSelf => result := Children(t, c, self, true, pred, elementsOnly);
    case _ => result := EvaluateAside(t, isDocument, axis, c, pred, elementsOnly);
  }

  /**
   A step meets the definition of its axis exactly when nothing that passes the test is skipped; on
   the axes to the sides that can only be what is no element.
   */
  lemma MeetsDefinition(t: Node, isDocument: bool, axis: AxisType, elementsOnly: bool, c: Path, pred: Path -> bool)
    requires IsElement(t, c)
    ensures (forall p :: Collected(t, isDocument, axis, elementsOnly, c, p) && pred(p)
              <==> OnAxis(t, axis, elementsOnly, c, p) && pred(p))
      <==> forall p :: OnAxis(t, axis, elementsOnly, c, p) && pred(p) ==> !Skips(t, isDocument, axis, c, p)
    ensures forall p :: axis !in {Ancestor, AncestorOrSelf} && Skips(t, isDocument, axis, c, p) ==>
              !elementsOnly || !OnAxis(t, axis, elementsOnly, c, p)
  {
  }

  // An element and the text behind it.
  const ELEMENT_AND_TEXT: Node := Element("r", [Element("a", []), Other("x")])

  /** The text is a following sibling of the element, but the step for it finds nothing. */
  method UnseenSibling() returns (result: seq<Path>)
    ensures OnAxis(ELEMENT_AND_TEXT, FollowingSibling, false, [0], [1]) && result == []
  {
    var t := ELEMENT_AND_TEXT;
    assert At(t, []) == t && Valid(t, [0]) && Valid(t, [1]);
    assert At(t, [0]) == Element("a", []) && At(t, [1]) == Other("x");
    assert DiffersAt([0], [1], 0);
    result := Evaluate(t, false, FollowingSibling, [0], _ => true, false);
    FirstIsIn(result);
  }

  lemma FirstIsIn(s: seq<Path>)
    ensures s != [] ==> s[0] in s
  {
  }

  // The four axes to the sides.
  method EvaluateAside(t: Node, isDocument: bool, axis: AxisType, c: Path, pred: Path -> bool, elementsOnly: bool)
      returns (result: seq<Path>)
    requires IsElement(t, c) && axis in {Following, FollowingSibling, Preceding, PrecedingSibling}
    ensures Distinct(result)
    ensures forall p :: p in result <==> Collected(t, isDocument, axis, elementsOnly, c, p) && pred(p)
  {
    hide Aside, PassedOver, Precedes, Below, Inside, Valid;
    match axis
    case Following => result := Sideways(t, true, c, false, pred, elementsOnly);
    case FollowingSibling => result := Sideways(t, true, c, true, pred, elementsOnly);
    case Preceding => result := Sideways(t, false, c, false, pred, elementsOnly);
    case PrecedingSibling => result := Sideways(t, false, c, true, pred, elementsOnly);
  }

  method Sideways(t: Node, right: bool, c: Path, sibling: bool, pred: Path -> bool, elementsOnly: bool)
      returns (s: seq<Path>)
    requires IsElement(t, c)
    ensures Distinct(s)
    ensures forall p :: p in s <==>
              Aside(t, c, sibling, elementsOnly, p) && !PassedOver(t, c, sibling, p) && Side(right, p, c) && pred(p)
  {
    SeenAside(t, c, elementsOnly);
    hide *;
    s := IterateAside(t, right, c, sibling, pred, elementsOnly);
  }

  lemma SelfIs(c: Path)
    ensures !Below(c, c) && Distinct([c]) && Distinct([])
  {
  }

  method Children(t: Node, c: Path, s: seq<Path>, deep: bool, pred: Path -> bool, elementsOnly: bool)
      returns (r: seq<Path>)
    requires IsElement(t, c) && Distinct(s) && forall p :: p in s ==> p == c
    ensures Distinct(r)
    ensures forall p :: p in r <==> p in s || (Inside(t, c, deep, elementsOnly, p) && pred(p))
  {
    SelfIs(c);
    ghost var added;
    r, added := IterateChildren(t, c, s, deep, pred, elementsOnly);
    StaysDistinct(s, added);
  }

  // ---- the partition ----

  const FIVE: seq<AxisType> := [Self, Ancestor, Descendant, Following, Preceding]

  ghost predicate On(t: Node, isDocument: bool, i: nat, c: Path, p: Path)
    requires i < 5
  {
    Collected(t, isDocument, FIVE[i], true, c, p)
  }

  // What the five axes come to.
  lemma OnFive(t: Node, isDocument: bool, c: Path, p: Path)
    requires IsElement(t, c)
    ensures On(t, isDocument, 0, c, p) <==> p == c
    ensures On(t, isDocument, 1, c, p) <==> IsElement(t, p) && Below(c, p) && !(isDocument && p == [])
    ensures On(t, isDocument, 2, c, p) <==> IsElement(t, p) && Below(p, c)
    ensures On(t, isDocument, 3, c, p) <==> IsElement(t, p) && Precedes(c, p)
    ensures On(t, isDocument, 4, c, p) <==> IsElement(t, p) && Precedes(p, c)
  {
    if Below(c, p) {
      ElementAbove(t, c, |p|);
    }
    NothingAside(p);
    NothingAside(c);
    hide Precedes;
  }

  /**
   Every element, apart from a document that is not itself the context, is on exactly one of the
   five axes, and nothing else is on any.
   */
  lemma Partition(t: Node, isDocument: bool, c: Path, p: Path)
    requires IsElement(t, c)
    ensures (exists i :: 0 <= i < 5 && On(t, isDocument, i, c, p))
      <==> IsElement(t, p) && !(isDocument && p == [] && c != [])
    ensures forall i, j :: 0 <= i < j < 5 ==> !(On(t, isDocument, i, c, p) && On(t, isDocument, j, c, p))
  {
    OnFive(t, isDocument, c, p);
    FiveWays(p, c);
    hide On, Precedes;
    assert isDocument && p == [] && c != [] ==> Below(c, p);
  }

  /** The five steps together find every element once. */
  method FiveSteps(t: Node, isDocument: bool, c: Path, pred: Path -> bool) returns (all: seq<Path>)
    requires IsElement(t, c)
    ensures Distinct(all)
    ensures forall p :: p in all <==> IsElement(t, p) && !(isDocument && p == [] && c != []) && pred(p)
  {
    all := [];
    var k := 0;
    while k < 5
      invariant k <= 5 && Distinct(all)
      invariant forall p :: p in all <==> pred(p) && exists i :: 0 <= i < k && On(t, isDocument, i, c, p)
    {
      var step := Evaluate(t, isDocument, FIVE[k], c, pred, true);
      forall p | p in step ensures p !in all && On(t, isDocument, k, c, p) {
        assert On(t, isDocument, k, c, p);
        Partition(t, isDocument, c, p);
      }
      hide Collected;
      DistinctTogether(all, step);
      all := all + step;
      k := k + 1;
    }
    forall p ensures (exists i :: 0 <= i < 5 && On(t, isDocument, i, c, p))
      <==> IsElement(t, p) && !(isDocument && p == [] && c != [])
    {
      Partition(t, isDocument, c, p);
    }
  }

  lemma DistinctTogether(s: seq<Path>, r: seq<Path>)
    requires Distinct(s) && Distinct(r) && forall p :: p in r ==> p !in s
    ensures Distinct(s + r)
  {
    var a := s + r;
    forall i, j | 0 <= i < j < |a| ensures a[i] != a[j] {
      if i < |s| && |s| <= j {
        assert a[i] in s && a[j] in r;
      }
    }
  }
}
