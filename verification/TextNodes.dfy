/**
 `flatten_text`: neighbouring text nodes of an element become one.
 */
module TextNodes {
  import opened Sequences
  import opened SiblingList

  // What a node is to the content: a text, or something else that stays as it is.
  datatype Item = Text(text: string) | Thing(node: Node)

  ghost function ItemOf(n: Node): Item
    reads n
  {
    if n.isText then Text(n.text) else Thing(n)
  }

  ghost function Items(ns: seq<Node>): seq<Item>
    reads ns
  {
    seq(|ns|, i requires 0 <= i < |ns| reads ns => ItemOf(ns[i]))
  }

  // Texts next to each other put together.
  function Merged(s: seq<Item>): seq<Item>
    decreases |s|
  {
    if |s| <= 1 then s
    else if s[0].Text? && s[1].Text? then Merged([Text(s[0].text + s[1].text)] + s[2..])
    else [s[0]] + Merged(s[1..])
  }

  // ---- what merging keeps ----

  predicate NoNeighbours(s: seq<Item>)
  {
    forall i :: 0 <= i < |s| - 1 ==> !(s[i].Text? && s[i + 1].Text?)
  }

  // `get_content`
  function Content(s: seq<Item>): string
  {
    if s == [] then "" else (if s[0].Text? then s[0].text else "") + Content(s[1..])
  }

  function Things(s: seq<Item>): seq<Node>
  {
    if s == [] then [] else (if s[0].Thing? then [s[0].node] else []) + Things(s[1..])
  }

  // The text in front of the first thing.
  function Leading(s: seq<Item>): string
  {
    if s == [] || s[0].Thing? then "" else s[0].text + Leading(s[1..])
  }

  // The text behind the `k`-th thing, up to the next one.
  function Behind(s: seq<Item>, k: nat): string
  {
    if s == [] then ""
    else if s[0].Text? then Behind(s[1..], k)
    else if k == 0 then Leading(s[1..])
    else Behind(s[1..], k - 1)
  }

  /**
   Merging leaves no two texts next to each other, and keeps the other nodes and the text before,
   between and behind them.
   */
  lemma {:induction false} MergedKeeps(s: seq<Item>)
    ensures NoNeighbours(Merged(s)) && Things(Merged(s)) == Things(s)
    ensures Leading(Merged(s)) == Leading(s) && forall k: nat :: Behind(Merged(s), k) == Behind(s, k)
    ensures Content(Merged(s)) == Content(s)
    ensures s != [] ==> Merged(s) != [] && (Merged(s)[0].Text? <==> s[0].Text?)
    decreases |s|
  {
    if |s| > 1 {
      if s[0].Text? && s[1].Text? {
        var t := [Text(s[0].text + s[1].text)] + s[2..];
        MergedKeeps(t);
        FirstTwo(s);
      } else {
        MergedKeeps(s[1..]);
        Parts([s[0]], Merged(s[1..]));
        NotNeighbours(s[0], Merged(s[1..]));
      }
    }
  }

  lemma FirstTwo(s: seq<Item>)
    requires |s| > 1 && s[0].Text? && s[1].Text?
    ensures var t := [Text(s[0].text + s[1].text)] + s[2..];
      && Things(t) == Things(s) && Leading(t) == Leading(s) && Content(t) == Content(s)
      && forall k: nat :: Behind(t, k) == Behind(s, k)
  {
    var t := [Text(s[0].text + s[1].text)] + s[2..];
    assert t[1..] == s[2..] && s[1..][1..] == s[2..] && s[1..][0] == s[1];
    Associate(s[0].text, s[1].text, Leading(s[2..]));
    Associate(s[0].text, s[1].text, Content(s[2..]));
  }

  lemma NotNeighbours(x: Item, s: seq<Item>)
    requires NoNeighbours(s) && (s != [] ==> !(x.Text? && s[0].Text?))
    ensures NoNeighbours([x] + s)
  {
  }

  // ---- the list ----

  // A list of which the first `i` items are done.
  function Done(s: seq<Item>, i: nat): seq<Item>
    requires i <= |s|
  {
    s[..i] + Merged(s[i..])
  }

  function Combined(s: seq<Item>, i: nat): seq<Item>
    requires i + 1 < |s| && s[i].Text? && s[i + 1].Text?
  {
    s[..i] + ([Text(s[i].text + s[i + 1].text)] + s[i + 2..])
  }

  lemma DoneOne(s: seq<Item>, i: nat)
    requires i < |s|
    ensures i + 1 == |s| ==> Done(s, i) == s
    ensures i + 1 < |s| && !(s[i].Text? && s[i + 1].Text?) ==> Done(s, i) == Done(s, i + 1)
    ensures i + 1 < |s| && s[i].Text? && s[i + 1].Text? ==>
              i < |Combined(s, i)| && Done(s, i) == Done(Combined(s, i), i)
  {
    var t := s[i..];
    if i + 1 == |s| {
      assert Merged(t) == t && s[..i] + t == s;
    } else {
      assert t[1..] == s[i + 1..] && t[0] == s[i] && t[1] == s[i + 1] && t[2..] == s[i + 2..];
      if s[i].Text? && s[i + 1].Text? {
        Parts(s[..i], [Text(s[i].text + s[i + 1].text)] + s[i + 2..]);
      } else {
        Associate(s[..i], [s[i]], Merged(s[i + 1..]));
        Longer(s, i);
      }
    }
  }

  lemma DoneNone(s: seq<Item>)
    ensures Done(s, 0) == Merged(s) && (s == [] ==> Merged(s) == s)
  {
    Ends(s);
    Unit(Merged(s));
  }

  lemma AllDone(s: seq<Item>, i: nat)
    requires i <= |s|
    ensures (s == [] && i == 0) || i + 1 == |s| ==> Done(s, i) == s
  {
    if s == [] {
      DoneNone(s);
    } else if i < |s| {
      DoneOne(s, i);
    }
  }

  method FlattenText(l: NodeList)
    requires l.Valid()
    modifies l`head, l`tail, l`nodes, l.nodes
    ensures l.Valid() && Items(l.nodes) == Merged(old(Items(l.nodes)))
  {
    Flatten(l, set m <- l.nodes :: m);
  }

  ghost predicate Within(ns: seq<Node>, all: set<Node>)
  {
    forall m <- ns :: m in all
  }

  method Flatten(l: NodeList, ghost all: set<Node>)
    requires l.Valid() && Within(l.nodes, all)
    modifies l`head, l`tail, l`nodes, all
    ensures l.Valid() && Items(l.nodes) == Merged(old(Items(l.nodes)))
  {
    var n := l.head;
    ghost var i := 0;
    ghost var merged := Merged(Items(l.nodes));
    DoneNone(Items(l.nodes));
    At(l, n, 0);
    assert n == null ==> l.nodes == [];
    hide *;
    while n != l.tail
      invariant l.Valid() && Within(l.nodes, all)
      invariant if n == null then l.nodes == [] && i == 0 else i < |l.nodes| && n == l.nodes[i]
      invariant Done(Items(l.nodes), i) == merged
      decreases |l.nodes| - i
    {
      At(l, n, i);
      DoneOne(Items(l.nodes), i);
      hide *;
      if !n.isText || !n.next.isText {
        n := n.next;
        i := i + 1;
      } else {
        Combine(l, n, i, all);
      }
    }
    At(l, n, i);
    AllDone(Items(l.nodes), i);
  }

  // What is to be seen from the `i`-th node.
  lemma At(l: NodeList, n: Node?, i: nat)
    requires l.Valid() && if n == null then l.nodes == [] && i == 0 else i < |l.nodes| && n == l.nodes[i]
    ensures n == null ==> l.nodes == [] && i == 0 && l.tail == null && Items(l.nodes) == []
    ensures n != null ==> i < |l.nodes| && n == l.nodes[i] && (n == l.tail <==> i + 1 == |l.nodes|)
    ensures n != null ==> |Items(l.nodes)| == |l.nodes| && (Items(l.nodes)[i].Text? <==> n.isText)
    ensures n != null && i + 1 < |l.nodes| ==>
      n.next != null && n.next == l.nodes[i + 1] && (Items(l.nodes)[i + 1].Text? <==> l.nodes[i + 1].isText)
  {
  }

  // A text node takes the text of the next one, which goes.
  method Combine(l: NodeList, n: Node, ghost i: nat, ghost all: set<Node>)
    requires l.Valid() && i + 1 < |l.nodes| && n == l.nodes[i] && n.isText && l.nodes[i + 1].isText
    requires n.next == l.nodes[i + 1] && Within(l.nodes, all)
    modifies l`head, l`tail, l`nodes, all
    ensures l.Valid() && i < |l.nodes| < |old(l.nodes)| && l.nodes[i] == n && Within(l.nodes, all)
    ensures i + 1 < |old(Items(l.nodes))| && Items(l.nodes) == Combined(old(Items(l.nodes)), i)
  {
    ghost var (ns, s) := (l.nodes, Items(l.nodes));
    var next := n.next;
    hide Removed, Chain, Items, Combined;
    AppendText(l, n, next.text, i);
    EraseText(l, next, i + 1);
    RemovedAt(ns, i + 1);
    RemovedMembers(ns, i + 1);
    CombinedIs(s, i);
  }

  lemma CombinedIs(s: seq<Item>, i: nat)
    requires i + 1 < |s| && s[i].Text? && s[i + 1].Text?
    ensures Combined(s, i) == Removed(s[i := Text(s[i].text + s[i + 1].text)], i + 1)
  {
  }

  lemma RemovedMembers<T>(s: seq<T>, k: nat)
    requires k < |s|
    ensures forall m :: m in Removed(s, k) ==> m in s
  {
  }

  method AppendText(l: NodeList, n: Node, s: string, ghost i: nat)
    requires l.Valid() && i < |l.nodes| && n == l.nodes[i] && n.isText
    modifies n`text
    ensures l.Valid() && n.text == old(n.text) + s
    ensures Items(l.nodes) == old(Items(l.nodes))[i := Text(old(n.text) + s)]
  {
    n.text := n.text + s;
  }

  method EraseText(l: NodeList, m: Node, ghost k: nat)
    requires l.Valid() && 0 < k < |l.nodes| && m == l.nodes[k]
    modifies l`head, l`tail, l`nodes, l.nodes`next, l.nodes`prev, m`next, m`prev, m`parent
    ensures l.Valid() && l.nodes == Removed(old(l.nodes), k) && Items(l.nodes) == Removed(old(Items(l.nodes)), k)
  {
    ghost var before := l.nodes;
    SamePlace(l, k);
    hide Removed, Chain, Items;
    var ok, cur, j := l.Erase(m);
    ItemsKept(before);
    ItemsRemoved(before, k);
  }

  twostate lemma ItemsKept(ns: seq<Node>)
    requires forall n <- ns :: allocated(n) && old(allocated(n)) && n.text == old(n.text)
    ensures Items(ns) == old(Items(ns))
  {
  }

  lemma ItemsRemoved(ns: seq<Node>, k: nat)
    requires k < |ns|
    ensures Items(Removed(ns, k)) == Removed(Items(ns), k)
  {
    RemovedAt(ns, k);
    RemovedAt(Items(ns), k);
    hide Removed;
  }

  // A node is in the list only once.
  lemma SamePlace(l: NodeList, k: nat)
    requires l.Valid() && k < |l.nodes|
    ensures forall j :: 0 <= j < |l.nodes| && l.nodes[j] == l.nodes[k] ==> j == k
  {
  }
}
