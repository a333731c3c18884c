/**
 The list of nodes in an element: linked in both directions, with a head and a tail.
 */
module SiblingList {
  import opened Sequences

  class Element {
    constructor () {
    }
  }

  class Node {
    const isText: bool
    var text: string
    var parent: Element?
    var next: Node?
    var prev: Node?

    constructor (isText: bool, text: string)
      ensures this.isText == isText && this.text == text && parent == null && next == null && prev == null
    {
      this.isText, this.text := isText, text;
      parent, next, prev := null, null, null;
    }

    /**
     `insert_sibling`: puts a node in front of a later one, or at the end.  It throws when `before`
     does not come later in the list.
     */
    method InsertSibling(n: Node, before: Node?, ghost ns: seq<Node>, ghost k: nat) returns (ok: bool, ghost j: nat)
      requires k < |ns| && ns[k] == this && Chain(ns, parent) && n !in ns
      modifies n`prev, n`next, n`parent, ns`next, ns`prev
      ensures ok <==> before == null || before in ns[k + 1..]
      ensures ok ==> k < j <= |ns| && before == NodeAt(ns, j) && Chain(Inserted(ns, j, n), old(parent))
      ensures !ok ==> Chain(ns, old(parent))
      ensures !ok ==> n.next == old(n.next) && n.prev == old(n.prev) && n.parent == old(n.parent)
    {
      var p := this;
      ghost var i := k;
      while p.next != null && p.next != before
        invariant k <= i < |ns| && p == ns[i]
        invariant forall m :: k < m <= i ==> ns[m] != before
        decreases |ns| - i
      {
        p := p.next;
        i := i + 1;
      }
      j := i + 1;
      if p.next != before && before != null {
        return false, j;
      }
      Link(p, n, before, parent, ns, j);
      return true, j;
    }

    // `~node`, where deleting a node with nothing behind it goes no deeper.
    method Destroy(ghost ns: seq<Node>) returns (ghost deleted: seq<Node>)
      requires ns != [] && this == ns[0] && forall i, j :: 0 <= i < j < |ns| ==> ns[i] != ns[j]
      requires forall i :: 0 <= i < |ns| ==> ns[i].next == NextIn(ns, i)
      modifies ns`next
      ensures deleted == ns[1..] + [this]
    {
      deleted := [];
      ghost var k := 1;
      while next != null
        invariant 1 <= k <= |ns| && next == NodeAt(ns, k) && deleted == ns[1..k]
        invariant forall i :: k <= i < |ns| ==> ns[i].next == NextIn(ns, i)
        decreases |ns| - k
      {
        var n := next;
        next := n.next;
        n.next := null;
        deleted := deleted + [n];
        k := k + 1;
      }
      assert ns[1..k] == ns[1..];
      deleted := deleted + [this];
    }

    // The pointers of `n` and of its neighbours to be.
    static method Link(p: Node, n: Node, before: Node?, parent: Element?, ghost ns: seq<Node>, ghost j: nat)
      requires 0 < j <= |ns| && p == ns[j - 1] && before == NodeAt(ns, j) && Chain(ns, parent) && n !in ns
      modifies n`prev, n`next, n`parent, p`next, (if before == null then {} else {before})`prev
      ensures Chain(Inserted(ns, j, n), parent)
    {
      p.next := n;
      n.prev := p;
      n.parent := parent;
      n.next := before;
      if before != null {
        before.prev := n;
      }
      hide Inserted;
      LinkedIn(ns, j, n, parent);
    }
  }

  // ---- chains ----

  function NodeAt(ns: seq<Node>, i: nat): Node?
  {
    if i < |ns| then ns[i] else null
  }

  function First(ns: seq<Node>): Node?
  {
    if ns == [] then null else ns[0]
  }

  function Last(ns: seq<Node>): Node?
  {
    if ns == [] then null else ns[|ns| - 1]
  }

  function NextIn(ns: seq<Node>, i: nat): Node?
    requires i < |ns|
  {
    if i + 1 < |ns| then ns[i + 1] else null
  }

  function PrevIn(ns: seq<Node>, i: nat): Node?
    requires i < |ns|
  {
    if i > 0 then ns[i - 1] else null
  }

  // The nodes are linked one to the next, both ways, and have that parent.
  ghost predicate Chain(ns: seq<Node>, e: Element?)
    reads ns`next, ns`prev, ns`parent
  {
    Linked(ns) && forall i :: 0 <= i < |ns| ==> ns[i].parent == e
  }

  predicate Disjoint(ns: seq<Node>, ms: seq<Node>)
  {
    forall n :: n in ns ==> n !in ms
  }

  ghost predicate Linked(ns: seq<Node>)
    reads ns`next, ns`prev
  {
    && (forall i, j :: 0 <= i < j < |ns| ==> ns[i] != ns[j])
    && (forall i :: 0 <= i < |ns| ==> ns[i].next == NextIn(ns, i) && ns[i].prev == PrevIn(ns, i))
  }

  // The links around a node that was put into a chain.
  lemma LinkedIn(ns: seq<Node>, j: nat, n: Node, e: Element?)
    requires j <= |ns| && n !in ns && forall i, k :: 0 <= i < k < |ns| ==> ns[i] != ns[k]
    requires forall i :: 0 <= i < |ns| ==> ns[i].parent == e
    requires forall i :: 0 <= i < |ns| ==> ns[i].next == if i + 1 == j then n else NextIn(ns, i)
    requires forall i :: 0 <= i < |ns| ==> ns[i].prev == if i == j then n else PrevIn(ns, i)
    requires n.parent == e && n.prev == (if j > 0 then ns[j - 1] else null) && n.next == NodeAt(ns, j)
    ensures Chain(Inserted(ns, j, n), e)
  {
    InsertedAt(ns, j, n);
    hide Inserted;
  }

  function Inserted<T>(s: seq<T>, j: nat, x: T): seq<T>
    requires j <= |s|
  {
    s[..j] + [x] + s[j..]
  }

  lemma InsertedAt<T>(s: seq<T>, j: nat, x: T)
    requires j <= |s|
    ensures var r := Inserted(s, j, x);
      && |r| == |s| + 1
      && (forall i :: 0 <= i < j ==> r[i] == s[i]) && r[j] == x && (forall i :: j < i < |r| ==> r[i] == s[i - 1])
  {
  }

  // The first and the last node of a longer list.
  lemma InsertedEnds(ns: seq<Node>, j: nat, n: Node)
    requires j <= |ns|
    ensures First(Inserted(ns, j, n)) == (if j == 0 then n else First(ns))
    ensures Last(Inserted(ns, j, n)) == (if j == |ns| then n else Last(ns))
  {
  }

  function Removed<T>(s: seq<T>, j: nat): seq<T>
    requires j < |s|
  {
    s[..j] + s[j + 1..]
  }

  lemma RemovedAt<T>(s: seq<T>, j: nat)
    requires j < |s|
    ensures var r := Removed(s, j);
      |r| == |s| - 1 && (forall i :: 0 <= i < j ==> r[i] == s[i]) && (forall i :: j <= i < |r| ==> r[i] == s[i + 1])
  {
  }

  // The links that are left when a node is taken out of a chain.
  lemma LinkedOut(ns: seq<Node>, j: nat, e: Element?)
    requires j < |ns| && forall i, k :: 0 <= i < k < |ns| ==> ns[i] != ns[k]
    requires forall i :: 0 <= i < |ns| && i != j ==>
      && ns[i].parent == e
      && ns[i].next == (if i + 1 == j then NodeAt(ns, j + 1) else NextIn(ns, i))
      && ns[i].prev == (if i == j + 1 then (if j > 0 then ns[j - 1] else null) else PrevIn(ns, i))
    ensures Chain(Removed(ns, j), e)
  {
    RemovedAt(ns, j);
    hide Removed;
  }

  // ---- the list ----

  class NodeList {
    const element: Element
    var head: Node?
    var tail: Node?
    ghost var nodes: seq<Node>

    ghost predicate Valid()
      reads this, nodes`next, nodes`prev, nodes`parent
    {
      Chain(nodes, element) && head == First(nodes) && tail == Last(nodes)
    }

    constructor (element: Element)
      ensures Valid() && nodes == [] && this.element == element
    {
      this.element := element;
      head, tail, nodes := null, null, [];
    }

    // The list with `n` in front of its `j`-th node.
    ghost predicate Gained(before: seq<Node>, j: nat, n: Node)
      requires j <= |before|
      reads this, nodes`next, nodes`prev, nodes`parent
    {
      Valid() && nodes == Inserted(before, j, n)
    }

    /**
     `insert_impl`: puts a node that has no parent and no siblings in front of `pos`, or at the end.
     It throws for any other node, and when `pos` is not in the list: the node then has the element
     for a parent without being in the list.
     */
    method Insert(pos: Node?, n: Node?) returns (ok: bool, ghost j: nat)
      requires Valid() && (pos != null ==> nodes != [])
      modifies this`head, this`tail, this`nodes, nodes`next, nodes`prev
      modifies (if n == null then {} else {n})`next, (if n == null then {} else {n})`prev
      modifies (if n == null then {} else {n})`parent
      ensures ok <==> n != null && old(Unlinked(n)) && (pos == null || pos in old(nodes))
      ensures ok ==> j <= |old(nodes)| && pos == NodeAt(old(nodes), j) && Gained(old(nodes), j, n)
      ensures !ok ==> Valid() && nodes == old(nodes)
      ensures !ok && n != null ==> n.next == old(n.next) && n.prev == old(n.prev)
      ensures !ok && n != null && !old(Unlinked(n)) ==> n.parent == old(n.parent)
      ensures !ok && n != null && old(Unlinked(n)) ==> n.parent == element && n !in nodes
    {
      if n == null || n.parent != null || n.next != null || n.prev != null {
        return false, 0;
      }
      assert n !in nodes;
      n.parent := element;
      assert Chain(nodes, element);
      assert head != null ==> head.parent == element;
      hide Inserted, Chain, First, Last;
      if pos == null {
        Append(n);
        return true, |nodes| - 1;
      } else if pos == head {
        Prepend(n);
        return true, 0;
      } else {
        ok, j := InsertInside(pos, n);
      }
    }

    method InsertInside(pos: Node, n: Node) returns (ok: bool, ghost j: nat)
      requires Valid() && nodes != [] && pos != head && n !in nodes
      modifies this`nodes, nodes`next, nodes`prev, n`next, n`prev, n`parent
      ensures ok <==> pos in old(nodes)
      ensures ok ==> j <= |old(nodes)| && pos == NodeAt(old(nodes), j) && Gained(old(nodes), j, n)
      ensures !ok ==> Valid() && nodes == old(nodes)
      ensures !ok ==> n.parent == old(n.parent) && n.next == old(n.next) && n.prev == old(n.prev)
    {
      InTail(nodes, pos);
      assert head.parent == element && head == nodes[0];
      hide Inserted, Chain, NodeAt, First, Last;
      ok, j := head.InsertSibling(n, pos, nodes, 0);
      if ok {
        InsertedEnds(nodes, j, n);
        NotAtTheEnd(nodes, j);
        Become(Inserted(nodes, j, n));
      }
    }

    // The list is now these nodes.
    ghost method Become(r: seq<Node>)
      requires Chain(r, element) && head == First(r) && tail == Last(r)
      modifies this`nodes
      ensures Valid() && nodes == r
    {
      nodes := r;
    }

    method Append(n: Node)
      requires Valid() && n !in nodes && n.parent == element && n.next == null && n.prev == null
      modifies this`head, this`tail, this`nodes, nodes`next, nodes`prev, n`next, n`prev, n`parent
      ensures Gained(old(nodes), |old(nodes)|, n)
    {
      if head == null {
        assert nodes == [];
        hide Inserted, Chain, NodeAt, First, Last;
        AppendFirst(n);
      } else {
        InsertedEnds(nodes, |nodes|, n);
        ghost var (before, last) := (nodes, |nodes| - 1);
        assert tail.parent == element;
        hide Inserted, Chain, NodeAt, First, Last;
        ghost var ok, j;
        ok, j := tail.InsertSibling(n, null, nodes, last);
        AtTheEnd(before, j);
        tail := n;
        Become(Inserted(nodes, j, n));
      }
    }

    method AppendFirst(n: Node)
      requires Valid() && nodes == [] && n.parent == element && n.next == null && n.prev == null
      modifies this`head, this`tail, this`nodes
      ensures Gained(old(nodes), |old(nodes)|, n)
    {
      head, tail := n, n;
      Become(Inserted([], 0, n));
    }

    method Prepend(n: Node)
      requires Valid() && nodes != [] && n !in nodes && n.parent == element && n.next == null && n.prev == null
      modifies this`head, this`nodes, n`next, nodes`prev
      ensures Gained(old(nodes), 0, n)
    {
      InsertedEnds(nodes, 0, n);
      LinkFirst(n, head, nodes, element);
      hide Inserted, Chain, First, Last;
      head := n;
      Become(Inserted(nodes, 0, n));
    }

    static method LinkFirst(n: Node, head: Node, ghost ns: seq<Node>, ghost e: Element)
      requires Chain(ns, e) && ns != [] && head == ns[0] && n !in ns
      requires n.parent == e && n.next == null && n.prev == null
      modifies n`next, head`prev
      ensures Chain(Inserted(ns, 0, n), e)
    {
      n.next := head;
      head.prev := n;
      hide Inserted;
      LinkedIn(ns, 0, n, e);
    }

    /**
     `erase_impl`: takes a node out of the list and gives the one behind it.  It throws for a node
     that is not in the list; the end of the list is left alone.
     */
    method Erase(pos: Node?) returns (ok: bool, cur: Node?, ghost j: nat)
      requires Valid()
      modifies this`head, this`tail, this`nodes, nodes`next, nodes`prev, (if pos == null then {} else {pos})`next,
        (if pos == null then {} else {pos})`prev, (if pos == null then {} else {pos})`parent
      ensures Valid() && (ok <==> pos == null || pos in old(nodes))
      ensures ok && pos != null ==> j < |old(nodes)| && pos == old(nodes)[j] && nodes == Removed(old(nodes), j)
      ensures ok && pos != null ==> cur == NodeAt(nodes, j) && Unlinked(pos)
      ensures !ok || pos == null ==> nodes == old(nodes) && (pos == null ==> cur == null)
    {
      if pos == null {
        return true, null, 0;
      }
      if pos.parent != element {
        return false, null, 0;
      }
      hide Chain, Removed;
      if head == pos {
        cur := EraseFirst();
        return true, cur, 0;
      }
      ok, cur, j := EraseInside(pos);
    }

    method EraseFirst() returns (cur: Node?)
      requires Valid() && nodes != []
      modifies this`head, this`tail, this`nodes, nodes`next, nodes`prev, (if head == null then {} else {head})`parent
      ensures Valid() && nodes == Removed(old(nodes), 0)
      ensures cur == NodeAt(nodes, 0) && Unlinked(old(nodes)[0])
    {
      var n := head;
      head := head.next;
      if head != null {
        head.prev := null;
      } else {
        tail := null;
      }
      n.next, n.prev, n.parent := null, null, null;
      RemovedEnds(nodes, 0);
      hide Removed;
      LinkedOut(nodes, 0, element);
      Become(Removed(nodes, 0));
      cur := head;
    }

    method EraseInside(n: Node) returns (ok: bool, cur: Node?, ghost j: nat)
      requires Valid() && n != head && n.parent == element
      modifies this`tail, this`nodes, nodes`next, nodes`prev, n`next, n`prev, n`parent
      ensures Valid() && (ok <==> n in old(nodes))
      ensures ok ==> j < |old(nodes)| && n == old(nodes)[j] && nodes == Removed(old(nodes), j)
      ensures ok ==> cur == NodeAt(nodes, j) && Unlinked(n)
      ensures !ok ==> nodes == old(nodes)
    {
      cur := n.next;
      TakeFromTail(n);
      var p;
      p, j := FindBefore(n);
      if p != null {
        RemovedEnds(nodes, j);
        AtNode(nodes, j);
        ghost var (ns, left) := (nodes, Removed(nodes, j));
        assert head == First(left) && tail == Last(left);
        hide Removed, Chain, First, Last, NodeAt, Linked;
        Unlink(p, n, ns, j);
        Become(left);
        return true, cur, j;
      }
      assert tail == Last(nodes);
      return false, null, 0;
    }

    method TakeFromTail(n: Node)
      requires Chain(nodes, element) && n != First(nodes)
      modifies this`tail
      ensures Chain(nodes, element) && tail == if old(tail) == n then n.prev else old(tail)
    {
      hide Chain;
      if tail == n {
        tail := n.prev;
      }
    }

    method FindBefore(n: Node) returns (p: Node?, ghost j: nat)
      requires Linked(nodes) && head == First(nodes) && n != head
      ensures if p == null then n !in nodes else 0 < j < |nodes| && p == nodes[j - 1] && n == nodes[j]
    {
      p := head;
      j := 1;
      while p != null && p.next != n
        invariant p != null ==> 0 < j <= |nodes| && p == nodes[j - 1]
        invariant p == null ==> n !in nodes
        invariant forall i :: 0 <= i < j && i < |nodes| ==> nodes[i] != n
        decreases |nodes| - j, p != null
      {
        NextNode(nodes, j - 1);
        hide Linked;
        p := p.next;
        j := j + 1;
      }
      if p != null {
        NextNode(nodes, j - 1);
      }
    }

    method Unlink(p: Node, n: Node, ghost ns: seq<Node>, ghost j: nat)
      requires Chain(ns, element) && 0 < j < |ns| && p == ns[j - 1] && n == ns[j]
      modifies n`prev, n`next, n`parent, p`next, (if n.next == null then {} else {n.next})`prev
      ensures Chain(Removed(ns, j), element) && Unlinked(n)
      ensures head == old(head) && tail == old(tail) && nodes == old(nodes)
    {
      p.next := n.next;
      if p.next != null {
        p.next.prev := p;
      }
      n.next, n.prev, n.parent := null, null, null;
      hide Removed;
      LinkedOut(ns, j, element);
    }

    /** Every node is deleted once, and the list is empty. */
    method Clear() returns (ghost deleted: seq<Node>)
      requires Valid()
      modifies this`head, this`tail, this`nodes, nodes`next
      ensures Valid() && nodes == []
      ensures deleted == if old(nodes) == [] then [] else old(nodes)[1..] + [old(nodes)[0]]
    {
      deleted := [];
      if head != null {
        deleted := head.Destroy(nodes);
      }
      head, tail := null, null;
      Become([]);
    }

    /** The two lists exchange their nodes. */
    method Swap(l: NodeList)
      requires Valid() && l.Valid() && (l != this ==> Disjoint(nodes, l.nodes))
      modifies this`head, this`tail, this`nodes, nodes`parent, l`head, l`tail, l`nodes, l.nodes`parent
      ensures Valid() && l.Valid() && nodes == old(l.nodes) && l.nodes == old(nodes)
    {
      Exchange(l);
      ghost var (mine, theirs) := if l == this then ([], []) else (nodes, l.nodes);
      assert Disjoint(nodes, theirs) && Disjoint(l.nodes, mine) && Chain([], element);
      hide Chain, First, Last, Disjoint;
      Reparent(l.element, theirs, element);
      l.Reparent(element, mine, element);
    }

    method Exchange(l: NodeList)
      requires Valid() && l.Valid()
      modifies this`head, this`tail, this`nodes, l`head, l`tail, l`nodes
      ensures nodes == old(l.nodes) && l.nodes == old(nodes)
      ensures Chain(nodes, l.element) && head == First(nodes) && tail == Last(nodes)
      ensures Chain(l.nodes, element) && l.head == First(l.nodes) && l.tail == Last(l.nodes)
    {
      hide Chain, First, Last;
      ExchangeEnds(l);
      ExchangeNodes(l);
    }

    method ExchangeEnds(l: NodeList)
      requires Chain(nodes, element) && Chain(l.nodes, l.element)
      modifies this`head, this`tail, l`head, l`tail
      ensures Chain(nodes, element) && Chain(l.nodes, l.element)
      ensures head == old(l.head) && tail == old(l.tail) && l.head == old(head) && l.tail == old(tail)
    {
      hide Chain;
      head, l.head := l.head, head;
      tail, l.tail := l.tail, tail;
    }

    ghost method ExchangeNodes(l: NodeList)
      requires Chain(nodes, element) && Chain(l.nodes, l.element)
      modifies this`nodes, l`nodes
      ensures nodes == old(l.nodes) && l.nodes == old(nodes)
      ensures Chain(nodes, l.element) && Chain(l.nodes, element)
    {
      hide Chain;
      nodes, l.nodes := l.nodes, nodes;
    }

    // The nodes get this list's element for a parent; other nodes keep theirs.
    method Reparent(ghost e: Element, ghost other: seq<Node>, ghost f: Element)
      requires Chain(nodes, e) && head == First(nodes) && tail == Last(nodes)
      requires Chain(other, f) && Disjoint(nodes, other)
      modifies nodes`parent
      ensures Valid() && Chain(other, f)
    {
      var n := head;
      ghost var i := 0;
      while n != null
        invariant i <= |nodes| && n == NodeAt(nodes, i)
        invariant forall k :: 0 <= k < i ==> nodes[k].parent == element
        invariant Linked(nodes) && Chain(other, f)
        decreases |nodes| - i
      {
        NextNode(nodes, i);
        assert n in nodes && n !in other;
        hide Linked, Chain;
        n.parent := element;
        n := n.next;
        i := i + 1;
      }
      assert i == |nodes|;
      hide Linked, First, Last, NodeAt;
    }
  }

  lemma AtNode(ns: seq<Node>, j: nat)
    requires Linked(ns) && j < |ns|
    ensures NodeAt(ns, j) == ns[j] && ns[j].next == NodeAt(ns, j + 1) && (j > 0 ==> ns[j].prev == ns[j - 1])
    ensures j + 1 == |ns| <==> Last(ns) == ns[j]
  {
  }

  lemma NextNode(ns: seq<Node>, i: nat)
    requires Linked(ns) && i < |ns|
    ensures ns[i].next == NodeAt(ns, i + 1) && forall k :: 0 <= k < i ==> ns[k] != ns[i]
  {
  }

  lemma RemovedEnds(ns: seq<Node>, j: nat)
    requires j < |ns|
    ensures First(Removed(ns, j)) == (if j == 0 then NodeAt(ns, 1) else First(ns))
    ensures Last(Removed(ns, j)) == (if j + 1 < |ns| then Last(ns) else if j > 0 then ns[j - 1] else null)
    ensures NodeAt(Removed(ns, j), j) == NodeAt(ns, j + 1)
  {
    RemovedAt(ns, j);
    hide Removed;
  }

  lemma InTail<T>(s: seq<T>, x: T)
    requires s != [] && x != s[0]
    ensures x in s <==> x in s[1..]
  {
  }

  lemma NotAtTheEnd(ns: seq<Node>, j: nat)
    requires NodeAt(ns, j) != null
    ensures j < |ns|
  {
  }

  lemma AtTheEnd(ns: seq<Node>, j: nat)
    requires j <= |ns| && NodeAt(ns, j) == null
    ensures j == |ns|
  {
  }

  // A node without a parent and without siblings.
  predicate Unlinked(n: Node)
    reads n
  {
    n.parent == null && n.next == null && n.prev == null
  }

  method ListOfOne() returns (list: NodeList, n: Node)
    ensures fresh(list) && fresh(n) && list.Valid() && list.nodes == [n]
  {
    var element := new Element();
    list := new NodeList(element);
    n := new Node(false, "");
    assert Unlinked(n);
    var ok;
    ghost var j;
    ok, j := list.Insert(null, n);
    hide Chain, First, Last, NodeAt;
  }

  /** A new node put in front of a node of another list: it is refused, but has a parent from then on. */
  method StrayNode() returns (list: NodeList, other: NodeList, n: Node, ok: bool)
    ensures fresh(list) && fresh(other) && fresh(n) && list.Valid() && other.Valid()
    ensures !ok && n !in list.nodes && n !in other.nodes && n.parent == list.element
  {
    hide Chain, First, Last, NodeAt, Inserted;
    var x, y;
    list, x := ListOfOne();
    other, y := ListOfOne();
    n := new Node(false, "");
    ghost var j;
    ok, j := list.Insert(y, n);
  }
}
