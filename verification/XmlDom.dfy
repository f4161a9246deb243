/**
 * The DOM of RapidXML: the mutators of the child and attribute lists, against operations on sequences.
 * Pointers that the rules leave undefined hold anything at all.
 */
module XmlDom {
  import opened Bytes
  import opened Sequences

  /** A run of characters of the text, which is what names and values point to; they are never copied. */
  datatype Chars = Chars(at: int, size: nat)

  /** What name() and value() answer when there is none: the shared empty string. */
  const NULLSTR := Chars(-1, 0)

  datatype Kind = Document | Element | CharData | Cdata | Comment | Declaration | Doctype | Pi | Attribute

  /** The two lists of a node: m_first_node/m_last_node and m_first_attribute/m_last_attribute. */
  datatype Side = Nodes | Attributes

  /** The first and last pointer of a list. */
  datatype Ends = Ends(first: XmlNode?, last: XmlNode?)

  /** xml_node; xml_attribute is the kind Attribute, its sibling pointers being prev and next. */
  class XmlNode {
    var kind: Kind
    var name: Option<Chars>
    var value: Option<Chars>
    var parent: XmlNode?
    var prev: XmlNode?
    var next: XmlNode?
    var nodes: Ends
    var attributes: Ends

    /** No children, no parent; the other pointers are left as they are in memory. */
    constructor (kind: Kind)
      ensures this.kind == kind && name == None && value == None && parent == null
      ensures nodes.first == null && attributes.first == null
    {
      var garbage, more: XmlNode? := *, *;
      this.kind, name, value, parent := kind, None, None, null;
      nodes, attributes := Ends(null, garbage), Ends(null, more);
    }
  }

  ghost function NodeAt(list: seq<XmlNode>, i: int): XmlNode? {
    if 0 <= i < |list| then list[i] else null
  }

  /** The validity rules, for one list: `last` means nothing when there is no `first`. */
  ghost predicate Chain(ends: Ends, owner: XmlNode, list: seq<XmlNode>)
    reads list`parent, list`prev, list`next
  {
    && Distinct(list) && ends.first == NodeAt(list, 0) && (list != [] ==> ends.last == list[|list| - 1])
    && forall i {:trigger list[i]} :: 0 <= i < |list| ==>
         list[i].parent == owner && list[i].prev == NodeAt(list, i - 1) && list[i].next == NodeAt(list, i + 1)
  }

  // ----- the links after one change, and the list they make -----

  /** `x` stands between the nodes at `k - 1` and `k`; everything else is linked as before. */
  ghost predicate TakesOne(ends: Ends, owner: XmlNode, list: seq<XmlNode>, k: nat, x: XmlNode)
    requires k <= |list|
    reads list`parent, list`prev, list`next, x`parent, x`prev, x`next
  {
    && ends.first == (if k == 0 then x else NodeAt(list, 0))
    && ends.last == (if k == |list| then x else NodeAt(list, |list| - 1))
    && x.parent == owner && x.prev == NodeAt(list, k - 1) && x.next == NodeAt(list, k)
    && forall j {:trigger list[j]} :: 0 <= j < |list| ==>
         && list[j].parent == owner
         && list[j].prev == (if j == k then x else NodeAt(list, j - 1))
         && list[j].next == (if j == k - 1 then x else NodeAt(list, j + 1))
  }

  lemma InsertedChain(ends: Ends, owner: XmlNode, list: seq<XmlNode>, k: nat, x: XmlNode)
    requires k <= |list| && TakesOne(ends, owner, list, k, x) && x !in list && Distinct(list)
    ensures Chain(ends, owner, Inserted(list, k, x))
  {
    InsertedAt(list, k, x);
    InsertedDistinct(list, k, x);
    hide Inserted, Distinct;
    var r := Inserted(list, k, x);
    forall i | 0 <= i < |r|
      ensures r[i].parent == owner && r[i].prev == NodeAt(r, i - 1) && r[i].next == NodeAt(r, i + 1)
    {
      if i < k { assert r[i] == list[i]; } else if i > k { assert r[i] == list[i - 1]; }
    }
  }

  /** The neighbours of the node at `k` skip it, and it has no parent. */
  ghost predicate SkipsOne(ends: Ends, owner: XmlNode, list: seq<XmlNode>, k: nat)
    requires k < |list|
    reads list`parent, list`prev, list`next
  {
    && ends.first == NodeAt(list, if k == 0 then 1 else 0)
    && (|list| > 1 ==> ends.last == NodeAt(list, if k == |list| - 1 then k - 1 else |list| - 1))
    && list[k].parent == null
    && forall j {:trigger list[j]} :: 0 <= j < |list| && j != k ==>
         && list[j].parent == owner
         && list[j].prev == NodeAt(list, if j == k + 1 then k - 1 else j - 1)
         && list[j].next == NodeAt(list, if j == k - 1 then k + 1 else j + 1)
  }

  lemma RemovedNodeAt(list: seq<XmlNode>, k: nat, i: int)
    requires k < |list|
    ensures i < k ==> NodeAt(Removed(list, k), i) == NodeAt(list, i)
    ensures i >= k ==> NodeAt(Removed(list, k), i) == NodeAt(list, i + 1)
  {
    RemovedAt(list, k);
    hide Removed;
  }

  lemma RemovedEnds(ends: Ends, owner: XmlNode, list: seq<XmlNode>, k: nat)
    requires k < |list| && SkipsOne(ends, owner, list, k)
    ensures |Removed(list, k)| == |list| - 1 && ends.first == NodeAt(Removed(list, k), 0)
    ensures |list| > 1 ==> ends.last == Removed(list, k)[|list| - 2]
  {
    RemovedAt(list, k);
    RemovedNodeAt(list, k, 0);
    hide Removed;
  }

  lemma RemovedChain(ends: Ends, owner: XmlNode, list: seq<XmlNode>, k: nat)
    requires k < |list| && SkipsOne(ends, owner, list, k) && Distinct(list)
    ensures Chain(ends, owner, Removed(list, k))
  {
    hide Removed, Distinct, SkipsOne, NodeAt;
    RemovedDistinct(list, k);
    RemovedEnds(ends, owner, list, k);
    var r := Removed(list, k);
    forall i | 0 <= i < |r|
      ensures r[i].parent == owner && r[i].prev == NodeAt(r, i - 1) && r[i].next == NodeAt(r, i + 1)
    {
      RemovedLink(ends, owner, list, k, i);
    }
  }

  lemma RemovedLink(ends: Ends, owner: XmlNode, list: seq<XmlNode>, k: nat, i: nat)
    requires k < |list| && SkipsOne(ends, owner, list, k) && i < |list| - 1 == |Removed(list, k)|
    ensures Removed(list, k)[i].parent == owner && Removed(list, k)[i].prev == NodeAt(Removed(list, k), i - 1)
    ensures Removed(list, k)[i].next == NodeAt(Removed(list, k), i + 1)
  {
    RemovedAt(list, k);
    RemovedNodeAt(list, k, i - 1);
    RemovedNodeAt(list, k, i + 1);
    hide Removed, NodeAt;
    if i < k { assert Removed(list, k)[i] == list[i]; } else { assert Removed(list, k)[i] == list[i + 1]; }
  }

  // ----- the pointer work -----

  /** prepend_node. */
  method LinkFirst(ends: Ends, owner: XmlNode, child: XmlNode, ghost list: seq<XmlNode>) returns (r: Ends)
    requires Chain(ends, owner, list) && child !in list
    modifies child`parent, child`prev, child`next, list`prev
    ensures TakesOne(r, owner, list, 0, child)
  {
    r := ends;
    if ends.first != null {
      child.next := ends.first;
      ends.first.prev := child;
    } else {
      child.next := null;
      r := r.(last := child);
    }
    r := r.(first := child);
    child.parent := owner;
    child.prev := null;
  }

  /** append_node. */
  method LinkLast(ends: Ends, owner: XmlNode, child: XmlNode, ghost list: seq<XmlNode>) returns (r: Ends)
    requires Chain(ends, owner, list) && child !in list
    modifies child`parent, child`prev, child`next, list`next
    ensures TakesOne(r, owner, list, |list|, child)
  {
    r := ends;
    if ends.first != null {
      child.prev := ends.last;
      ends.last.next := child;
    } else {
      child.prev := null;
      r := r.(first := child);
    }
    r := r.(last := child);
    child.parent := owner;
    child.next := null;
  }

  /** insert_node; `position` is the first node or null when `where` is. */
  method LinkBefore(ends: Ends, owner: XmlNode, position: XmlNode?, child: XmlNode, ghost list: seq<XmlNode>,
                    ghost k: nat)
    returns (r: Ends)
    requires Chain(ends, owner, list) && child !in list && k <= |list| && position == NodeAt(list, k)
    modifies child`parent, child`prev, child`next, list`prev, list`next
    ensures TakesOne(r, owner, list, k, child)
  {
    r := ends;
    if position == ends.first {
      r := LinkFirst(ends, owner, child, list);
    } else if position == null {
      r := LinkLast(ends, owner, child, list);
    } else {
      assert position == list[k];
      child.prev := position.prev;
      child.next := position;
      position.prev.next := child;
      position.prev := child;
      child.parent := owner;
    }
  }

  /** remove_first_node. */
  method UnlinkFirst(ends: Ends, owner: XmlNode, ghost list: seq<XmlNode>) returns (r: Ends)
    requires Chain(ends, owner, list) && list != []
    modifies list`parent, list`prev
    ensures SkipsOne(r, owner, list, 0) && list[0].parent == null
  {
    var child := ends.first;
    assert child == list[0];
    r := ends.(first := child.next);
    if child.next != null {
      child.next.prev := null;
    } else {
      r := r.(last := null);
    }
    child.parent := null;
  }

  /** remove_last_node. */
  method UnlinkLast(ends: Ends, owner: XmlNode, ghost list: seq<XmlNode>) returns (r: Ends)
    requires Chain(ends, owner, list) && list != []
    modifies list`parent, list`next
    ensures SkipsOne(r, owner, list, |list| - 1) && list[|list| - 1].parent == null
  {
    var child := ends.last;
    r := ends;
    assert child == list[|list| - 1];
    if child.prev != null {
      r := r.(last := child.prev);
      child.prev.next := null;
    } else {
      r := r.(first := null);
    }
    child.parent := null;
  }

  lemma IndexUnique(list: seq<XmlNode>, j: nat, k: nat)
    requires Distinct(list) && j < |list| && k < |list| && list[j] == list[k]
    ensures j == k
  {
  }

  /** remove_node. */
  method Unlink(ends: Ends, owner: XmlNode, position: XmlNode, ghost list: seq<XmlNode>, ghost k: nat) returns (r: Ends)
    requires Chain(ends, owner, list) && k < |list| && position == list[k]
    modifies list`parent, list`prev, list`next
    ensures SkipsOne(r, owner, list, k) && list[k].parent == null
  {
    assert ends.first == list[0] && ends.last == list[|list| - 1];
    hide Distinct, SkipsOne, NodeAt;
    if position == ends.first {
      IndexUnique(list, k, 0);
      r := UnlinkFirst(ends, owner, list);
    } else if position == ends.last {
      IndexUnique(list, k, |list| - 1);
      r := UnlinkLast(ends, owner, list);
    } else {
      UnlinkMiddle(ends, owner, position, list, k);
      r := ends;
    }
  }

  method UnlinkMiddle(ends: Ends, owner: XmlNode, position: XmlNode, ghost list: seq<XmlNode>, ghost k: nat)
    requires Chain(ends, owner, list) && 0 < k < |list| - 1 && position == list[k]
    modifies list`parent, list`prev, list`next
    ensures SkipsOne(ends, owner, list, k) && list[k].parent == null
  {
    assert position.prev == list[k - 1] && position.next == list[k + 1];
    position.prev.next := position.next;
    position.next.prev := position.prev;
    position.parent := null;
  }

  /** remove_all_nodes: the nodes keep their sibling pointers, which now mean nothing. */
  method UnlinkAll(ends: Ends, owner: XmlNode, ghost list: seq<XmlNode>) returns (r: Ends)
    requires Chain(ends, owner, list)
    modifies list`parent
    ensures r.first == null && forall i :: 0 <= i < |list| ==> list[i].parent == null
  {
    var node := ends.first;
    ghost var k := 0;
    while node != null
      invariant k <= |list| && node == NodeAt(list, k)
      invariant forall i {:trigger list[i]} :: 0 <= i < |list| ==> list[i].next == NodeAt(list, i + 1)
      invariant forall i :: 0 <= i < k ==> list[i].parent == null
      decreases |list| - k
    {
      node.parent := null;
      node := node.next;
      k := k + 1;
    }
    r := ends.(first := null);
  }

  // ----- the whole DOM -----

  /** What a node's two lists hold. */
  datatype Lists = Lists(nodes: seq<XmlNode>, attributes: seq<XmlNode>) {
    function On(side: Side): seq<XmlNode> {
      if side.Nodes? then nodes else attributes
    }

    function With(side: Side, list: seq<XmlNode>): Lists {
      if side.Nodes? then Lists(list, attributes) else Lists(nodes, list)
    }
  }

  /** Every node there is, with its lists. */
  type Dom = map<XmlNode, Lists>

  function SideOf(kind: Kind): Side {
    if kind.Attribute? then Attributes else Nodes
  }

  function EndsOn(n: XmlNode, side: Side): Ends
    reads n`nodes, n`attributes
  {
    if side.Nodes? then n.nodes else n.attributes
  }

  /** One list of one node follows the rules and holds nodes of the DOM of the right kind. */
  ghost predicate ListValid(dom: Dom, n: XmlNode, side: Side)
    reads dom.Keys
  {
    && n in dom && (forall x :: x in dom[n].On(side) ==> x in dom && SideOf(x.kind) == side && x.parent == n)
    && Chain(EndsOn(n, side), n, dom[n].On(side))
  }

  /** A node that has a parent is in the parent's list. */
  ghost predicate Placed(dom: Dom, x: XmlNode)
    reads dom.Keys
  {
    x in dom && (x.parent != null ==> x.parent in dom && x in dom[x.parent].On(SideOf(x.kind)))
  }

  /** The validity rules hold throughout. */
  ghost predicate Valid(dom: Dom)
    reads dom.Keys
  {
    && (forall n, side {:trigger ListValid(dom, n, side)} :: n in dom ==> ListValid(dom, n, side))
    && (forall x {:trigger Placed(dom, x)} :: x in dom ==> Placed(dom, x))
  }

  ghost function Changed(dom: Dom, n: XmlNode, side: Side, list: seq<XmlNode>): Dom
    requires n in dom
  {
    dom[n := dom[n].With(side, list)]
  }

  /** From the old state to the new one, only the links of the nodes in `touched` and the ends of one list change. */
  twostate predicate OnlyChanges(dom: Dom, new n: XmlNode, new side: Side, new touched: set<XmlNode>)
    requires n in dom
    reads dom.Keys
  {
    && (forall x {:trigger x in dom} :: x in dom ==>
          && x.kind == old(x.kind)
          && (x !in touched ==> x.parent == old(x.parent) && x.prev == old(x.prev) && x.next == old(x.next))
          && (x != n ==> x.nodes == old(x.nodes) && x.attributes == old(x.attributes)))
    && (if side.Nodes? then n.attributes == old(n.attributes) else n.nodes == old(n.nodes))
  }

  /** The nodes whose links an edit may touch: one list, and nodes without a parent. */
  twostate predicate Local(dom: Dom, new n: XmlNode, new side: Side, new touched: set<XmlNode>, new now: seq<XmlNode>)
    requires n in dom
    reads dom.Keys
  {
    && (forall x :: x in touched ==>
          && x in dom && SideOf(x.kind) == side && (old(x.parent) == null || old(x.parent) == n)
          && (x.parent == null || x in now))
    && (forall x :: x in dom[n].On(side) ==> x in touched)
    && (forall x :: x in now ==> x in touched)
  }

  twostate lemma ChainKept(dom: Dom, new m: XmlNode, new s: Side)
    requires m in dom && old(Chain(EndsOn(m, s), m, dom[m].On(s))) && EndsOn(m, s) == old(EndsOn(m, s))
    requires forall x :: x in dom[m].On(s) ==>
               x in dom && x.parent == old(x.parent) && x.prev == old(x.prev) && x.next == old(x.next)
    ensures Chain(EndsOn(m, s), m, dom[m].On(s))
  {
  }

  /** Every other list is as it was. */
  twostate lemma ListKept(dom: Dom, new n: XmlNode, new side: Side, new touched: set<XmlNode>,
                          new now: seq<XmlNode>, new m: XmlNode, new s: Side)
    requires n in dom && m in dom && old(ListValid(dom, m, s)) && (m != n || s != side)
    requires OnlyChanges(dom, n, side, touched) && Local(dom, n, side, touched, now)
    ensures ListValid(Changed(dom, n, side, now), m, s)
  {
    hide Chain, SideOf;
    var list := dom[m].On(s);
    assert Changed(dom, n, side, now)[m].On(s) == list;
    forall x | x in list ensures x in dom && x !in touched {
      assert old(x.parent) == m && old(SideOf(x.kind)) == s;
    }
    assert EndsOn(m, s) == old(EndsOn(m, s));
    ChainKept(dom, m, s);
  }

  twostate lemma StillPlaced(dom: Dom, new n: XmlNode, new side: Side, new touched: set<XmlNode>,
                             new now: seq<XmlNode>, new x: XmlNode)
    requires n in dom && x in dom && old(Placed(dom, x)) && (forall y :: y in now ==> y in dom && y.parent == n)
    requires OnlyChanges(dom, n, side, touched) && Local(dom, n, side, touched, now)
    ensures Placed(Changed(dom, n, side, now), x)
  {
  }

  twostate lemma EditedList(dom: Dom, new n: XmlNode, new side: Side, new touched: set<XmlNode>, new now: seq<XmlNode>)
    requires n in dom && Local(dom, n, side, touched, now) && Chain(EndsOn(n, side), n, now)
    ensures ListValid(Changed(dom, n, side, now), n, side) && forall y :: y in now ==> y in dom && y.parent == n
  {
  }

  /** An edit that is local, and leaves a proper list behind, leaves the whole DOM valid. */
  twostate lemma EditKeepsValid(dom: Dom, new n: XmlNode, new side: Side, new touched: set<XmlNode>,
                                new now: seq<XmlNode>)
    requires n in dom && old(Valid(dom)) && Chain(EndsOn(n, side), n, now)
    requires OnlyChanges(dom, n, side, touched) && Local(dom, n, side, touched, now)
    ensures Valid(Changed(dom, n, side, now))
  {
    hide Chain, Local, OnlyChanges, SideOf, Placed, ListValid, EndsOn;
    EditedList(dom, n, side, touched, now);
    forall m, s | m in dom && (m != n || s != side) ensures ListValid(Changed(dom, n, side, now), m, s) {
      ListKept(dom, n, side, touched, now, m, s);
    }
    forall m | m in dom ensures Placed(Changed(dom, n, side, now), m) {
      StillPlaced(dom, n, side, touched, now, m);
    }
  }

  method SetEnds(n: XmlNode, side: Side, ends: Ends)
    modifies n`nodes, n`attributes
    ensures EndsOn(n, side) == ends
    ensures if side.Nodes? then n.attributes == old(n.attributes) else n.nodes == old(n.nodes)
  {
    if side.Nodes? { n.nodes := ends; } else { n.attributes := ends; }
  }

  ghost function NodesOf(list: seq<XmlNode>): set<XmlNode> { set x | x in list }

  /** What validity says of one list. */
  lemma TheList(dom: Dom, n: XmlNode, side: Side)
    requires Valid(dom) && n in dom
    ensures var list := dom[n].On(side);
            Chain(EndsOn(n, side), n, list) && Distinct(list)
            && forall x :: x in list ==> x in dom && SideOf(x.kind) == side && x.parent == n
  {
    assert ListValid(dom, n, side);
  }

  twostate lemma InsertKeepsValid(dom: Dom, new n: XmlNode, new side: Side, new k: nat, new child: XmlNode)
    requires n in dom && child in dom && old(Valid(dom)) && old(Free(dom, side, child)) && k <= |dom[n].On(side)|
    requires Distinct(dom[n].On(side)) && child !in dom[n].On(side)
    requires forall x :: x in dom[n].On(side) ==> x in dom && old(SideOf(x.kind)) == side && old(x.parent) == n
    requires TakesOne(EndsOn(n, side), n, dom[n].On(side), k, child)
    requires OnlyChanges(dom, n, side, NodesOf(dom[n].On(side)) + {child})
    ensures Valid(Changed(dom, n, side, Inserted(dom[n].On(side), k, child)))
  {
    hide Valid, ListValid, Placed, TakesOne, Chain, Distinct, NodeAt, EndsOn, SideOf;
    var list := dom[n].On(side);
    InsertedChain(EndsOn(n, side), n, list, k, child);
    EditKeepsValid(dom, n, side, NodesOf(list) + {child}, Inserted(list, k, child));
  }

  twostate lemma RemoveKeepsValid(dom: Dom, new n: XmlNode, new side: Side, new k: nat)
    requires n in dom && old(Valid(dom)) && k < |dom[n].On(side)| && Distinct(dom[n].On(side))
    requires forall x :: x in dom[n].On(side) ==> x in dom && old(SideOf(x.kind)) == side && old(x.parent) == n
    requires SkipsOne(EndsOn(n, side), n, dom[n].On(side), k) && dom[n].On(side)[k].parent == null
    requires OnlyChanges(dom, n, side, NodesOf(dom[n].On(side)))
    ensures Valid(Changed(dom, n, side, Removed(dom[n].On(side), k)))
  {
    hide Valid, ListValid, Placed, SkipsOne, Chain, Distinct, NodeAt, EndsOn, SideOf, Removed;
    var list := dom[n].On(side);
    Remaining(list, k);
    RemovedChain(EndsOn(n, side), n, list, k);
    EditKeepsValid(dom, n, side, NodesOf(list), Removed(list, k));
  }

  lemma Remaining(list: seq<XmlNode>, k: nat)
    requires k < |list|
    ensures forall x :: x in list && x != list[k] ==> x in Removed(list, k)
    ensures forall x :: x in Removed(list, k) ==> x in list
  {
    forall x | x in list && x != list[k] ensures x in Removed(list, k) {
      var i :| 0 <= i < |list| && list[i] == x;
      RemovedAt(list, k);
      assert Removed(list, k)[if i < k then i else i - 1] == x;
    }
  }

  /** A node that may be put into a list: it has no parent and is no document. */
  ghost predicate Free(dom: Dom, side: Side, child: XmlNode)
    reads child
  {
    child in dom && child.parent == null && SideOf(child.kind) == side && child.kind != Document
  }

  lemma InsertedOutermost(list: seq<XmlNode>, x: XmlNode)
    ensures Inserted(list, 0, x) == [x] + list && Inserted(list, |list|, x) == list + [x]
  {
  }

  /** prepend_node, prepend_attribute. */
  method Prepend(n: XmlNode, side: Side, child: XmlNode, ghost dom: Dom)
    requires Valid(dom) && n in dom && Free(dom, side, child)
    modifies dom.Keys`parent, dom.Keys`prev, dom.Keys`next, n`nodes, n`attributes
    ensures Valid(Changed(dom, n, side, [child] + dom[n].On(side)))
  {
    hide Valid, Chain, TakesOne, Distinct, NodeAt, SideOf, ListValid, Placed, Inserted;
    ghost var list := dom[n].On(side);
    TheList(dom, n, side);
    var ends := LinkFirst(EndsOn(n, side), n, child, list);
    SetEnds(n, side, ends);
    InsertKeepsValid(dom, n, side, 0, child);
    InsertedOutermost(list, child);
  }

  /** append_node, append_attribute. */
  method Append(n: XmlNode, side: Side, child: XmlNode, ghost dom: Dom)
    requires Valid(dom) && n in dom && Free(dom, side, child)
    modifies dom.Keys`parent, dom.Keys`prev, dom.Keys`next, n`nodes, n`attributes
    ensures Valid(Changed(dom, n, side, dom[n].On(side) + [child]))
  {
    hide Valid, Chain, TakesOne, Distinct, NodeAt, SideOf, ListValid, Placed, Inserted;
    ghost var list := dom[n].On(side);
    TheList(dom, n, side);
    var ends := LinkLast(EndsOn(n, side), n, child, list);
    SetEnds(n, side, ends);
    InsertKeepsValid(dom, n, side, |list|, child);
    InsertedOutermost(list, child);
  }

  /** insert_node, insert_attribute: before the node at `k`, or at the end when `position` is null. */
  method Insert(n: XmlNode, side: Side, position: XmlNode?, child: XmlNode, ghost dom: Dom, ghost k: nat)
    requires Valid(dom) && n in dom && Free(dom, side, child)
    requires k <= |dom[n].On(side)| && position == NodeAt(dom[n].On(side), k)
    modifies dom.Keys`parent, dom.Keys`prev, dom.Keys`next, n`nodes, n`attributes
    ensures Valid(Changed(dom, n, side, Inserted(dom[n].On(side), k, child)))
  {
    hide Valid, Chain, TakesOne, Distinct, NodeAt, SideOf, ListValid, Placed, Inserted;
    ghost var list := dom[n].On(side);
    TheList(dom, n, side);
    var ends := LinkBefore(EndsOn(n, side), n, position, child, list, k);
    SetEnds(n, side, ends);
    InsertKeepsValid(dom, n, side, k, child);
  }

  /** remove_first_node, remove_first_attribute. */
  method RemoveFirst(n: XmlNode, side: Side, ghost dom: Dom)
    requires Valid(dom) && n in dom && dom[n].On(side) != []
    modifies dom.Keys`parent, dom.Keys`prev, dom.Keys`next, n`nodes, n`attributes
    ensures Valid(Changed(dom, n, side, Removed(dom[n].On(side), 0))) && dom[n].On(side)[0].parent == null
  {
    hide Valid, Chain, Distinct, SkipsOne, NodeAt, Removed, SideOf, ListValid, Placed;
    ghost var list := dom[n].On(side);
    TheList(dom, n, side);
    ghost var k: nat :| k == 0;
    var ends := UnlinkFirst(EndsOn(n, side), n, list);
    SetEnds(n, side, ends);
    RemoveKeepsValid(dom, n, side, k);
  }

  /** remove_last_node, remove_last_attribute. */
  method RemoveLast(n: XmlNode, side: Side, ghost dom: Dom)
    requires Valid(dom) && n in dom && dom[n].On(side) != []
    modifies dom.Keys`parent, dom.Keys`prev, dom.Keys`next, n`nodes, n`attributes
    ensures Valid(Changed(dom, n, side, Removed(dom[n].On(side), |dom[n].On(side)| - 1)))
    ensures dom[n].On(side)[|dom[n].On(side)| - 1].parent == null
  {
    hide Valid, Chain, Distinct, SkipsOne, NodeAt, Removed, SideOf, ListValid, Placed;
    ghost var list := dom[n].On(side);
    TheList(dom, n, side);
    ghost var k := |list| - 1;
    var ends := UnlinkLast(EndsOn(n, side), n, list);
    SetEnds(n, side, ends);
    RemoveKeepsValid(dom, n, side, k);
  }

  /** remove_node, remove_attribute. */
  method Remove(n: XmlNode, side: Side, position: XmlNode, ghost dom: Dom, ghost k: nat)
    requires Valid(dom) && n in dom && k < |dom[n].On(side)| && position == dom[n].On(side)[k]
    modifies dom.Keys`parent, dom.Keys`prev, dom.Keys`next, n`nodes, n`attributes
    ensures Valid(Changed(dom, n, side, Removed(dom[n].On(side), k))) && position.parent == null
  {
    hide Valid, Chain, Distinct, SkipsOne, NodeAt, Removed, SideOf, ListValid, Placed;
    ghost var list := dom[n].On(side);
    TheList(dom, n, side);
    var ends := Unlink(EndsOn(n, side), n, position, list, k);
    SetEnds(n, side, ends);
    RemoveKeepsValid(dom, n, side, k);
  }

  /** remove_all_nodes, remove_all_attributes. */
  method RemoveAll(n: XmlNode, side: Side, ghost dom: Dom)
    requires Valid(dom) && n in dom
    modifies dom.Keys`parent, dom.Keys`prev, dom.Keys`next, n`nodes, n`attributes
    ensures Valid(Changed(dom, n, side, [])) && forall x :: x in dom[n].On(side) ==> x.parent == null
  {
    hide Valid, Distinct, NodeAt, Chain, SideOf, ListValid, Placed;
    ghost var list := dom[n].On(side);
    TheList(dom, n, side);
    var ends := UnlinkAll(EndsOn(n, side), n, list);
    SetEnds(n, side, ends);
    EmptyChain(ends, n);
    EditKeepsValid(dom, n, side, NodesOf(list), []);
  }

  lemma EmptyChain(ends: Ends, owner: XmlNode)
    requires ends.first == null
    ensures Chain(ends, owner, [])
  {
  }
}
