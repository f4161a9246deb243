/** `clone_node`: a new tree of the same shape, names and values, sharing no node with its source. */
module XmlClone {
  import opened Bytes
  import opened Sequences
  import opened XmlDom
  import XmlExpand
  import XmlTree

  /** A ghost picture of a node and everything below it. */
  datatype Tree = Tree(node: XmlNode, attributes: seq<XmlNode>, children: seq<Tree>)

  ghost function Tops(ts: seq<Tree>): seq<XmlNode> {
    if ts == [] then [] else [ts[0].node] + Tops(ts[1..])
  }

  /** The nodes and attributes of a tree, and those strictly below its root. */
  ghost function All(t: Tree): set<XmlNode>
    decreases t, 2
  {
    {t.node} + Below(t)
  }

  ghost function Below(t: Tree): set<XmlNode>
    decreases t, 1
  {
    NodesOf(t.attributes) + AllOf(t.children)
  }

  ghost function AllOf(ts: seq<Tree>): set<XmlNode>
    decreases ts, 0
  {
    if ts == [] then {} else All(ts[0]) + AllOf(ts[1..])
  }

  ghost function BelowOf(ts: seq<Tree>): set<XmlNode> {
    if ts == [] then {} else Below(ts[0]) + BelowOf(ts[1..])
  }

  lemma {:induction false} Inside(ts: seq<Tree>)
    ensures BelowOf(ts) <= AllOf(ts) && NodesOf(Tops(ts)) <= AllOf(ts)
  {
    if ts != [] { Inside(ts[1..]); }
  }

  /** The picture is right: both lists of every node follow the rules and hold what is shown. */
  ghost predicate Shows(t: Tree)
    reads All(t)`nodes, All(t)`attributes, Below(t)`parent, Below(t)`prev, Below(t)`next
    decreases t, 1
  {
    Inside(t.children);
    assert t.node in All(t);
    && Chain(t.node.nodes, t.node, Tops(t.children))
    && Chain(t.node.attributes, t.node, t.attributes)
    && ShowsAll(t.children)
  }

  ghost predicate ShowsAll(ts: seq<Tree>)
    reads AllOf(ts)`nodes, AllOf(ts)`attributes, BelowOf(ts)`parent, BelowOf(ts)`prev, BelowOf(ts)`next
    decreases ts, 0
  {
    ts == [] || (Shows(ts[0]) && ShowsAll(ts[1..]))
  }

  // ----- what a tree says -----

  /** What name() with name_size(), and value() with value_size(), answer. */
  function Answer(s: Option<Chars>): Chars {
    match s case Some(chars) => chars case None => NULLSTR
  }

  datatype Shape = Shape(kind: Kind, name: Chars, value: Chars, attributes: seq<(Chars, Chars)>, children: seq<Shape>)

  ghost function Pairs(list: seq<XmlNode>): seq<(Chars, Chars)>
    reads list`name, list`value
  {
    if list == [] then [] else [(Answer(list[0].name), Answer(list[0].value))] + Pairs(list[1..])
  }

  lemma Parts(t: Tree)
    ensures t.node in All(t) && Below(t) <= All(t) && NodesOf(t.attributes) <= Below(t) && AllOf(t.children) <= Below(t)
  {
  }

  ghost function ShapeOf(t: Tree): Shape
    reads All(t)`kind, All(t)`name, All(t)`value
    decreases t, 1
  {
    Parts(t);
    Shape(t.node.kind, Answer(t.node.name), Answer(t.node.value), Pairs(t.attributes), ShapesOf(t.children))
  }

  ghost function ShapesOf(ts: seq<Tree>): seq<Shape>
    reads AllOf(ts)`kind, AllOf(ts)`name, AllOf(ts)`value
    decreases ts, 0
  {
    if ts == [] then [] else [ShapeOf(ts[0])] + ShapesOf(ts[1..])
  }

  // ----- one more at the end -----

  lemma {:induction false} AppendSets(ts: seq<Tree>, t: Tree)
    ensures AllOf(ts + [t]) == AllOf(ts) + All(t) && BelowOf(ts + [t]) == BelowOf(ts) + Below(t)
    ensures Tops(ts + [t]) == Tops(ts) + [t.node]
  {
    if ts == [] {
      assert [t][1..] == [] && [] + [t] == [t];
    } else {
      assert (ts + [t])[1..] == ts[1..] + [t];
      AppendSets(ts[1..], t);
    }
  }

  lemma {:induction false} AppendShown(ts: seq<Tree>, t: Tree)
    requires ShowsAll(ts) && Shows(t)
    ensures ShowsAll(ts + [t]) && ShapesOf(ts + [t]) == ShapesOf(ts) + [ShapeOf(t)]
  {
    if ts == [] {
      assert [t][1..] == [] && [] + [t] == [t];
    } else {
      assert (ts + [t])[1..] == ts[1..] + [t];
      AppendShown(ts[1..], t);
    }
  }

  lemma {:induction false} AppendPair(list: seq<XmlNode>, x: XmlNode)
    ensures Pairs(list + [x]) == Pairs(list) + [(Answer(x.name), Answer(x.value))]
  {
    if list == [] {
      assert [x][1..] == [] && [] + [x] == [x];
    } else {
      assert (list + [x])[1..] == list[1..] + [x];
      AppendPair(list[1..], x);
    }
  }

  /** append_node, append_attribute on a list known by itself. */
  method AppendTo(n: XmlNode, side: Side, child: XmlNode, ghost list: seq<XmlNode>)
    requires Chain(EndsOn(n, side), n, list) && child.parent == null && child !in list
    modifies child`parent, child`prev, child`next, list`next, n`nodes, n`attributes
    ensures Chain(EndsOn(n, side), n, list + [child])
    ensures if side.Nodes? then n.attributes == old(n.attributes) else n.nodes == old(n.nodes)
  {
    hide Chain, TakesOne, Inserted, NodeAt, Distinct;
    assert Distinct(list) by { ChainDistinct(EndsOn(n, side), n, list); }
    var ends := LinkLast(EndsOn(n, side), n, child, list);
    SetEnds(n, side, ends);
    InsertedChain(ends, n, list, |list|, child);
    InsertedOutermost(list, child);
  }

  lemma ChainDistinct(ends: Ends, owner: XmlNode, list: seq<XmlNode>)
    requires Chain(ends, owner, list)
    ensures Distinct(list)
  {
  }

  // ----- cloning -----

  /** internal::measure: how far it is to the next NUL. */
  function Measure(text: Text, at: int): nat
    decreases |text| - at
  {
    if 0 <= at < |text| && text[at] != NUL then 1 + Measure(text, at + 1) else 0
  }

  /** It is the length up to the first NUL. */
  lemma {:induction false} MeasureIs(text: Text, at: nat, n: nat)
    requires at + n < |text| && text[at + n] == 0 && forall k :: at <= k < at + n ==> text[k] != 0
    ensures Measure(text, at) == n
    decreases n
  {
    if n > 0 { MeasureIs(text, at + 1, n - 1); }
  }

  /** The size allocate_attribute gives a name or value: an empty one is measured. */
  function Remeasured(text: Text, c: Chars): Chars {
    if c.size > 0 then c else Chars(c.at, Measure(text, c.at))
  }

  ghost function RemeasuredPairs(text: Text, ps: seq<(Chars, Chars)>): (r: seq<(Chars, Chars)>)
    ensures |r| == |ps|
  {
    seq(|ps|, i requires 0 <= i < |ps| => (Remeasured(text, ps[i].0), Remeasured(text, ps[i].1)))
  }

  lemma RemeasuredSnoc(text: Text, ps: seq<(Chars, Chars)>, k: nat)
    requires k < |ps|
    ensures RemeasuredPairs(text, ps[..k + 1]) ==
            RemeasuredPairs(text, ps[..k]) + [(Remeasured(text, ps[k].0), Remeasured(text, ps[k].1))]
  {
  }

  /** allocate_attribute. */
  method CloneAttribute(attribute: XmlNode, text: Text) returns (copy: XmlNode)
    ensures fresh(copy) && copy.parent == null
    ensures (Answer(copy.name), Answer(copy.value)) ==
            (Remeasured(text, Answer(attribute.name)), Remeasured(text, Answer(attribute.value)))
  {
    copy := new XmlNode(Attribute);
    copy.name := Some(Remeasured(text, Answer(attribute.name)));
    copy.value := Some(Remeasured(text, Answer(attribute.value)));
  }

  lemma ChainAt(ends: Ends, owner: XmlNode, list: seq<XmlNode>, k: nat)
    requires Chain(ends, owner, list) && k < |list|
    ensures list[k].next == NodeAt(list, k + 1) && ends.first == NodeAt(list, 0)
  {
  }

  lemma ChainHead(ends: Ends, owner: XmlNode, list: seq<XmlNode>)
    requires Chain(ends, owner, list)
    ensures ends.first == NodeAt(list, 0)
  {
  }

  lemma PairsLength(list: seq<XmlNode>)
    ensures |Pairs(list)| == |list|
  {
  }

  lemma PairAt(list: seq<XmlNode>, k: nat)
    requires k < |list|
    ensures |Pairs(list)| == |list| && Pairs(list)[k] == (Answer(list[k].name), Answer(list[k].value))
  {
    if k > 0 { PairAt(list[1..], k - 1); }
  }

  /** The loop that clones the attributes. */
  method CloneAttributes(source: XmlNode, result: XmlNode, text: Text, ghost list: seq<XmlNode>,
                         ghost scope: set<XmlNode>)
    returns (ghost copies: seq<XmlNode>)
    requires Chain(source.attributes, source, list) && NodesOf(list) <= scope && source in scope
    requires result.attributes.first == null && result !in scope
    modifies result`nodes, result`attributes
    ensures Chain(result.attributes, result, copies) && fresh(NodesOf(copies)) && result !in copies
    ensures Pairs(copies) == RemeasuredPairs(text, Pairs(list))
    ensures result.nodes == old(result.nodes)
  {
    hide Chain, Pairs, Remeasured;
    copies := [];
    EmptyChain(result.attributes, result);
    ChainHead(source.attributes, source, list);
    PairsLength(list);
    PairsLength(copies);
    var attribute := source.attributes.first;
    ghost var k := 0;
    ghost var pairs := Pairs(list);
    while attribute != null
      invariant k <= |list| && attribute == NodeAt(list, k) && Chain(source.attributes, source, list)
      invariant (forall i :: 0 <= i < |copies| ==> fresh(copies[i])) && Chain(result.attributes, result, copies)
      invariant result.nodes == old(result.nodes)
      invariant |pairs| == |list| && Pairs(copies) == RemeasuredPairs(text, pairs[..k]) && Pairs(list) == pairs
      decreases |list| - k
    {
      PairAt(list, k);
      assert attribute in NodesOf(list);
      ChainAt(source.attributes, source, list, k);
      var copy := CloneAttribute(attribute, text);
      AppendTo(result, Attributes, copy, copies);
      AppendPair(copies, copy);
      RemeasuredSnoc(text, pairs, k);
      copies := copies + [copy];
      attribute := attribute.next;
      k := k + 1;
    }
    assert pairs[..|list|] == pairs;
  }

  // ----- the clone's shape -----

  /** The shape a clone has: attributes with an empty name or value are measured anew. */
  ghost function Cloned(text: Text, s: Shape): Shape
    decreases s, 1
  {
    Shape(s.kind, s.name, s.value, RemeasuredPairs(text, s.attributes), ClonedAll(text, s.children))
  }

  ghost function ClonedAll(text: Text, ss: seq<Shape>): (r: seq<Shape>)
    ensures |r| == |ss|
    decreases ss, 0
  {
    if ss == [] then [] else [Cloned(text, ss[0])] + ClonedAll(text, ss[1..])
  }

  lemma {:induction false} ClonedSnoc(text: Text, ss: seq<Shape>, s: Shape)
    ensures ClonedAll(text, ss + [s]) == ClonedAll(text, ss) + [Cloned(text, s)]
  {
    if ss == [] {
      assert [s][1..] == [] && [] + [s] == [s];
    } else {
      assert (ss + [s])[1..] == ss[1..] + [s];
      ClonedSnoc(text, ss[1..], s);
    }
  }

  /** The list under construction below `result`. */
  ghost predicate Building(result: XmlNode, ts: seq<Tree>, tops: seq<XmlNode>, mine: set<XmlNode>)
    reads result`nodes, mine`nodes, mine`attributes, mine`parent, mine`prev, mine`next
  {
    Inside(ts);
    && AllOf(ts) <= mine && tops == Tops(ts) && Chain(result.nodes, result, tops) && ShowsAll(ts)
    && (forall i :: 0 <= i < |tops| ==> tops[i] !in BelowOf(ts))
  }

  lemma NothingBuilt(result: XmlNode)
    requires result.nodes.first == null
    ensures Building(result, [], [], {}) && ShapesOf([]) == []
  {
  }

  lemma BuildingTops(result: XmlNode, ts: seq<Tree>, tops: seq<XmlNode>, mine: set<XmlNode>)
    requires Building(result, ts, tops, mine)
    ensures Chain(result.nodes, result, tops) && ShowsAll(ts)
    ensures tops == Tops(ts) && AllOf(ts) <= mine && BelowOf(ts) <= mine
    ensures forall i {:trigger tops[i]} :: 0 <= i < |tops| ==> tops[i] in mine && tops[i] !in BelowOf(ts)
  {
    Inside(ts);
    forall i | 0 <= i < |tops| ensures tops[i] in mine {
      assert tops[i] in NodesOf(Tops(ts));
    }
  }

  lemma OneMore(result: XmlNode, ts: seq<Tree>, t: Tree, tops: seq<XmlNode>, mine: set<XmlNode>, more: set<XmlNode>)
    requires Chain(result.nodes, result, tops + [t.node]) && ShowsAll(ts + [t])
    requires tops == Tops(ts) && AllOf(ts) <= mine && All(t) == more && mine !! more && t.node !in Below(t)
    requires forall i {:trigger tops[i]} :: 0 <= i < |tops| ==> tops[i] in mine && tops[i] !in BelowOf(ts)
    ensures Building(result, ts + [t], tops + [t.node], mine + more)
  {
    AppendSets(ts, t);
    Inside(ts);
    Parts(t);
    hide Chain, ShowsAll, Tops, AllOf, All, Below, BelowOf;
  }

  /** append_node of a finished tree. */
  method Attach(result: XmlNode, copy: XmlNode, ghost ts: seq<Tree>, ghost t: Tree, ghost tops: seq<XmlNode>,
                ghost mine: set<XmlNode>, ghost more: set<XmlNode>)
    requires Building(result, ts, tops, mine) && Shows(t) && t.node == copy && copy !in Below(t) && copy.parent == null
    requires All(t) == more && mine !! more && result !in mine + more
    modifies copy`parent, copy`prev, copy`next, tops`next, result`nodes, result`attributes
    ensures Building(result, ts + [t], tops + [copy], mine + more)
    ensures ShapesOf(ts + [t]) == old(ShapesOf(ts)) + [old(ShapeOf(t))]
    ensures result.attributes == old(result.attributes)
  {
    hide Building, Chain, ShowsAll, Shows, All, AllOf, Below, BelowOf, ShapesOf, ShapeOf, Tops;
    BuildingTops(result, ts, tops, mine);
    ghost var shapes, shape := ShapesOf(ts), ShapeOf(t);
    Parts(t);
    assert copy in more;
    AppendTo(result, Nodes, copy, tops);
    assert ShowsAll(ts) && ShapesOf(ts) == shapes;
    assert Shows(t) && ShapeOf(t) == shape;
    AppendShown(ts, t);
    OneMore(result, ts, t, tops, mine, more);
  }

  /** The children from `child` on, still to be cloned. */
  ghost predicate ToDo(child: XmlNode?, owner: XmlNode, views: seq<Tree>, k: nat, scope: set<XmlNode>)
    reads owner`nodes, scope
  {
    Inside(views);
    && k <= |views| && AllOf(views) <= scope && ShowsAll(views) && Chain(owner.nodes, owner, Tops(views))
    && child == NodeAt(Tops(views), k)
  }

  lemma {:induction false} TopAt(ts: seq<Tree>, k: nat)
    requires k < |ts|
    ensures |Tops(ts)| == |ts| && Tops(ts)[k] == ts[k].node && All(ts[k]) <= AllOf(ts)
  {
    if k > 0 { TopAt(ts[1..], k - 1); } else { TopsLength(ts); }
  }

  lemma TopsLength(ts: seq<Tree>)
    ensures |Tops(ts)| == |ts|
  {
  }

  lemma {:induction false} ShownAt(ts: seq<Tree>, k: nat)
    requires k < |ts| && ShowsAll(ts)
    ensures Shows(ts[k]) && |ShapesOf(ts)| == |ts| && ShapesOf(ts)[k] == ShapeOf(ts[k])
  {
    if k > 0 { ShownAt(ts[1..], k - 1); } else { ShapesLength(ts); }
  }

  lemma ShapesLength(ts: seq<Tree>)
    ensures |ShapesOf(ts)| == |ts|
  {
  }

  lemma NextToDo(child: XmlNode, owner: XmlNode, views: seq<Tree>, k: nat, scope: set<XmlNode>)
    requires ToDo(child, owner, views, k, scope)
    ensures k < |views| && child == views[k].node && Shows(views[k]) && All(views[k]) <= scope
    ensures ToDo(child.next, owner, views, k + 1, scope)
    ensures |ShapesOf(views)| == |views| && ShapesOf(views)[k] == ShapeOf(views[k])
  {
    TopsLength(views);
    TopAt(views, k);
    ShownAt(views, k);
    ChainAt(owner.nodes, owner, Tops(views), k);
  }

  lemma StartToDo(owner: XmlNode, views: seq<Tree>, scope: set<XmlNode>)
    requires AllOf(views) <= scope && ShowsAll(views) && Chain(owner.nodes, owner, Tops(views))
    ensures ToDo(owner.nodes.first, owner, views, 0, scope) && |ShapesOf(views)| == |views|
  {
    ChainHead(owner.nodes, owner, Tops(views));
    ShapesLength(views);
  }

  lemma EndToDo(owner: XmlNode, views: seq<Tree>, k: nat, scope: set<XmlNode>)
    requires ToDo(null, owner, views, k, scope)
    ensures k == |views|
  {
    TopsLength(views);
  }

  /** One turn of the loop over the children: clone, then append. */
  method CloneTurn(child: XmlNode, result: XmlNode, text: Text, ghost view: Tree, ghost ts: seq<Tree>,
                   ghost tops: seq<XmlNode>, ghost mine: set<XmlNode>, ghost scope: set<XmlNode>)
    returns (ghost t: Tree, ghost more: set<XmlNode>)
    requires view.node == child && Shows(view) && All(view) <= scope
    requires Building(result, ts, tops, mine) && result !in scope + mine
    requires forall i :: 0 <= i < |tops| ==> tops[i] in mine
    modifies mine`next, result`nodes, result`attributes
    ensures fresh(more) && t.node in more && Building(result, ts + [t], tops + [t.node], mine + more)
    ensures ShapesOf(ts + [t]) == old(ShapesOf(ts)) + [Cloned(text, old(ShapeOf(view)))]
    ensures result.attributes == old(result.attributes)
    decreases view, 2
  {
    hide Building, Chain, ShowsAll, Shows, All, AllOf, Below, BelowOf, ShapesOf, ShapeOf, Tops, Cloned;
    BuildingTops(result, ts, tops, mine);
    ghost var shapes := ShapesOf(ts);
    var copy;
    copy, t := CloneNode(child, text, view, scope);
    more := All(t);
    ghost var shape := ShapeOf(t);
    Parts(t);
    assert Building(result, ts, tops, mine) && ShapesOf(ts) == shapes;
    Attach(result, copy, ts, t, tops, mine, more);
  }

  /** clone_node, for an allocated result: everything below it is new, and the source is untouched. */
  method CloneNode(source: XmlNode, text: Text, ghost view: Tree, ghost scope: set<XmlNode>)
    returns (result: XmlNode, ghost t: Tree)
    requires view.node == source && Shows(view) && All(view) <= scope
    ensures t.node == result && Shows(t) && fresh(All(t)) && result !in Below(t) && result.parent == null
    ensures ShapeOf(t) == Cloned(text, old(ShapeOf(view)))
    decreases view, 1
  {
    hide Shows, ShapeOf, Cloned, Below, AllOf, Tops;
    result := new XmlNode(source.kind);
    t := Fill(source, result, text, view, scope);
  }

  /** The loop over the children. */
  method CloneChildren(source: XmlNode, result: XmlNode, text: Text, ghost views: seq<Tree>, ghost scope: set<XmlNode>)
    returns (ghost ts: seq<Tree>, ghost tops: seq<XmlNode>, ghost mine: set<XmlNode>)
    requires AllOf(views) <= scope && ShowsAll(views) && Chain(source.nodes, source, Tops(views)) && source in scope
    requires result !in scope && result.nodes.first == null
    modifies result`nodes, result`attributes
    ensures fresh(mine) && Building(result, ts, tops, mine) && result !in mine
    ensures ShapesOf(ts) == ClonedAll(text, old(ShapesOf(views)))
    ensures result.attributes == old(result.attributes)
    decreases views, 0
  {
    hide Building, Chain, ShowsAll, Shows, All, AllOf, Below, BelowOf, ShapesOf, ShapeOf, Tops, Cloned, ClonedAll, ToDo;
    ts, tops, mine := [], [], {};
    NothingBuilt(result);
    StartToDo(source, views, scope);
    var child := source.nodes.first;
    ghost var k := 0;
    ghost var shapes := ShapesOf(views);
    NothingCloned(text, shapes);
    while child != null
      invariant k <= |views| == |shapes| && ToDo(child, source, views, k, scope) && ShapesOf(views) == shapes
      invariant fresh(mine) && result !in mine && Building(result, ts, tops, mine)
      invariant forall i :: 0 <= i < |tops| ==> tops[i] in mine
      invariant ShapesOf(ts) == ClonedAll(text, shapes[..k]) && result.attributes == old(result.attributes)
      decreases |views| - k
    {
      NextToDo(child, source, views, k, scope);
      var next := child.next;
      ghost var t, more := CloneTurn(child, result, text, views[k], ts, tops, mine, scope);
      ClonedSnoc(text, shapes[..k], shapes[k]);
      assert shapes[..k] + [shapes[k]] == shapes[..k + 1];
      ts, tops, mine := ts + [t], tops + [t.node], mine + more;
      child, k := next, k + 1;
    }
    EndToDo(source, views, k, scope);
    assert shapes[..k] == shapes;
  }

  lemma NothingCloned(text: Text, shapes: seq<Shape>)
    ensures ClonedAll(text, shapes[..0]) == [] == ShapesOf([])
  {
  }

  lemma Finished(result: XmlNode, ts: seq<Tree>, tops: seq<XmlNode>, mine: set<XmlNode>, copies: seq<XmlNode>)
    requires Building(result, ts, tops, mine) && Chain(result.attributes, result, copies)
    requires result !in mine && result !in copies
    ensures var t := Tree(result, copies, ts);
            Shows(t) && Below(t) <= mine + NodesOf(copies) && result !in Below(t)
  {
  }

  /** clone_node, from the point where the result is an empty node of the source's kind. */
  method Fill(source: XmlNode, result: XmlNode, text: Text, ghost view: Tree, ghost scope: set<XmlNode>)
    returns (ghost t: Tree)
    requires view.node == source && Shows(view) && All(view) <= scope
    requires result !in scope && result.nodes.first == null
    requires result.attributes.first == null && result.kind == source.kind
    modifies result`name, result`value, result`nodes, result`attributes
    ensures t.node == result && Shows(t) && fresh(Below(t)) && result !in Below(t)
    ensures ShapeOf(t) == Cloned(text, old(ShapeOf(view)))
    decreases view, 0
  {
    Parts(view);
    Inside(view.children);
    hide Building, Chain, ShowsAll, All, AllOf, Below, BelowOf, ShapesOf, Tops, ClonedAll;
    ghost var shapes, pairs := ShapesOf(view.children), Pairs(view.attributes);
    result.name := Some(Answer(source.name));
    result.value := Some(Answer(source.value));
    ghost var ts, tops, mine := CloneChildren(source, result, text, view.children, scope);
    BuildingTops(result, ts, tops, mine);
    ghost var clones := ShapesOf(ts);
    assert Pairs(view.attributes) == pairs;
    ghost var copies := CloneAttributes(source, result, text, view.attributes, scope);
    assert Building(result, ts, tops, mine) && ShapesOf(ts) == clones;
    t := Tree(result, copies, ts);
    Finished(result, ts, tops, mine, copies);
  }

  /** The given result's own children and attributes are let go. */
  method LetGo(result: XmlNode, ghost nodes: seq<XmlNode>, ghost attributes: seq<XmlNode>)
    requires Chain(result.nodes, result, nodes) && Chain(result.attributes, result, attributes)
    requires forall i, j :: 0 <= i < |nodes| && 0 <= j < |attributes| ==> nodes[i] != attributes[j]
    modifies result`nodes, result`attributes, nodes`parent, attributes`parent
    ensures result.nodes.first == null && result.attributes.first == null
  {
    hide Chain;
    var ends := UnlinkAll(result.attributes, result, attributes);
    result.attributes := ends;
    ends := UnlinkAll(result.nodes, result, nodes);
    result.nodes := ends;
  }

  /** clone_node into a given node. */
  method CloneInto(source: XmlNode, result: XmlNode, text: Text, ghost view: Tree, ghost scope: set<XmlNode>,
                   ghost nodes: seq<XmlNode>, ghost attributes: seq<XmlNode>)
    returns (ghost t: Tree)
    requires view.node == source && Shows(view) && All(view) <= scope && result !in scope
    requires Chain(result.nodes, result, nodes) && Chain(result.attributes, result, attributes)
    requires forall i :: 0 <= i < |nodes| ==> nodes[i] !in scope
    requires forall j :: 0 <= j < |attributes| ==> attributes[j] !in scope
    requires forall i, j :: 0 <= i < |nodes| && 0 <= j < |attributes| ==> nodes[i] != attributes[j]
    modifies result, nodes`parent, attributes`parent
    ensures t.node == result && Shows(t) && fresh(Below(t)) && result !in Below(t)
    ensures ShapeOf(t) == Cloned(text, old(ShapeOf(view)))
  {
    hide Shows, ShapeOf, Cloned, All, Below, Tops, Chain;
    ghost var shape := ShapeOf(view);
    LetGo(result, nodes, attributes);
    result.kind := source.kind;
    assert Shows(view) && ShapeOf(view) == shape by { Parts(view); }
    t := Fill(source, result, text, view, scope);
  }

  // ----- when a clone equals its source -----

  /** An empty run that ends where it begins. */
  predicate Closed(text: Text, c: Chars) {
    c.size == 0 ==> Measure(text, c.at) == 0
  }

  /** Every empty attribute name or value is followed by a NUL. */
  ghost predicate EmptyRunsEnd(text: Text, s: Shape)
    decreases s, 1
  {
    && (forall i :: 0 <= i < |s.attributes| ==> Closed(text, s.attributes[i].0) && Closed(text, s.attributes[i].1))
    && AllEmptyRunsEnd(text, s.children)
  }

  ghost predicate AllEmptyRunsEnd(text: Text, ss: seq<Shape>)
    decreases ss, 0
  {
    ss == [] || (EmptyRunsEnd(text, ss[0]) && AllEmptyRunsEnd(text, ss[1..]))
  }

  lemma {:induction false} ClonedSame(text: Text, s: Shape)
    ensures Cloned(text, s) == s <==> EmptyRunsEnd(text, s)
    decreases s, 1
  {
    ClonedAllSame(text, s.children);
    PairsSame(text, s.attributes);
  }

  lemma {:induction false} ClonedAllSame(text: Text, ss: seq<Shape>)
    ensures ClonedAll(text, ss) == ss <==> AllEmptyRunsEnd(text, ss)
    decreases ss, 0
  {
    hide Cloned, EmptyRunsEnd;
    if ss != [] {
      ClonedSame(text, ss[0]);
      ClonedAllSame(text, ss[1..]);
      assert ClonedAll(text, ss)[0] == Cloned(text, ss[0]) && ClonedAll(text, ss)[1..] == ClonedAll(text, ss[1..]);
      assert ss == [ss[0]] + ss[1..];
    }
  }

  lemma PairsSame(text: Text, ps: seq<(Chars, Chars)>)
    ensures RemeasuredPairs(text, ps) == ps <==>
            forall i :: 0 <= i < |ps| ==> Closed(text, ps[i].0) && Closed(text, ps[i].1)
  {
    var r := RemeasuredPairs(text, ps);
    forall i | 0 <= i < |ps|
      ensures r[i] == ps[i] <==> Closed(text, ps[i].0) && Closed(text, ps[i].1)
    {
    }
    if forall i :: 0 <= i < |ps| ==> Closed(text, ps[i].0) && Closed(text, ps[i].1) {
      assert r == ps;
    }
  }

  /**
   * `<a x=''/>`, parsed with any flags that put no terminators: the value of x is the empty run at 6, and in a
   * clone it becomes the three bytes behind it.
   */
  lemma EmptyValueGrows(o: XmlTree.Options)
    ensures var text: Text := [60, 97, 32, 120, 61, 39, 39, 47, 62, 0];
            var a := Shape(Element, Chars(1, 1), NULLSTR, [(Chars(3, 1), Chars(6, 0))], []);
            && CString(text)
            && XmlTree.ParseText(text, o) == XmlTree.Ok([EMPTY_VALUE], 9)
            && Cloned(text, a).attributes == [(Chars(3, 1), Chars(6, 3))] && Cloned(text, a) != a
  {
    EmptyValueParsed(o);
    var text: Text := [60, 97, 32, 120, 61, 39, 39, 47, 62, 0];
    assert Measure(text, 9) == 0;
    assert Measure(text, 8) == 1;
    assert Measure(text, 7) == 2;
    assert Measure(text, 6) == 3;
  }

  const EMPTY_VALUE := XmlTree.Element(XmlTree.Span(1, 1), [XmlTree.Attr(XmlTree.Span(3, 1), XmlTree.Span(6, 0))],
                                       XmlTree.Content([], None))

  lemma EmptyValueParsed(o: XmlTree.Options)
    ensures var text: Text := [60, 97, 32, 120, 61, 39, 39, 47, 62, 0];
            CString(text) && XmlTree.ParseText(text, o) == XmlTree.Ok([EMPTY_VALUE], 9)
  {
    var text: Text := [60, 97, 32, 120, 61, 39, 39, 47, 62, 0];
    assert CString(text);
    assert text[0..3][0] == 60;
    assert XmlTree.Skip(text, 4, XmlTree.AttrName) == 4;
    assert XmlTree.Skip(text, 6, XmlTree.InRegion(XmlExpand.Quoted(39))) == 6;
    assert XmlTree.Attribute(text, 3) == XmlTree.Ok(XmlTree.Attr(XmlTree.Span(3, 1), XmlTree.Span(6, 0)), 7);
    assert XmlTree.Attributes(text, 7) == XmlTree.Ok([], 7);
    assert EMPTY_VALUE.attributes == [XmlTree.Attr(XmlTree.Span(3, 1), XmlTree.Span(6, 0))] + [];
    assert XmlTree.In(XmlTree.AttrName, text[3]);
    assert XmlTree.Attributes(text, 3) == XmlTree.Ok(EMPTY_VALUE.attributes, 7);
    assert XmlTree.Skip(text, 2, XmlTree.NodeName) == 2 && XmlTree.Skip(text, 1, XmlTree.NodeName) == 2;
    assert XmlTree.Skip(text, 3, XmlTree.Blank) == 3 && XmlTree.Skip(text, 2, XmlTree.Blank) == 3;
    assert XmlTree.ParseRest(text, 7, XmlTree.Span(1, 1), o) == XmlTree.Ok(XmlTree.Content([], None), 9);
    assert XmlTree.ParseElement(text, 1, o) == XmlTree.Ok(EMPTY_VALUE, 9);
    assert XmlTree.ParseDocument(text, 9, o) == XmlTree.Ok([], 9);
    assert XmlTree.Skip(text, 0, XmlTree.Blank) == 0;
    assert XmlTree.ParseNode(text, 1, o) == XmlTree.Ok(Some(EMPTY_VALUE), 9);
    assert XmlTree.Single(Some(EMPTY_VALUE)).children + [] == [EMPTY_VALUE];
    assert XmlTree.ParseDocument(text, 0, o) == XmlTree.Ok([EMPTY_VALUE], 9);
  }
}
