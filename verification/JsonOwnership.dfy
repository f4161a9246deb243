/**
 * Ownership: what `cJSON_Delete` frees, and that `cJSON_Duplicate` gives a reference-free tree of the
 * same value sharing nothing that is ever freed with its source.
 */
module JsonOwnership {
  import opened Bytes
  import opened JsonTree
  import opened JsonItem

  /** The allocator's books: the blocks not yet freed, and the blocks freed, in order. */
  datatype Memory = Memory(live: set<object>, freed: seq<object>) {
    /** Freeing a block twice, or one never allocated, is a violated precondition. */
    function Free(block: object): Memory
      requires block in live
    {
      Memory(live - {block}, freed + [block])
    }

    /** Looking into an item that has been freed is one too. */
    function Use(item: Item): Item
      requires item in live
    {
      item
    }

    function Allocate(block: object): Memory {
      Memory(live + {block}, freed)
    }
  }

  /** A ghost picture of an item, the blocks that are its own, and the items below it. */
  datatype Tree = Tree(item: Item, own: seq<object>, children: seq<Tree>)

  ghost function First(ts: seq<Tree>): Item? {
    if ts == [] then null else ts[0].item
  }

  ghost function Items(t: Tree): set<Item>
    decreases t, 1
  {
    {t.item} + ListItems(t.children)
  }

  ghost function ListItems(ts: seq<Tree>): set<Item>
    decreases ts, 0
  {
    if ts == [] then {} else Items(ts[0]) + ListItems(ts[1..])
  }

  /** The items strictly below the top level of a list. */
  ghost function Inner(ts: seq<Tree>): set<Item> {
    if ts == [] then {} else ListItems(ts[0].children) + Inner(ts[1..])
  }

  lemma InnerInside(ts: seq<Tree>)
    ensures Inner(ts) <= ListItems(ts)
  {
  }

  /** The blocks of one item apart from its children. */
  ghost function OwnBlocks(item: Item): seq<object>
    reads item`isReference, item`valueString, item`stringIsConst, item`key
  {
    (if !item.isReference && item.valueString != null then [item.valueString] else [])
    + (if !item.stringIsConst && item.key != null then [item.key] else [])
    + [item]
  }

  /** The items of `ts` are linked both ways, from `prev` to the end. */
  ghost predicate Linked(prev: Item?, ts: seq<Tree>)
    reads ListItems(ts)`next, ListItems(ts)`prev
    decreases ts
  {
    ts == [] || (assert ts[0].item in Items(ts[0]);
                 ts[0].item.prev == prev && ts[0].item.next == First(ts[1..]) && Linked(ts[0].item, ts[1..]))
  }

  /** `t` is what its item owns: a reference owns no children. */
  ghost predicate Owns(t: Tree)
    reads Items(t)`child, Items(t)`isReference, Items(t)`valueString, Items(t)`stringIsConst, Items(t)`key
    reads ListItems(t.children)`next, ListItems(t.children)`prev
    decreases t, 1
  {
    && (if t.item.isReference then t.children == [] else t.item.child == First(t.children))
    && t.own == OwnBlocks(t.item)
    && Linked(null, t.children)
    && (InnerInside(t.children); OwnsAll(t.children))
  }

  ghost predicate OwnsAll(ts: seq<Tree>)
    reads ListItems(ts)`child, ListItems(ts)`isReference, ListItems(ts)`valueString
    reads ListItems(ts)`stringIsConst, ListItems(ts)`key
    reads Inner(ts)`next, Inner(ts)`prev
    decreases ts, 0
  {
    ts == [] || (Owns(ts[0]) && OwnsAll(ts[1..]))
  }

  // ----- what is freed, in order -----

  ghost function Blocks(t: Tree): seq<object>
    decreases t, 1
  {
    ListBlocks(t.children) + t.own
  }

  ghost function ListBlocks(ts: seq<Tree>): seq<object>
    decreases ts, 0
  {
    if ts == [] then [] else Blocks(ts[0]) + ListBlocks(ts[1..])
  }

  ghost predicate NoDuplicates(bs: seq<object>) {
    forall i, j :: 0 <= i < j < |bs| ==> bs[i] != bs[j]
  }

  ghost function BlockSet(bs: seq<object>): set<object> {
    set b | b in bs
  }

  lemma NoDuplicatesConcat(a: seq<object>, b: seq<object>)
    requires NoDuplicates(a + b)
    ensures NoDuplicates(a) && NoDuplicates(b) && BlockSet(a) !! BlockSet(b)
  {
    assert forall i :: 0 <= i < |a| ==> (a + b)[i] == a[i];
    assert forall i :: 0 <= i < |b| ==> (a + b)[|a| + i] == b[i];
    forall x | x in BlockSet(a) ensures x !in BlockSet(b) {
      var i :| 0 <= i < |a| && a[i] == x;
      assert (a + b)[i] == x;
    }
  }

  /** The books after freeing `bs`, one after the other. */
  ghost predicate Freed(before: Memory, after: Memory, bs: seq<object>) {
    after.freed == before.freed + bs && after.live == before.live - BlockSet(bs)
  }

  lemma FreedConcat(m0: Memory, m1: Memory, m2: Memory, a: seq<object>, b: seq<object>)
    requires Freed(m0, m1, a) && Freed(m1, m2, b)
    ensures Freed(m0, m2, a + b)
  {
  }

  lemma FreedNothing(m: Memory)
    ensures Freed(m, m, [])
  {
  }

  /** Every block of `bs` may be freed, once. */
  ghost predicate Freeable(m: Memory, bs: seq<object>) {
    NoDuplicates(bs) && BlockSet(bs) <= m.live
  }

  lemma FreeableFront(m: Memory, a: seq<object>, b: seq<object>)
    requires Freeable(m, a + b)
    ensures Freeable(m, a)
  {
    NoDuplicatesConcat(a, b);
    assert forall x :: x in a ==> x in a + b;
  }

  lemma FreeableBack(m: Memory, n: Memory, a: seq<object>, b: seq<object>)
    requires Freeable(m, a + b) && Freed(m, n, a)
    ensures Freeable(n, b)
  {
    NoDuplicatesConcat(a, b);
    assert forall x :: x in b ==> x in a + b;
  }

  /**
   * cJSON_Delete: frees the blocks the list owns, each exactly once, in order, and nothing else; in
   * particular nothing that is reached only through a reference.
   */
  method Delete(first: Item?, m: Memory, ghost ts: seq<Tree>, ghost scope: set<Item>) returns (after: Memory)
    requires ListItems(ts) <= scope
    requires first == First(ts) && (ts == [] || Linked(ts[0].item.prev, ts)) && OwnsAll(ts)
    requires Freeable(m, ListBlocks(ts))
    ensures Freed(m, after, ListBlocks(ts))
    decreases ts, 0
  {
    hide Freed, Freeable, Owns, Blocks;
    var item := first;
    after := m;
    FreedNothing(m);
    ghost var k := 0;
    ghost var done: seq<object> := [];
    assert ts[0..] == ts && [] + ListBlocks(ts) == ListBlocks(ts);
    while item != null
      invariant k <= |ts| && ListItems(ts[k..]) <= scope && item == First(ts[k..]) && OwnsAll(ts[k..])
      invariant ts[k..] == [] || Linked(ts[k].item.prev, ts[k..])
      invariant done + ListBlocks(ts[k..]) == ListBlocks(ts)
      invariant Freed(m, after, done) && Freeable(after, ListBlocks(ts[k..]))
      decreases |ts| - k
    {
      ghost var rest, more := ts[k..], ts[k + 1..];
      assert rest[0] == ts[k] && rest[1..] == more;
      InnerInside(rest);
      FreeableFront(after, Blocks(ts[k]), ListBlocks(more));
      StillLive(after, ts[k]);
      var next := after.Use(item).next;
      ghost var before := after;
      after := DeleteOne(item, after, ts[k], scope);
      FreeableBack(before, after, Blocks(ts[k]), ListBlocks(more));
      FreedConcat(m, before, after, done, Blocks(ts[k]));
      done := done + Blocks(ts[k]);
      k := k + 1;
      item := next;
    }
    assert done + [] == done;
  }

  /** The body of Delete's loop: children, strings, the item itself. */
  method DeleteOne(item: Item, m: Memory, ghost t: Tree, ghost scope: set<Item>) returns (after: Memory)
    requires Items(t) <= scope
    requires item == t.item && Owns(t) && Freeable(m, Blocks(t))
    ensures Freed(m, after, Blocks(t))
    decreases t, 1
  {
    ghost var below := ListBlocks(t.children);
    FreeableFront(m, below, t.own);
    FreedNothing(m);
    StillLive(m, t);
    hide Freed, Freeable;
    after := m;
    if !m.Use(item).isReference && m.Use(item).child != null {
      after := Delete(item.child, m, t.children, scope);
    } else {
      assert t.children == [] && below == [];
    }
    ghost var middle := after;
    FreeableBack(m, middle, below, t.own);
    after := DeleteOwn(item, after, t.own);
    FreedConcat(m, middle, after, below, t.own);
  }

  lemma StillLive(m: Memory, t: Tree)
    requires Owns(t) && Freeable(m, Blocks(t))
    ensures t.item in m.live
  {
    assert t.own[|t.own| - 1] == t.item;
    assert t.item in Blocks(t);
  }

  method DeleteOwn(item: Item, m: Memory, ghost own: seq<object>) returns (after: Memory)
    requires own == OwnBlocks(item) && Freeable(m, own)
    ensures Freed(m, after, own)
  {
    assert own[|own| - 1] == item;
    after := m;
    if !after.Use(item).isReference && after.Use(item).valueString != null {
      assert own[0] == item.valueString;
      after := after.Free(after.Use(item).valueString);
    }
    if !after.Use(item).stringIsConst && after.Use(item).key != null {
      assert own[|own| - 2] == item.key;
      after := after.Free(after.Use(item).key);
    }
    after := after.Free(item);
  }

  /** Freeing one forest leaves every block of a disjoint one live. */
  lemma DeleteLeavesOthers(m: Memory, after: Memory, freed: seq<object>, others: seq<object>)
    requires Freed(m, after, freed) && Freeable(m, others) && BlockSet(freed) !! BlockSet(others)
    ensures Freeable(after, others)
  {
  }

  // ----- what a tree says -----

  datatype Value = Value(kind: byte, valueInt: int, valueDouble: Decimal, text: Option<Text>, key: Option<Text>,
                         keyIsConst: bool, children: seq<Value>)

  /** `t` shows the items below its item, followed through references too. */
  ghost predicate Shows(t: Tree)
    reads Items(t)
    decreases t, 1
  {
    t.item.child == First(t.children) && ShowsAll(t.children)
  }

  ghost predicate ShowsAll(ts: seq<Tree>)
    reads ListItems(ts)
    decreases ts, 0
  {
    ts == [] || (assert ts[0].item in Items(ts[0]);
                 ts[0].item.next == First(ts[1..]) && Shows(ts[0]) && ShowsAll(ts[1..]))
  }

  /** An item's own fields, and the values of its children. */
  ghost function FieldsOf(item: Item, children: seq<Value>): Value
    reads item`kind, item`valueInt, item`valueDouble, item`valueString, item`key, item`stringIsConst
  {
    Value(item.kind, item.valueInt, item.valueDouble, TextOf(item.valueString), TextOf(item.key),
          item.stringIsConst, children)
  }

  ghost function ValueOf(t: Tree): Value
    reads Items(t)`kind, Items(t)`valueInt, Items(t)`valueDouble
    reads Items(t)`valueString, Items(t)`key, Items(t)`stringIsConst
    decreases t, 1
  {
    FieldsOf(t.item, ValuesOf(t.children))
  }

  ghost function ValuesOf(ts: seq<Tree>): seq<Value>
    reads ListItems(ts)`kind, ListItems(ts)`valueInt, ListItems(ts)`valueDouble
    reads ListItems(ts)`valueString, ListItems(ts)`key, ListItems(ts)`stringIsConst
    decreases ts, 0
  {
    if ts == [] then [] else [ValueOf(ts[0])] + ValuesOf(ts[1..])
  }

  ghost predicate NoReferences(t: Tree)
    reads Items(t)`isReference
  {
    forall o :: o in Items(t) ==> !o.isReference
  }

  // ----- cJSON_Duplicate -----

  /** Copies an item's fields into a new item, strings duplicated; the children are left to the caller. */
  method CopyFields(item: Item, m: Memory) returns (copy: Item, after: Memory, ghost own: seq<object>)
    ensures fresh(copy) && copy.next == null && copy.prev == null && copy.child == null && !copy.isReference
    ensures own == OwnBlocks(copy) && NoDuplicates(own) && fresh(BlockSet(own))
    ensures FieldsOf(copy, []) == FieldsOf(item, [])
    ensures after == Memory(m.live + BlockSet(own), m.freed)
  {
    hide BlockSet, NoDuplicates;
    copy := new Item();
    var text, live := StrDup(item.valueString, m.live + {copy}, false);
    var key;
    key, live := StrDup(item.key, live, item.stringIsConst);
    copy.kind, copy.valueInt, copy.valueDouble, copy.stringIsConst, copy.valueString, copy.key :=
      item.kind, item.valueInt, item.valueDouble, item.stringIsConst, text, key;
    after := Memory(live, m.freed);
    own := Listed(text, if item.stringIsConst then null else key, copy);
  }

  /** cJSON_strdup, which maps NULL to NULL; a constant key is shared instead. */
  method StrDup(s: CText?, before: set<object>, shared: bool) returns (copy: CText?, live: set<object>)
    ensures TextOf(copy) == TextOf(s) && (shared ==> copy == s)
    ensures if shared || s == null then live == before else fresh(copy) && live == before + {copy}
  {
    copy, live := s, before;
    if s != null && !shared {
      copy := new CText(s.bytes);
      live := before + {copy};
    }
  }

  ghost function Listed(text: CText?, key: CText?, item: Item): (bs: seq<object>)
    ensures BlockSet(bs) == (if text != null then {text} else {}) + (if key != null then {key} else {}) + {item}
    ensures text == null || text != key ==> NoDuplicates(bs)
  {
    (if text != null then [text] else []) + (if key != null then [key] else []) + [item]
  }

  /** The postcondition of Duplicate that concerns the new tree alone. */
  ghost predicate Grown(m: Memory, after: Memory, bs: seq<object>) {
    after.live == m.live + BlockSet(bs) && after.freed == m.freed && NoDuplicates(bs)
  }

  lemma GrownConcat(m0: Memory, m1: Memory, m2: Memory, a: seq<object>, b: seq<object>)
    requires Grown(m0, m1, a) && Grown(m1, m2, b) && BlockSet(a) !! BlockSet(b)
    ensures Grown(m0, m2, a + b) && Grown(m0, m2, b + a)
  {
    NoDuplicatesJoined(a, b);
    NoDuplicatesJoined(b, a);
    BlockSetConcat(a, b);
    BlockSetConcat(b, a);
  }

  lemma NoDuplicatesJoined(a: seq<object>, b: seq<object>)
    requires NoDuplicates(a) && NoDuplicates(b) && BlockSet(a) !! BlockSet(b)
    ensures NoDuplicates(a + b)
  {
    forall i, j | 0 <= i < j < |a + b| ensures (a + b)[i] != (a + b)[j] {
      if i < |a| <= j {
        assert a[i] in BlockSet(a) && b[j - |a|] in BlockSet(b);
      }
    }
  }

  lemma BlockSetConcat(a: seq<object>, b: seq<object>)
    ensures BlockSet(a + b) == BlockSet(a) + BlockSet(b)
  {
  }

  // ----- appending one tree to a list under construction -----

  lemma {:induction false} AppendSets(ts: seq<Tree>, t: Tree)
    ensures ListItems(ts + [t]) == ListItems(ts) + Items(t)
    ensures Inner(ts + [t]) == Inner(ts) + ListItems(t.children)
    ensures ListBlocks(ts + [t]) == ListBlocks(ts) + Blocks(t)
  {
    if ts == [] {
      assert [t][1..] == [] && [] + [t] == [t];
    } else {
      assert (ts + [t])[1..] == ts[1..] + [t];
      AppendSets(ts[1..], t);
    }
  }

  lemma {:induction false} AppendOwned(ts: seq<Tree>, t: Tree)
    requires OwnsAll(ts) && Owns(t)
    ensures OwnsAll(ts + [t]) && ValuesOf(ts + [t]) == ValuesOf(ts) + [ValueOf(t)]
  {
    if ts == [] {
      assert [t][1..] == [] && [] + [t] == [t];
    } else {
      assert (ts + [t])[1..] == ts[1..] + [t];
      AppendOwned(ts[1..], t);
    }
  }

  lemma ChildrenInside(t: Tree)
    ensures t.item in Items(t) && ListItems(t.children) <= Items(t)
  {
  }

  lemma {:induction false} TopInside(ts: seq<Tree>)
    ensures forall i {:trigger ts[i]} :: 0 <= i < |ts| ==> ts[i].item in ListItems(ts)
  {
    if ts != [] {
      TopInside(ts[1..]);
      forall i | 0 <= i < |ts| ensures ts[i].item in ListItems(ts) {
        if i > 0 { assert ts[i] == ts[1..][i - 1]; } else { assert ts[0].item in Items(ts[0]); }
      }
    }
  }

  /** Linked, by index. */
  ghost predicate LinkedAt(ts: seq<Tree>, last: Item?)
    reads ListItems(ts)`next, ListItems(ts)`prev
  {
    TopInside(ts);
    && last == (if ts == [] then null else ts[|ts| - 1].item)
    && (forall i {:trigger ts[i]} :: 0 <= i < |ts| ==>
          && ts[i].item.next == (if i + 1 < |ts| then ts[i + 1].item else null)
          && ts[i].item.prev == (if i > 0 then ts[i - 1].item else null))
  }

  lemma {:induction false} LinkedFrom(ts: seq<Tree>, k: nat)
    requires k <= |ts| && (exists last :: LinkedAt(ts, last))
    ensures Linked(if k == 0 || k == |ts| then null else ts[k - 1].item, ts[k..])
    decreases |ts| - k
  {
    if k < |ts| {
      LinkedFrom(ts, k + 1);
      assert ts[k..][1..] == ts[k + 1..];
    }
  }

  /** The top-level items are pairwise different, and different from a new one. */
  ghost predicate Separate(ts: seq<Tree>, item: Item) {
    forall i {:trigger ts[i]} :: 0 <= i < |ts| ==>
      ts[i].item != item && forall j :: 0 <= j < i ==> ts[j].item != ts[i].item
  }

  /** The pointer work of one turn of cJSON_Duplicate's loop: `newChild` becomes the last child of `copy`. */
  method AppendChild(copy: Item, last: Item?, newChild: Item, ghost ts: seq<Tree>, ghost t: Tree,
                     ghost touched: set<Item>, ghost scope: set<Item>)
    requires touched == (if last == null then {} else {last}) && ListItems(ts) + Items(t) <= scope
    requires copy.child == First(ts) && LinkedAt(ts, last) && OwnsAll(ts) && Owns(t) && t.item == newChild
    requires newChild.next == null && newChild.prev == null && Separate(ts, newChild)
    requires copy !in ListItems(ts) + Items(t)
    requires newChild !in Inner(ts) + ListItems(t.children)
    requires touched !! Inner(ts) + ListItems(t.children)
    modifies copy`child, touched`next, newChild`prev
    ensures copy.child == First(ts + [t]) && LinkedAt(ts + [t], newChild) && OwnsAll(ts + [t])
    ensures ValuesOf(ts + [t]) == old(ValuesOf(ts) + [ValueOf(t)])
  {
    InnerInside(ts);
    ChildrenInside(t);
    hide LinkedAt, OwnsAll, Owns, ValuesOf, ValueOf, Items, ListItems, Inner, Separate;
    ghost var vs, v := ValuesOf(ts), ValueOf(t);
    Link(copy, last, newChild, ts, t, touched);
    assert OwnsAll(ts) && Owns(t) && ValuesOf(ts) == vs && ValueOf(t) == v;
    AppendOwned(ts, t);
  }

  method Link(copy: Item, last: Item?, newChild: Item, ghost ts: seq<Tree>, ghost t: Tree, ghost touched: set<Item>)
    requires touched == (if last == null then {} else {last})
    requires copy.child == First(ts) && LinkedAt(ts, last) && t.item == newChild
    requires newChild.next == null && newChild.prev == null
    requires Separate(ts, newChild)
    modifies copy`child, touched`next, newChild`prev
    ensures copy.child == First(ts + [t]) && LinkedAt(ts + [t], newChild)
  {
    if last != null {
      last.next := newChild;
      newChild.prev := last;
    } else {
      copy.child := newChild;
    }
  }

  /** The top-level items are in `items` and pairwise different. */
  ghost predicate Placed(ts: seq<Tree>, items: set<Item>) {
    forall i {:trigger ts[i]} :: 0 <= i < |ts| ==>
      ts[i].item in items && forall j :: 0 <= j < i ==> ts[j].item != ts[i].item
  }

  lemma PlacedAppend(ts: seq<Tree>, t: Tree, items: set<Item>)
    requires Placed(ts, items) && t.item !in items
    ensures Separate(ts, t.item) && Placed(ts + [t], items + Items(t))
  {
  }

  /** The list under construction below `copy`, with `last` its last item and `items` all items in it. */
  ghost predicate Building(copy: Item, ts: seq<Tree>, last: Item?, items: set<Item>)
    reads copy`child, ListItems(ts)
  {
    && items == ListItems(ts) && copy.child == First(ts) && LinkedAt(ts, last)
    && (InnerInside(ts); OwnsAll(ts))
    && Placed(ts, items)
    && (last != null ==> last !in Inner(ts))
    && (forall o :: o in items ==> !o.isReference)
  }

  /** Adds one finished tree to the list. */
  method Attach(copy: Item, last: Item?, newChild: Item, ghost ts: seq<Tree>, ghost t: Tree,
                ghost items: set<Item>, ghost touched: set<Item>, ghost more: set<Item>)
    requires touched == (if last == null then {} else {last}) && more == Items(t)
    requires Building(copy, ts, last, items) && Owns(t) && NoReferences(t) && t.item == newChild
    requires newChild.next == null && newChild.prev == null && newChild !in ListItems(t.children)
    requires items !! Items(t) && copy !in items + Items(t)
    modifies copy`child, touched`next, newChild`prev
    ensures Building(copy, ts + [t], newChild, items + Items(t))
    ensures ValuesOf(ts + [t]) == old(ValuesOf(ts) + [ValueOf(t)])
  {
    InnerInside(ts);
    ChildrenInside(t);
    AppendSets(ts, t);
    PlacedAppend(ts, t, items);
    hide LinkedAt, OwnsAll, Owns, Placed, Separate, ValuesOf, ValueOf, Items, ListItems, Inner;
    AppendChild(copy, last, newChild, ts, t, touched, items + more);
  }

  /** cJSON_Duplicate. `view` shows the source, through references; `t` is the new tree. */
  method Duplicate(item: Item, recurse: bool, m: Memory, ghost view: Tree, ghost scope: set<Item>)
    returns (copy: Item, after: Memory, ghost t: Tree)
    requires view.item == item && Shows(view) && Items(view) <= scope
    ensures t.item == copy && copy.next == null && copy.prev == null && copy !in ListItems(t.children)
    ensures fresh(Items(t)) && fresh(BlockSet(Blocks(t)))
    ensures Owns(t) && NoReferences(t) && Grown(m, after, Blocks(t))
    ensures ValueOf(t) == if recurse then ValueOf(view) else FieldsOf(item, [])
    decreases view, 1
  {
    hide NoDuplicates, BlockSet, Linked, OwnsAll, ValuesOf, ShowsAll, ListItems, ListBlocks, Grown;
    ghost var own;
    ghost var ts: seq<Tree> := [];
    copy, after, own := CopyFields(item, m);
    GrownBy(m, after, own);
    NoChildren();
    if recurse {
      ghost var middle := after;
      ghost var ours := BlockSet(own);
      after, ts := DuplicateChildren(item.child, copy, after, view.children, scope);
      GrownConcat(m, middle, after, own, ListBlocks(ts));
    } else {
      assert [] + own == own;
    }
    BlockSetConcat(ListBlocks(ts), own);
    t := Tree(copy, own, ts);
  }

  lemma GrownBy(m: Memory, after: Memory, bs: seq<object>)
    requires after == Memory(m.live + BlockSet(bs), m.freed) && NoDuplicates(bs)
    ensures Grown(m, after, bs)
  {
  }

  lemma NoChildren()
    ensures Linked(null, []) && OwnsAll([]) && ListItems([]) == {} && ListBlocks([]) == [] && ValuesOf([]) == []
    ensures BlockSet([]) == {}
  {
  }

  /** The children still to be copied, from `child` on. */
  ghost predicate ToDo(child: Item?, views: seq<Tree>, scope: set<Item>)
    reads ListItems(views)
  {
    child == First(views) && ShowsAll(views) && ListItems(views) <= scope
  }

  lemma Unfold(child: Item?, views: seq<Tree>, k: nat, scope: set<Item>)
    requires k <= |views| && ToDo(child, views[k..], scope) && child != null
    ensures k < |views| && child == views[k].item && Shows(views[k]) && Items(views[k]) <= scope
    ensures ToDo(child.next, views[k + 1..], scope) && ListItems(views[k + 1..]) <= scope
    ensures ValuesOf(views[k..]) == [ValueOf(views[k])] + ValuesOf(views[k + 1..])
  {
    if k < |views| { assert views[k..][0] == views[k] && views[k..][1..] == views[k + 1..]; }
  }

  lemma LoopStart(first: Item?, copy: Item, m: Memory, views: seq<Tree>, scope: set<Item>)
    requires first == First(views) && ShowsAll(views) && ListItems(views) <= scope && copy.child == null
    ensures ToDo(first, views[0..], scope) && Building(copy, [], null, {}) && Grown(m, m, ListBlocks([]))
    ensures ListItems([]) == {} && BlockSet(ListBlocks([])) == {}
    ensures ValuesOf([]) + ValuesOf(views[0..]) == ValuesOf(views)
  {
    assert views[0..] == views;
  }

  lemma NothingToDo(views: seq<Tree>, k: nat, scope: set<Item>)
    requires k <= |views| && ToDo(null, views[k..], scope)
    ensures ValuesOf(views[k..]) == []
  {
  }

  /** One turn of cJSON_Duplicate's loop: duplicate a child, append the copy. `m0` is the memory before the loop. */
  method DuplicateTurn(child: Item, copy: Item, last: Item?, m: Memory, ghost view: Tree, ghost ts: seq<Tree>,
                       ghost items: set<Item>, ghost blocks: set<object>, ghost scope: set<Item>, ghost m0: Memory)
    returns (newChild: Item, after: Memory, ghost t: Tree, ghost newItems: set<Item>, ghost added: set<object>)
    requires view.item == child && Shows(view) && Items(view) <= scope
    requires Building(copy, ts, last, items) && items == ListItems(ts) && (last != null ==> last in items)
    requires copy !in scope + items && scope !! items
    requires BlockSet(ListBlocks(ts)) <= blocks && Grown(m0, m, ListBlocks(ts))
    modifies copy`child, items`next
    ensures fresh(added) && newChild in newItems && newItems <= added
    ensures ListItems(ts + [t]) == items + newItems && BlockSet(ListBlocks(ts + [t])) <= blocks + added
    ensures Grown(m0, after, ListBlocks(ts + [t]))
    ensures Building(copy, ts + [t], newChild, items + newItems)
    ensures ValuesOf(ts + [t]) == old(ValuesOf(ts)) + [ValueOf(view)]
    decreases view, 2
  {
    hide Building, Grown, BlockSet, Owns, NoReferences, Shows, ValueOf, ValuesOf, OwnsAll, LinkedAt, ListItems;
    ghost var vs := ValuesOf(ts);
    newChild, after, t := Duplicate(child, true, m, view, scope);
    newItems, added := Items(t), Items(t) + BlockSet(Blocks(t));
    ghost var v := ValueOf(t);
    assert ValuesOf(ts) == vs && Building(copy, ts, last, items);
    ChildrenInside(t);
    AppendSets(ts, t);
    BlockSetConcat(ListBlocks(ts), Blocks(t));
    GrownConcat(m0, m, after, ListBlocks(ts), Blocks(t));
    Attach(copy, last, newChild, ts, t, items, if last == null then {} else {last}, newItems);
    assert ValueOf(view) == v;
  }

  /** The copies of all children, as the list of `copy`. */
  method DuplicateChildren(first: Item?, copy: Item, m: Memory, ghost views: seq<Tree>, ghost scope: set<Item>)
    returns (after: Memory, ghost ts: seq<Tree>)
    requires first == First(views) && ShowsAll(views) && ListItems(views) <= scope
    requires copy !in scope && copy.child == null
    modifies copy`child
    ensures copy.child == First(ts) && Linked(null, ts) && OwnsAll(ts)
    ensures fresh(ListItems(ts)) && fresh(BlockSet(ListBlocks(ts)))
    ensures (forall o :: o in ListItems(ts) ==> !o.isReference) && Grown(m, after, ListBlocks(ts))
    ensures ValuesOf(ts) == ValuesOf(views)
    decreases views, 1
  {
    ghost var last, items;
    after, ts, last, items := DuplicateLoop(first, copy, m, views, scope);
    LinkedFrom(ts, 0);
    assert ts[0..] == ts;
  }

  /** The loop of cJSON_Duplicate. */
  method DuplicateLoop(first: Item?, copy: Item, m: Memory, ghost views: seq<Tree>, ghost scope: set<Item>)
    returns (after: Memory, ghost ts: seq<Tree>, ghost end: Item?, ghost items: set<Item>)
    requires first == First(views) && ShowsAll(views) && ListItems(views) <= scope
    requires copy !in scope && copy.child == null
    modifies copy`child
    ensures Building(copy, ts, end, items) && items == ListItems(ts) && Grown(m, after, ListBlocks(ts))
    ensures fresh(items) && fresh(BlockSet(ListBlocks(ts)))
    ensures ValuesOf(ts) == ValuesOf(views)
    decreases views, 0
  {
    hide ToDo, Building, Grown, BlockSet, Shows, ValueOf, ListItems, Items;
    hide ValuesOf, ShowsAll, Inner, LinkedAt, Linked, Blocks, ListBlocks;
    after, ts, items := m, [], {};
    var child, last: Item? := first, null;
    ghost var k := 0;
    ghost var mine: set<object> := {};
    ghost var values := ValuesOf(views);
    LoopStart(first, copy, m, views, scope);
    while child != null
      invariant k <= |views| && ToDo(child, views[k..], scope)
      invariant fresh(mine) && items <= mine && BlockSet(ListBlocks(ts)) <= mine
      invariant items == ListItems(ts) && (last != null ==> last in items)
      invariant Building(copy, ts, last, items) && Grown(m, after, ListBlocks(ts))
      invariant ValuesOf(ts) + ValuesOf(views[k..]) == values
      decreases |views| - k
    {
      Unfold(child, views, k, scope);
      ghost var more, was := views[k + 1..], ValuesOf(ts);
      ghost var moreValues := ValuesOf(more);
      ghost var t, newItems, added;
      var next := child.next;
      last, after, t, newItems, added := DuplicateTurn(child, copy, last, after, views[k], ts, items, mine, scope, m);
      assert ToDo(next, more, scope) && ValuesOf(more) == moreValues;
      assert was + [ValueOf(views[k])] + moreValues == was + ([ValueOf(views[k])] + moreValues);
      child, ts, k := next, ts + [t], k + 1;
      items, mine := items + newItems, mine + added;
    }
    end := last;
    NothingToDo(views, k, scope);
    assert ValuesOf(ts) + [] == ValuesOf(ts);
  }

  /**
   * A duplicate and its source can be deleted independently: deleting the copy gives back exactly the
   * memory it took, so whatever could be freed before, the source's blocks above all, still can.
   */
  method DuplicateThenDelete(item: Item, m: Memory, ghost view: Tree, ghost source: seq<object>, ghost scope: set<Item>)
    returns (after: Memory)
    requires view.item == item && Shows(view) && Items(view) <= scope && Freeable(m, source)
    ensures after.live == m.live && Freeable(after, source)
  {
    ghost var before := m.live;
    ghost var t;
    var copy, full;
    copy, full, t := Duplicate(item, true, m, view, scope);
    ghost var added := BlockSet(Blocks(t));
    Single(t);
    FullyFreeable(m, full, Blocks(t));
    after := Delete(copy, full, [t], Items(t));
    assert after.live == full.live - added;
  }

  /** A copy and its source are both freeable; freeing the source first leaves the copy freeable. */
  lemma SourceFirst(m: Memory, full: Memory, after: Memory, copy: seq<object>, source: seq<object>)
    requires Grown(m, full, copy) && BlockSet(copy) !! m.live && Freeable(m, source) && Freed(full, after, source)
    ensures Freeable(full, source) && Freeable(after, copy)
  {
  }

  /**
   * The other way round: the source, with what follows it in its list, goes first and the copy after it. Both
   * deletions free each of their own blocks once, and look into no item that has been freed.
   */
  method DuplicateDeleteSource(item: Item, m: Memory, ghost view: Tree, ghost source: seq<Tree>, ghost scope: set<Item>)
    returns (after: Memory, ghost copied: seq<object>)
    requires view.item == item && Shows(view) && Items(view) <= scope && ListItems(source) <= scope
    requires source != [] && First(source) == item && Linked(item.prev, source) && OwnsAll(source)
    requires Freeable(m, ListBlocks(source))
    ensures fresh(BlockSet(copied)) && NoDuplicates(copied)
    ensures after.live == m.live - BlockSet(ListBlocks(source))
    ensures after.freed == m.freed + ListBlocks(source) + copied
  {
    hide Shows, Linked, OwnsAll, Owns, Blocks, ListBlocks, Items, ListItems;
    ghost var before := m.live;
    ghost var t;
    var copy, full;
    copy, full, t := Duplicate(item, true, m, view, scope);
    copied := Blocks(t);
    assert BlockSet(copied) !! before;
    InnerInside(source);
    after := DeleteBoth(item, copy, m, full, source, t, scope, Items(t));
  }

  method DeleteBoth(item: Item, copy: Item, ghost before: Memory, m: Memory, ghost source: seq<Tree>, ghost t: Tree,
                    ghost scope: set<Item>, ghost mine: set<Item>)
    returns (after: Memory)
    requires ListItems(source) <= scope && Items(t) <= mine
    requires source != [] && First(source) == item && Linked(item.prev, source) && OwnsAll(source)
    requires t.item == copy && copy.next == null && Owns(t)
    requires Grown(before, m, Blocks(t)) && BlockSet(Blocks(t)) !! before.live && Freeable(before, ListBlocks(source))
    ensures after.live == before.live - BlockSet(ListBlocks(source))
    ensures after.freed == before.freed + ListBlocks(source) + Blocks(t)
  {
    hide Linked, OwnsAll, Owns, Blocks, ListBlocks, Items, ListItems;
    ChildrenInside(t);
    assert BlockSet(ListBlocks(source)) <= before.live;
    assert Freeable(m, ListBlocks(source));
    var middle := Delete(item, m, source, scope);
    SourceFirst(before, m, middle, Blocks(t), ListBlocks(source));
    assert Owns(t);
    Single(t);
    after := Delete(copy, middle, [t], mine);
  }

  lemma Single(t: Tree)
    requires Owns(t) && t.item.next == null
    ensures Linked(t.item.prev, [t]) && OwnsAll([t]) && ListBlocks([t]) == Blocks(t) && ListItems([t]) == Items(t)
  {
    assert [t][1..] == [];
  }

  lemma FullyFreeable(m: Memory, full: Memory, bs: seq<object>)
    requires Grown(m, full, bs)
    ensures Freeable(full, bs)
  {
  }

  // ----- references -----

  /** create_reference: a shallow copy without a key; it owns nothing but itself. */
  method CreateReference(item: Item, m: Memory) returns (reference: Item, after: Memory, ghost t: Tree)
    ensures fresh(reference) && reference.next == null && reference.prev == null && reference.isReference
    ensures reference.child == item.child && reference.valueString == item.valueString && reference.key == null
    ensures FieldsOf(reference, []) == FieldsOf(item, []).(key := None)
    ensures t.item == reference && Items(t) == {reference} && Owns(t) && Blocks(t) == [reference]
    ensures after == m.Allocate(reference)
  {
    reference := new Item();
    reference.kind, reference.isReference, reference.stringIsConst := item.kind, true, item.stringIsConst;
    reference.child, reference.valueString := item.child, item.valueString;
    reference.valueInt, reference.valueDouble := item.valueInt, item.valueDouble;
    t := Tree(reference, [reference], []);
    after := m.Allocate(reference);
  }

  /** Deleting a reference frees the reference alone: the strings and items seen through it stay live. */
  method ReferenceThenDelete(item: Item, m: Memory) returns (after: Memory)
    ensures after.live == m.live && |after.freed| == |m.freed| + 1
  {
    ghost var before := m.live;
    ghost var t;
    var reference, full;
    reference, full, t := CreateReference(item, m);
    Single(t);
    assert reference !in before;
    assert BlockSet([reference]) == {reference};
    after := Delete(reference, full, [t], Items(t));
  }
}
