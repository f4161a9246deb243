/** The sibling-list mutators of cJSON, against operations on the sequence of children. */
module JsonList {
  import opened Bytes
  import opened Sequences
  import opened JsonItem

  /** `nodes` are the children of `list`, in order: a doubly linked list whose head has no prev. */
  ghost predicate Chain(list: Item, nodes: seq<Item>)
    reads list`child, nodes`next, nodes`prev
  {
    && list !in nodes
    && Distinct(nodes)
    && list.child == NodeAt(nodes, 0)
    && forall i {:trigger nodes[i]} :: 0 <= i < |nodes| ==>
         nodes[i].next == NodeAt(nodes, i + 1) && nodes[i].prev == NodeAt(nodes, i - 1)
  }

  ghost function NodeAt(nodes: seq<Item>, i: int): Item? {
    if 0 <= i < |nodes| then nodes[i] else null
  }

  /** A node that is in no list. */
  ghost predicate Detached(item: Item)
    reads item`next, item`prev
  {
    item.next == null && item.prev == null
  }

  /** cJSON_AddItemToArray: append. */
  method AddItemToArray(list: Item, item: Item, ghost nodes: seq<Item>)
    requires Chain(list, nodes) && Detached(item) && item != list && item !in nodes
    modifies list`child, nodes`next, item`prev
    ensures Chain(list, nodes + [item])
  {
    var child := list.child;
    if child == null {
      list.child := item;
    } else {
      ghost var i := 0;
      while child.next != null
        invariant 0 <= i < |nodes| && child == nodes[i]
        decreases |nodes| - i
      {
        child := child.next;
        i := i + 1;
      }
      child.next := item;
      item.prev := child;
    }
  }

  /** The walk the mutators share: the node at index `which`, or NULL past the end. */
  method Walk(list: Item, which: int, ghost nodes: seq<Item>) returns (c: Item?)
    requires Chain(list, nodes)
    ensures c == NodeAt(nodes, if which < 0 then 0 else which)
  {
    c := list.child;
    var w := which;
    ghost var i := 0;
    while c != null && w > 0
      invariant 0 <= i <= |nodes| && c == NodeAt(nodes, i)
      invariant w == which - i && (which <= 0 ==> i == 0) && (which > 0 ==> w >= 0)
      decreases |nodes| - i
    {
      c := c.next;
      w := w - 1;
      i := i + 1;
    }
  }

  // ----- the links after one change, and the list they make -----

  /** Every node but the one at `k` is linked as before, except that its neighbours skip it. */
  ghost predicate SkipsOne(list: Item, nodes: seq<Item>, k: nat)
    requires k < |nodes|
    reads list`child, nodes`next, nodes`prev
  {
    && list.child == NodeAt(nodes, if k == 0 then 1 else 0)
    && forall j {:trigger nodes[j]} :: 0 <= j < |nodes| && j != k ==>
         && nodes[j].next == NodeAt(nodes, if j == k - 1 then k + 1 else j + 1)
         && nodes[j].prev == NodeAt(nodes, if j == k + 1 then k - 1 else j - 1)
  }

  lemma RemovedNodeAt(nodes: seq<Item>, k: nat, i: int)
    requires k < |nodes|
    ensures i < k ==> NodeAt(Removed(nodes, k), i) == NodeAt(nodes, i)
    ensures i >= k ==> NodeAt(Removed(nodes, k), i) == NodeAt(nodes, i + 1)
  {
    RemovedAt(nodes, k);
    hide Removed;
  }

  lemma RemovedChain(list: Item, nodes: seq<Item>, k: nat)
    requires k < |nodes| && SkipsOne(list, nodes, k) && list !in nodes
    requires Distinct(nodes)
    ensures Chain(list, Removed(nodes, k))
  {
    RemovedAt(nodes, k);
    RemovedDistinct(nodes, k);
    RemovedNodeAt(nodes, k, 0);
    hide Removed, Distinct, NodeAt, SkipsOne;
    var r := Removed(nodes, k);
    assert list.child == NodeAt(r, 0) by { SkipsHead(list, nodes, k); }
    forall i | 0 <= i < |r| ensures r[i].next == NodeAt(r, i + 1) && r[i].prev == NodeAt(r, i - 1) {
      RemovedLink(list, nodes, k, i);
    }
  }

  lemma SkipsHead(list: Item, nodes: seq<Item>, k: nat)
    requires k < |nodes| && SkipsOne(list, nodes, k)
    ensures list.child == NodeAt(nodes, if k == 0 then 1 else 0)
  {
  }

  lemma RemovedLink(list: Item, nodes: seq<Item>, k: nat, i: nat)
    requires k < |nodes| && SkipsOne(list, nodes, k) && i < |nodes| - 1 == |Removed(nodes, k)|
    ensures var r := Removed(nodes, k); r[i].next == NodeAt(r, i + 1) && r[i].prev == NodeAt(r, i - 1)
  {
    RemovedAt(nodes, k);
    RemovedNodeAt(nodes, k, i - 1);
    RemovedNodeAt(nodes, k, i + 1);
    hide Removed, NodeAt;
    if i < k { assert Removed(nodes, k)[i] == nodes[i]; } else { assert Removed(nodes, k)[i] == nodes[i + 1]; }
  }

  /** `item` stands between the nodes at `k - 1` and `k`; everything else is linked as before. */
  ghost predicate TakesOne(list: Item, nodes: seq<Item>, k: nat, item: Item)
    requires k <= |nodes|
    reads list`child, nodes`next, nodes`prev, item`next, item`prev
  {
    && list.child == (if k == 0 then item else NodeAt(nodes, 0))
    && item.next == NodeAt(nodes, k) && item.prev == NodeAt(nodes, k - 1)
    && forall j {:trigger nodes[j]} :: 0 <= j < |nodes| ==>
         && nodes[j].next == (if j == k - 1 then item else NodeAt(nodes, j + 1))
         && nodes[j].prev == (if j == k then item else NodeAt(nodes, j - 1))
  }

  lemma InsertedChain(list: Item, nodes: seq<Item>, k: nat, item: Item)
    requires k <= |nodes| && TakesOne(list, nodes, k, item) && list !in nodes && item !in nodes && item != list
    requires Distinct(nodes)
    ensures Chain(list, Inserted(nodes, k, item))
  {
    InsertedAt(nodes, k, item);
    InsertedDistinct(nodes, k, item);
    hide Inserted, Distinct;
    var r := Inserted(nodes, k, item);
    forall i | 0 <= i < |r| ensures r[i].next == NodeAt(r, i + 1) && r[i].prev == NodeAt(r, i - 1) {
      if i < k { assert r[i] == nodes[i]; } else if i > k { assert r[i] == nodes[i - 1]; }
    }
  }

  /** `item` stands where the node at `k` stood. */
  ghost predicate SwapsOne(list: Item, nodes: seq<Item>, k: nat, item: Item)
    requires k < |nodes|
    reads list`child, nodes`next, nodes`prev, item`next, item`prev
  {
    && list.child == (if k == 0 then item else NodeAt(nodes, 0))
    && item.next == NodeAt(nodes, k + 1) && item.prev == NodeAt(nodes, k - 1)
    && forall j {:trigger nodes[j]} :: 0 <= j < |nodes| && j != k ==>
         && nodes[j].next == (if j == k - 1 then item else NodeAt(nodes, j + 1))
         && nodes[j].prev == (if j == k + 1 then item else NodeAt(nodes, j - 1))
  }

  lemma ReplacedChain(list: Item, nodes: seq<Item>, k: nat, item: Item)
    requires k < |nodes| && SwapsOne(list, nodes, k, item) && list !in nodes && item !in nodes && item != list
    requires Distinct(nodes)
    ensures Chain(list, nodes[k := item])
  {
    var r := nodes[k := item];
    assert Distinct(r);
    hide Distinct;
    forall i | 0 <= i < |r| ensures r[i].next == NodeAt(r, i + 1) && r[i].prev == NodeAt(r, i - 1) {
      assert i != k ==> r[i] == nodes[i];
    }
  }

  // ----- the mutators -----

  lemma ChainIs(list: Item, nodes: seq<Item>)
    requires Chain(list, nodes)
    ensures Distinct(nodes) && list !in nodes && list.child == NodeAt(nodes, 0)
    ensures forall j {:trigger nodes[j]} :: 0 <= j < |nodes| ==>
              nodes[j].next == NodeAt(nodes, j + 1) && nodes[j].prev == NodeAt(nodes, j - 1)
  {
    hide Distinct, NodeAt;
  }

  /** The node at `k`, its neighbours and the head are each at one place only. */
  lemma Around(nodes: seq<Item>, k: nat)
    requires Distinct(nodes) && k < |nodes|
    ensures NodeAt(nodes, 0) == nodes[0]
    ensures NodeAt(nodes, k - 1) == if k > 0 then nodes[k - 1] else null
    ensures NodeAt(nodes, k + 1) == if k + 1 < |nodes| then nodes[k + 1] else null
    ensures forall j {:trigger nodes[j]} :: 0 <= j < |nodes| ==>
              && (nodes[j] == nodes[k] <==> j == k) && (nodes[j] == nodes[0] <==> j == 0)
              && (k > 0 ==> (nodes[j] == nodes[k - 1] <==> j == k - 1))
              && (k + 1 < |nodes| ==> (nodes[j] == nodes[k + 1] <==> j == k + 1))
  {
  }

  /** DetachItemFromArray with the sign check of cJSON_DetachItemFromArray. */
  method DetachItemFromArray(list: Item, which: int, ghost nodes: seq<Item>) returns (c: Item?)
    requires Chain(list, nodes)
    modifies list`child, nodes`next, nodes`prev
    ensures if 0 <= which < |nodes| then c == nodes[which] && Chain(list, Removed(nodes, which)) && Detached(c)
            else c == null && Chain(list, nodes)
  {
    if which < 0 { return null; }
    c := Walk(list, which, nodes);
    if c == null { return; }
    Unlink(list, c, nodes, which);
    RemovedChain(list, nodes, which);
  }

  method Unlink(list: Item, c: Item, ghost nodes: seq<Item>, ghost k: nat)
    requires Chain(list, nodes) && k < |nodes| && c == nodes[k]
    modifies list`child, nodes`next, nodes`prev
    ensures SkipsOne(list, nodes, k) && Detached(c)
  {
    ChainIs(list, nodes);
    Around(nodes, k);
    assert c.next == NodeAt(nodes, k + 1) && c.prev == NodeAt(nodes, k - 1);
    hide Distinct, NodeAt, SkipsOne, Chain;
    LinkNeighbours(c.prev, c.next, c.next, c.prev, nodes, k);
    if c == list.child { list.child := c.next; }
    assert list.child == NodeAt(nodes, if k == 0 then 1 else 0);
    c.prev, c.next := null, null;
    Skips(list, nodes, k);
  }

  lemma Skips(list: Item, nodes: seq<Item>, k: nat)
    requires k < |nodes| && list.child == NodeAt(nodes, if k == 0 then 1 else 0)
    requires forall j {:trigger nodes[j]} :: 0 <= j < |nodes| && j != k ==>
               && nodes[j].next == NodeAt(nodes, if j == k - 1 then k + 1 else j + 1)
               && nodes[j].prev == NodeAt(nodes, if j == k + 1 then k - 1 else j - 1)
    ensures SkipsOne(list, nodes, k)
  {
  }

  /** Gives the neighbours of the node at `k`, where there are any, a new node in its place. */
  method LinkNeighbours(before: Item?, after: Item?, next: Item?, prev: Item?, ghost nodes: seq<Item>, ghost k: nat)
    requires Distinct(nodes) && k < |nodes| && before == NodeAt(nodes, k - 1) && after == NodeAt(nodes, k + 1)
    modifies nodes`next, nodes`prev
    ensures forall j {:trigger nodes[j]} :: 0 <= j < |nodes| ==>
              && nodes[j].next == (if j == k - 1 then next else old(nodes[j].next))
              && nodes[j].prev == (if j == k + 1 then prev else old(nodes[j].prev))
  {
    Around(nodes, k);
    hide Distinct;
    if before != null { before.next := next; }
    if after != null { after.prev := prev; }
  }

  /** cJSON_InsertItemInArray: before the node at `which`; past the end it becomes an append. */
  method InsertItemInArray(list: Item, which: int, newItem: Item, ghost nodes: seq<Item>)
    requires Chain(list, nodes) && Detached(newItem) && newItem != list && newItem !in nodes
    modifies list`child, nodes`next, nodes`prev, newItem`next, newItem`prev
    ensures if which <= 0 then Chain(list, [newItem] + nodes)
            else if which >= |nodes| then Chain(list, nodes + [newItem])
            else Chain(list, nodes[..which] + [newItem] + nodes[which..])
  {
    var c := Walk(list, which, nodes);
    ghost var k := if which <= 0 then 0 else if which > |nodes| then |nodes| else which;
    assert k == 0 ==> Inserted(nodes, k, newItem) == [newItem] + nodes;
    if c == null {
      AddItemToArray(list, newItem, nodes);
      assert Inserted(nodes, k, newItem) == nodes + [newItem];
      return;
    }
    LinkBefore(list, c, newItem, nodes, k);
    InsertedChain(list, nodes, k, newItem);
  }

  method LinkBefore(list: Item, c: Item, newItem: Item, ghost nodes: seq<Item>, ghost k: nat)
    requires Chain(list, nodes) && k < |nodes| && c == nodes[k] && newItem != list && newItem !in nodes
    modifies list`child, nodes`next, nodes`prev, newItem`next, newItem`prev
    ensures TakesOne(list, nodes, k, newItem)
  {
    ChainIs(list, nodes);
    Around(nodes, k);
    hide Distinct, NodeAt, TakesOne, Chain;
    assert c.prev == NodeAt(nodes, k - 1);
    newItem.next := c;
    newItem.prev := c.prev;
    c.prev := newItem;
    if c == list.child { list.child := newItem; } else { newItem.prev.next := newItem; }
    Takes(list, nodes, k, newItem);
  }

  lemma Takes(list: Item, nodes: seq<Item>, k: nat, item: Item)
    requires k < |nodes| && list.child == (if k == 0 then item else NodeAt(nodes, 0))
    requires item.prev == NodeAt(nodes, k - 1) && item.next == nodes[k]
    requires forall j {:trigger nodes[j]} :: 0 <= j < |nodes| ==>
               && nodes[j].next == (if j == k - 1 then item else NodeAt(nodes, j + 1))
               && nodes[j].prev == (if j == k then item else NodeAt(nodes, j - 1))
    ensures TakesOne(list, nodes, k, item)
  {
  }

  /** ReplaceItemInArray up to the point where the replaced node `c` is deleted. */
  method ReplaceItemInArray(list: Item, which: int, newItem: Item, ghost nodes: seq<Item>) returns (c: Item?)
    requires Chain(list, nodes) && Detached(newItem) && newItem != list && newItem !in nodes
    modifies list`child, nodes`next, nodes`prev, newItem`next, newItem`prev
    ensures if 0 <= which < |nodes| then c == nodes[which] && Chain(list, nodes[which := newItem]) && Detached(c)
            else c == null && Chain(list, nodes) && Detached(newItem)
  {
    if which < 0 { return null; }
    c := Walk(list, which, nodes);
    if c == null { return; }
    LinkInstead(list, c, newItem, nodes, which);
    ReplacedChain(list, nodes, which, newItem);
  }

  method LinkInstead(list: Item, c: Item, newItem: Item, ghost nodes: seq<Item>, ghost k: nat)
    requires Chain(list, nodes) && k < |nodes| && c == nodes[k] && newItem != list && newItem !in nodes
    modifies list`child, nodes`next, nodes`prev, newItem`next, newItem`prev
    ensures SwapsOne(list, nodes, k, newItem) && Detached(c)
  {
    ChainIs(list, nodes);
    Around(nodes, k);
    hide Distinct, NodeAt, SwapsOne, Chain;
    assert c.next == NodeAt(nodes, k + 1) && c.prev == NodeAt(nodes, k - 1);
    newItem.next := c.next;
    newItem.prev := c.prev;
    if newItem.next != null { newItem.next.prev := newItem; }
    assert c == list.child <==> k == 0;
    if c == list.child { list.child := newItem; } else { newItem.prev.next := newItem; }
    assert list.child == (if k == 0 then newItem else NodeAt(nodes, 0));
    assert newItem.prev == NodeAt(nodes, k - 1) && newItem.next == NodeAt(nodes, k + 1);
    c.next, c.prev := null, null;
    Swaps(list, nodes, k, newItem);
  }

  lemma Swaps(list: Item, nodes: seq<Item>, k: nat, item: Item)
    requires k < |nodes| && list.child == (if k == 0 then item else NodeAt(nodes, 0))
    requires item.prev == NodeAt(nodes, k - 1) && item.next == NodeAt(nodes, k + 1)
    requires forall j {:trigger nodes[j]} :: 0 <= j < |nodes| && j != k ==>
               && nodes[j].next == (if j == k - 1 then item else NodeAt(nodes, j + 1))
               && nodes[j].prev == (if j == k + 1 then item else NodeAt(nodes, j - 1))
    ensures SwapsOne(list, nodes, k, item)
  {
  }

  /** Detaching at the position of an insert, or inserting at the position of a detach, undoes it. */
  lemma DetachUndoesInsert(nodes: seq<Item>, k: nat, item: Item)
    requires k <= |nodes|
    ensures Removed(Inserted(nodes, k, item), k) == nodes
    ensures k < |nodes| ==> Inserted(Removed(nodes, k), k, nodes[k]) == nodes
  {
    InsertedAt(nodes, k, item);
    RemovedAt(Inserted(nodes, k, item), k);
  }

  // ----- by key -----

  /** tolower in the C locale. */
  function Lower(b: byte): byte {
    if 65 <= b <= 90 then b + 32 else b
  }

  /** The same byte, or the capital and the small form of one letter, which are 32 apart. */
  predicate SameLetter(a: byte, b: byte) {
    a == b || (65 <= a < 91 && b == a + 32) || (65 <= b < 91 && a == b + 32)
  }

  lemma LowerSame(a: byte, b: byte)
    ensures Lower(a) == Lower(b) <==> SameLetter(a, b)
  {
  }

  /** What cJSON_strcasecmp calls equal: both NULL, or the same letters in either case. */
  predicate SameKey(a: Option<Text>, b: Option<Text>) {
    match (a, b)
    case (None, None) => true
    case (Some(s), Some(t)) => |s| == |t| && forall i :: 0 <= i < |s| ==> SameLetter(s[i], t[i])
    case _ => false
  }

  /** The byte a C string shows at `i`, its terminator included. */
  function ByteAt(s: Text, i: nat): byte
    requires i <= |s|
  {
    if i < |s| then s[i] else NUL
  }

  lemma NulAlone()
    ensures forall b :: SameLetter(NUL, b) || SameLetter(b, NUL) ==> b == NUL
  {
    forall b | SameLetter(NUL, b) || SameLetter(b, NUL) ensures b == NUL {
      LowerSame(NUL, b);
      LowerSame(b, NUL);
    }
  }

  /** cJSON_strcasecmp. */
  method StrCaseCmp(a: Option<Text>, b: Option<Text>) returns (d: int)
    requires (a.Some? ==> NulFree(a.value)) && (b.Some? ==> NulFree(b.value))
    ensures d == 0 <==> SameKey(a, b)
  {
    if a.None? { return if b.None? then 0 else 1; }
    if b.None? { return 1; }
    hide SameLetter;
    NulAlone();
    var i := 0;
    while Lower(ByteAt(a.value, i)) == Lower(ByteAt(b.value, i))
      invariant i <= |a.value| && i <= |b.value|
      invariant forall k :: 0 <= k < i ==> SameLetter(a.value[k], b.value[k])
      decreases |a.value| - i
    {
      LowerSame(ByteAt(a.value, i), ByteAt(b.value, i));
      if ByteAt(a.value, i) == NUL { return 0; }
      i := i + 1;
    }
    LowerSame(ByteAt(a.value, i), ByteAt(b.value, i));
    return Lower(ByteAt(a.value, i)) - Lower(ByteAt(b.value, i));
  }

  ghost predicate KeysAreCStrings(nodes: seq<Item>)
    reads nodes`key
  {
    forall i :: 0 <= i < |nodes| && nodes[i].key != null ==> NulFree(nodes[i].key.bytes)
  }

  ghost predicate HasKey(item: Item, name: Text)
    reads item`key
  {
    SameKey(TextOf(item.key), Some(name))
  }

  /** `k` is the first child with the given key, or the number of children when there is none. */
  ghost predicate FirstWithKey(nodes: seq<Item>, name: Text, k: nat)
    reads nodes`key
  {
    && k <= |nodes| && (k < |nodes| ==> HasKey(nodes[k], name))
    && forall i :: 0 <= i < k ==> !HasKey(nodes[i], name)
  }

  /** The search cJSON_GetObjectItem and cJSON_DetachItemFromObject share: the node and its index. */
  method FindByKey(list: Item, name: Text, ghost nodes: seq<Item>) returns (c: Item?, i: nat)
    requires Chain(list, nodes) && NulFree(name) && KeysAreCStrings(nodes)
    ensures FirstWithKey(nodes, name, i) && c == NodeAt(nodes, i)
  {
    c, i := list.child, 0;
    while c != null
      invariant i <= |nodes| && c == NodeAt(nodes, i)
      invariant forall k :: 0 <= k < i ==> !HasKey(nodes[k], name)
      decreases |nodes| - i
    {
      var d := StrCaseCmp(TextOf(c.key), Some(name));
      if d == 0 { return; }
      c, i := c.next, i + 1;
    }
  }

  /** cJSON_GetObjectItem: the first child whose key matches in either case. */
  method GetObjectItem(list: Item, name: Text, ghost nodes: seq<Item>) returns (c: Item?)
    requires Chain(list, nodes) && NulFree(name) && KeysAreCStrings(nodes)
    ensures exists k: nat :: FirstWithKey(nodes, name, k) && c == NodeAt(nodes, k)
  {
    var i;
    c, i := FindByKey(list, name, nodes);
  }

  /** cJSON_DetachItemFromObject: removes exactly the item cJSON_GetObjectItem finds. */
  method DetachItemFromObject(list: Item, name: Text, ghost nodes: seq<Item>) returns (c: Item?, ghost k: nat)
    requires Chain(list, nodes) && NulFree(name) && KeysAreCStrings(nodes)
    modifies list`child, nodes`next, nodes`prev
    ensures FirstWithKey(nodes, name, k) && c == NodeAt(nodes, k)
    ensures if k < |nodes| then Chain(list, Removed(nodes, k)) && Detached(nodes[k]) else Chain(list, nodes)
  {
    var i;
    c, i := FindByKey(list, name, nodes);
    k := i;
    if c != null { c := DetachItemFromArray(list, i, nodes); }
  }

  /** At most one index is the first with a key, so the two routines speak of the same item. */
  lemma FirstWithKeyUnique(nodes: seq<Item>, name: Text, j: nat, k: nat)
    requires FirstWithKey(nodes, name, j) && FirstWithKey(nodes, name, k)
    ensures j == k
  {
  }
}
