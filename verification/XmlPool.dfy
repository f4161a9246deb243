/**
 * `memory_pool`: a bump pointer in the current block and a chain of blocks behind it. Addresses are
 * numbers; the memory the pool itself reads back is the header in front of each dynamic block.
 */
module XmlPool {
  /** RAPIDXML_ALIGNMENT, sizeof(header), RAPIDXML_STATIC_POOL_SIZE, RAPIDXML_DYNAMIC_POOL_SIZE. */
  datatype Config = Config(alignment: nat, header: nat, staticSize: nat, dynamicSize: nat) {
    predicate Sensible() { alignment > 0 && header > 0 }
  }

  const DEFAULTS := Config(8, 8, 64 * 1024, 64 * 1024)

  /** The least multiple of the alignment that is not below `p`. */
  function Align(p: nat, alignment: nat): (r: nat)
    requires alignment > 0
    ensures p <= r < p + alignment && r % alignment == 0
  {
    Rounded(p, alignment);
    p + (alignment - p % alignment) % alignment
  }

  lemma Rounded(p: nat, alignment: nat)
    requires alignment > 0
    ensures var r := p + (alignment - p % alignment) % alignment;
            p <= r < p + alignment && r % alignment == 0
  {
    var q, m := p / alignment, p % alignment;
    assert p == q * alignment + m;
    if m != 0 {
      assert (alignment - m) % alignment == alignment - m;
      MultipleOf(q + 1, alignment);
      assert p + alignment - m == (q + 1) * alignment;
    } else {
      assert alignment % alignment == 0;
    }
  }

  lemma MultipleOf(q: nat, alignment: nat)
    requires alignment > 0
    ensures (q * alignment) % alignment == 0
  {
    var d, m := (q * alignment) / alignment, (q * alignment) % alignment;
    assert (q - d) * alignment == m;
    if q - d >= 1 { AtLeast(q - d, alignment); }
    if q - d <= -1 { AtLeast(d - q, alignment); }
  }

  lemma AtLeast(k: nat, alignment: nat)
    requires k >= 1
    ensures k * alignment >= alignment
  {
  }

  /** The mask arithmetic of `align`, for the alignment of a 64-bit machine. */
  lemma AlignMask(p: bv64)
    ensures (8 - (p & 7)) & 7 == (8 - p % 8) % 8
  {
  }

  predicate Apart(a: nat, m: nat, b: nat, n: nat) { a + m <= b || b + n <= a }

  /** The allocator's book: the size of each block it has handed out and not been given back. */
  type Heap = map<nat, nat>

  predicate HeapValid(heap: Heap, base: nat, size: nat) {
    && (forall p :: p in heap ==> heap[p] > 0 && Apart(p, heap[p], base, size) && p != base)
    && (forall p, q :: p in heap && q in heap && p != q ==> Apart(p, heap[p], q, heap[q]))
  }

  /** A range handed to a caller, and the number of blocks there were then: 0 when it lies in the static memory. */
  datatype Range = Range(at: nat, size: nat, home: nat)

  /**
   * The whole state: the dynamic blocks, oldest first, the ranges handed out since the last clear, the bump
   * pointer, the headers as they stand in memory, and the allocator's book (blocks of every owner).
   */
  datatype Pool = Pool(config: Config, base: nat, blocks: seq<nat>, ranges: seq<Range>, ptr: nat,
                       headers: map<nat, nat>, heap: Heap)
  {
    ghost predicate BlocksLive() {
      && config.Sensible() && HeapValid(heap, base, config.staticSize)
      && (forall k :: 0 <= k < |blocks| ==> blocks[k] in heap)
      && (forall j, k :: 0 <= j < k < |blocks| ==> blocks[j] != blocks[k])
    }

    /** Where block number `k` begins and ends; number 0 is the static memory. */
    ghost function BlockBegin(k: nat): nat
      requires k <= |blocks|
    {
      if k == 0 then base else blocks[k - 1]
    }

    ghost function BlockEnd(k: nat): nat
      requires k <= |blocks| && BlocksLive()
    {
      if k == 0 then base + config.staticSize else blocks[k - 1] + heap[blocks[k - 1]]
    }

    /** Where the header of a dynamic block lies. */
    ghost function HeaderAt(k: nat): nat
      requires 1 <= k <= |blocks| && config.Sensible()
    {
      Align(blocks[k - 1], config.alignment)
    }

    /** The first byte that may be handed out: behind the header, in a dynamic block. */
    ghost function BodyBegin(k: nat): nat
      requires k <= |blocks| && config.Sensible()
    {
      if k == 0 then base else HeaderAt(k) + config.header
    }

    /** Each header is in place, inside its block, and points to the block before. */
    ghost predicate Chained()
      requires BlocksLive()
    {
      forall k :: 1 <= k <= |blocks| ==>
        BodyBegin(k) <= BlockEnd(k) && HeaderAt(k) in headers && headers[HeaderAt(k)] == BlockBegin(k - 1)
    }

    /** A range is aligned and inside the body of its block; in the current block, before the bump pointer. */
    ghost predicate Placed(r: Range)
      requires BlocksLive()
    {
      && r.home <= |blocks| && r.at % config.alignment == 0
      && BodyBegin(r.home) <= r.at && r.at + r.size <= BlockEnd(r.home)
      && (r.home == |blocks| ==> r.at + r.size <= ptr)
    }

    /** Within a block, ranges are handed out in ascending order. */
    ghost predicate Ascending() {
      forall i, j :: 0 <= i < j < |ranges| && ranges[i].home == ranges[j].home ==>
        ranges[i].at + ranges[i].size <= ranges[j].at
    }

    ghost predicate Valid() {
      && BlocksLive() && Chained() && Ascending() && BodyBegin(|blocks|) <= ptr
      && (forall i :: 0 <= i < |ranges| ==> Placed(ranges[i]))
    }

    /** How much is asked of the allocator for a request that does not fit. */
    function BlockSize(size: nat): nat
      requires config.Sensible()
    {
      config.header + (2 * config.alignment - 2) + (if config.dynamicSize < size then size else config.dynamicSize)
    }

    ghost predicate NeedsBlock(size: nat)
      requires BlocksLive()
    {
      Align(ptr, config.alignment) + size > BlockEnd(|blocks|)
    }

    /** What the allocator promises of the memory it returns: it overlaps nothing that is in use. */
    ghost predicate Available(raw: nat, size: nat) {
      raw != base && Apart(raw, size, base, config.staticSize)
      && (forall p :: p in heap ==> p != raw && Apart(raw, size, p, heap[p]))
    }

    /** The state with a new block at `raw`. */
    ghost function WithBlock(raw: nat, size: nat): Pool
      requires BlocksLive()
    {
      var header := Align(raw, config.alignment);
      this.(blocks := blocks + [raw], heap := heap[raw := BlockSize(size)],
            headers := headers[header := BlockBegin(|blocks|)], ptr := header + config.header)
    }

    /** The state with one more range, at the bump pointer. */
    ghost function WithRange(size: nat): Pool
      requires config.Sensible()
    {
      var at := Align(ptr, config.alignment);
      this.(ranges := ranges + [Range(at, size, |blocks|)], ptr := at + size)
    }
  }

  /** The allocator, if it has to be asked, answers `raw`. */
  ghost predicate Ready(s: Pool, size: nat, raw: nat) {
    s.BlocksLive() && s.Valid() && (s.NeedsBlock(size) ==> s.Available(raw, s.BlockSize(size)))
  }

  /** The state after an allocation. */
  ghost function Allocated(s: Pool, size: nat, raw: nat): Pool
    requires s.BlocksLive()
  {
    if s.NeedsBlock(size) then s.WithBlock(raw, size).WithRange(size) else s.WithRange(size)
  }

  /** Headers of different blocks are in different places. */
  lemma HeadersApart(s: Pool, j: nat, k: nat)
    requires s.BlocksLive() && 1 <= j < k <= |s.blocks|
    requires s.BodyBegin(j) <= s.BlockEnd(j) && s.BodyBegin(k) <= s.BlockEnd(k)
    ensures Apart(s.HeaderAt(j), s.config.header, s.HeaderAt(k), s.config.header)
    ensures s.HeaderAt(j) != s.HeaderAt(k)
  {
    assert s.blocks[j - 1] != s.blocks[k - 1];
  }

  lemma NewBlockFits(s: Pool, raw: nat, size: nat)
    requires s.BlocksLive()
    ensures var body := Align(raw, s.config.alignment) + s.config.header;
            Align(body, s.config.alignment) + size <= raw + s.BlockSize(size)
  {
  }

  /** The allocator's book stays in order, and the new block is one of this pool's. */
  lemma NewBlockLive(s: Pool, raw: nat, size: nat)
    requires s.BlocksLive() && s.Available(raw, s.BlockSize(size))
    ensures s.WithBlock(raw, size).BlocksLive()
  {
    hide Align;
    var t := s.WithBlock(raw, size);
    forall k | 0 <= k < |t.blocks| ensures t.blocks[k] in t.heap {
    }
  }

  /** An older header keeps its place and its content: the new one is written elsewhere. */
  lemma OldHeaderKept(s: Pool, raw: nat, size: nat, k: nat)
    requires s.Valid() && s.Available(raw, s.BlockSize(size)) && 1 <= k <= |s.blocks|
    ensures var t := s.WithBlock(raw, size);
            && t.BlocksLive() && t.HeaderAt(k) == s.HeaderAt(k) && t.BlockBegin(k - 1) == s.BlockBegin(k - 1)
            && t.BodyBegin(k) <= t.BlockEnd(k) && t.HeaderAt(k) in t.headers
            && t.headers[t.HeaderAt(k)] == t.BlockBegin(k - 1)
  {
    hide Align, HeapValid;
    var t := s.WithBlock(raw, size);
    NewBlockLive(s, raw, size);
    NewBlockFits(s, raw, size);
    assert s.BodyBegin(k) <= s.BlockEnd(k) && s.HeaderAt(k) in s.headers;
    HeadersApart(t, k, |t.blocks|);
  }

  lemma NewBlockChained(s: Pool, raw: nat, size: nat)
    requires s.Valid() && s.Available(raw, s.BlockSize(size))
    ensures s.WithBlock(raw, size).BlocksLive() && s.WithBlock(raw, size).Chained()
  {
    hide Align, HeapValid;
    var t := s.WithBlock(raw, size);
    NewBlockLive(s, raw, size);
    NewBlockFits(s, raw, size);
    forall k | 1 <= k <= |s.blocks|
      ensures t.BodyBegin(k) <= t.BlockEnd(k) && t.HeaderAt(k) in t.headers
      ensures t.headers[t.HeaderAt(k)] == t.BlockBegin(k - 1)
    {
      OldHeaderKept(s, raw, size, k);
    }
  }

  lemma NewBlockValid(s: Pool, raw: nat, size: nat)
    requires s.Valid() && s.Available(raw, s.BlockSize(size))
    ensures s.WithBlock(raw, size).Valid() && !s.WithBlock(raw, size).NeedsBlock(size)
  {
    hide Align, HeapValid;
    var t := s.WithBlock(raw, size);
    NewBlockChained(s, raw, size);
    NewBlockFits(s, raw, size);
    forall i | 0 <= i < |t.ranges| ensures t.Placed(t.ranges[i]) {
      assert s.Placed(s.ranges[i]);
    }
  }

  lemma NewRangeAscends(s: Pool, size: nat)
    requires s.Valid()
    ensures s.WithRange(size).Ascending()
  {
    hide Align, HeapValid, Pool.Chained;
    var t := s.WithRange(size);
    forall i, j | 0 <= i < j < |t.ranges| && t.ranges[i].home == t.ranges[j].home
      ensures t.ranges[i].at + t.ranges[i].size <= t.ranges[j].at
    {
      if j == |s.ranges| { assert s.Placed(s.ranges[i]); }
    }
  }

  lemma NewRangeValid(s: Pool, size: nat)
    requires s.Valid() && !s.NeedsBlock(size)
    ensures s.WithRange(size).Valid()
  {
    hide Align, HeapValid;
    var t := s.WithRange(size);
    assert t.Chained() by {
      forall k | 1 <= k <= |t.blocks|
        ensures t.BodyBegin(k) <= t.BlockEnd(k) && t.HeaderAt(k) in t.headers
        ensures t.headers[t.HeaderAt(k)] == t.BlockBegin(k - 1)
      {
        assert s.HeaderAt(k) in s.headers;
      }
    }
    forall i | 0 <= i < |t.ranges| ensures t.Placed(t.ranges[i]) {
      if i < |s.ranges| { assert s.Placed(s.ranges[i]); }
    }
    NewRangeAscends(s, size);
  }

  /** Allocating keeps the state valid and adds one range, aligned and of the size asked for. */
  lemma AllocatedValid(s: Pool, size: nat, raw: nat)
    requires Ready(s, size, raw)
    ensures var t := Allocated(s, size, raw);
            && t.Valid() && t.blocks == (if s.NeedsBlock(size) then s.blocks + [raw] else s.blocks)
            && |t.ranges| == |s.ranges| + 1 && t.ranges[..|s.ranges|] == s.ranges && t.ranges[|s.ranges|].size == size
  {
    hide Align, Pool.Valid, Pool.BlocksLive;
    if s.NeedsBlock(size) {
      NewBlockValid(s, raw, size);
      NewRangeValid(s.WithBlock(raw, size), size);
    } else {
      NewRangeValid(s, size);
    }
  }

  // ----- what a valid state means for the callers -----

  lemma BlocksApart(s: Pool, j: nat, k: nat)
    requires s.BlocksLive() && j < k <= |s.blocks|
    ensures Apart(s.BlockBegin(j), s.BlockEnd(j) - s.BlockBegin(j), s.BlockBegin(k), s.BlockEnd(k) - s.BlockBegin(k))
  {
    if j > 0 { assert s.blocks[j - 1] != s.blocks[k - 1]; }
  }

  /** Every range is aligned and lies inside one live block, behind its header. */
  lemma RangeInsideBlock(s: Pool, i: nat)
    requires s.Valid() && i < |s.ranges|
    ensures var r := s.ranges[i];
            && r.at % s.config.alignment == 0 && r.home <= |s.blocks|
            && s.BlockBegin(r.home) <= r.at && r.at + r.size <= s.BlockEnd(r.home)
            && (r.home > 0 ==> s.BlockBegin(r.home) in s.heap && s.HeaderAt(r.home) + s.config.header <= r.at)
  {
    assert s.Placed(s.ranges[i]);
  }

  /** Any two ranges are disjoint. */
  lemma RangesApart(s: Pool, i: nat, j: nat)
    requires s.Valid() && i < j < |s.ranges|
    ensures Apart(s.ranges[i].at, s.ranges[i].size, s.ranges[j].at, s.ranges[j].size)
  {
    hide Align;
    var a, b := s.ranges[i], s.ranges[j];
    RangeInsideBlock(s, i);
    RangeInsideBlock(s, j);
    if a.home < b.home { BlocksApart(s, a.home, b.home); }
    if b.home < a.home { BlocksApart(s, b.home, a.home); }
  }

  /** No range touches the header of any block. */
  lemma RangeSparesHeaders(s: Pool, i: nat, k: nat)
    requires s.Valid() && i < |s.ranges| && 1 <= k <= |s.blocks|
    ensures Apart(s.ranges[i].at, s.ranges[i].size, s.HeaderAt(k), s.config.header)
  {
    hide HeapValid;
    RangeInsideBlock(s, i);
    var home := s.ranges[i].home;
    assert s.BodyBegin(k) <= s.BlockEnd(k);
    if home < k { BlocksApart(s, home, k); }
    if k < home { BlocksApart(s, k, home); }
  }

  // ----- clearing, and writing into a range -----

  function Backwards(s: seq<nat>): (r: seq<nat>)
    ensures |r| == |s| && forall p :: p in r <==> p in s
  {
    if s == [] then [] else Backwards(s[1..]) + [s[0]]
  }

  ghost function Own(blocks: seq<nat>): set<nat> { set p | p in blocks }

  lemma NextReleased(s: Pool, n: nat, headers: map<nat, nat>)
    requires s.Valid() && 1 <= n <= |s.blocks| && headers == s.headers
    ensures s.BlockBegin(n) != s.base && s.BlockBegin(n) in s.heap && s.BlockBegin(n) !in Own(s.blocks[n..])
    ensures Align(s.BlockBegin(n), s.config.alignment) in headers
    ensures headers[Align(s.BlockBegin(n), s.config.alignment)] == s.BlockBegin(n - 1)
    ensures Own(s.blocks[n - 1..]) == Own(s.blocks[n..]) + {s.BlockBegin(n)}
    ensures Backwards(s.blocks[n - 1..]) == Backwards(s.blocks[n..]) + [s.BlockBegin(n)]
  {
    hide Align;
    assert s.HeaderAt(n) in s.headers && s.headers[s.HeaderAt(n)] == s.BlockBegin(n - 1);
    assert s.blocks[n - 1..] == [s.blocks[n - 1]] + s.blocks[n..];
  }

  /** The headers a write at `at` leaves as they are. */
  function Spared(headers: map<nat, nat>, size: nat, at: nat): map<nat, nat> {
    map h | h in headers && !(h <= at < h + size) :: headers[h]
  }

  /** Writing inside any of its ranges, a caller cannot damage the pool. */
  lemma StoreKeepsValid(s: Pool, i: nat, at: nat)
    requires s.Valid() && i < |s.ranges| && s.ranges[i].at <= at < s.ranges[i].at + s.ranges[i].size
    ensures s.(headers := Spared(s.headers, s.config.header, at)).Valid()
  {
    hide Align, HeapValid;
    var t := s.(headers := Spared(s.headers, s.config.header, at));
    forall k | 1 <= k <= |t.blocks|
      ensures t.BodyBegin(k) <= t.BlockEnd(k) && t.HeaderAt(k) in t.headers
      ensures t.headers[t.HeaderAt(k)] == t.BlockBegin(k - 1)
    {
      RangeSparesHeaders(s, i, k);
      assert s.HeaderAt(k) in s.headers;
    }
    forall j | 0 <= j < |t.ranges| ensures t.Placed(t.ranges[j]) {
      assert s.Placed(s.ranges[j]);
    }
  }

  lemma FewerBlocks(heap: Heap, gone: set<nat>, base: nat, size: nat)
    requires HeapValid(heap, base, size)
    ensures HeapValid(heap - gone, base, size)
  {
  }

  // ----- any sequence of operations -----

  ghost function Cleared(s: Pool): Pool
    requires s.config.Sensible()
  {
    s.(blocks := [], ranges := [], ptr := Align(s.base, s.config.alignment), heap := s.heap - Own(s.blocks))
  }

  datatype Step = Allocate(size: nat, raw: nat) | Store(i: nat, at: nat) | Clear

  ghost predicate Runs(s: Pool, steps: seq<Step>, t: Pool)
    decreases |steps|
  {
    if steps == [] then s == t
    else
      match steps[0]
      case Allocate(size, raw) => Ready(s, size, raw) && Runs(Allocated(s, size, raw), steps[1..], t)
      case Store(i, at) =>
        && i < |s.ranges| && s.ranges[i].at <= at < s.ranges[i].at + s.ranges[i].size
        && Runs(s.(headers := Spared(s.headers, s.config.header, at)), steps[1..], t)
      case Clear => s.config.Sensible() && Runs(Cleared(s), steps[1..], t)
  }

  lemma ClearedValid(s: Pool)
    requires s.Valid()
    ensures Cleared(s).Valid()
  {
    hide Align;
    FewerBlocks(s.heap, Own(s.blocks), s.base, s.config.staticSize);
  }

  lemma {:induction false} RunsKeepValid(s: Pool, steps: seq<Step>, t: Pool)
    requires s.Valid() && Runs(s, steps, t)
    ensures t.Valid()
    decreases |steps|
  {
    hide Align, Pool.Valid, Pool.BlocksLive;
    if steps != [] {
      match steps[0]
      case Allocate(size, raw) =>
        AllocatedValid(s, size, raw);
        RunsKeepValid(Allocated(s, size, raw), steps[1..], t);
      case Store(i, at) =>
        StoreKeepsValid(s, i, at);
        RunsKeepValid(s.(headers := Spared(s.headers, s.config.header, at)), steps[1..], t);
      case Clear =>
        ClearedValid(s);
        RunsKeepValid(Cleared(s), steps[1..], t);
    }
  }

  /** Whatever was allocated, written and cleared before, in whatever order: the ranges in use are safe. */
  lemma PoolSafety(s: Pool, steps: seq<Step>, t: Pool, i: nat)
    requires s.Valid() && Runs(s, steps, t) && i < |t.ranges|
    ensures t.BlocksLive() && t.Placed(t.ranges[i])
    ensures forall j :: 0 <= j < |t.ranges| && j != i ==>
              Apart(t.ranges[i].at, t.ranges[i].size, t.ranges[j].at, t.ranges[j].size)
    ensures forall k :: 1 <= k <= |t.blocks| ==> Apart(t.ranges[i].at, t.ranges[i].size, t.HeaderAt(k), t.config.header)
  {
    hide Align, HeapValid;
    RunsKeepValid(s, steps, t);
    forall j | 0 <= j < |t.ranges| && j != i
      ensures Apart(t.ranges[i].at, t.ranges[i].size, t.ranges[j].at, t.ranges[j].size)
    {
      RangesApart(t, if i < j then i else j, if i < j then j else i);
    }
    forall k | 1 <= k <= |t.blocks| ensures Apart(t.ranges[i].at, t.ranges[i].size, t.HeaderAt(k), t.config.header) {
      RangeSparesHeaders(t, i, k);
    }
  }

  // ----- the pool -----

  class MemoryPool {
    const config: Config
    const staticMemory: nat
    var begin: nat
    var ptr: nat
    var end: nat
    var headers: map<nat, nat>
    ghost var heap: Heap
    ghost var blocks: seq<nat>
    ghost var ranges: seq<Range>

    ghost function State(): Pool
      reads this
    {
      Pool(config, staticMemory, blocks, ranges, ptr, headers, heap)
    }

    ghost predicate Valid()
      reads this
    {
      State().Valid() && begin == State().BlockBegin(|blocks|) && end == State().BlockEnd(|blocks|)
    }

    /** The state of a new pool. */
    ghost predicate Empty()
      reads this
    {
      && config.Sensible() && blocks == [] && ranges == [] && begin == staticMemory
      && ptr == Align(staticMemory, config.alignment) && end == staticMemory + config.staticSize
    }

    constructor (config: Config, staticMemory: nat, ghost heap: Heap)
      requires config.Sensible() && HeapValid(heap, staticMemory, config.staticSize)
      ensures Valid() && Empty() && this.config == config && this.staticMemory == staticMemory && this.heap == heap
    {
      this.config := config;
      this.staticMemory := staticMemory;
      headers := map[];
      this.heap := heap;
      new;
      Init();
    }

    method Init()
      requires config.Sensible() && HeapValid(heap, staticMemory, config.staticSize)
      modifies this
      ensures Valid() && Empty() && heap == old(heap) && headers == old(headers)
    {
      begin := staticMemory;
      ptr := Align(begin, config.alignment);
      end := staticMemory + config.staticSize;
      blocks, ranges := [], [];
    }

    /** allocate_aligned; `raw` is what the allocator answers if it has to be asked. */
    method AllocateAligned(size: nat, raw: nat) returns (result: nat)
      requires Valid() && Ready(State(), size, raw)
      modifies this
      ensures Valid() && State() == Allocated(old(State()), size, raw)
      ensures ranges == old(ranges) + [Range(result, size, |blocks|)]
    {
      hide Align, Pool.Valid, Pool.BlocksLive, Pool.BodyBegin, Pool.HeaderAt, HeapValid;
      ghost var s := State();
      AllocatedValid(s, size, raw);
      result := Align(ptr, config.alignment);
      if result + size > end {
        var poolSize := config.dynamicSize;
        if poolSize < size { poolSize := size; }
        var allocSize := config.header + (2 * config.alignment - 2) + poolSize;
        heap := heap[raw := allocSize];
        var pool := Align(raw, config.alignment);
        headers := headers[pool := begin];
        begin := raw;
        ptr := pool + config.header;
        end := raw + allocSize;
        blocks := blocks + [raw];
        assert State() == s.WithBlock(raw, size);
        result := Align(ptr, config.alignment);
      }
      ptr := result + size;
      ranges := ranges + [Range(result, size, |blocks|)];
    }

    /** delete[]: the allocator must have handed the block out, and takes it back. */
    method Release(p: nat)
      requires p in heap
      modifies this`heap
      ensures heap == old(heap) - {p}
    {
      heap := heap - {p};
    }

    /**
     * clear: each of the pool's own blocks is given back exactly once, the newest first, and no other owner's;
     * what is left is a new pool.
     */
    method Clear() returns (ghost released: seq<nat>)
      requires Valid()
      modifies this
      ensures Valid() && Empty() && State() == Cleared(old(State())) && released == Backwards(old(blocks))
    {
      hide Align, Pool.Valid;
      ghost var s, n := State(), |blocks|;
      released := [];
      while begin != staticMemory
        invariant 0 <= n <= |s.blocks| && begin == s.BlockBegin(n) && headers == s.headers
        invariant released == Backwards(s.blocks[n..]) && heap == s.heap - Own(s.blocks[n..])
        decreases n
      {
        NextReleased(s, n, headers);
        var previous := headers[Align(begin, config.alignment)];
        Release(begin);
        released := released + [begin];
        begin := previous;
        n := n - 1;
      }
      AllReleased(s, n);
      FewerBlocks(s.heap, Own(s.blocks), staticMemory, config.staticSize);
      Init();
    }

    /** A caller writes a byte of the range it was given. */
    method Store(at: nat, ghost i: nat)
      requires Valid() && i < |ranges| && ranges[i].at <= at < ranges[i].at + ranges[i].size
      modifies this`headers
      ensures Valid() && headers == Spared(old(headers), config.header, at)
    {
      StoreKeepsValid(State(), i, at);
      headers := Spared(headers, config.header, at);
    }
  }

  lemma AllReleased(s: Pool, n: nat)
    requires s.Valid() && n <= |s.blocks| && s.BlockBegin(n) == s.base
    ensures n == 0 && s.blocks[0..] == s.blocks && s.config.Sensible() && HeapValid(s.heap, s.base, s.config.staticSize)
  {
  }
}
