/**
 The global allocator: two pools of fixed-size blocks, each with a bitmap that is searched first-fit
 (src/hvcore/src/hypervisor/allocator.rs).
 */
module Allocator {
  import opened Option
  import opened Bits

  const ALLOCATION_BYTES := 0xa0_0000
  const NUMBER_OF_BLOCK_4096 := 0x900
  const NUMBER_OF_BLOCK_128 := 0x2000
  const BLOCK_SIZE_4096 := 4096
  const BLOCK_SIZE_128 := 128

  /** `round_up_by`. */
  function RoundUpBy(number: nat, size: nat): (n: nat)
    requires size > 0
    ensures number > 0 ==> n > 0
  {
    if number % size != 0 then number / size + 1 else number / size
  }

  /** It is the least number of blocks that holds `number` bytes. */
  lemma RoundUpByIsLeastCover(number: nat, size: nat, n: nat)
    requires size == BLOCK_SIZE_4096 || size == BLOCK_SIZE_128
    ensures n * size >= number <==> n >= RoundUpBy(number, size)
  {
    if size == BLOCK_SIZE_128 {
      assert n * 128 >= number <==> n >= RoundUpBy(number, 128);
    } else {
      assert n * 4096 >= number <==> n >= RoundUpBy(number, 4096);
    }
  }

  // ---------------------------------------------------------------- runs of clear bits

  ghost predicate FreeRun(bits: seq<bool>, start: int, count: nat) {
    0 <= start && start + count <= |bits| && forall i | start <= i < start + count :: !bits[i]
  }

  /** The reference search: try every start in turn. */
  ghost function FirstFit(bits: seq<bool>, count: nat, from: nat): (r: Option<nat>)
    ensures r.Some? ==> r.value >= from && FreeRun(bits, r.value, count)
    ensures r.Some? ==> forall t | from <= t < r.value :: !FreeRun(bits, t, count)
    ensures r.None? ==> forall t | from <= t :: !FreeRun(bits, t, count)
    decreases |bits| - from
  {
    if from + count > |bits| then None
    else if FreeRun(bits, from, count) then Some(from)
    else if from == |bits| then None
    else FirstFit(bits, count, from + 1)
  }

  function SetRun(bits: seq<bool>, start: nat, count: nat, value: bool): seq<bool> {
    seq(|bits|, i requires 0 <= i < |bits| => if start <= i < start + count then value else bits[i])
  }

  /** `find_empty_blocks`: one pass that counts the clear bits before each index. */
  method FindEmptyBlocks(bitmap: array<bool>, count: nat) returns (r: Option<nat>)
    requires count > 0
    ensures r == FirstFit(bitmap[..], count, 0)
  {
    var emptyBlockCount := 0;
    var start := 0;
    for index := 0 to bitmap.Length
      invariant emptyBlockCount < count && emptyBlockCount <= index
      invariant emptyBlockCount > 0 ==> start == index - emptyBlockCount
      invariant forall i | index - emptyBlockCount <= i < index :: !bitmap[i]
      invariant emptyBlockCount < index ==> bitmap[index - emptyBlockCount - 1]
      invariant forall t | 0 <= t <= index - count :: !FreeRun(bitmap[..], t, count)
    {
      if bitmap[index] {
        emptyBlockCount := 0;
      } else {
        if emptyBlockCount == 0 {
          start := index;
        }
        emptyBlockCount := emptyBlockCount + 1;
      }
      if emptyBlockCount == count {
        assert FreeRun(bitmap[..], start, count);
        return Some(start);
      }
      if index + 1 >= count {
        var t := index + 1 - count;
        var i := index - emptyBlockCount;
        assert t <= i < t + count && bitmap[..][i];
      }
    }
    return None;
  }

  // ---------------------------------------------------------------- one pool

  /** A live allocation of `size` bytes that occupies `count` blocks. */
  datatype Run = Run(size: nat, count: nat)

  /** The bitmap and the live allocations by start block. */
  datatype PoolState = PoolState(bits: seq<bool>, live: map<nat, Run>)

  ghost predicate Owns(live: map<nat, Run>, start: nat, i: nat) {
    start in live && start <= i < start + live[start].count
  }

  /** A bit is set iff its block belongs to a live allocation; live allocations do not overlap. */
  ghost predicate PoolInv(p: PoolState) {
    && (forall s | s in p.live :: p.live[s].count > 0 && s + p.live[s].count <= |p.bits|)
    && (forall i: nat | i < |p.bits| :: p.bits[i] <==> exists s :: Owns(p.live, s, i))
    && (forall s, t | s in p.live && t in p.live && s < t :: s + p.live[s].count <= t)
  }

  /** The block of a set bit has exactly one owner. */
  lemma OwnerUnique(p: PoolState, s: nat, t: nat, i: nat)
    requires PoolInv(p)
    requires Owns(p.live, s, i) && Owns(p.live, t, i)
    ensures s == t
  {
  }

  ghost function PoolAlloc(p: PoolState, run: Run): PoolState {
    match FirstFit(p.bits, run.count, 0)
    case None => p
    case Some(start) => PoolState(SetRun(p.bits, start, run.count, true), p.live[start := run])
  }

  ghost function PoolDealloc(p: PoolState, start: nat): PoolState
    requires start in p.live
  {
    PoolState(SetRun(p.bits, start, p.live[start].count, false), p.live - {start})
  }

  lemma OwnedBitSet(p: PoolState, s: nat, i: nat)
    requires PoolInv(p) && Owns(p.live, s, i)
    ensures i < |p.bits| && p.bits[i]
  {
  }

  /** A free run lies between the live allocations. */
  lemma FreeRunBetween(p: PoolState, start: nat, count: nat, s: nat)
    requires PoolInv(p) && count > 0 && FreeRun(p.bits, start, count) && s in p.live
    ensures s != start
    ensures s < start ==> s + p.live[s].count <= start
    ensures start < s ==> start + count <= s
  {
    OwnedBitSet(p, s, s);
    if s < start < s + p.live[s].count {
      OwnedBitSet(p, s, start);
      assert false;
    }
  }

  lemma PoolAllocKeepsInv(p: PoolState, run: Run)
    requires run.count > 0 && PoolInv(p)
    ensures PoolInv(PoolAlloc(p, run))
    ensures FirstFit(p.bits, run.count, 0).Some? ==> FirstFit(p.bits, run.count, 0).value !in p.live
  {
    var fit := FirstFit(p.bits, run.count, 0);
    if fit.Some? {
      var start := fit.value;
      var q := PoolAlloc(p, run);
      forall s: nat | s in p.live
        ensures s != start
        ensures s < start ==> s + p.live[s].count <= start
        ensures start < s ==> start + run.count <= s
      {
        FreeRunBetween(p, start, run.count, s);
      }
      forall i: nat | i < |q.bits| ensures q.bits[i] <==> exists s :: Owns(q.live, s, i) {
        if start <= i < start + run.count {
          assert Owns(q.live, start, i);
        } else {
          assert forall s :: Owns(q.live, s, i) <==> Owns(p.live, s, i);
        }
      }
    }
  }

  lemma PoolDeallocKeepsInv(p: PoolState, start: nat)
    requires PoolInv(p) && start in p.live
    ensures PoolInv(PoolDealloc(p, start))
  {
    var q := PoolDealloc(p, start);
    forall i: nat | i < |q.bits| ensures q.bits[i] <==> exists s :: Owns(q.live, s, i) {
      assert forall s :: Owns(q.live, s, i) <==> Owns(p.live, s, i) && s != start;
      if Owns(p.live, start, i) {
        forall s: nat | Owns(p.live, s, i) ensures s == start {
          OwnerUnique(p, s, start, i);
        }
      }
    }
  }

  /** Freeing what was just allocated restores the pool exactly. */
  lemma AllocThenDeallocRestores(p: PoolState, run: Run)
    requires run.count > 0 && PoolInv(p)
    ensures var fit := FirstFit(p.bits, run.count, 0);
            fit.Some? ==>
              && fit.value in PoolAlloc(p, run).live
              && PoolDealloc(PoolAlloc(p, run), fit.value) == p
  {
    var fit := FirstFit(p.bits, run.count, 0);
    if fit.Some? {
      var start := fit.value;
      if start in p.live { FreeRunBetween(p, start, run.count, start); }
      var q := PoolAlloc(p, run);
      assert SetRun(q.bits, start, run.count, false) == p.bits;
      assert q.live - {start} == p.live;
    }
  }

  /** Freed blocks can be allocated again: the next request of no more blocks succeeds. */
  lemma DeallocMakesRoom(p: PoolState, start: nat, count: nat)
    requires PoolInv(p) && start in p.live && count <= p.live[start].count
    ensures FirstFit(PoolDealloc(p, start).bits, count, 0).Some?
  {
    assert FreeRun(PoolDealloc(p, start).bits, start, count);
  }

  /** Without live allocations the whole bitmap is clear: nothing leaks. */
  lemma NothingLiveNothingSet(p: PoolState)
    requires PoolInv(p) && p.live == map[]
    ensures FreeRun(p.bits, 0, |p.bits|)
  {
  }

  // ---------------------------------------------------------------- the two pools

  predicate Large(size: nat) { size >= BLOCK_SIZE_4096 }

  /** How many blocks of its pool an allocation takes. */
  function Blocks(large: bool, size: nat): nat {
    if large then RoundUpBy(size, 4096) else RoundUpBy(size, 128)
  }

  /** The pool of one size class: its live allocations have that class and the blocks they need. */
  ghost predicate ClassInv(p: PoolState, large: bool) {
    && |p.bits| == (if large then NUMBER_OF_BLOCK_4096 else NUMBER_OF_BLOCK_128)
    && PoolInv(p)
    && forall s | s in p.live ::
         p.live[s].size > 0 && Large(p.live[s].size) == large && p.live[s].count == Blocks(large, p.live[s].size)
  }

  datatype Heap = Heap(pool4096: PoolState, pool128: PoolState) {
    function Class(large: bool): PoolState { if large then pool4096 else pool128 }

    function WithClass(large: bool, p: PoolState): Heap {
      if large then this.(pool4096 := p) else this.(pool128 := p)
    }
  }

  ghost predicate HeapInv(h: Heap) { ClassInv(h.pool4096, true) && ClassInv(h.pool128, false) }

  /** The offset in the heap of a block: the large blocks come first. */
  function BlockOffset(large: bool, start: nat): nat {
    if large then start * 4096 else 0x90_0000 + start * 128
  }

  function BlockIndex(large: bool, offset: nat): nat
    requires !large ==> offset >= 0x90_0000
  {
    if large then offset / 4096 else (offset - 0x90_0000) / 128
  }

  lemma BlockIndexOfOffset(large: bool, start: nat)
    ensures BlockIndex(large, BlockOffset(large, start)) == start
  {
  }

  /** A live allocation, by the offset of its first block: its pool is the one of its size. */
  ghost predicate Live(h: Heap, offset: nat, size: nat) {
    var large := Large(size);
    && (!large ==> offset >= 0x90_0000)
    && var start := BlockIndex(large, offset);
       offset == BlockOffset(large, start) && start in h.Class(large).live && h.Class(large).live[start].size == size
  }

  /** The pool of this size has no free run of as many blocks as the size needs. */
  ghost predicate NoRoom(h: Heap, size: nat) {
    forall start :: !FreeRun(h.Class(Large(size)).bits, start, Blocks(Large(size), size))
  }

  /** A call of `alloc`, or of `dealloc` with the pointer's offset in the heap. */
  datatype Op = Alloc(size: nat) | Dealloc(offset: nat, size: nat)

  /** What the GlobalAlloc contract demands: nonzero sizes, and only live allocations are freed. */
  ghost predicate Legal(h: Heap, op: Op) {
    match op
    case Alloc(size) => size > 0
    case Dealloc(offset, size) => Live(h, offset, size)
  }

  ghost function HeapNext(h: Heap, op: Op): Heap
    requires Legal(h, op)
  {
    var large := Large(op.size);
    match op
    case Alloc(size) => h.WithClass(large, PoolAlloc(h.Class(large), Run(size, Blocks(large, size))))
    case Dealloc(offset, size) => h.WithClass(large, PoolDealloc(h.Class(large), BlockIndex(large, offset)))
  }

  ghost predicate LegalRun(h: Heap, run: seq<Op>)
    decreases run
  {
    run == [] || (Legal(h, run[0]) && LegalRun(HeapNext(h, run[0]), run[1..]))
  }

  ghost function HeapAfter(h: Heap, run: seq<Op>): Heap
    requires LegalRun(h, run)
    decreases run
  {
    if run == [] then h else HeapAfter(HeapNext(h, run[0]), run[1..])
  }

  lemma ClassAllocKeepsInv(p: PoolState, large: bool, size: nat)
    requires ClassInv(p, large) && size > 0 && Large(size) == large
    ensures ClassInv(PoolAlloc(p, Run(size, Blocks(large, size))), large)
  {
    PoolAllocKeepsInv(p, Run(size, Blocks(large, size)));
  }

  lemma ClassDeallocKeepsInv(p: PoolState, large: bool, start: nat)
    requires ClassInv(p, large) && start in p.live
    ensures ClassInv(PoolDealloc(p, start), large)
  {
    PoolDeallocKeepsInv(p, start);
  }

  lemma HeapNextKeepsInv(h: Heap, op: Op)
    requires HeapInv(h) && Legal(h, op)
    ensures HeapInv(HeapNext(h, op))
  {
    var large := Large(op.size);
    match op
    case Alloc(size) => ClassAllocKeepsInv(h.Class(large), large, size);
    case Dealloc(offset, _) => ClassDeallocKeepsInv(h.Class(large), large, BlockIndex(large, offset));
  }

  /** Over every legal run: a bit is set iff its block has an owner, and it has only one. */
  lemma {:induction false} RunKeepsHeapInv(h: Heap, run: seq<Op>)
    requires HeapInv(h) && LegalRun(h, run)
    ensures HeapInv(HeapAfter(h, run))
    decreases run
  {
    if run != [] {
      HeapNextKeepsInv(h, run[0]);
      RunKeepsHeapInv(HeapNext(h, run[0]), run[1..]);
    }
  }

  /** The first block that `alloc` of this size takes. */
  ghost function Fit(h: Heap, size: nat): Option<nat> {
    FirstFit(h.Class(Large(size)).bits, Blocks(Large(size), size), 0)
  }

  /** `alloc` fails only without room; otherwise it makes a block live that was not live before. */
  lemma AllocatedIsLive(h: Heap, size: nat)
    requires HeapInv(h) && size > 0
    ensures Fit(h, size).None? <==> NoRoom(h, size)
    ensures Fit(h, size).None? ==> HeapNext(h, Alloc(size)) == h
    ensures Fit(h, size).Some? ==>
              && Live(HeapNext(h, Alloc(size)), BlockOffset(Large(size), Fit(h, size).value), size)
              && !Live(h, BlockOffset(Large(size), Fit(h, size).value), size)
  {
    var large := Large(size);
    PoolAllocKeepsInv(h.Class(large), Run(size, Blocks(large, size)));
    if Fit(h, size).Some? { BlockIndexOfOffset(large, Fit(h, size).value); }
  }

  /** Live allocations lie in the heap, aligned to their block size. */
  lemma LiveInHeap(h: Heap, offset: nat, size: nat)
    requires HeapInv(h) && Live(h, offset, size)
    ensures size > 0 && offset + size <= ALLOCATION_BYTES
    ensures offset % (if Large(size) then BLOCK_SIZE_4096 else BLOCK_SIZE_128) == 0
    ensures Large(size) <==> offset < 0x90_0000
  {
    RoundUpByIsLeastCover(size, if Large(size) then 4096 else 128, Blocks(Large(size), size));
  }

  /**
   A live allocation of a page or more is page aligned and in the first 2304 pages; a smaller one is
   128-byte aligned and behind them.
   */
  lemma LiveByAddress(h: Heap, offset: nat, size: nat)
    requires HeapInv(h) && Live(h, offset, size)
    ensures size >= 4096 ==> offset % 4096 == 0 && offset + size <= 0x90_0000
    ensures size < 4096 ==> offset % 128 == 0 && offset >= 0x90_0000 && offset + size <= 0xa0_0000
  {
    RoundUpByIsLeastCover(size, if size >= 4096 then 4096 else 128, Blocks(size >= 4096, size));
  }

  /** Where an allocation of this size lies in a heap that starts at `base`. */
  predicate PlacedBySize(base: nat, ptr: nat, size: nat) {
    if size >= 4096 then base <= ptr < base + 0x90_0000 && (ptr - base) % 4096 == 0
    else base + 0x90_0000 <= ptr < base + 0xa0_0000 && (ptr - base) % 128 == 0
  }

  lemma AllocatedAddress(h: Heap, size: nat, base: nat)
    requires HeapInv(h) && size > 0 && Fit(h, size).Some?
    ensures PlacedBySize(base, base + BlockOffset(Large(size), Fit(h, size).value), size)
  {
    HeapNextKeepsInv(h, Alloc(size));
    AllocatedIsLive(h, size);
    LiveByAddress(HeapNext(h, Alloc(size)), BlockOffset(Large(size), Fit(h, size).value), size);
  }

  /** An empty heap serves every request below a page, and a larger one iff it has at most 2304 pages. */
  lemma EmptyHeapServes(h: Heap, size: nat)
    requires HeapInv(h) && h.pool4096.live == map[] && h.pool128.live == map[] && size > 0
    ensures |h.pool4096.bits| == 0x900 && |h.pool128.bits| == 0x2000
    ensures Fit(h, size).Some? <==> size <= 0x90_0000
    ensures Fit(h, size).Some? ==> Fit(h, size).value == 0
  {
    var p := h.Class(size >= 4096);
    var count := Blocks(size >= 4096, size);
    NothingLiveNothingSet(p);
    RoundUpByIsLeastCover(size, if size >= 4096 then 4096 else 128, |p.bits|);
    if count <= |p.bits| {
      assert FreeRun(p.bits, 0, count);
    }
  }

  /** An allocation changes nothing but that it makes its own block live. */
  lemma AllocationOnlyAdds(h: Heap, size: nat, offset: nat, size': nat)
    requires HeapInv(h) && size > 0 && Fit(h, size).Some?
    ensures Live(HeapNext(h, Alloc(size)), offset, size') <==>
            Live(h, offset, size')
            || (size' == size
                && offset == (if size >= 4096 then 4096 * Fit(h, size).value else 0x90_0000 + 128 * Fit(h, size).value))
  {
    var large := Large(size);
    var start := Fit(h, size).value;
    PoolAllocKeepsInv(h.Class(large), Run(size, Blocks(large, size)));
    BlockIndexOfOffset(large, start);
  }

  /** A deallocation changes nothing but that it takes the freed allocation away. */
  lemma DeallocationOnlyRemoves(h: Heap, freed: nat, size: nat, offset: nat, size': nat)
    requires HeapInv(h) && Live(h, freed, size)
    ensures Live(HeapNext(h, Dealloc(freed, size)), offset, size') <==> Live(h, offset, size') && offset != freed
  {
    if Live(h, offset, size') {
      LiveByAddress(h, offset, size');
      LiveByAddress(h, freed, size);
    }
  }

  /** Different live allocations occupy disjoint byte ranges. */
  lemma LiveDisjoint(h: Heap, offset: nat, size: nat, offset': nat, size': nat)
    requires HeapInv(h) && Live(h, offset, size) && Live(h, offset', size')
    requires offset < offset'
    ensures offset + size <= offset'
  {
    LiveInHeap(h, offset, size);
    LiveInHeap(h, offset', size');
    RoundUpByIsLeastCover(size, if Large(size) then 4096 else 128, Blocks(Large(size), size));
  }

  // ---------------------------------------------------------------- the code

  class Pool {
    const blockSize: nat
    const blocks: nat          // the address of block 0
    const bitmap: array<bool>
    ghost var live: map<nat, Run>

    ghost predicate Valid()
      reads this, bitmap
    {
      blockSize > 0 && PoolInv(State())
    }

    ghost function State(): PoolState
      reads this, bitmap
    {
      PoolState(bitmap[..], live)
    }

    constructor (blockSize: nat, blocks: nat, count: nat)
      requires blockSize > 0
      ensures Valid() && fresh(bitmap) && live == map[]
      ensures this.blockSize == blockSize && this.blocks == blocks && bitmap.Length == count
    {
      this.blockSize := blockSize;
      this.blocks := blocks;
      bitmap := new bool[count](_ => false);
      live := map[];
    }

    /** The address of a block. */
    function BlockAddress(start: nat): nat {
      MulNonNegative(start, blockSize);
      blocks + start * blockSize
    }

    /** The loop that marks the blocks; its assert never fires. */
    method Mark(start: nat, count: nat)
      requires FreeRun(bitmap[..], start, count)
      modifies bitmap
      ensures bitmap[..] == SetRun(old(bitmap[..]), start, count, true)
    {
      for index := start to start + count
        invariant bitmap[..] == SetRun(old(bitmap[..]), start, index - start, true)
      {
        assert !bitmap[index] by { assert bitmap[..][index] == old(bitmap[..])[index]; }
        bitmap[index] := true;
      }
    }

    /** The loop that clears them; its assert never fires. */
    method Clear(start: nat, count: nat)
      requires start + count <= bitmap.Length && forall i | start <= i < start + count :: bitmap[i]
      modifies bitmap
      ensures bitmap[..] == SetRun(old(bitmap[..]), start, count, false)
    {
      for index := start to start + count
        invariant bitmap[..] == SetRun(old(bitmap[..]), start, index - start, false)
      {
        assert bitmap[index] by { assert bitmap[..][index] == old(bitmap[..])[index]; }
        bitmap[index] := false;
      }
    }

    /** `alloc_internal`; `None` is the null pointer. */
    method AllocInternal(size: nat) returns (r: Option<nat>)
      requires Valid() && size > 0
      modifies this, bitmap
      ensures Valid() && State() == PoolAlloc(old(State()), Run(size, RoundUpBy(size, blockSize)))
      ensures var fit := FirstFit(old(bitmap[..]), RoundUpBy(size, blockSize), 0);
              (r.None? <==> fit.None?) && (r.Some? ==> r.value == BlockAddress(fit.value))
    {
      var requiredBlockCount := RoundUpBy(size, blockSize);
      PoolAllocKeepsInv(State(), Run(size, requiredBlockCount));
      var position := FindEmptyBlocks(bitmap, requiredBlockCount);
      if position.None? {
        return None;
      }
      var start := position.value;
      Mark(start, requiredBlockCount);
      live := live[start := Run(size, requiredBlockCount)];
      return Some(BlockAddress(start));
    }

    /** `dealloc_internal` of the live allocation that starts at block `start`. */
    method DeallocInternal(ptr: nat, size: nat, ghost start: nat)
      requires Valid()
      requires ptr == BlockAddress(start)
      requires start in live && live[start] == Run(size, RoundUpBy(size, blockSize))
      modifies this, bitmap
      ensures Valid() && State() == PoolDealloc(old(State()), start)
    {
      var offset := ptr - blocks;
      DivModUnique(offset, blockSize, start, 0);
      var first := offset / blockSize;
      var blockCount := RoundUpBy(size, blockSize);
      PoolDeallocKeepsInv(State(), start);
      forall i | first <= i < first + blockCount ensures bitmap[i] {
        assert Owns(live, first, i);
        assert bitmap[..][i];
      }
      Clear(first, blockCount);
      live := live - {first};
    }
  }

  /** METADATA: the heap at `base`, split into the two block arrays. */
  class Metadata {
    const base: nat
    const pool4096: Pool
    const pool128: Pool

    ghost predicate Valid()
      reads pool4096, pool4096.bitmap, pool128, pool128.bitmap
    {
      && base > 0
      && pool4096 != pool128 && pool4096.bitmap != pool128.bitmap
      && pool4096.blockSize == BLOCK_SIZE_4096 && pool4096.blocks == base
      && pool128.blockSize == BLOCK_SIZE_128 && pool128.blocks == base + 0x90_0000
      && HeapInv(View())
    }

    ghost function View(): Heap
      reads pool4096, pool4096.bitmap, pool128, pool128.bitmap
    {
      Heap(pool4096.State(), pool128.State())
    }

    constructor (ptr: nat)
      requires ptr > 0
      ensures Valid() && base == ptr
      ensures View().pool4096.live == map[] && View().pool128.live == map[]
      ensures FreeRun(View().pool4096.bits, 0, 0x900) && FreeRun(View().pool128.bits, 0, 0x2000)
      ensures fresh(pool4096) && fresh(pool4096.bitmap) && fresh(pool128) && fresh(pool128.bitmap)
    {
      base := ptr;
      pool4096 := new Pool(BLOCK_SIZE_4096, ptr, NUMBER_OF_BLOCK_4096);
      pool128 := new Pool(BLOCK_SIZE_128, ptr + 0x90_0000, NUMBER_OF_BLOCK_128);
    }

    lemma Addresses(start: nat)
      requires Valid()
      ensures pool4096.BlockAddress(start) == base + BlockOffset(true, start)
      ensures pool128.BlockAddress(start) == base + BlockOffset(false, start)
    {
    }

    /** The choice of the pool in `alloc`. */
    method AllocateBlocks(size: nat) returns (r: Option<nat>)
      requires Valid() && size > 0
      modifies pool4096, pool4096.bitmap, pool128, pool128.bitmap
      ensures Valid() && View() == HeapNext(old(View()), Alloc(size))
      ensures r == match Fit(old(View()), size)
                   case None => None
                   case Some(start) => Some(base + BlockOffset(Large(size), start))
    {
      HeapNextKeepsInv(View(), Alloc(size));
      if size >= BLOCK_SIZE_4096 {
        r := pool4096.AllocInternal(size);
        assert View() == HeapNext(old(View()), Alloc(size));
      } else {
        r := pool128.AllocInternal(size);
        assert View() == HeapNext(old(View()), Alloc(size));
      }
      if r.Some? { Addresses(Fit(old(View()), size).value); }
    }

    /** `alloc`; 0 is the null pointer. A page or more comes page aligned from the large blocks. */
    method Allocate(size: nat) returns (ptr: nat)
      requires Valid() && size > 0
      modifies pool4096, pool4096.bitmap, pool128, pool128.bitmap
      ensures Valid() && View() == HeapNext(old(View()), Alloc(size))
      ensures ptr == match Fit(old(View()), size)
                     case None => 0
                     case Some(start) => base + BlockOffset(Large(size), start)
      ensures ptr != 0 && size >= 4096 ==> base <= ptr < base + 0x90_0000 && (ptr - base) % 4096 == 0
      ensures ptr != 0 && size < 4096 ==> base + 0x90_0000 <= ptr < base + 0xa0_0000 && (ptr - base) % 128 == 0
    {
      ghost var h := View();
      var r := AllocateBlocks(size);
      if r.Some? { AllocatedAddress(h, size, base); }
      ptr := r.GetOr(0);
    }

    /** `dealloc` of a live allocation. */
    method Deallocate(ptr: nat, size: nat)
      requires Valid() && ptr >= base && Live(View(), ptr - base, size)
      modifies pool4096, pool4096.bitmap, pool128, pool128.bitmap
      ensures Valid() && View() == HeapNext(old(View()), Dealloc(ptr - base, size))
      ensures !Live(View(), ptr - base, size)
    {
      HeapNextKeepsInv(View(), Dealloc(ptr - base, size));
      DeallocationOnlyRemoves(View(), ptr - base, size, ptr - base, size);
      if size >= BLOCK_SIZE_4096 {
        pool4096.DeallocInternal(ptr, size, BlockIndex(true, ptr - base));
      } else {
        pool128.DeallocInternal(ptr, size, BlockIndex(false, ptr - base));
      }
    }
  }
}
