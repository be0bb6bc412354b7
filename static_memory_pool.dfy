/**
 * `ss::static_memory_pool<POOL_SIZE, ALIGNMENT>` as an object: the headers in
 * its buffer, `_free_list` and the two counters are fields its methods
 * update in place. Each method is proved to do what the functions of
 * `PoolModel` say; `Reset`, `Allocate` and `Deallocate` also keep the invariant.
 */
module StaticMemoryPool {
  import opened Words
  import opened BlockHeaders
  import opened PoolModel
  import opened PoolInvariant

  /** The writes `allocate` makes when it splits the last block, one `set_...` call at a time. */
  lemma SplitIsWrites(layout: Layout, s: PoolState, k: nat, n: Word, prev: Option<nat>)
    requires k < |s.chain| && prev == (if k == 0 then None else Some(s.chain[k - 1]))
    ensures var it := s.chain[k];
      var next := it + (n + layout.AlignedHeaderSize() + layout.AlignmentPadding());
      var remaining := WrappingSub(HeaderAt(s.headers, it).GetSize(), n);
      var tail := WritePrev(WriteNext(WriteSize(s.headers, next, remaining, false), next, None), next, Some(it));
      var claimed := WriteSize(WriteNext(tail, it, Some(next)), it, n, true);
      Split(layout, s, k, n).headers == if prev.Some? then WriteNext(claimed, prev.value, Some(it)) else claimed
  {
  }

  class Pool {
    /** `POOL_SIZE` and `ALIGNMENT`. */
    const layout: Layout
    /** The headers written into `_buffer`, by offset. */
    var headers: map<nat, BlockHeader>
    /** `_free_list`, as an offset. */
    var freeList: nat
    /** `_allocated`, read by `allocated()`. */
    var allocatedTotal: Word
    /** `_deallocated`, read by `deallocated()`. */
    var deallocatedTotal: Word
    /** The offsets met walking `next` from `_free_list`. */
    ghost var chain: seq<nat>

    ghost function State(): PoolState
      reads this
    {
      PoolState(headers, freeList, allocatedTotal, deallocatedTotal, chain)
    }

    ghost predicate Valid()
      reads this
    {
      layout.Valid() && Inv(layout, State())
    }

    /** The constructor: `reset()` on a fresh buffer. */
    constructor(layout: Layout)
      requires layout.Valid()
      ensures this.layout == layout
      ensures State() == PoolModel.Reset(layout)
      ensures Valid()
    {
      this.layout := layout;
      headers := map[];
      freeList := 0;
      allocatedTotal := 0;
      deallocatedTotal := 0;
      chain := [];
      new;
      Reset();
    }

    /** `reset()`: one free block of `POOL_SIZE` bytes at the start of the buffer. */
    method Reset()
      requires layout.Valid()
      modifies this
      ensures State() == PoolModel.Reset(layout)
      ensures Valid()
    {
      allocatedTotal := 0;
      deallocatedTotal := 0;
      freeList := 0;
      headers := map[];
      headers := WriteSize(headers, freeList, layout.poolSize, false);
      headers := WriteNext(headers, freeList, None);
      headers := WritePrev(headers, freeList, None);
      chain := [0];
      ResetEstablishesInv(layout);
    }

    /** `allocate(n)`: first-fit over the chain, splitting the last block. */
    method Allocate(n: Word) returns (result: Option<nat>)
      requires Valid()
      modifies this
      ensures Allocation(State(), result) == PoolModel.Allocate(layout, old(State()), n)
      ensures Valid()
    {
      ghost var s := State();
      AllocatePreservesInv(layout, s, n);
      if n == 0 {
        return None;
      }
      if n > layout.poolSize {
        return None;
      }
      var it, prev, k := FindFit(n);
      if it.None? {
        return None;
      }
      result := TakeBlock(n, it.value, prev, k);
    }

    /**
     * The search loop of `allocate`: walk `next` from `_free_list` to the
     * first block that is not allocated and holds at least `n` bytes, keeping
     * the block before it in `prev`.
     */
    method FindFit(n: Word) returns (it: Option<nat>, prev: Option<nat>, ghost k: nat)
      requires Valid()
      ensures it.None? <==> FirstFitFrom(headers, chain, n, 0).None?
      ensures it.Some? ==>
        && FirstFitFrom(headers, chain, n, 0) == Some(k)
        && it.value == chain[k]
        && prev == (if k == 0 then None else Some(chain[k - 1]))
    {
      prev := None;
      it := Some(freeList);
      k := 0;
      while it.Some?
        invariant 0 <= k <= |chain|
        invariant it == (if k < |chain| then Some(chain[k]) else None)
        invariant prev == (if k == 0 then None else Some(chain[k - 1]))
        invariant FirstFitFrom(headers, chain, n, k) == FirstFitFrom(headers, chain, n, 0)
        decreases |chain| - k
      {
        var h := HeaderAt(headers, it.value);
        if !h.IsAllocated() && h.GetSize() >= n {
          return;
        }
        ChainStep(layout, State(), k);
        prev := it;
        it := h.next;
        k := k + 1;
      }
    }

    /**
     * The search loop's work once block `it` fits: split it when it is
     * the last block (or fail when the new header would not fit), mark it
     * allocated with size `n`, and point `prev` at it again.
     */
    method TakeBlock(n: Word, it: nat, prev: Option<nat>, ghost k: nat) returns (result: Option<nat>)
      requires k < |chain| && it == chain[k]
      requires prev == (if k == 0 then None else Some(chain[k - 1]))
      modifies this
      ensures Allocation(State(), result) == Take(layout, old(State()), k, n)
    {
      ghost var s := State();
      SplitIsWrites(layout, s, k, n, prev);
      var ahs := layout.AlignedHeaderSize();
      var h := HeaderAt(headers, it);
      result := Some(it + ahs);
      var hs := headers;
      if h.next.None? {
        var requestedWithHeader := n + ahs;
        requestedWithHeader := requestedWithHeader + layout.AlignmentPadding();
        var next: nat := it + requestedWithHeader;
        if layout.poolSize - ahs < next {
          return None;
        }
        allocatedTotal := WrappingAdd(allocatedTotal, n);
        var remaining := WrappingSub(h.GetSize(), n);
        hs := WriteSize(hs, next, remaining, false);
        hs := WriteNext(hs, next, None);
        hs := WritePrev(hs, next, Some(it));
        hs := WriteNext(hs, it, Some(next));
        chain := chain + [next];
      }
      hs := WriteSize(hs, it, n, true);
      if prev.Some? {
        hs := WriteNext(hs, prev.value, Some(it));
      }
      headers := hs;
    }

    /** `deallocate(p)`: range and flag checks, the count, and a merge with a free successor. */
    method Deallocate(p: int) returns (outcome: Result<()>)
      requires Valid()
      modifies this
      ensures var r := PoolModel.Deallocate(layout, old(State()), p);
        && (r.Ok? ==> outcome == Ok(()) && State() == r.value)
        && (r.Err? ==> outcome == Err(r.error) && State() == old(State()))
      ensures Valid()
    {
      ghost var s := State();
      if !IsInsidePool(layout, p) {
        return Err(OutsidePool);
      }
      var at: nat := p - layout.AlignedHeaderSize();
      var h := HeaderAt(headers, at);
      if !h.IsAllocated() {
        return Err(NotAllocated);
      }
      ghost var j, t := Accepted(p);
      Release(at, h, j, t);
      return Ok(());
    }

    /** `FreePlan` on the current state. */
    ghost predicate Planned(at: nat, h: BlockHeader, j: nat, target: PoolState)
      reads this
    {
      FreePlan(State(), at, h, j, target)
    }

    /** `DeallocateAccepted` on the current state. */
    lemma Accepted(p: int) returns (j: nat, t: PoolState)
      requires Valid() && IsInsidePool(layout, p) && HeaderAt(headers, p - layout.AlignedHeaderSize()).IsAllocated()
      ensures PoolModel.Deallocate(layout, State(), p) == Ok(t) && Inv(layout, t)
      ensures Planned(p - layout.AlignedHeaderSize(), HeaderAt(headers, p - layout.AlignedHeaderSize()), j, t)
    {
      j, t := DeallocateAccepted(layout, State(), p);
    }

    /**
     * The end of a `deallocate` that passed both checks: count the size,
     * and when the next block is free take its size, zero it and unlink it.
     * On a well-formed pool that block is free exactly when it is the last.
     */
    method Release(at: nat, h: BlockHeader, ghost j: nat, ghost target: PoolState)
      requires Planned(at, h, j, target)
      modifies this
      ensures State() == target
    {
      var hs := headers;
      var nextBlock := h.next.value;
      var nh := HeaderAt(hs, nextBlock);
      if !nh.IsAllocated() {
        var nextSize := nh.GetSize();
        hs := WriteSize(hs, at, WrappingAdd(h.GetSize(), nextSize), false);
        hs := WriteSize(hs, nextBlock, 0, false);
        hs := WriteNext(hs, at, HeaderAt(hs, nextBlock).next);
        chain := RemoveAt(chain, j + 1);
      }
      headers := hs;
      deallocatedTotal := WrappingAdd(deallocatedTotal, h.GetSize());
    }
  }
}
