/**
 * Concrete runs of the pool with `POOL_SIZE = 1024` and the default
 * `ALIGNMENT` of 8, where `ALIGNED_HEADER_SIZE` is 24.
 */
module PoolScenarios {
  import opened Words
  import opened BlockHeaders
  import opened PoolModel
  import opened PoolInvariant
  import opened PoolProperties

  const SMALL_POOL: Layout := Layout(1024, 8)

  lemma SmallPoolLayout()
    ensures SMALL_POOL.Valid() && SMALL_POOL.AlignedHeaderSize() == 24
  {
    assert RoundUp(8, 8) == 8;
    assert RoundUp(16, 8) == 16;
    assert IsPowerOfTwo(2) && IsPowerOfTwo(4);
  }

  /** A fresh pool of 1024 bytes: one free block of 1024 bytes at offset 0. */
  const FRESH: PoolState := PoolState(map[0 := BlockHeader(1024, None, None)], 0, 0, 0, [0])

  /** After `allocate(4)`: 4 allocated bytes at offset 0, then a free header at 28 with 1020 bytes. */
  const AFTER_4: PoolState := PoolState(
    map[0 := BlockHeader(ALLOCATED_FLAG + 4, Some(28), None),
        28 := BlockHeader(1020, None, Some(0))],
    0, 4, 0, [0, 28])

  /** After a further `allocate(8)`: a second allocated block at 28, the free header moved to 60. */
  const AFTER_4_8: PoolState := PoolState(
    map[0 := BlockHeader(ALLOCATED_FLAG + 4, Some(28), None),
        28 := BlockHeader(ALLOCATED_FLAG + 8, Some(60), Some(0)),
        60 := BlockHeader(1012, None, Some(28))],
    0, 12, 0, [0, 28, 60])

  /** After freeing those 4 bytes: the block at 0 is free again, the header at 28 is left with size 0. */
  const FREED_4: PoolState := PoolState(
    map[0 := BlockHeader(1024, None, None), 28 := BlockHeader(0, None, Some(0))],
    0, 4, 4, [0])

  /** `reset` on the small pool. */
  lemma ResetSmallPool()
    ensures Reset(SMALL_POOL) == FRESH
  {
    assert Reset(SMALL_POOL).headers == FRESH.headers;
  }

  /** The headers of a split of the fresh pool's only block after 4 bytes. */
  lemma SplitFreshHeaders()
    ensures SplitState(SMALL_POOL, FRESH, 4).headers == AFTER_4.headers
  {
    SmallPoolLayout();
    assert HeaderAt(FRESH.headers, 0) == BlockHeader(1024, None, None);
    assert SizeWord(4, true) == ALLOCATED_FLAG + 4;
    assert WrappingSub(1024, 4) == 1020;
  }

  /**
   * `reset` as the code runs it after the two allocations: header 28 still
   * carries the flag and links to 60, outside the one-block chain, so the
   * state is not well formed.
   */
  lemma ResetLeavesStaleFlag()
    ensures var t := ResetOver(SMALL_POOL, AFTER_4_8.headers);
      && t.chain == [0]
      && HeaderAt(t.headers, 28).IsAllocated() && HeaderAt(t.headers, 28).next == Some(60)
      && !Inv(SMALL_POOL, t)
  {
    var t := ResetOver(SMALL_POOL, AFTER_4_8.headers);
    assert HeaderAt(t.headers, 28) == AFTER_4_8.headers[28];
    assert 28 in t.headers && t.headers[28].IsAllocated() && 28 !in t.chain;
    assert !FlagsInList(t.headers, t.chain);
  }

  /** Carving 4 bytes out of the fresh pool's only block. */
  lemma SplitFresh()
    ensures Split(SMALL_POOL, FRESH, 0, 4) == AFTER_4
  {
    SmallPoolLayout();
    SplitWrites(SMALL_POOL, FRESH, 4);
    SplitFreshHeaders();
    assert FRESH.chain + [28] == AFTER_4.chain;
  }

  /** The headers of a split of the free block at 28 after 8 bytes. */
  lemma SplitAfterFourHeaders()
    ensures SplitState(SMALL_POOL, AFTER_4, 8).headers == AFTER_4_8.headers
  {
    SmallPoolLayout();
    assert HeaderAt(AFTER_4.headers, 28) == BlockHeader(1020, None, Some(0));
    assert SizeWord(8, true) == ALLOCATED_FLAG + 8;
    assert WrappingSub(1020, 8) == 1012;
  }

  /** Carving 8 bytes out of the free block at 28. */
  lemma SplitAfterFour()
    ensures Split(SMALL_POOL, AFTER_4, 1, 8) == AFTER_4_8
  {
    SmallPoolLayout();
    SplitWrites(SMALL_POOL, AFTER_4, 8);
    SplitAfterFourHeaders();
    assert AFTER_4.chain + [60] == AFTER_4_8.chain;
  }

  /** The first `allocate(4)` returns the payload right after the first header. */
  lemma AllocateFour()
    ensures Allocate(SMALL_POOL, FRESH, 4) == Allocation(AFTER_4, Some(24))
  {
    SmallPoolLayout();
    SplitFresh();
    assert FirstFitFrom(FRESH.headers, FRESH.chain, 4, 0) == Some(0);
    assert Allocate(SMALL_POOL, FRESH, 4) == Take(SMALL_POOL, FRESH, 0, 4);
  }

  /** The second request, of 8 bytes, skips the allocated block and splits the free one at 28. */
  lemma AllocateEight()
    ensures Allocate(SMALL_POOL, AFTER_4, 8) == Allocation(AFTER_4_8, Some(52))
  {
    SmallPoolLayout();
    SplitAfterFour();
    assert FirstFitFrom(AFTER_4.headers, AFTER_4.chain, 8, 0) == Some(1);
    assert Allocate(SMALL_POOL, AFTER_4, 8) == Take(SMALL_POOL, AFTER_4, 1, 8);
  }

  /** The states the two allocations reach are well-formed. */
  lemma AllocationsKeepInv()
    ensures Inv(SMALL_POOL, AFTER_4) && Inv(SMALL_POOL, AFTER_4_8)
  {
    AllocateFour();
    AllocateEight();
    SmallPoolLayout();
    ResetSmallPool();
    ResetEstablishesInv(SMALL_POOL);
    AllocatePreservesInv(SMALL_POOL, FRESH, 4);
    AllocatePreservesInv(SMALL_POOL, AFTER_4, 8);
  }

  /** Freeing those 4 bytes merges the free block at 28 back into the block at 0. */
  lemma FreeFour()
    ensures Inv(SMALL_POOL, AFTER_4)
    ensures Deallocate(SMALL_POOL, AFTER_4, 24) == Ok(FREED_4)
  {
    AllocationsKeepInv();
    SmallPoolLayout();
    FreeBeforeLast(SMALL_POOL, AFTER_4, 24);
    assert HeaderAt(AFTER_4.headers, 0).GetSize() == 4;
    assert MergeState(AFTER_4.(deallocatedTotal := 4)).headers == FREED_4.headers;
    assert MergeState(AFTER_4.(deallocatedTotal := 4)) == FREED_4;
  }

  /**
   * The scenario of the test suite: a fresh pool hands out 4 bytes right
   * after the first header, and freeing them leaves both counters at 4.
   */
  lemma AllocateFourBytesThenFree()
    ensures Allocate(SMALL_POOL, Reset(SMALL_POOL), 4) == Allocation(AFTER_4, Some(24))
    ensures Inv(SMALL_POOL, AFTER_4)
    ensures Deallocate(SMALL_POOL, AFTER_4, 24).Ok?
    ensures Deallocate(SMALL_POOL, AFTER_4, 24).value.allocatedTotal == 4
    ensures Deallocate(SMALL_POOL, AFTER_4, 24).value.deallocatedTotal == 4
  {
    ResetSmallPool();
    AllocateFour();
    FreeFour();
  }

  /** Two allocations on a fresh pool, of 4 and then 8 bytes, carve three blocks. */
  lemma TwoAllocations()
    ensures Allocate(SMALL_POOL, Allocate(SMALL_POOL, Reset(SMALL_POOL), 4).state, 8) == Allocation(AFTER_4_8, Some(52))
  {
    ResetSmallPool();
    AllocateFour();
    AllocateEight();
  }

  /**
   * Freeing the first of those blocks twice: its successor is allocated, so
   * the first free keeps the flag and the second is accepted, counting the 4
   * bytes again.
   */
  lemma FreeBeforeAllocatedSuccessorTwice()
    ensures Inv(SMALL_POOL, AFTER_4_8)
    ensures Deallocate(SMALL_POOL, AFTER_4_8, 24) == Ok(AFTER_4_8.(deallocatedTotal := 4))
    ensures Inv(SMALL_POOL, AFTER_4_8.(deallocatedTotal := 4))
    ensures Deallocate(SMALL_POOL, AFTER_4_8.(deallocatedTotal := 4), 24) == Ok(AFTER_4_8.(deallocatedTotal := 8))
  {
    AllocationsKeepInv();
    SmallPoolLayout();
    var s := AFTER_4_8;
    InvIgnoresCounters(SMALL_POOL, s, s.allocatedTotal, 4);
    DeallocateKeepsFlag(SMALL_POOL, s, 0, 24);
    DoubleFreeAccepted(SMALL_POOL, s, 0, 24, s.(deallocatedTotal := 4));
  }
}
