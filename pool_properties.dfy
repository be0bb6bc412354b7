/**
 * What `allocate` and `deallocate` do to a well-formed pool, as the code is
 * written: when a request succeeds and what it hands out, how a free merges
 * or leaves its flag, and the round trip of the two.
 */
module PoolProperties {
  import opened Words
  import opened BlockHeaders
  import opened PoolModel
  import opened PoolInvariant

  /**
   * `reset` on an empty buffer, as the constructor runs it, leaves one free
   * block at offset 0 of `POOL_SIZE` bytes, unlinked, with both counters zero.
   */
  lemma ResetIsSingleFreeBlock(layout: Layout)
    requires layout.Valid()
    ensures var s := Reset(layout);
      && Inv(layout, s)
      && s.chain == [0] && s.freeList == 0
      && !HeaderAt(s.headers, 0).IsAllocated()
      && HeaderAt(s.headers, 0).GetSize() == layout.poolSize
      && HeaderAt(s.headers, 0).next == None && HeaderAt(s.headers, 0).prev == None
      && s.allocatedTotal == 0 && s.deallocatedTotal == 0
  {
    ResetEstablishesInv(layout);
  }

  /** Running the code's `reset` a second time changes nothing. */
  lemma ResetOverTwice(layout: Layout, hs: map<nat, BlockHeader>)
    ensures ResetOver(layout, ResetOver(layout, hs).headers) == ResetOver(layout, hs)
  {
  }

  /** The header of chain block `i` starts right after the `i` headers and payloads of the blocks before it. */
  lemma ChainCoversPayloads(layout: Layout, s: PoolState, i: nat)
    requires Inv(layout, s) && i < |s.chain|
    ensures s.chain[i] == PayloadSum(s.headers, s.chain[..i]) + i * layout.AlignedHeaderSize()
    ensures s.chain[i] >= PayloadSum(s.headers, s.chain[..i])
  {
    StepsCoverPayloads(s.headers, s.chain, layout.AlignedHeaderSize(), i);
    MulNonNegative(i, layout.AlignedHeaderSize());
  }

  /** Kept apart so that the solver meets this non-linear fact without the invariant around it. */
  lemma MulNonNegative(x: nat, y: nat)
    ensures x * y >= 0
  {
  }

  /** Where each of the first `i` blocks of `c` ends at the next, block `i` starts after all their headers and payloads. */
  lemma {:induction false} StepsCoverPayloads(hs: map<nat, BlockHeader>, c: seq<nat>, ahs: nat, i: nat)
    requires i < |c| && c[0] == 0
    requires forall k :: 0 <= k < i ==> Filled(ahs, hs, c, k)
    ensures c[i] == PayloadSum(hs, c[..i]) + i * ahs
  {
    if i > 0 {
      StepsCoverPayloads(hs, c, ahs, i - 1);
      assert Filled(ahs, hs, c, i - 1);
      assert c[..i][..i - 1] == c[..i - 1];
      assert HeaderAt(hs, c[i - 1]) == hs[c[i - 1]];
      assert (i - 1) * ahs + ahs == i * ahs;
    }
  }

  /** On a well-formed pool, room for `n` bytes and a header after the last block is room in the last block. */
  lemma TailRoomFits(layout: Layout, s: PoolState, n: Word)
    requires layout.Valid() && Inv(layout, s)
    requires s.chain[|s.chain| - 1] + n + 2 * layout.AlignedHeaderSize() <= layout.poolSize
    ensures Fits(HeaderAt(s.headers, s.chain[|s.chain| - 1]), n)
  {
    var c, k := s.chain, |s.chain| - 1;
    ChainCoversPayloads(layout, s, k);
    assert c[..k + 1] == c;
  }

  /**
   * On a well-formed pool `allocate(n)` succeeds exactly when `n` is not zero
   * and the header it places after the `n` bytes, at the end of the chain,
   * fits below `BUFFER_END - ALIGNED_HEADER_SIZE`.
   */
  lemma AllocateSucceedsIff(layout: Layout, s: PoolState, n: Word)
    requires layout.Valid() && Inv(layout, s)
    ensures Allocate(layout, s, n).result.Some?
        <==> 0 < n && s.chain[|s.chain| - 1] + n + 2 * layout.AlignedHeaderSize() <= layout.poolSize
  {
    var c, ahs := s.chain, layout.AlignedHeaderSize();
    var k, last := |c| - 1, c[|c| - 1];
    if Allocate(layout, s, n).result.Some? {
      AllocateSplitsTail(layout, s, n);
    }
    if 0 < n && last + n + 2 * ahs <= layout.poolSize {
      TailRoomFits(layout, s, n);
      FirstFitPicksTail(layout, s, n);
      assert FirstFitFrom(s.headers, c, n, 0) == Some(k);
      assert Allocate(layout, s, n) == Take(layout, s, k, n);
    }
  }

  /**
   * A successful `allocate` on a well-formed pool: the first fit is the
   * last block, the pointer is past its header and inside the pool, there
   * is room for a header after the `n` bytes, and the new state is the
   * split of that block.
   */
  lemma AllocateCarvesTail(layout: Layout, s: PoolState, n: Word)
    requires layout.Valid() && Inv(layout, s)
    requires Allocate(layout, s, n).result.Some?
    ensures var c, ahs := s.chain, layout.AlignedHeaderSize();
      var last := c[|c| - 1];
      && FirstFitFrom(s.headers, c, n, 0) == Some(|c| - 1)
      && Allocate(layout, s, n) == Allocation(SplitState(layout, s, n), Some(last + ahs))
      && IsInsidePool(layout, last + ahs)
      && last + n + ahs + ahs <= layout.poolSize
  {
    AllocateIsSplitState(layout, s, n);
  }

  /**
   * The split of the last block, header by header: the block carries the
   * flag and size `n` and links to a new free header right after the `n`
   * bytes, of size `old size - n`, `next` null and `prev` back; the blocks
   * before it are untouched; the chain grows by the new header; `_allocated`
   * grows by `n`.
   */
  lemma SplitStateFacts(layout: Layout, s: PoolState, n: Word)
    requires CanSplit(layout, s, n)
    ensures var t, c, ahs := SplitState(layout, s, n), s.chain, layout.AlignedHeaderSize();
      var last := c[|c| - 1];
      var next := last + n + ahs;
      && t.chain == c + [next]
      && HeaderAt(t.headers, last).IsAllocated()
      && HeaderAt(t.headers, last).GetSize() == n
      && HeaderAt(t.headers, last).next == Some(next)
      && HeaderAt(t.headers, last).prev == HeaderAt(s.headers, last).prev
      && !HeaderAt(t.headers, next).IsAllocated()
      && HeaderAt(t.headers, next).GetSize() == HeaderAt(s.headers, last).GetSize() - n
      && HeaderAt(t.headers, next).next == None
      && HeaderAt(t.headers, next).prev == Some(last)
      && (forall i :: 0 <= i < |c| - 1 ==> HeaderAt(t.headers, c[i]) == HeaderAt(s.headers, c[i]))
      && t.allocatedTotal == WrappingAdd(s.allocatedTotal, n)
      && t.deallocatedTotal == s.deallocatedTotal
  {
    SplitFrame(layout, s, n);
    SetSizeRoundTrip(s.headers[s.chain[|s.chain| - 1]], n, true);
  }

  /**
   * The branch for a chosen block that is not last, on any state: the block
   * is taken whole, its size is overwritten by `n` with the flag and no
   * header is created; the chain and `_allocated` stay as they were.
   */
  lemma TakeWholeBlock(layout: Layout, s: PoolState, k: nat, n: Word)
    requires k < |s.chain| && HeaderAt(s.headers, s.chain[k]).next.Some?
    requires k > 0 ==> s.chain[k - 1] in s.headers && s.chain[k - 1] != s.chain[k]
    requires n < ALLOCATED_FLAG
    ensures var r := Take(layout, s, k, n);
      && r.result == Some(s.chain[k] + layout.AlignedHeaderSize())
      && r.state.chain == s.chain
      && r.state.allocatedTotal == s.allocatedTotal
      && HeaderAt(r.state.headers, s.chain[k]).IsAllocated()
      && HeaderAt(r.state.headers, s.chain[k]).GetSize() == n
      && HeaderAt(r.state.headers, s.chain[k]).next == HeaderAt(s.headers, s.chain[k]).next
      && r.state.headers.Keys == s.headers.Keys + {s.chain[k]}
      && (k > 0 ==> HeaderAt(r.state.headers, s.chain[k - 1]) == HeaderAt(s.headers, s.chain[k - 1]).SetNext(Some(s.chain[k])))
      && (forall o :: o != s.chain[k] && (k == 0 || o != s.chain[k - 1]) ==> HeaderAt(r.state.headers, o) == HeaderAt(s.headers, o))
      && ((k > 0 ==> HeaderAt(s.headers, s.chain[k - 1]).next == Some(s.chain[k]))
          && (forall i :: 0 <= i < k ==> s.chain[i] != s.chain[k])
          ==> forall i :: 0 <= i < k ==> HeaderAt(r.state.headers, s.chain[i]) == HeaderAt(s.headers, s.chain[i]))
  {
    SetSizeRoundTrip(HeaderAt(s.headers, s.chain[k]), n, true);
  }

  /**
   * The branch for the last block, on any state: the call fails, changing
   * nothing, exactly when the new header at `it + n + ALIGNED_HEADER_SIZE`
   * would lie past `BUFFER_END - ALIGNED_HEADER_SIZE`.
   */
  lemma TakeTailGuard(layout: Layout, s: PoolState, k: nat, n: Word)
    requires k < |s.chain| && HeaderAt(s.headers, s.chain[k]).next.None?
    ensures Take(layout, s, k, n).result.None?
        <==> layout.poolSize - layout.AlignedHeaderSize() < s.chain[k] + n + layout.AlignedHeaderSize()
    ensures Take(layout, s, k, n).result.None? ==> Take(layout, s, k, n).state == s
    ensures Take(layout, s, k, n).result.Some? ==>
      Take(layout, s, k, n).state.allocatedTotal == WrappingAdd(s.allocatedTotal, n)
  {
  }

  /**
   * On a well-formed pool, the block freed by a successful `deallocate(p)`
   * has a free successor exactly when it is the block before the last.
   */
  lemma DeallocateSuccessorFreeIff(layout: Layout, s: PoolState, p: int)
    requires Inv(layout, s) && Deallocate(layout, s, p).Ok?
    ensures var at := p - layout.AlignedHeaderSize();
      && HeaderAt(s.headers, at).next.Some?
      && (!HeaderAt(s.headers, HeaderAt(s.headers, at).next.value).IsAllocated()
          <==> IndexOf(s.chain, at) == |s.chain| - 2)
  {
    var at := p - layout.AlignedHeaderSize();
    AllocatedHasSuccessor(layout, s, at);
    var j := IndexOf(s.chain, at);
    assert HeaderAt(s.headers, s.chain[j + 1]) == s.headers[s.chain[j + 1]];
    ChainFlag(layout, s, j + 1);
  }

  /**
   * The merge into the last block, header by header: the freed block loses
   * the flag and takes its own size plus the successor's (the absorbed
   * header's bytes are not added), inherits the successor's null `next` and
   * keeps its `prev`; the successor's size becomes 0 and keeps its `prev`;
   * the chain ends one block earlier; the counters are untouched.
   */
  lemma MergeStateFacts(layout: Layout, s: PoolState)
    requires CanMerge(layout, s)
    ensures var t, c := MergeState(s), s.chain;
      var at, succ := c[|c| - 2], c[|c| - 1];
      && !HeaderAt(t.headers, at).IsAllocated()
      && HeaderAt(t.headers, at).GetSize() == HeaderAt(s.headers, at).GetSize() + HeaderAt(s.headers, succ).GetSize()
      && HeaderAt(t.headers, at).next == HeaderAt(s.headers, succ).next == None
      && HeaderAt(t.headers, at).prev == HeaderAt(s.headers, at).prev
      && HeaderAt(t.headers, succ).GetSize() == 0 && !HeaderAt(t.headers, succ).IsAllocated()
      && HeaderAt(t.headers, succ).prev == Some(at)
      && t.chain == c[..|c| - 1]
      && t.deallocatedTotal == s.deallocatedTotal && t.allocatedTotal == s.allocatedTotal
  {
    MergeAccounts(layout, s);
    MergeFrame(layout, s);
    assert PrevLinked(s.headers, s.chain, |s.chain| - 1);
    BlocksBelow(layout, s, |s.chain| - 1);
  }

  /**
   * Freeing chain block `k`, whose successor is allocated: only `_deallocated`
   * changes, and the block keeps its allocated flag.
   */
  lemma DeallocateKeepsFlag(layout: Layout, s: PoolState, k: nat, p: int)
    requires Inv(layout, s) && k + 2 < |s.chain|
    requires p == s.chain[k] + layout.AlignedHeaderSize()
    ensures Deallocate(layout, s, p).Ok?
    ensures var t, at := Deallocate(layout, s, p).value, s.chain[k];
      && t == s.(deallocatedTotal := WrappingAdd(s.deallocatedTotal, HeaderAt(s.headers, at).GetSize()))
      && HeaderAt(t.headers, at).IsAllocated()
  {
    var c := s.chain;
    BlocksBelow(layout, s, |c| - 1);
    assert HeaderAt(s.headers, c[k]) == s.headers[c[k]];
    ChainFlag(layout, s, k);
    assert Deallocate(layout, s, p).Ok?;
    IndexOfChain(layout, s, k);
    DeallocateShape(layout, s, p);
  }

  /**
   * After a free of the block before the last, which merges, the pool is
   * still well formed and freeing the same pointer again is rejected as not
   * allocated.
   */
  lemma DoubleFreeAfterMergeRejected(layout: Layout, s: PoolState, p: int, t: PoolState)
    requires layout.Valid() && Inv(layout, s) && |s.chain| >= 2
    requires p == s.chain[|s.chain| - 2] + layout.AlignedHeaderSize()
    requires Deallocate(layout, s, p) == Ok(t)
    ensures Inv(layout, t)
    ensures Deallocate(layout, t, p) == Err(NotAllocated)
  {
    DeallocatePreservesInv(layout, s, p);
    MergeClearsFlag(layout, s, p);
  }

  /** A free that merges leaves the freed header without the allocated flag. */
  lemma MergeClearsFlag(layout: Layout, s: PoolState, p: int)
    requires layout.Valid() && Inv(layout, s) && |s.chain| >= 2
    requires p == s.chain[|s.chain| - 2] + layout.AlignedHeaderSize()
    ensures IsInsidePool(layout, p) && Deallocate(layout, s, p).Ok?
    ensures !HeaderAt(Deallocate(layout, s, p).value.headers, p - layout.AlignedHeaderSize()).IsAllocated()
  {
    FreeBeforeLast(layout, s, p);
    var at := s.chain[|s.chain| - 2];
    var counted := s.(deallocatedTotal := WrappingAdd(s.deallocatedTotal, HeaderAt(s.headers, at).GetSize()));
    InvIgnoresCounters(layout, s, s.allocatedTotal, counted.deallocatedTotal);
    MergeStateFacts(layout, counted);
  }

  /**
   * After a free of chain block `k`, whose successor is allocated, the pool
   * is still well formed and freeing the same pointer again succeeds and
   * counts the block's size a second time.
   */
  lemma DoubleFreeAccepted(layout: Layout, s: PoolState, k: nat, p: int, t: PoolState)
    requires Inv(layout, s) && k + 2 < |s.chain|
    requires p == s.chain[k] + layout.AlignedHeaderSize()
    requires Deallocate(layout, s, p) == Ok(t)
    ensures Inv(layout, t)
    ensures Deallocate(layout, t, p)
         == Ok(t.(deallocatedTotal := WrappingAdd(t.deallocatedTotal, HeaderAt(s.headers, s.chain[k]).GetSize())))
  {
    DeallocateKeepsFlag(layout, s, k, p);
    InvIgnoresCounters(layout, s, s.allocatedTotal, t.deallocatedTotal);
    assert t.headers == s.headers && t.chain == s.chain;
    DeallocateKeepsFlag(layout, t, k, p);
  }

  /** On a well-formed pool, freeing the block before the last succeeds and merges. */
  lemma FreeBeforeLast(layout: Layout, s: PoolState, p: int)
    requires Inv(layout, s) && |s.chain| >= 2
    requires p == s.chain[|s.chain| - 2] + layout.AlignedHeaderSize()
    ensures Deallocate(layout, s, p)
         == Ok(MergeState(s.(deallocatedTotal :=
              WrappingAdd(s.deallocatedTotal, HeaderAt(s.headers, s.chain[|s.chain| - 2]).GetSize()))))
  {
    var c, ahs := s.chain, layout.AlignedHeaderSize();
    BlocksBelow(layout, s, |c| - 1);
    assert HeaderAt(s.headers, c[|c| - 2]) == s.headers[c[|c| - 2]];
    ChainFlag(layout, s, |c| - 2);
    assert Deallocate(layout, s, p).Ok?;
    IndexOfChain(layout, s, |c| - 2);
    DeallocateShape(layout, s, p);
  }

  /**
   * Merging the block a tail split just carved back into the new last block
   * undoes the split. It needs only that the last block is free with a null
   * `next`, holds at least `n` bytes, and lies beyond every other block.
   */
  lemma MergeUndoesSplit(layout: Layout, s: PoolState, n: Word)
    requires |s.chain| >= 1
    requires var c, last := s.chain, s.chain[|s.chain| - 1];
      && last in s.headers && !s.headers[last].IsAllocated() && s.headers[last].next == None
      && 0 < n <= s.headers[last].GetSize()
      && forall i :: 0 <= i < |c| - 1 ==> c[i] < last
    ensures var s1, last := SplitState(layout, s, n), s.chain[|s.chain| - 1];
      var t := MergeState(s1.(deallocatedTotal := WrappingAdd(s1.deallocatedTotal, n)));
      && |s1.chain| >= 2 && s1.chain[|s1.chain| - 2] == last
      && HeaderAt(s1.headers, last).GetSize() == n
      && t.chain == s.chain
      && (forall i :: 0 <= i < |s.chain| ==> HeaderAt(t.headers, s.chain[i]) == HeaderAt(s.headers, s.chain[i]))
      && HeaderAt(t.headers, last + n + layout.AlignedHeaderSize()).GetSize() == 0
      && t.allocatedTotal == WrappingAdd(s.allocatedTotal, n)
      && t.deallocatedTotal == WrappingAdd(s.deallocatedTotal, n)
  {
    var c, hs := s.chain, s.headers;
    var last := c[|c| - 1];
    var next := last + n + layout.AlignedHeaderSize();
    var h := hs[last];
    var s1 := SplitState(layout, s, n);
    var remaining := WrappingSub(h.GetSize(), n);
    assert HeaderAt(hs, last) == h;
    assert s1.headers == hs[next := BlockHeader(remaining, None, Some(last))]
                           [last := BlockHeader(SizeWord(n, true), Some(next), h.prev)];
    assert s1.chain[|s1.chain| - 2] == last && s1.chain[|s1.chain| - 1] == next;
    assert s1.chain[..|s1.chain| - 1] == c;
    var t := MergeState(s1.(deallocatedTotal := WrappingAdd(s1.deallocatedTotal, n)));
    assert HeaderAt(s1.headers, last).GetSize() == n;
    assert HeaderAt(s1.headers, next).GetSize() == remaining;
    assert t.headers[last] == BlockHeader(h.GetSize(), None, h.prev) == h;
    forall i | 0 <= i < |c|
      ensures HeaderAt(t.headers, c[i]) == HeaderAt(hs, c[i])
    {
      if i < |c| - 1 {
        assert c[i] != last && c[i] != next;
      }
    }
  }

  /** In a well-formed pool the last block is free, has a null `next`, and lies beyond every other block. */
  lemma LastBlockIsFree(layout: Layout, s: PoolState)
    requires Inv(layout, s)
    ensures var c := s.chain;
      var last := c[|c| - 1];
      && last in s.headers && !s.headers[last].IsAllocated() && s.headers[last].next == None
      && (forall i :: 0 <= i < |c| - 1 ==> c[i] < last)
  {
    var c, ahs := s.chain, layout.AlignedHeaderSize();
    BlocksBelow(layout, s, |c| - 1);
  }

  /**
   * Freeing the pointer the last `allocate` returned gives back the chain and
   * every chain header as they were before it, with `n` counted in both
   * `_allocated` and `_deallocated`; only the header it left behind, now of
   * size 0, remains in the buffer.
   */
  lemma AllocateThenFreeRestores(layout: Layout, s: PoolState, n: Word, s1: PoolState, p: nat)
    requires layout.Valid() && Inv(layout, s) && Allocate(layout, s, n) == Allocation(s1, Some(p))
    ensures Inv(layout, s1)
    ensures Deallocate(layout, s1, p).Ok?
    ensures var t := Deallocate(layout, s1, p).value;
      && t.chain == s.chain
      && (forall i :: 0 <= i < |s.chain| ==> HeaderAt(t.headers, s.chain[i]) == HeaderAt(s.headers, s.chain[i]))
      && HeaderAt(t.headers, s.chain[|s.chain| - 1] + n + layout.AlignedHeaderSize()).GetSize() == 0
      && t.allocatedTotal == WrappingAdd(s.allocatedTotal, n)
      && t.deallocatedTotal == WrappingAdd(s.deallocatedTotal, n)
  {
    AllocateIsSplitState(layout, s, n);
    SplitStateKeepsInv(layout, s, n);
    LastBlockIsFree(layout, s);
    MergeUndoesSplit(layout, s, n);
    FreeBeforeLast(layout, s1, p);
  }
}
