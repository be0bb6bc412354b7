/**
 * The invariant `Inv` holds after `reset` on an empty buffer, as the
 * constructor runs it, and is kept by every `allocate` and every successful
 * `deallocate`, on every input.
 */
module PoolInvariant {
  import opened Words
  import opened BlockHeaders
  import opened PoolModel

  /** A payload sum depends only on the headers at the offsets it adds up. */
  lemma {:induction false} PayloadSumFrame(hs1: map<nat, BlockHeader>, hs2: map<nat, BlockHeader>, offsets: seq<nat>)
    requires forall i :: 0 <= i < |offsets| ==> HeaderAt(hs1, offsets[i]) == HeaderAt(hs2, offsets[i])
    ensures PayloadSum(hs1, offsets) == PayloadSum(hs2, offsets)
    decreases |offsets|
  {
    if offsets != [] {
      PayloadSumFrame(hs1, hs2, offsets[..|offsets| - 1]);
    }
  }

  /** Following `next` from chain block `k` reaches block `k + 1`, or null after the last. */
  lemma ChainStep(layout: Layout, s: PoolState, k: nat)
    requires Inv(layout, s) && k < |s.chain|
    ensures HeaderAt(s.headers, s.chain[k]).next == if k + 1 < |s.chain| then Some(s.chain[k + 1]) else None
  {
    if k + 1 < |s.chain| {
      assert NextLinked(s.headers, s.chain, k);
    }
  }

  /** Chain block `k` carries the allocated flag exactly when it is not the last. */
  lemma ChainFlag(layout: Layout, s: PoolState, k: nat)
    requires Inv(layout, s) && k < |s.chain|
    ensures HeaderAt(s.headers, s.chain[k]).IsAllocated() <==> k + 1 < |s.chain|
  {
    if k + 1 < |s.chain| {
      assert Filled(layout.AlignedHeaderSize(), s.headers, s.chain, k);
    }
  }

  /** `reset` on an empty buffer, as the constructor runs it, leaves a well-formed pool. */
  lemma ResetEstablishesInv(layout: Layout)
    requires layout.Valid()
    ensures Inv(layout, Reset(layout))
  {
  }

  /** Every block before the last is allocated, so first-fit can only pick the last one. */
  lemma FirstFitPicksTail(layout: Layout, s: PoolState, n: Word)
    requires Inv(layout, s)
    ensures FirstFitFrom(s.headers, s.chain, n, 0).None?
         || FirstFitFrom(s.headers, s.chain, n, 0) == Some(|s.chain| - 1)
  {
    forall m | 0 <= m < |s.chain| - 1
      ensures !Fits(HeaderAt(s.headers, s.chain[m]), n)
    {
      ChainFlag(layout, s, m);
    }
  }

  /**
   * The headers after a split of the last block `last`: the new free header at
   * `next`, and `last` carrying `n`, the flag and the link to `next`.
   */
  function SplitHeaders(hs: map<nat, BlockHeader>, last: nat, next: nat, remaining: Word, n: Word): map<nat, BlockHeader>
  {
    hs[next := BlockHeader(remaining, None, Some(last))]
      [last := BlockHeader(SizeWord(n, true), Some(next), HeaderAt(hs, last).prev)]
  }

  /** The state after a split of the last block, written as its end result. */
  function SplitState(layout: Layout, s: PoolState, n: Word): PoolState
    requires |s.chain| >= 1
  {
    var last := s.chain[|s.chain| - 1];
    var next := last + n + layout.AlignedHeaderSize();
    s.(headers := SplitHeaders(s.headers, last, next, WrappingSub(HeaderAt(s.headers, last).GetSize(), n), n),
       allocatedTotal := WrappingAdd(s.allocatedTotal, n),
       chain := s.chain + [next])
  }

  /** The header writes of a split of the last block, folded into one map. */
  lemma SplitWrites(layout: Layout, s: PoolState, n: Word)
    requires |s.chain| >= 1
    requires var c, next := s.chain, s.chain[|s.chain| - 1] + n + layout.AlignedHeaderSize();
      && next != c[|c| - 1]
      && (|c| >= 2 ==> c[|c| - 2] != c[|c| - 1] && c[|c| - 2] != next
                       && HeaderAt(s.headers, c[|c| - 2]).next == Some(c[|c| - 1]))
    ensures Split(layout, s, |s.chain| - 1, n) == SplitState(layout, s, n)
  {
    var c, hs, ahs := s.chain, s.headers, layout.AlignedHeaderSize();
    var k, last := |c| - 1, c[|c| - 1];
    var next := last + (n + ahs + layout.AlignmentPadding());
    var remaining := WrappingSub(HeaderAt(hs, last).GetSize(), n);
    var tail := WritePrev(WriteNext(WriteSize(hs, next, remaining, false), next, None), next, Some(last));
    var claimed := WriteSize(WriteNext(tail, last, Some(next)), last, n, true);
    assert claimed == SplitHeaders(hs, last, next, remaining, n);
    if k > 0 {
      assert claimed[c[k - 1]] == hs[c[k - 1]];
      assert WriteNext(claimed, c[k - 1], Some(c[k])) == claimed;
    }
  }

  /**
   * On a well-formed pool, a successful `allocate` found the last block, it
   * held at least `n` bytes, the new header fit, and the state is its split.
   */
  lemma AllocateSplitsTail(layout: Layout, s: PoolState, n: Word)
    requires Inv(layout, s)
    requires Allocate(layout, s, n).result.Some?
    ensures FirstFitFrom(s.headers, s.chain, n, 0) == Some(|s.chain| - 1)
    ensures 0 < n <= s.headers[s.chain[|s.chain| - 1]].GetSize()
    ensures s.chain[|s.chain| - 1] + n + 2 * layout.AlignedHeaderSize() <= layout.poolSize
    ensures Allocate(layout, s, n).state == Split(layout, s, |s.chain| - 1, n)
  {
    FirstFitPicksTail(layout, s, n);
    var last := s.chain[|s.chain| - 1];
    assert HeaderAt(s.headers, last) == s.headers[last];
  }

  /** What a split needs of the pool: the invariant, room in the last block, room for the new header. */
  ghost predicate CanSplit(layout: Layout, s: PoolState, n: Word)
  {
    && Inv(layout, s)
    && 0 < n <= s.headers[s.chain[|s.chain| - 1]].GetSize()
    && s.chain[|s.chain| - 1] + n + 2 * layout.AlignedHeaderSize() <= layout.poolSize
  }

  /** The headers a split leaves alone: every chain block before the last. */
  lemma SplitFrame(layout: Layout, s: PoolState, n: Word)
    requires CanSplit(layout, s, n)
    ensures var c, hs' := s.chain, SplitState(layout, s, n).headers;
      && c[|c| - 1] in s.headers && HeaderAt(s.headers, c[|c| - 1]) == s.headers[c[|c| - 1]]
      && forall i :: 0 <= i < |c| - 1 ==> c[i] in hs' && hs'[c[i]] == s.headers[c[i]]
  {
    var c, ahs := s.chain, layout.AlignedHeaderSize();
    BlocksBelow(layout, s, |c| - 1);
  }

  lemma SplitShaped(layout: Layout, s: PoolState, n: Word)
    requires CanSplit(layout, s, n)
    ensures Shaped(layout, SplitState(layout, s, n))
  {
    var c, ahs := s.chain, layout.AlignedHeaderSize();
    var c' := SplitState(layout, s, n).chain;
    assert c' == c + [c[|c| - 1] + n + ahs];
    forall i, j | 0 <= i < j < |c'|
      ensures Apart(c', ahs, i, j)
    {
      if j < |c| {
        assert Apart(c, ahs, i, j);
      } else if i < |c| - 1 {
        assert Apart(c, ahs, i, |c| - 1);
      }
    }
  }

  lemma SplitLinked(layout: Layout, s: PoolState, n: Word)
    requires CanSplit(layout, s, n)
    ensures Shaped(layout, SplitState(layout, s, n)) && Linked(layout, SplitState(layout, s, n))
  {
    SplitShaped(layout, s, n);
    SplitFrame(layout, s, n);
    var c, hs, ahs := s.chain, s.headers, layout.AlignedHeaderSize();
    var s' := SplitState(layout, s, n);
    var c', hs' := s'.chain, s'.headers;
    assert c' == c + [c[|c| - 1] + n + ahs];
    forall i | 0 <= i < |c'| - 1
      ensures NextLinked(hs', c', i)
    {
      if i < |c| - 1 {
        assert NextLinked(hs, c, i);
      }
    }
    forall i | 0 < i < |c'|
      ensures PrevLinked(hs', c', i)
    {
      if i < |c| {
        assert PrevLinked(hs, c, i);
      }
    }
  }

  /** After a split the new last block holds what the old one held, less `n`. */
  lemma SplitAccounts(layout: Layout, s: PoolState, n: Word)
    requires CanSplit(layout, s, n)
    ensures var s' := SplitState(layout, s, n);
      s'.headers[s'.chain[|s'.chain| - 1]].GetSize() + PayloadSum(s'.headers, s'.chain[..|s'.chain| - 1])
        == layout.poolSize
  {
    SplitFrame(layout, s, n);
    var c, hs := s.chain, s.headers;
    var s' := SplitState(layout, s, n);
    SetSizeRoundTrip(hs[c[|c| - 1]], n, true);
    PayloadAfterClaim(hs, s'.headers, c, n);
    assert s'.chain[..|s'.chain| - 1] == c;
  }

  /** Claiming `n` bytes in the last of `c` and touching no other block of `c` adds `n` to their payloads. */
  lemma PayloadAfterClaim(hs: map<nat, BlockHeader>, hs': map<nat, BlockHeader>, c: seq<nat>, n: nat)
    requires |c| >= 1
    requires forall i :: 0 <= i < |c| - 1 ==> c[i] in hs && c[i] in hs' && hs'[c[i]] == hs[c[i]]
    requires HeaderAt(hs', c[|c| - 1]).GetSize() == n
    ensures PayloadSum(hs', c) == PayloadSum(hs, c[..|c| - 1]) + n
  {
    var k := |c| - 1;
    assert forall i :: 0 <= i < |c[..k]| ==> HeaderAt(hs, c[..k][i]) == HeaderAt(hs', c[..k][i]);
    PayloadSumFrame(hs, hs', c[..k]);
    assert c[..k + 1][..k] == c[..k] && c[..k + 1] == c;
  }

  /** After a split every block before the new last one is allocated and ends where the next begins. */
  lemma SplitBlocksAllocated(layout: Layout, s: PoolState, n: Word)
    requires CanSplit(layout, s, n)
    ensures var s' := SplitState(layout, s, n);
      && |s'.chain| == |s.chain| + 1
      && forall i :: 0 <= i < |s'.chain| - 1 ==> Filled(layout.AlignedHeaderSize(), s'.headers, s'.chain, i)
  {
    SplitFrame(layout, s, n);
    var last := s.chain[|s.chain| - 1];
    var hs' := SplitState(layout, s, n).headers;
    SetSizeRoundTrip(s.headers[last], n, true);
    assert hs'[last].GetSize() == n && hs'[last].IsAllocated();
    var c, ahs := s.chain, layout.AlignedHeaderSize();
    var c' := SplitState(layout, s, n).chain;
    assert c' == c + [last + n + ahs];
    forall i | 0 <= i < |c'| - 1
      ensures Filled(ahs, hs', c', i)
    {
      if i < |c| - 1 {
        assert Filled(ahs, s.headers, c, i);
      }
    }
  }

  lemma SplitSized(layout: Layout, s: PoolState, n: Word)
    requires CanSplit(layout, s, n)
    ensures Shaped(layout, SplitState(layout, s, n)) && Sized(layout, SplitState(layout, s, n))
  {
    SplitShaped(layout, s, n);
    SplitBlocksAllocated(layout, s, n);
    SplitAccounts(layout, s, n);
  }

  lemma SplitFlagsInChain(layout: Layout, s: PoolState, n: Word)
    requires CanSplit(layout, s, n)
    ensures FlagsInChain(SplitState(layout, s, n))
  {
  }

  /** Carving `n` bytes from the front of the last block, when they fit, keeps the invariant. */
  lemma SplitStateKeepsInv(layout: Layout, s: PoolState, n: Word)
    requires CanSplit(layout, s, n)
    ensures Inv(layout, SplitState(layout, s, n))
  {
    SplitLinked(layout, s, n);
    SplitSized(layout, s, n);
    SplitFlagsInChain(layout, s, n);
  }

  /**
   * A successful `allocate` on a well-formed pool is the split of the last
   * block, written as its end result, and returns that block's payload.
   */
  lemma AllocateIsSplitState(layout: Layout, s: PoolState, n: Word)
    requires Inv(layout, s) && Allocate(layout, s, n).result.Some?
    ensures CanSplit(layout, s, n)
    ensures FirstFitFrom(s.headers, s.chain, n, 0) == Some(|s.chain| - 1)
    ensures Allocate(layout, s, n)
         == Allocation(SplitState(layout, s, n), Some(s.chain[|s.chain| - 1] + layout.AlignedHeaderSize()))
  {
    AllocateSplitsTail(layout, s, n);
    var c := s.chain;
    if |c| >= 2 {
      assert NextLinked(s.headers, c, |c| - 2);
      assert Filled(layout.AlignedHeaderSize(), s.headers, c, |c| - 2);
    }
    SplitWrites(layout, s, n);
  }

  /** `allocate` keeps the invariant, on every request. */
  lemma AllocatePreservesInv(layout: Layout, s: PoolState, n: Word)
    requires Inv(layout, s)
    ensures Inv(layout, Allocate(layout, s, n).state)
  {
    if Allocate(layout, s, n).result.Some? {
      AllocateIsSplitState(layout, s, n);
      SplitStateKeepsInv(layout, s, n);
    }
  }

  /**
   * The state after the block before the last is freed into the last one: it
   * takes both sizes without the flag and `next` null; the old last header
   * keeps its links with size zero; the chain loses its last block.
   */
  function MergeState(s: PoolState): PoolState
    requires |s.chain| >= 2
  {
    var c, hs := s.chain, s.headers;
    var at, next := c[|c| - 2], c[|c| - 1];
    var size := WrappingAdd(HeaderAt(hs, at).GetSize(), HeaderAt(hs, next).GetSize());
    s.(headers := hs[next := BlockHeader(0, HeaderAt(hs, next).next, HeaderAt(hs, next).prev)]
                    [at := BlockHeader(size, None, HeaderAt(hs, at).prev)],
       chain := c[..|c| - 1])
  }

  /** In a strictly increasing chain, the position of a block is the one `IndexOf` finds. */
  lemma IndexOfChain(layout: Layout, s: PoolState, j: nat)
    requires Shaped(layout, s) && j < |s.chain|
    ensures IndexOf(s.chain, s.chain[j]) == j
  {
    BlocksBelow(layout, s, j);
    IndexOfFirst(s.chain, j);
  }

  /** `IndexOf` finds position `j` when no earlier element equals the one there. */
  lemma IndexOfFirst(c: seq<nat>, j: nat)
    requires j < |c| && forall i :: 0 <= i < j ==> c[i] != c[j]
    ensures IndexOf(c, c[j]) == j
    decreases j
  {
    if j > 0 {
      assert c[1..][j - 1] == c[j];
      IndexOfFirst(c[1..], j - 1);
    }
  }

  /**
   * A `deallocate` that succeeds on a well-formed pool counts the size, and
   * merges exactly when the freed block is the one before the last.
   */
  lemma DeallocateShape(layout: Layout, s: PoolState, p: int)
    requires Inv(layout, s)
    requires Deallocate(layout, s, p).Ok?
    ensures var at := p - layout.AlignedHeaderSize();
      && at in s.chain && IndexOf(s.chain, at) < |s.chain| - 1
      && var counted := s.(deallocatedTotal := WrappingAdd(s.deallocatedTotal, HeaderAt(s.headers, at).GetSize()));
      && (IndexOf(s.chain, at) < |s.chain| - 2 ==> Deallocate(layout, s, p) == Ok(counted))
      && (IndexOf(s.chain, at) == |s.chain| - 2 ==> Deallocate(layout, s, p) == Ok(MergeState(counted)))
  {
    var at: nat := p - layout.AlignedHeaderSize();
    AllocatedHasSuccessor(layout, s, at);
    var c, j := s.chain, IndexOf(s.chain, at);
    assert HeaderAt(s.headers, at) == s.headers[at];
    assert HeaderAt(s.headers, c[j + 1]) == s.headers[c[j + 1]];
    ChainFlag(layout, s, j + 1);
    if j == |c| - 2 {
      DeallocateMerges(layout, s, p);
    }
  }

  /** A `deallocate` of the block before the last, on a well-formed pool, is the merge. */
  lemma DeallocateMerges(layout: Layout, s: PoolState, p: int)
    requires Inv(layout, s)
    requires Deallocate(layout, s, p).Ok?
    requires IndexOf(s.chain, p - layout.AlignedHeaderSize()) == |s.chain| - 2
    ensures var at := p - layout.AlignedHeaderSize();
      var counted := s.(deallocatedTotal := WrappingAdd(s.deallocatedTotal, HeaderAt(s.headers, at).GetSize()));
      Deallocate(layout, s, p) == Ok(MergeState(counted))
  {
    var at: nat := p - layout.AlignedHeaderSize();
    AllocatedHasSuccessor(layout, s, at);
    var c, j := s.chain, IndexOf(s.chain, at);
    assert HeaderAt(s.headers, at) == s.headers[at];
    assert HeaderAt(s.headers, c[j + 1]) == s.headers[c[j + 1]];
    ChainFlag(layout, s, j + 1);
    assert RemoveAt(c, j + 1) == c[..|c| - 1];
    MergeWrites(s);
  }

  /** The header writes of a merge into the last block, folded into one map. */
  lemma MergeWrites(s: PoolState)
    requires |s.chain| >= 2
    requires var c, hs := s.chain, s.headers;
      c[|c| - 2] != c[|c| - 1] && c[|c| - 2] in hs && c[|c| - 1] in hs && hs[c[|c| - 1]].next == None
    ensures var c, hs := s.chain, s.headers;
      var at, next := c[|c| - 2], c[|c| - 1];
      var merged := WriteSize(hs, at, WrappingAdd(HeaderAt(hs, at).GetSize(), HeaderAt(hs, next).GetSize()), false);
      var cleared := WriteSize(merged, next, 0, false);
      WriteNext(cleared, at, HeaderAt(cleared, next).next) == MergeState(s).headers
  {
  }

  /** What a merge needs of the pool: the invariant, sizes clear of the flag, and a block before the last. */
  ghost predicate CanMerge(layout: Layout, s: PoolState)
  {
    layout.Valid() && Inv(layout, s) && |s.chain| >= 2
  }

  /** The headers a merge leaves alone: every chain block before the freed one. */
  lemma MergeFrame(layout: Layout, s: PoolState)
    requires CanMerge(layout, s)
    ensures var c, hs' := s.chain, MergeState(s).headers;
      && HeaderAt(s.headers, c[|c| - 2]) == s.headers[c[|c| - 2]]
      && HeaderAt(s.headers, c[|c| - 1]) == s.headers[c[|c| - 1]]
      && forall i :: 0 <= i < |c| - 2 ==> c[i] in hs' && hs'[c[i]] == s.headers[c[i]]
  {
    var c, hs, ahs := s.chain, s.headers, layout.AlignedHeaderSize();
    var at, next := c[|c| - 2], c[|c| - 1];
    forall i | 0 <= i < |c| - 2
      ensures c[i] in hs && c[i] < at && c[i] < next
    {
      assert Apart(c, ahs, i, |c| - 2) && Apart(c, ahs, i, |c| - 1);
    }
    UpdatesAbove(hs, c, |c| - 2, next, BlockHeader(0, HeaderAt(hs, next).next, HeaderAt(hs, next).prev),
                 at, BlockHeader(WrappingAdd(HeaderAt(hs, at).GetSize(), HeaderAt(hs, next).GetSize()), None, HeaderAt(hs, at).prev));
  }

  /** Writing two headers above the first `k` offsets of `c` leaves their headers as they were. */
  lemma UpdatesAbove(hs: map<nat, BlockHeader>, c: seq<nat>, k: nat, a: nat, ha: BlockHeader, b: nat, hb: BlockHeader)
    requires k <= |c|
    requires forall i :: 0 <= i < k ==> c[i] in hs && c[i] < a && c[i] < b
    ensures forall i :: 0 <= i < k ==> c[i] in hs[a := ha][b := hb] && hs[a := ha][b := hb][c[i]] == hs[c[i]]
  {
  }

  /** After a merge the freed block is last and holds its own size and the old last one's. */
  lemma MergeAccounts(layout: Layout, s: PoolState)
    requires CanMerge(layout, s)
    ensures var s' := MergeState(s);
      && |s'.chain| == |s.chain| - 1
      && !s'.headers[s'.chain[|s'.chain| - 1]].IsAllocated()
      && s'.headers[s'.chain[|s'.chain| - 1]].GetSize() + PayloadSum(s'.headers, s'.chain[..|s'.chain| - 1])
         == layout.poolSize
  {
    MergeFrame(layout, s);
    var c, hs := s.chain, s.headers;
    var k := |c| - 1;
    var s' := MergeState(s);
    var hs', c' := s'.headers, s'.chain;
    assert c' == c[..k];
    assert c[..k][..k - 1] == c[..k - 1];
    assert PayloadSum(hs, c[..k]) == PayloadSum(hs, c[..k - 1]) + hs[c[k - 1]].GetSize();
    PayloadSumFrame(hs, hs', c[..k - 1]);
    var size := hs[c[k - 1]].GetSize() + hs[c[k]].GetSize();
    assert size <= layout.poolSize;
    assert hs'[c[k - 1]] == BlockHeader(size, None, hs[c[k - 1]].prev);
  }

  lemma MergeShapedLinked(layout: Layout, s: PoolState)
    requires CanMerge(layout, s)
    ensures Shaped(layout, MergeState(s)) && Linked(layout, MergeState(s))
  {
    MergeFrame(layout, s);
    var c := s.chain;
    var c' := MergeState(s).chain;
    assert c' == c[..|c| - 1];
    assert forall i :: 0 <= i < |c'| ==> c'[i] == c[i];
    forall i, j | 0 <= i < j < |c'|
      ensures Apart(c', layout.AlignedHeaderSize(), i, j)
    {
      assert Apart(c, layout.AlignedHeaderSize(), i, j);
    }
    var hs, hs' := s.headers, MergeState(s).headers;
    forall i | 0 <= i < |c'| - 1
      ensures NextLinked(hs', c', i)
    {
      assert NextLinked(hs, c, i);
    }
    forall i | 0 < i < |c'|
      ensures PrevLinked(hs', c', i)
    {
      assert PrevLinked(hs, c, i);
    }
  }

  /** After a merge every block before the freed one is as it was. */
  lemma MergeBlocksAllocated(layout: Layout, s: PoolState)
    requires CanMerge(layout, s)
    ensures var s' := MergeState(s);
      && |s'.chain| == |s.chain| - 1
      && s'.chain[|s'.chain| - 1] + layout.AlignedHeaderSize() <= layout.poolSize
      && forall i :: 0 <= i < |s'.chain| - 1 ==> Filled(layout.AlignedHeaderSize(), s'.headers, s'.chain, i)
  {
    MergeFrame(layout, s);
    var c, ahs := s.chain, layout.AlignedHeaderSize();
    var c' := MergeState(s).chain;
    assert forall i :: 0 <= i < |c'| ==> c'[i] == c[i];
    BlocksBelow(layout, s, |c| - 1);
    forall i | 0 <= i < |c'| - 1
      ensures Filled(ahs, MergeState(s).headers, c', i)
    {
      assert Filled(ahs, s.headers, c, i);
    }
  }

  lemma MergeSized(layout: Layout, s: PoolState)
    requires CanMerge(layout, s)
    ensures Shaped(layout, MergeState(s)) && Sized(layout, MergeState(s))
  {
    MergeShapedLinked(layout, s);
    MergeAccounts(layout, s);
    MergeBlocksAllocated(layout, s);
  }

  lemma MergeFlagsInChain(layout: Layout, s: PoolState)
    requires CanMerge(layout, s)
    ensures FlagsInChain(MergeState(s))
  {
    MergeAccounts(layout, s);
    var c := s.chain;
    var s' := MergeState(s);
    forall o | o in s'.headers && s'.headers[o].IsAllocated()
      ensures o in s'.chain
    {
      assert o != c[|c| - 1] && o != c[|c| - 2];
      assert s'.headers[o] == s.headers[o];
      var i :| 0 <= i < |c| && c[i] == o;
      assert s'.chain[i] == o;
    }
  }

  /** Freeing the block before the last into the last one keeps the invariant. */
  lemma MergeKeepsInv(layout: Layout, s: PoolState)
    requires CanMerge(layout, s)
    ensures Inv(layout, MergeState(s))
  {
    MergeShapedLinked(layout, s);
    MergeSized(layout, s);
    MergeFlagsInChain(layout, s);
  }

  /** The invariant says nothing about the two counters. */
  lemma InvIgnoresCounters(layout: Layout, s: PoolState, a: Word, d: Word)
    requires Inv(layout, s)
    ensures Inv(layout, s.(allocatedTotal := a, deallocatedTotal := d))
  {
    var t := s.(allocatedTotal := a, deallocatedTotal := d);
    assert t.headers == s.headers && t.chain == s.chain && t.freeList == s.freeList;
  }

  /** `deallocate` keeps the invariant whenever it returns. */
  lemma DeallocatePreservesInv(layout: Layout, s: PoolState, p: int)
    requires layout.Valid() && Inv(layout, s)
    ensures Deallocate(layout, s, p).Ok? ==> Inv(layout, Deallocate(layout, s, p).value)
  {
    if Deallocate(layout, s, p).Ok? {
      DeallocateShape(layout, s, p);
      var at := p - layout.AlignedHeaderSize();
      var counted := s.(deallocatedTotal := WrappingAdd(s.deallocatedTotal, HeaderAt(s.headers, at).GetSize()));
      InvIgnoresCounters(layout, s, s.allocatedTotal, counted.deallocatedTotal);
      if IndexOf(s.chain, at) == |s.chain| - 2 {
        MergeKeepsInv(layout, counted);
        assert Deallocate(layout, s, p).value == MergeState(counted);
      } else {
        assert Deallocate(layout, s, p).value == counted;
      }
    }
  }

  /**
   * Block `at`, with header `h`, sits at chain position `j` and is followed
   * by block `j + 1`, which is free exactly when it is the last (and then
   * ends the list); `target` is `s` with `h`'s size counted as freed, and
   * merged into the last block when that one is free.
   */
  ghost predicate FreePlan(s: PoolState, at: nat, h: BlockHeader, j: nat, target: PoolState)
  {
    && j + 1 < |s.chain| && s.chain[j] == at && h == HeaderAt(s.headers, at)
    && h.next == Some(s.chain[j + 1])
    && (!HeaderAt(s.headers, s.chain[j + 1]).IsAllocated() <==> j + 2 == |s.chain|)
    && (j + 2 == |s.chain| ==> HeaderAt(s.headers, s.chain[j + 1]).next == None)
    && var counted := s.(deallocatedTotal := WrappingAdd(s.deallocatedTotal, h.GetSize()));
    && (j + 2 == |s.chain| ==> target == MergeState(counted))
    && (j + 2 < |s.chain| ==> target == counted)
  }

  /**
   * What the end of `deallocate` needs once both checks pass on a
   * well-formed pool: the block's chain position `j`, and the plan of the
   * free that leads to the resulting state, which is well-formed.
   */
  lemma DeallocateAccepted(layout: Layout, s: PoolState, p: int) returns (j: nat, t: PoolState)
    requires layout.Valid() && Inv(layout, s) && IsInsidePool(layout, p)
    requires HeaderAt(s.headers, p - layout.AlignedHeaderSize()).IsAllocated()
    ensures j == IndexOf(s.chain, p - layout.AlignedHeaderSize())
    ensures Deallocate(layout, s, p) == Ok(t) && Inv(layout, t)
    ensures var at := p - layout.AlignedHeaderSize();
      FreePlan(s, at, HeaderAt(s.headers, at), j, t)
  {
    var at: nat := p - layout.AlignedHeaderSize();
    DeallocateShape(layout, s, p);
    DeallocatePreservesInv(layout, s, p);
    t := Deallocate(layout, s, p).value;
    j := IndexOf(s.chain, at);
    ChainStep(layout, s, j);
    ChainFlag(layout, s, j + 1);
    if j + 2 == |s.chain| {
      ChainStep(layout, s, j + 1);
    }
  }
}
