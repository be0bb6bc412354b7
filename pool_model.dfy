/**
 * The state of `ss::static_memory_pool<POOL_SIZE, ALIGNMENT>` as a value, and
 * its operations `reset`, `allocate` and `deallocate` as functions of that
 * value, written step by step as the source writes the headers.
 *
 * Addresses are byte offsets from the start of the buffer; a payload pointer
 * is its header's offset plus the aligned header size.
 */
module PoolModel {
  import opened Words
  import opened BlockHeaders

  /** `sizeof(free_block_header)`: one `size_t` and two pointers of 8 bytes. */
  const HEADER_SIZE: nat := 24

  /**
   * A power of two: the alignments `alignas` accepts besides 0, which it
   * ignores.
   */
  predicate IsPowerOfTwo(a: nat)
    decreases a
  {
    a == 1 || (a >= 2 && a % 2 == 0 && IsPowerOfTwo(a / 2))
  }

  /** The least multiple of `a` that is at least `h` (and at least `a`). */
  function RoundUp(h: nat, a: nat): nat
    requires a > 0
    decreases h
  {
    if h <= a then a else RoundUp(h - a, a) + a
  }

  /** `RoundUp(h, a)` is a multiple of `a`, at least `h` and `a`, and less than `a` above `h`. */
  lemma {:induction false} RoundUpRounds(h: nat, a: nat)
    requires a > 0
    decreases h
    ensures RoundUp(h, a) % a == 0
    ensures h <= RoundUp(h, a) && a <= RoundUp(h, a)
    ensures RoundUp(h, a) < h + a || h == 0
  {
    if h > a {
      RoundUpRounds(h - a, a);
      ModAddDivisor(a, RoundUp(h - a, a));
    }
  }

  /** Adding the divisor does not change a remainder. */
  lemma ModAddDivisor(a: nat, y: nat)
    requires a > 0
    ensures (y + a) % a == y % a
  {
    var q, m := y / a, y % a;
    assert y + a == (q + 1) * a + m;
    DivModUnique(y + a, a, q + 1, m);
  }

  /** The remainder is the `m` of any `q * a + m` with `0 <= m < a`. */
  lemma DivModUnique(x: nat, a: nat, q: int, m: int)
    requires a > 0 && 0 <= m < a && x == q * a + m
    ensures x % a == m
  {
    var q2, m2 := x / a, x % a;
    assert (q - q2) * a == m2 - m;
    if q > q2 { MulAtLeast(q - q2, a); }
    if q < q2 { MulAtLeast(q2 - q, a); }
  }

  lemma MulAtLeast(d: int, a: nat)
    requires d >= 1
    ensures d * a >= a
  {
  }

  /** The template parameters `POOL_SIZE` and `ALIGNMENT`. */
  datatype Layout = Layout(poolSize: Word, alignment: Word)
  {
    /** `ALIGNMENT_MASK`, as the bit pattern it is. */
    function AlignmentMask(): bv64
    {
      (alignment as bv64) - 1
    }

    /**
     * `ALIGNED_HEADER_SIZE`: the header size rounded up to a multiple of
     * `ALIGNMENT`, which is what `(HEADER_SIZE + ALIGNMENT_MASK) & ~ALIGNMENT_MASK`
     * computes when `ALIGNMENT` is a power of two. For an `ALIGNMENT` of 0 the
     * mask is all ones and the formula gives 0.
     */
    function AlignedHeaderSize(): nat
    {
      if alignment == 0 then 0 else RoundUp(HEADER_SIZE, alignment)
    }

    /** `(HEADER_SIZE + ALIGNMENT_MASK) & ~ALIGNMENT_MASK` on 64-bit words. */
    function MaskedHeaderSize(): bv64
    {
      (HEADER_SIZE as bv64 + AlignmentMask()) & !AlignmentMask()
    }

    /** The mask formula and the rounding agree for an alignment of 0 and the powers of two up to 64. */
    lemma MaskedHeaderSizeIsRounding()
      requires alignment in {0, 1, 2, 4, 8, 16, 32, 64}
      ensures MaskedHeaderSize() as nat == AlignedHeaderSize()
    {
      if alignment == 1 { assert RoundUp(HEADER_SIZE, 1) == 24 by { RoundUpRounds(HEADER_SIZE, 1); } }
      else if alignment == 2 { assert RoundUp(HEADER_SIZE, 2) == 24 by { RoundUpRounds(HEADER_SIZE, 2); } }
      else if alignment == 4 { assert RoundUp(HEADER_SIZE, 4) == 24 by { RoundUpRounds(HEADER_SIZE, 4); } }
      else if alignment == 8 { assert RoundUp(HEADER_SIZE, 8) == 24; }
      else if alignment == 16 { assert RoundUp(HEADER_SIZE, 16) == 32; }
      else if alignment == 32 { assert RoundUp(HEADER_SIZE, 32) == 32; }
      else if alignment == 64 { assert RoundUp(HEADER_SIZE, 64) == 64; }
    }

    /** For a non-zero alignment, `ALIGNED_HEADER_SIZE` is the header size rounded up to a multiple of it. */
    lemma AlignedHeaderSizeRounds()
      ensures alignment > 0 ==> AlignedHeaderSize() % alignment == 0
      ensures alignment > 0 ==> HEADER_SIZE <= AlignedHeaderSize() < HEADER_SIZE + alignment
      ensures alignment == 0 ==> AlignedHeaderSize() == 0
    {
      if alignment > 0 {
        RoundUpRounds(HEADER_SIZE, alignment);
      }
    }

    /** The padding `allocate` adds to a request: `ALIGNMENT_MASK & ~ALIGNMENT_MASK`, which is zero. */
    function AlignmentPadding(): (pad: nat)
      ensures pad == 0
    {
      (AlignmentMask() & !AlignmentMask()) as nat
    }

    /**
     * A power-of-two alignment, so not the 0 that `alignas` ignores; room for
     * two headers in the pool; sizes clear of the allocated flag.
     */
    predicate Valid()
    {
      && IsPowerOfTwo(alignment)
      && 2 * AlignedHeaderSize() <= poolSize < ALLOCATED_FLAG
    }
  }

  /**
   * The pool's memory and fields: the headers written into the buffer, keyed
   * by offset; `_free_list`; the counters `_allocated` and `_deallocated`; and
   * `chain`, the offsets met walking `next` from `_free_list`, in order.
   */
  datatype PoolState = PoolState(
    headers: map<nat, BlockHeader>,
    freeList: nat,
    allocatedTotal: Word,
    deallocatedTotal: Word,
    chain: seq<nat>)

  /**
   * The header stored at `at`; an offset where no header was written reads
   * as the zero header. The model does not track bytes a caller writes.
   */
  function HeaderAt(hs: map<nat, BlockHeader>, at: nat): BlockHeader
  {
    if at in hs then hs[at] else ZERO_HEADER
  }

  /** `at->set_size(n, a)` on the buffer. */
  function WriteSize(hs: map<nat, BlockHeader>, at: nat, n: Word, markAllocated: bool): map<nat, BlockHeader>
  {
    hs[at := HeaderAt(hs, at).SetSize(n, markAllocated)]
  }

  /** `at->set_next(next)` on the buffer. */
  function WriteNext(hs: map<nat, BlockHeader>, at: nat, next: Option<nat>): map<nat, BlockHeader>
  {
    hs[at := HeaderAt(hs, at).SetNext(next)]
  }

  /** `at->set_prev(prev)` on the buffer. */
  function WritePrev(hs: map<nat, BlockHeader>, at: nat, prev: Option<nat>): map<nat, BlockHeader>
  {
    hs[at := HeaderAt(hs, at).SetPrev(prev)]
  }

  /** The payload sizes of the blocks at `offsets`, added up. */
  function PayloadSum(hs: map<nat, BlockHeader>, offsets: seq<nat>): nat
  {
    if offsets == [] then 0
    else PayloadSum(hs, offsets[..|offsets| - 1]) + HeaderAt(hs, offsets[|offsets| - 1]).GetSize()
  }

  /**
   * The chain starts at `_free_list`, which is offset 0, lists headers the
   * pool wrote, and goes up through the buffer with room for a header between
   * any two of its blocks.
   */
  ghost predicate Shaped(layout: Layout, s: PoolState)
  {
    ShapedChain(layout.AlignedHeaderSize(), s.headers, s.chain, s.freeList)
  }

  /** `Shaped`, on the parts of the state it reads. */
  ghost predicate ShapedChain(ahs: nat, hs: map<nat, BlockHeader>, c: seq<nat>, freeList: nat)
  {
    && |c| >= 1 && c[0] == 0 && freeList == 0
    && (forall i :: 0 <= i < |c| ==> c[i] in hs)
    && (forall i, j :: 0 <= i < j < |c| ==> Apart(c, ahs, i, j))
  }

  /** Block `i` of the chain lies before block `j` with room for a header between them. */
  ghost predicate Apart(c: seq<nat>, ahs: nat, i: int, j: int)
  {
    0 <= i < j < |c| && c[i] + ahs < c[j]
  }

  /** In a shaped chain every block before position `j` lies below block `j`, with room for a header. */
  lemma BlocksBelow(layout: Layout, s: PoolState, j: nat)
    requires Shaped(layout, s) && j < |s.chain|
    ensures forall i :: 0 <= i < j ==> s.chain[i] + layout.AlignedHeaderSize() < s.chain[j]
  {
    forall i | 0 <= i < j
      ensures s.chain[i] + layout.AlignedHeaderSize() < s.chain[j]
    {
      assert Apart(s.chain, layout.AlignedHeaderSize(), i, j);
    }
  }

  /**
   * Walking `next` from `_free_list` meets the chain in order and ends at
   * `nullptr`; `prev` points back along it.
   */
  ghost predicate Linked(layout: Layout, s: PoolState)
    requires Shaped(layout, s)
  {
    LinkedChain(s.headers, s.chain)
  }

  /** `Linked`, on the parts of the state it reads. */
  ghost predicate LinkedChain(hs: map<nat, BlockHeader>, c: seq<nat>)
    requires |c| >= 1 && forall i :: 0 <= i < |c| ==> c[i] in hs
  {
    && (forall i :: 0 <= i < |c| - 1 ==> NextLinked(hs, c, i))
    && hs[c[|c| - 1]].next == None
    && hs[c[0]].prev == None
    && (forall i :: 0 < i < |c| ==> PrevLinked(hs, c, i))
  }

  /** Block `i` of the chain has `next` pointing at block `i + 1`. */
  ghost predicate NextLinked(hs: map<nat, BlockHeader>, c: seq<nat>, i: int)
  {
    0 <= i < |c| - 1 && c[i] in hs && hs[c[i]].next == Some(c[i + 1])
  }

  /** Block `i` of the chain has `prev` pointing at block `i - 1`. */
  ghost predicate PrevLinked(hs: map<nat, BlockHeader>, c: seq<nat>, i: int)
  {
    0 < i < |c| && c[i] in hs && hs[c[i]].prev == Some(c[i - 1])
  }

  /**
   * Every block but the last is allocated, holds at least one byte, and
   * ends exactly where the next header starts; the last block is free, its
   * header fits in the buffer, and its size is `POOL_SIZE` less the sizes of
   * the allocated blocks.
   */
  ghost predicate Sized(layout: Layout, s: PoolState)
    requires Shaped(layout, s)
  {
    SizedChain(layout, s.headers, s.chain)
  }

  /** `Sized`, on the parts of the state it reads. */
  ghost predicate SizedChain(layout: Layout, hs: map<nat, BlockHeader>, c: seq<nat>)
    requires |c| >= 1 && forall i :: 0 <= i < |c| ==> c[i] in hs
  {
    var ahs := layout.AlignedHeaderSize();
    && (forall i :: 0 <= i < |c| - 1 ==> Filled(ahs, hs, c, i))
    && !hs[c[|c| - 1]].IsAllocated()
    && c[|c| - 1] + ahs <= layout.poolSize
    && hs[c[|c| - 1]].GetSize() + PayloadSum(hs, c[..|c| - 1]) == layout.poolSize
  }

  /**
   * Chain block `i`, not the last, carries the allocated flag, a size of at
   * least 1, and ends where block `i + 1` starts.
   */
  ghost predicate Filled(ahs: nat, hs: map<nat, BlockHeader>, c: seq<nat>, i: int)
  {
    && 0 <= i < |c| - 1 && c[i] in hs
    && hs[c[i]].IsAllocated() && 1 <= hs[c[i]].GetSize() && c[i + 1] == c[i] + ahs + hs[c[i]].GetSize()
  }

  /** No header outside the chain carries the allocated flag. */
  ghost predicate FlagsInChain(s: PoolState)
  {
    FlagsInList(s.headers, s.chain)
  }

  /** `FlagsInChain`, on the parts of the state it reads. */
  ghost predicate FlagsInList(hs: map<nat, BlockHeader>, c: seq<nat>)
  {
    forall o :: o in hs && hs[o].IsAllocated() ==> o in c
  }

  /**
   * What the model keeps true of the pool between calls: established by the
   * constructor's `reset` on an empty buffer, kept by `allocate` and by every
   * successful `deallocate`.
   */
  ghost predicate Inv(layout: Layout, s: PoolState)
  {
    Shaped(layout, s) && Linked(layout, s) && Sized(layout, s) && FlagsInChain(s)
  }

  /**
   * `reset()` on a buffer holding the headers `hs`: header 0 becomes one free
   * block of size `POOL_SIZE` with both links null, the counters are zeroed,
   * and every other header stays in the buffer as it was.
   */
  function ResetOver(layout: Layout, hs: map<nat, BlockHeader>): (s: PoolState)
    ensures s.chain == [0] && s.freeList == 0 && s.allocatedTotal == 0 && s.deallocatedTotal == 0
    ensures HeaderAt(s.headers, 0) == BlockHeader(layout.poolSize, None, None)
    ensures forall o :: o != 0 ==> HeaderAt(s.headers, o) == HeaderAt(hs, o)
  {
    var written := WritePrev(WriteNext(WriteSize(hs, 0, layout.poolSize, false), 0, None), 0, None);
    PoolState(written, 0, 0, 0, [0])
  }

  /** `reset()` on a buffer with no header in it, as the constructor runs it. */
  function Reset(layout: Layout): PoolState
  {
    ResetOver(layout, map[])
  }

  /** The block test of the search loop: not allocated, and at least `n` bytes. */
  predicate Fits(h: BlockHeader, n: Word)
  {
    !h.IsAllocated() && h.GetSize() >= n
  }

  /** First-fit: the position, from `i` on, of the first chain block that fits `n`. */
  function FirstFitFrom(hs: map<nat, BlockHeader>, c: seq<nat>, n: Word, i: nat): (r: Option<nat>)
    requires i <= |c|
    decreases |c| - i
    ensures r.Some? ==> i <= r.value < |c| && Fits(HeaderAt(hs, c[r.value]), n)
    ensures r.Some? ==> forall m :: i <= m < r.value ==> !Fits(HeaderAt(hs, c[m]), n)
    ensures r.None? ==> forall m :: i <= m < |c| ==> !Fits(HeaderAt(hs, c[m]), n)
  {
    if i == |c| then None
    else if Fits(HeaderAt(hs, c[i]), n) then Some(i)
    else FirstFitFrom(hs, c, n, i + 1)
  }

  /**
   * Lines 177-180 of `allocate`: the chosen block gets size `n` and the flag;
   * its predecessor's `next` is set to it again.
   */
  function Claim(hs: map<nat, BlockHeader>, c: seq<nat>, k: nat, n: Word): map<nat, BlockHeader>
    requires k < |c|
  {
    var claimed := WriteSize(hs, c[k], n, true);
    if k > 0 then WriteNext(claimed, c[k - 1], Some(c[k])) else claimed
  }

  /** The new state and the returned pointer (`None` for `nullptr`) of one `allocate` call. */
  datatype Allocation = Allocation(state: PoolState, result: Option<nat>)

  /**
   * Lines 157-175 of `allocate`, for the chosen block `c[k]` that ends the
   * chain: a free header right after the `n` bytes handed out, with size
   * `old size - n` and `prev` back to `c[k]`; `n` counted in `_allocated`;
   * then the block itself claimed.
   */
  function Split(layout: Layout, s: PoolState, k: nat, n: Word): PoolState
    requires k < |s.chain|
  {
    var it := s.chain[k];
    var next := it + (n + layout.AlignedHeaderSize() + layout.AlignmentPadding());
    var remaining := WrappingSub(HeaderAt(s.headers, it).GetSize(), n);
    var tail := WritePrev(WriteNext(WriteSize(s.headers, next, remaining, false), next, None), next, Some(it));
    var linked := WriteNext(tail, it, Some(next));
    s.(headers := Claim(linked, s.chain, k, n),
       allocatedTotal := WrappingAdd(s.allocatedTotal, n),
       chain := s.chain + [next])
  }

  /**
   * Lines 153-182 of `allocate`, once the search stopped at `c[k]`: the last
   * block is split (or the call fails when the new header would pass
   * `BUFFER_END - ALIGNED_HEADER_SIZE`); any other block is taken whole.
   */
  function Take(layout: Layout, s: PoolState, k: nat, n: Word): (r: Allocation)
    requires k < |s.chain|
    ensures r.result.None? ==> r.state == s
    ensures r.result.Some? ==> r.result.value == s.chain[k] + layout.AlignedHeaderSize()
    ensures r.state.deallocatedTotal == s.deallocatedTotal && r.state.freeList == s.freeList
  {
    var it := s.chain[k];
    if HeaderAt(s.headers, it).next.None? then
      if layout.poolSize - layout.AlignedHeaderSize() < it + (n + layout.AlignedHeaderSize() + layout.AlignmentPadding())
      then Allocation(s, None)
      else Allocation(Split(layout, s, k, n), Some(it + layout.AlignedHeaderSize()))
    else
      Allocation(s.(headers := Claim(s.headers, s.chain, k, n)), Some(it + layout.AlignedHeaderSize()))
  }

  /**
   * `allocate(n)`: reject 0 and anything above `POOL_SIZE`; walk the chain
   * for the first block that fits and take it; `nullptr` when none does.
   */
  function Allocate(layout: Layout, s: PoolState, n: Word): (r: Allocation)
    ensures r.result.None? ==> r.state == s
    ensures r.result.Some? ==>
      && 0 < n <= layout.poolSize
      && FirstFitFrom(s.headers, s.chain, n, 0).Some?
      && r.result.value == s.chain[FirstFitFrom(s.headers, s.chain, n, 0).value] + layout.AlignedHeaderSize()
    ensures r.state.deallocatedTotal == s.deallocatedTotal && r.state.freeList == s.freeList
    ensures n == 0 || n > layout.poolSize || FirstFitFrom(s.headers, s.chain, n, 0).None? ==> r.result.None?
  {
    if n == 0 then Allocation(s, None)
    else if n > layout.poolSize then Allocation(s, None)
    else
      match FirstFitFrom(s.headers, s.chain, n, 0)
      case None => Allocation(s, None)
      case Some(k) => Take(layout, s, k, n)
  }

  /** The position of the first `x` in `c`, or `|c|` when there is none. */
  function IndexOf(c: seq<nat>, x: nat): (i: nat)
    ensures i <= |c|
    ensures i < |c| ==> c[i] == x
    ensures x in c ==> i < |c|
  {
    if c == [] then 0
    else if c[0] == x then 0
    else 1 + IndexOf(c[1..], x)
  }

  /** `c` without its element at position `i`. */
  function RemoveAt(c: seq<nat>, i: nat): (r: seq<nat>)
    requires i < |c|
    ensures |r| == |c| - 1
    ensures forall m :: 0 <= m < i ==> r[m] == c[m]
    ensures forall m :: i <= m < |r| ==> r[m] == c[m + 1]
  {
    c[..i] + c[i + 1..]
  }

  /**
   * A header that carries the allocated flag is a chain block other than the
   * last, so its `next` is the following chain block: the unguarded
   * dereference of `hdr->get_next()` in `deallocate` reads a real header.
   */
  lemma AllocatedHasSuccessor(layout: Layout, s: PoolState, at: nat)
    requires Inv(layout, s) && HeaderAt(s.headers, at).IsAllocated()
    ensures IndexOf(s.chain, at) < |s.chain| - 1
    ensures s.chain[IndexOf(s.chain, at)] == at
    ensures HeaderAt(s.headers, at).next == Some(s.chain[IndexOf(s.chain, at) + 1])
  {
    assert NextLinked(s.headers, s.chain, IndexOf(s.chain, at));
  }

  /** `is_inside_pool(addr)`: `addr` lies in `[BUFFER_START + AHS, BUFFER_END - AHS)`. */
  predicate IsInsidePool(layout: Layout, addr: int)
  {
    layout.AlignedHeaderSize() <= addr < layout.poolSize - layout.AlignedHeaderSize()
  }

  /** The two `runtime_error`s `deallocate` throws. */
  datatype DeallocError = OutsidePool | NotAllocated

  /** The value a `deallocate` returns, or the `runtime_error` it throws. */
  datatype Result<T> = Ok(value: T) | Err(error: DeallocError)

  /**
   * `deallocate(p)`: reject an address outside the pool and a header without
   * the allocated flag; count the block's size in `_deallocated`; when the
   * next block is free, give its size to this block (clearing the flag),
   * zero its size and unlink it. When the next block is allocated nothing
   * else changes, and the freed block keeps its flag.
   */
  function Deallocate(layout: Layout, s: PoolState, p: int): (r: Result<PoolState>)
    requires Inv(layout, s)
    ensures r == Err(OutsidePool) <==> !IsInsidePool(layout, p)
    ensures r.Ok? || r == Err(NotAllocated) ==> IsInsidePool(layout, p)
    ensures IsInsidePool(layout, p) ==>
      (r == Err(NotAllocated) <==> !HeaderAt(s.headers, p - layout.AlignedHeaderSize()).IsAllocated())
    ensures r.Ok? ==>
      && r.value.deallocatedTotal
         == WrappingAdd(s.deallocatedTotal, HeaderAt(s.headers, p - layout.AlignedHeaderSize()).GetSize())
      && r.value.allocatedTotal == s.allocatedTotal && r.value.freeList == s.freeList
  {
    var ahs := layout.AlignedHeaderSize();
    if !IsInsidePool(layout, p) then Err(OutsidePool)
    else
      var at: nat := p - ahs;
      var h := HeaderAt(s.headers, at);
      if !h.IsAllocated() then Err(NotAllocated)
      else
        var counted := s.(deallocatedTotal := WrappingAdd(s.deallocatedTotal, h.GetSize()));
        AllocatedHasSuccessor(layout, s, at);
        var nextBlock := h.next.value;
        var nh := HeaderAt(s.headers, nextBlock);
        if nh.IsAllocated() then Ok(counted)
        else
          var merged := WriteSize(s.headers, at, WrappingAdd(h.GetSize(), nh.GetSize()), false);
          var cleared := WriteSize(merged, nextBlock, 0, false);
          var relinked := WriteNext(cleared, at, HeaderAt(cleared, nextBlock).next);
          Ok(counted.(headers := relinked, chain := RemoveAt(s.chain, IndexOf(s.chain, at) + 1)))
  }
}
