/**
 * The intrusive block header `free_block_header` that the pool writes at the
 * start of every block: a size word whose most significant bit is the
 * allocated flag, and links to the next and previous headers.
 */
module BlockHeaders {
  import opened Words

  datatype Option<T> = None | Some(value: T)

  /** `~(SIZE_MAX >> 1)`: the most significant bit of a 64-bit word. */
  const ALLOCATED_FLAG: Word := 0x8000_0000_0000_0000

  /**
   * The word `set_size(n, allocated)` stores: `n | ALLOCATED_FLAG` when the
   * block is allocated, `n` itself otherwise. On words below 2^64, or-ing in
   * the top bit is adding it unless it is already set.
   */
  function SizeWord(n: Word, markAllocated: bool): (w: Word)
    ensures markAllocated ==> w >= ALLOCATED_FLAG && (w == n || w == n + ALLOCATED_FLAG)
    ensures !markAllocated ==> w == n
  {
    if markAllocated && n < ALLOCATED_FLAG then n + ALLOCATED_FLAG else n
  }

  /**
   * A header as it lies in the buffer. `next` and `prev` are byte offsets of
   * other headers inside the buffer; `None` is `nullptr`.
   */
  datatype BlockHeader = BlockHeader(size: Word, next: Option<nat>, prev: Option<nat>)
  {
    /** `(_size & ALLOCATED_FLAG) > 0`: the top bit of the size word is set. */
    predicate IsAllocated()
    {
      size >= ALLOCATED_FLAG
    }

    /** `_size & ~ALLOCATED_FLAG`: the size word with its top bit cleared. */
    function GetSize(): (n: Word)
      ensures n < ALLOCATED_FLAG
      ensures IsAllocated() ==> n + ALLOCATED_FLAG == size
      ensures !IsAllocated() ==> n == size
    {
      if size >= ALLOCATED_FLAG then size - ALLOCATED_FLAG else size
    }

    /** `set_size(newSize, allocated)`: only the size word changes. */
    function SetSize(newSize: Word, markAllocated: bool): (h: BlockHeader)
      ensures h.size == SizeWord(newSize, markAllocated)
      ensures h.next == next && h.prev == prev
    {
      this.(size := SizeWord(newSize, markAllocated))
    }

    /** `set_next(n)`: only the `next` link changes. */
    function SetNext(n: Option<nat>): (h: BlockHeader)
      ensures h.next == n && h.size == size && h.prev == prev
    {
      this.(next := n)
    }

    /** `set_prev(p)`: only the `prev` link changes. */
    function SetPrev(p: Option<nat>): (h: BlockHeader)
      ensures h.prev == p && h.size == size && h.next == next
    {
      this.(prev := p)
    }
  }

  /**
   * The header read at an offset where no header was written. The model does
   * not track bytes a caller writes into a payload.
   */
  const ZERO_HEADER := BlockHeader(0, None, None)

  /**
   * The flag is the top bit of the word and the size the 63 bits below it:
   * the quotient and remainder of the word by 2^63.
   */
  lemma FlagIsTopBit(h: BlockHeader)
    ensures h.IsAllocated() <==> h.size / ALLOCATED_FLAG == 1
    ensures h.GetSize() == h.size % ALLOCATED_FLAG
  {
  }

  /** Marking a size allocated sets the top bit and keeps the 63 bits below it. */
  lemma SizeWordSetsTopBit(n: Word)
    ensures SizeWord(n, true) / ALLOCATED_FLAG == 1
    ensures SizeWord(n, true) % ALLOCATED_FLAG == n % ALLOCATED_FLAG
  {
  }

  /**
   * Flag encoding: for a size below the flag, `set_size` followed by
   * `get_size` and `is_allocated` gives back the size and the flag.
   */
  lemma SetSizeRoundTrip(h: BlockHeader, n: Word, markAllocated: bool)
    requires n < ALLOCATED_FLAG
    ensures h.SetSize(n, markAllocated).GetSize() == n
    ensures h.SetSize(n, markAllocated).IsAllocated() == markAllocated
  {
  }

  /**
   * A size with the top bit already set, stored with `allocated == false`,
   * reads back as allocated: `set_size` does not mask its argument.
   */
  lemma SetSizeDoesNotMask(h: BlockHeader, n: Word)
    requires n >= ALLOCATED_FLAG
    ensures h.SetSize(n, false).IsAllocated()
    ensures h.SetSize(n, false).GetSize() == n - ALLOCATED_FLAG
  {
  }
}
