# A verified model of `ss::static_memory_pool`

`ss::static_memory_pool<POOL_SIZE, ALIGNMENT>` is a fixed-buffer allocator.
It writes intrusive block headers into a static byte array. Each header has:

- a `size_t` size word, whose top bit is the allocated flag;
- `next` and `prev` pointers to other headers.

The pool has three operations:

- `reset` writes one free block that spans the buffer;
- `allocate(n)` walks `next` from `_free_list` and takes the first block that is free and holds at least `n` bytes. It places a new free header after the `n` bytes only when the chosen block is the last one;
- `deallocate(p)` range-checks the pointer, checks the allocated flag, counts the size and merges the block with its successor when that one is free.

This project models that code as written, in four layers:

- **`Words`.** `size_t` is an integer in `[0, 2^64)`, with wrap-around written out.
- **`BlockHeaders`.** `free_block_header`, its flag encoding and its setters.
- **`PoolModel`.** The pool's state as a value, and `reset`, `allocate` and `deallocate` as functions of it.
  - A header lives in a map keyed by its byte offset in the buffer. An offset where the pool never wrote a header reads as the zero header. The model does not track the bytes a caller writes into a payload.
  - Pointers are offsets. A payload pointer is its header's offset plus `ALIGNED_HEADER_SIZE`. `nullptr` is `None`.
  - The two `runtime_error`s of `deallocate` are an `Err` result.
  - The state carries `chain`, the offsets met walking `next` from `_free_list`.
- **`StaticMemoryPool.Pool`.** A class whose fields are the headers, `_free_list` and the two counters. Its methods update those fields in place, one header write at a time: `reset`, the `allocate` search loop, the split, and the `deallocate` checks and merge. Each method is proved to reach the state the `PoolModel` function gives. `Pool.Reset`, `Pool.Allocate` and `Pool.Deallocate` are also proved to keep the invariant `Inv`.

`PoolModel.Inv` is the invariant the model keeps. It is proved to hold after `reset` on an empty buffer, as the constructor runs it, and to be kept by every `allocate` and every successful `deallocate`:

- the chain starts at offset 0 and its offsets increase, with room for a header between any two;
- `next` follows the chain and ends in null, and `prev` points back along it;
- every block but the last is allocated, holds at least one byte, and ends exactly where the next header starts;
- the last block is free, its header fits in the buffer, and its size is `POOL_SIZE` minus the sizes of the allocated blocks;
- no header outside the chain carries the flag. This clause holds only because the model's `reset` starts from an empty buffer; the code's `reset` does not clear old headers, as `PoolScenarios.ResetLeavesStaleFlag` shows.

The invariant has three consequences, all proved:

- First-fit can only pick the last block, so the branch of `allocate` that reuses a non-last free block is never taken from a reachable state.
- `deallocate` merges only when the freed block is the one before the last.
- The unguarded read of `hdr->get_next()` in `deallocate` is always a real header.

## Model

| member | source | states |
|---|---|---|
| Words.WrappingAdd | static_memory_pool.h:167 | `size_t` addition: the exact sum reduced modulo 2^64 |
| Words.WrappingSub | static_memory_pool.h:169 | `size_t` subtraction: the exact difference reduced modulo 2^64, so a negative difference wraps to a large size |
| BlockHeaders.SizeWord | static_memory_pool.h:32-43 | with the allocated argument the stored word has the top bit set and is `n` or `n + 2^63`; without it the word is `n` unchanged |
| BlockHeaders.BlockHeader.IsAllocated | static_memory_pool.h:27-30 | the top bit of the size word is set: the word is at least 2^63 |
| BlockHeaders.BlockHeader.GetSize | static_memory_pool.h:45-48 | the result is below the flag; it is the word less the flag when the flag is set, and the word itself otherwise |
| BlockHeaders.BlockHeader.SetSize | static_memory_pool.h:32-43 | only the size word changes, to the word `set_size` stores |
| BlockHeaders.BlockHeader.SetNext | static_memory_pool.h:60-63 | only `next` changes |
| BlockHeaders.BlockHeader.SetPrev | static_memory_pool.h:75-78 | only `prev` changes |
| BlockHeaders.FlagIsTopBit | static_memory_pool.h:27-48 | the flag is the quotient of the word by 2^63 and the size is the remainder |
| BlockHeaders.SizeWordSetsTopBit | static_memory_pool.h:32-43 | marking a size allocated sets the top bit and keeps the 63 bits below it |
| BlockHeaders.SetSizeRoundTrip | static_memory_pool.h:27-48 | for a size below the flag, `get_size` after `set_size(n, a)` gives `n` and `is_allocated` gives `a` |
| BlockHeaders.SetSizeDoesNotMask | static_memory_pool.h:32-43 | a size with the top bit set, stored as free, reads back as allocated with the top bit removed |
| PoolModel.Layout.AlignedHeaderSizeRounds | static_memory_pool.h:85 | for a non-zero alignment, a multiple of `ALIGNMENT` that is at least `HEADER_SIZE` and below `HEADER_SIZE + ALIGNMENT`: the header size rounded up; 0 for an alignment of 0, where the mask wraps to all ones |
| PoolModel.Layout.AlignmentPadding | static_memory_pool.h:141 | the padding `allocate` adds, `ALIGNMENT_MASK & ~ALIGNMENT_MASK`, is zero |
| PoolModel.Inv | static_memory_pool.h:108-221 | the well-formedness of the chain described above: established by the constructor's `reset` and kept by `allocate` and by every successful `deallocate`; the code's `reset` over old headers can break it |
| PoolModel.Layout.AlignmentMask | static_memory_pool.h:84 | `ALIGNMENT - 1` as a 64-bit pattern, wrapping to all ones for an alignment of 0 |
| PoolModel.Layout.AlignedHeaderSize | static_memory_pool.h:85 | `ALIGNED_HEADER_SIZE`: the header size rounded up to a multiple of `ALIGNMENT`, or 0 for an `ALIGNMENT` of 0, whose properties `AlignedHeaderSizeRounds` states |
| PoolModel.Layout.MaskedHeaderSizeIsRounding | static_memory_pool.h:84-85 | the code's bit formula `(HEADER_SIZE + ALIGNMENT_MASK) & ~ALIGNMENT_MASK` on 64-bit words gives that value for an alignment of 0 and for 1, 2, 4, ..., 64 |
| PoolModel.Layout.Valid | static_memory_pool.h:14-15 | the assumptions on the template parameters: `ALIGNMENT` a power of two, room for two headers, and `POOL_SIZE` below the flag |
| PoolModel.WriteSize | static_memory_pool.h:32-43 | `hdr->set_size(n, a)` on the buffer: only the header at that offset changes |
| PoolModel.WriteNext | static_memory_pool.h:60-63 | `hdr->set_next(next)` on the buffer: only the header at that offset changes |
| PoolModel.WritePrev | static_memory_pool.h:75-78 | `hdr->set_prev(prev)` on the buffer: only the header at that offset changes |
| PoolModel.ResetOver | static_memory_pool.h:108-116 | `reset` on a buffer as it stands: header 0 is one free block of `POOL_SIZE` bytes with null links, the counters and `_free_list` are reset, and every other header stays as it was |
| PoolModel.Reset | static_memory_pool.h:100-116 | `reset` on a buffer with no header in it, as the constructor runs it |
| PoolModel.Fits | static_memory_pool.h:150 | the block test of the search loop: not allocated and at least `n` bytes |
| PoolModel.FirstFitFrom | static_memory_pool.h:148-153 | the position found is the first block from `i` on that is free and holds `n` bytes; none is found only when no block fits |
| PoolModel.Claim | static_memory_pool.h:177-180 | the chosen block's size becomes `n` with the flag, and the block before it links to it again |
| PoolModel.Split | static_memory_pool.h:157-180 | a free header after the `n` bytes with size `old size - n`, null `next` and `prev` back to the block; the block links to it and is claimed; `_allocated` grows by `n` |
| PoolModel.Take | static_memory_pool.h:153-182 | a failure leaves the state as it was; a success returns the block's header offset plus `ALIGNED_HEADER_SIZE`; `_deallocated` and `_free_list` never change |
| PoolModel.Allocate | static_memory_pool.h:129-190 | a request of 0, above `POOL_SIZE`, or with no fitting block returns null; a null result changes nothing; a success returns the first fit's payload and `0 < n <= POOL_SIZE` |
| PoolModel.BlocksBelow | static_memory_pool.h:157-158 | in a well-shaped chain every earlier block lies below block `j`, with room for a header |
| PoolModel.AllocatedHasSuccessor | static_memory_pool.h:212-213 | under the invariant a flagged header is a chain block other than the last, and its `next` is the following chain block |
| PoolModel.IsInsidePool | static_memory_pool.h:124-127 | the address lies in `[BUFFER_START + ALIGNED_HEADER_SIZE, BUFFER_END - ALIGNED_HEADER_SIZE)`, as offsets |
| PoolModel.Deallocate | static_memory_pool.h:193-222 | it fails with `OutsidePool` exactly when the address is outside the range, and otherwise with `NotAllocated` exactly when the header is free; a success adds the header's size to `_deallocated` and leaves `_allocated` and `_free_list` alone |
| PoolInvariant.ChainStep | static_memory_pool.h:185-186 | following `next` from chain block `k` reaches block `k + 1`, or null after the last |
| PoolInvariant.ChainFlag | static_memory_pool.h:150 | chain block `k` carries the flag exactly when it is not the last |
| PoolInvariant.ResetEstablishesInv | static_memory_pool.h:108-116 | `reset` on an empty buffer, as the constructor runs it, leaves a well-formed pool |
| PoolInvariant.FirstFitPicksTail | static_memory_pool.h:148-153 | on a well-formed pool first-fit finds nothing or the last block |
| PoolInvariant.SplitWrites | static_memory_pool.h:155-180 | the header writes of a split of the last block, in the source's order, give the closed-form split state |
| PoolInvariant.AllocateSplitsTail | static_memory_pool.h:150-175 | a successful `allocate` on a well-formed pool chose the last block, it held at least `n` bytes, the new header fits, and the state is the split |
| PoolInvariant.SplitStateKeepsInv | static_memory_pool.h:157-177 | carving `n` bytes from the front of the last block, when they fit, keeps the invariant |
| PoolInvariant.AllocateIsSplitState | static_memory_pool.h:129-190 | a successful `allocate` on a well-formed pool is the closed-form split and returns the last block's payload |
| PoolInvariant.AllocatePreservesInv | static_memory_pool.h:129-190 | `allocate` keeps the invariant on every request |
| PoolInvariant.DeallocateShape | static_memory_pool.h:209-221 | a successful free counts the size; it changes nothing else when the freed block is not the one before the last, and it is the merge when it is |
| PoolInvariant.DeallocateMerges | static_memory_pool.h:212-221 | freeing the block before the last is the closed-form merge |
| PoolInvariant.MergeWrites | static_memory_pool.h:215-220 | the header writes of the merge, in the source's order, give the closed-form merge state |
| PoolInvariant.MergeKeepsInv | static_memory_pool.h:212-221 | freeing the block before the last into the last one keeps the invariant |
| PoolInvariant.InvIgnoresCounters | static_memory_pool.h:93-94 | the invariant holds whatever the two counters hold |
| PoolInvariant.DeallocatePreservesInv | static_memory_pool.h:193-222 | `deallocate` keeps the invariant whenever it succeeds |
| PoolInvariant.DeallocateAccepted | static_memory_pool.h:204-221 | once both checks pass on a well-formed pool, the free succeeds, its result is well formed, and it follows the plan the method carries out |
| PoolProperties.ResetIsSingleFreeBlock | static_memory_pool.h:108-116 | `reset` on an empty buffer, as the constructor runs it, leaves one free block at offset 0 of size `POOL_SIZE`, with null links, both counters zero and the invariant |
| PoolProperties.ResetOverTwice | static_memory_pool.h:108-116 | running the code's `reset` twice gives the same state as running it once |
| PoolProperties.ChainCoversPayloads | static_memory_pool.h:157-158 | chain header `i` starts exactly after the `i` headers and the payloads of the blocks before it |
| PoolProperties.TailRoomFits | static_memory_pool.h:150-161 | on a well-formed pool, room for `n` bytes and a header after the last block means the last block fits `n` |
| PoolProperties.AllocateSucceedsIff | static_memory_pool.h:129-190 | on a well-formed pool `allocate(n)` succeeds exactly when `n > 0` and the new header after the last block stays below `BUFFER_END - ALIGNED_HEADER_SIZE` |
| PoolProperties.AllocateCarvesTail | static_memory_pool.h:148-175 | a successful `allocate` picked the last block, returns a pointer inside the pool past its header, and made room for the new header |
| PoolProperties.SplitStateFacts | static_memory_pool.h:155-180 | after the split the block is flagged with size `n` and links a new free header after the `n` bytes, of size `old size - n`, `next` null and `prev` back; earlier blocks are untouched; `_allocated` grows by `n` |
| PoolProperties.TakeWholeBlock | static_memory_pool.h:177-180 | a chosen block that is not last is flagged with size `n` and keeps its `next`; `prev`'s `next` is pointed at it and no other header changes, so when `prev` already linked to it every earlier block is untouched; no header is created; the chain and `_allocated` stay as they were |
| PoolProperties.TakeTailGuard | static_memory_pool.h:155-167 | with the last block chosen, the call fails exactly when the new header would lie past `BUFFER_END - ALIGNED_HEADER_SIZE`; a failure changes nothing; a success adds `n` to `_allocated` |
| PoolProperties.DeallocateSuccessorFreeIff | static_memory_pool.h:212-213 | the freed block has a successor, and it is free exactly when the freed block is the one before the last |
| PoolProperties.MergeStateFacts | static_memory_pool.h:213-221 | the merge clears the flag and gives the block its size plus the successor's, without the absorbed header; the block takes the successor's null `next` and keeps its `prev`; the successor's size becomes 0 and its `prev` is not repaired; the chain ends one block earlier |
| PoolProperties.DeallocateKeepsFlag | static_memory_pool.h:209-213 | freeing a block whose successor is allocated changes only `_deallocated`, and the block keeps its flag |
| PoolProperties.MergeClearsFlag | static_memory_pool.h:216 | a free that merges leaves the freed header without the flag |
| PoolProperties.DoubleFreeAfterMergeRejected | static_memory_pool.h:204-216 | after a free that merged, freeing the same pointer again fails with `NotAllocated` |
| PoolProperties.DoubleFreeAccepted | static_memory_pool.h:204-213 | after a free whose successor is allocated, freeing the same pointer again succeeds and counts the size a second time |
| PoolProperties.FreeBeforeLast | static_memory_pool.h:193-221 | on a well-formed pool, freeing the block before the last succeeds and is the merge |
| PoolProperties.MergeUndoesSplit | static_memory_pool.h:212-221 | merging the block a split just carved back into the new last block restores every chain header and the chain |
| PoolProperties.LastBlockIsFree | static_memory_pool.h:155 | on a well-formed pool the last block is free, has a null `next`, and lies above every other block |
| PoolProperties.AllocateThenFreeRestores | static_memory_pool.h:129-222 | freeing the pointer just allocated restores the chain and its headers and counts `n` in both counters; only the left-behind header, of size 0, remains |
| PoolScenarios.ResetSmallPool | static_memory_pool.h:108-116 | `reset` on a 1024-byte pool with 8-byte alignment gives the single free block of 1024 bytes |
| PoolScenarios.ResetLeavesStaleFlag | static_memory_pool.h:108-116 | after two allocations, the code's `reset` leaves header 28 flagged and linked to 60 outside the one-block chain, so the state is not well formed |
| PoolScenarios.AllocateFour | static_memory_pool.h:129-190 | `allocate(4)` on that fresh pool returns offset 24 and leaves a free header at 28 with 1020 bytes |
| PoolScenarios.AllocateEight | static_memory_pool.h:129-190 | a following `allocate(8)` skips the allocated block, returns offset 52 and moves the free header to 60 |
| PoolScenarios.FreeFour | static_memory_pool.h:193-222 | freeing the 4 bytes merges the free block at 28 back into the block at 0 |
| PoolScenarios.AllocateFourBytesThenFree | tests.cpp:15-24 | allocating 4 bytes on a fresh pool and freeing them leaves both counters at 4 |
| PoolScenarios.TwoAllocations | static_memory_pool.h:129-190 | two allocations of 4 and 8 bytes carve three blocks |
| PoolScenarios.FreeBeforeAllocatedSuccessorTwice | static_memory_pool.h:204-213 | freeing the first of those blocks twice succeeds both times and counts 4 bytes each time |
| StaticMemoryPool.Pool.constructor | static_memory_pool.h:100-104 | the new pool is in the `reset` state and well formed |
| StaticMemoryPool.Pool.Reset | static_memory_pool.h:108-116 | from any state, the pool is in the `reset` state and well formed, so a second `reset` gives the same state |
| StaticMemoryPool.Pool.Allocate | static_memory_pool.h:129-190 | the new state and the result are those of `PoolModel.Allocate`, and the pool stays well formed |
| StaticMemoryPool.Pool.FindFit | static_memory_pool.h:143-187 | the search loop stops at the first-fit block, with `prev` the block before it, and finds nothing exactly when first-fit finds nothing |
| StaticMemoryPool.Pool.TakeBlock | static_memory_pool.h:153-182 | the header writes for the chosen block reach the state and result of `PoolModel.Take` |
| StaticMemoryPool.SplitIsWrites | static_memory_pool.h:155-180 | a proof helper for `TakeBlock`: `Split`'s header writes, with `prev` in place of the chain's previous block, in the order the method makes them |
| StaticMemoryPool.Pool.Deallocate | static_memory_pool.h:193-222 | a rejected free returns the error of `PoolModel.Deallocate` and changes nothing; an accepted one reaches its state; the pool stays well formed |
| StaticMemoryPool.Pool.Release | static_memory_pool.h:209-221 | the count and the merge reach the state the free's plan names |

## Left out

- Console output: the `std::cerr` message of an oversized request (static_memory_pool.h:136) is not modelled.
- Exceptions: the two `runtime_error`s of `deallocate` are an `Err` result that carries which check failed. The message text is not modelled.
- `get_instance` (static_memory_pool.h:118-122) is not modelled. The singleton is an explicitly constructed `Pool`.
- The runtime `assert` on the real buffer address (static_memory_pool.h:102) is not modelled. Addresses are offsets from the buffer's start, so the buffer is aligned by construction.
- Payload bytes and machine addresses are not modelled. Nothing is claimed about the alignment of returned pointers, because the padding the code adds is zero.
- The size word is an integer below 2^64 rather than a 64-bit bit-vector. The bit operations `&`, `|` and `~` of `set_size`, `get_size` and `is_allocated` are written as comparisons with, and additions of, 2^63. `FlagIsTopBit` relates that encoding to the quotient and remainder by 2^63, not to the bit operations themselves.
- Overlapping header writes are not modelled. A header is read as the one last written at exactly that offset, or as zero. In the buffer, a header written a few bytes after an older one overwrites part of it. For example, after `allocate(4)`, `allocate(8)`, `deallocate(52)`, `deallocate(24)` and `allocate(11)`, the header at 35 overwrites the top byte of the size word at 28. A second `deallocate(52)` then passes the flag check in the code and reads a garbage size and `next`, while the model rejects it as not allocated. Rejecting such frees is the model's choice, not the code's behaviour.
- StaticMemoryPool.Pool.Reset and PoolModel.Reset start from an empty header map, so headers left in the buffer by earlier calls are forgotten. The code's `reset` rewrites header 0 only, which `PoolModel.ResetOver` models. After it, flagged headers from before the reset stay in the buffer (`PoolScenarios.ResetLeavesStaleFlag`), and the code still accepts a free of a pointer handed out before the reset. Such a free can merge into the block the new chain ends with and zero its size. `allocate` then fails until the block before it is freed, which cuts the pool to that block's size. It breaks `Inv`, so the model's `deallocate`, which requires `Inv`, does not describe it.
- The counter accessors `allocated()` and `deallocated()` (static_memory_pool.h:230-231) are read as the fields `allocatedTotal` and `deallocatedTotal`. The `free_list()` accessor (static_memory_pool.h:225-228) is the field `freeList`.
- StaticMemoryPool.Pool.Allocate is modelled as two methods. The search loop is `FindFit` and the body for the chosen block is `TakeBlock`. The early `return`s of the loop become their results.
- StaticMemoryPool.Pool.Deallocate hands the end of the call to `Release`.
- PoolModel.Deallocate and StaticMemoryPool.Pool.Deallocate require the invariant. The source reads `hdr->get_next()` without a null check, and that read is defined only on a well-formed pool. On a state that breaks the invariant the source can dereference null or a stale header.
- The code merges one block forward only. It has no backward or multi-hop merge and repairs no `prev` link. Its padding is zero and `reset` stores `POOL_SIZE`. The model does the same.
- `global_memory_allocation.cpp` is not part of this model. Its operator overrides only forward to the pool, are compiled out, and call an `allocate` that does not exist.
- `main.cpp` is not part of this model. It is a superseded draft pool whose behaviour reads uninitialised memory.
- `timer.h` is not part of this model. It only reads a clock.
- `tests.cpp` appears only as the concrete scenario `AllocateFourBytesThenFree`.
- PoolModel.Deallocate rejects a free whose header offset `p - ALIGNED_HEADER_SIZE` falls inside a payload, because the model reads a zero header there. In the code that free reads the caller's bytes as a header and may pass the flag check. For example, on the state after `allocate(4)` and `allocate(8)`, a caller who stores all ones at bytes 52..59 makes `deallocate(76)` add 2^63 - 1 to `_deallocated` and read header 60's size word as a `next` pointer. So the `at in s.chain` of `PoolInvariant.DeallocateShape` is a guarantee of the model, not of the code.
- PoolModel.Layout.Valid requires `2 * ALIGNED_HEADER_SIZE <= POOL_SIZE < 2^63`. The code checks neither bound; a smaller or larger `POOL_SIZE` is not modelled.
- PoolModel.Layout.Valid also requires a power-of-two `ALIGNMENT`, so an `ALIGNMENT` of 0 is not modelled beyond `AlignedHeaderSize`. C++ ignores `alignas(0)`, so such a pool compiles; its `ALIGNED_HEADER_SIZE` is 0, and the constructor's assert that the buffer address masked by the all-ones `ALIGNMENT_MASK` is 0 fails for every non-null buffer.
- Concurrency: the pool is single-threaded, and so is the model.
- 32-bit builds are not modelled. The model fixes a 64-bit target: a 64-bit `size_t` and a 24-byte `free_block_header` (`HEADER_SIZE`). A 32-bit build has a 32-bit `size_t`, a 12-byte header and the flag at bit 31.
