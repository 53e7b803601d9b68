# Word-addressed memory pool, modelled in Dafny

The system is a memory manager for a single block of `sizeInWords` words of
`wordSize` bytes each. It records free space as a list of **holes**. Each hole
is an `(offset, size)` pair counted in words. It records live allocations in a
table that maps an allocation's address to its length in words. The operations
modelled are:

- `initialize` and `shutdown`, which take the pool between empty and one big hole;
- `getList`, which encodes the holes as 16-bit fields `[count, off0, size0, …]`;
- `allocate`, which does a ceiling word conversion, asks a placement strategy
  (`bestFit` or `worstFit`) for an offset and carves the words off the front of
  that hole;
- `free`, which validates the address, drops the allocation and coalesces the
  words back into the holes (left merge, left and right merge, right merge,
  insert or append);
- `getBitmap`, which packs one bit per word behind a 2-byte little-endian byte count;
- the text that `dumpMemoryMap` writes, `[o, s] - [o, s]`.

The earlier revision at the top of the repository (`MemoryManager.cpp`) is
modelled separately. It has no allocation table and allocates first-fit
itself, and its `free` is empty.

The model is functional:

- A pool is an immutable datatype.
- Holes are a `seq<Hole>`.
- Allocations are a `map<nat, nat>` keyed by byte offset from the block's base.
- A null pointer is `None`.

Modules:

| file | module | contents |
|---|---|---|
| `wrappers.dfy` | `Wrappers` | `Option` |
| `hole_list.dfy` | `HoleList` | `Hole`, 16-bit truncation, `getList` and its decoder |
| `extents.dfy` | `Extents` | word coverage, the hole-sequence invariant, carving a hole, coalescing a freed extent |
| `placement.dfy` | `Placement` | `bestFit`, `worstFit` and the strategy choice |
| `memory_pool.dfy` | `MemoryPool` | the later revision's pool, its invariant, lifecycle, `allocate` and `free` |
| `bitmap.dfy` | `Bitmap` | `getBitmap`, as a method with loops over `bv8` bytes |
| `report.dfy` | `Report` | the memory-map text and a reader that parses it back |
| `first_fit.dfy` | `FirstFit` | the earlier revision |

The pool invariant `MemoryPool.Valid` requires the following:

- Holes are non-empty and sorted, with at least one word between neighbours.
- Every hole and every allocation lies inside `[0, sizeInWords)`.
- Allocations are word-aligned, non-empty and pairwise disjoint.
- The holes and the allocations tile the pool: a word is in some hole exactly
  when it is in no allocation.

On the bitmap, the bit of word `k` is bit `k % 8` counted from the least significant
end, and the padding bits past the last word are 0.

## Model

| member | source | states |
|---|---|---|
| HoleList.GetList | MemoryManager/MemoryManager.cpp:44-66 | the list has `1 + 2n` fields; field 0 is the hole count and fields `2i+1`, `2i+2` are hole i's offset and size, all taken modulo 65536 |
| HoleList.DecodeGetList | MemoryManager.cpp:46-69 | when every count, offset and size fits in 16 bits, reading the encoded list back gives exactly the hole sequence, in order (same encoder as the later revision) |
| HoleList.FullPoolHoleEncodesSizeZero | MemoryManager/MemoryManager.cpp:61 | a hole of 65536 words is encoded with size 0 |
| Extents.Coalesce | MemoryManager/MemoryManager.cpp:145-190 | merging a freed extent into the holes changes the hole count by at most one (a right merge that absorbs the next hole drops one, a new hole adds one) and never leaves the list empty; what it covers is stated by `CoalesceCovers` and `CoalesceWellFormed` |
| Extents.CoalesceCovers | MemoryManager/MemoryManager.cpp:145-190 | after `free` coalesces an extent, a word is in a hole iff it was before or lies in the freed extent |
| Extents.CoalesceWellFormed | MemoryManager/MemoryManager.cpp:145-190 | coalescing an extent that overlaps no hole keeps the holes non-empty, sorted and non-adjacent, in all four cases |
| Extents.CoalesceWithinPool | MemoryManager/MemoryManager.cpp:145-190 | coalescing an extent inside the pool keeps every hole inside the pool |
| Extents.CoalesceBothSides | MemoryManager/MemoryManager.cpp:148-163 | freeing the gap between two holes merges all three into one hole |
| Extents.Carve | MemoryManager/MemoryManager.cpp:100-113 | carving the chosen hole keeps the hole count or drops the one hole it empties; what it covers is stated by `CarveCovers` and `CarveWellFormed` |
| Extents.CarveMissing | MemoryManager/MemoryManager.cpp:100-113 | when no hole starts at the chosen offset, the holes are unchanged |
| Extents.CarveCovers | MemoryManager/MemoryManager.cpp:100-113 | after carving, a word is in a hole iff it was before and is not one of the carved words |
| Extents.CarveWellFormed | MemoryManager/MemoryManager.cpp:100-113 | carving from the front of a hole that fits keeps the hole invariant and removes an emptied hole |
| Extents.CarveWithinPool | MemoryManager/MemoryManager.cpp:100-113 | carving keeps every hole inside the pool |
| Extents.CoalesceUndoesCarve | MemoryManager/MemoryManager.cpp:100-190 | coalescing the extent just carved from a hole restores the exact hole sequence |
| Placement.BestFit | MemoryManager/MemoryManager.cpp:327-368 | `bestFit` returns the offset of the first hole of least size among holes with `request <= size < 10000`; it returns -1 when there is none or when that offset is 10000 |
| Placement.WorstFit | MemoryManager/MemoryManager.cpp:370-411 | `worstFit` returns the offset of the first hole of greatest size among non-empty holes with `size >= request`; it returns -1 when there is none or when that offset is 10000 |
| Placement.Choose | MemoryManager/MemoryManager.cpp:84-90 | the strategy answers -1 or the offset of an encoded hole with room for the request |
| Placement.FitExample | MemoryManager/MemoryManager.cpp:327-411 | on holes `(0,4) (10,2) (20,10)` with request 2, best fit picks 10 and worst fit picks 20 |
| Placement.BestFitSkipsLargeHole | MemoryManager/MemoryManager.cpp:334-356 | a single hole of 10000 words is invisible to best fit but chosen by worst fit |
| MemoryPool.NewPool | MemoryManager/MemoryManager.cpp:9-13 | a new manager is valid, not in use, and keeps the word size it was given |
| MemoryPool.Shutdown | MemoryManager/MemoryManager.cpp:33-42 | `shutdown` leaves a valid pool that is not in use; the word size and the word count survive |
| MemoryPool.Initialize | MemoryManager/MemoryManager.cpp:17-31 | a zero size, a zero word size or more than 65536 words changes nothing; otherwise the pool is in use with the new size and every word is free |
| MemoryPool.InitializeFresh | MemoryManager/MemoryManager.cpp:17-42 | from a valid state, an accepted `initialize` leaves exactly one hole `(0, n)`, no allocations, and a valid pool |
| MemoryPool.InitializeRestarts | MemoryManager/MemoryManager.cpp:21 | `initialize` on a pool in use is `shutdown` then `initialize` |
| MemoryPool.ShutdownIdempotent | MemoryManager/MemoryManager.cpp:33-42 | a second `shutdown` changes nothing, and the pool can be initialized again |
| MemoryPool.WordsFor | MemoryManager/MemoryManager.cpp:74-76 | the word count is the byte count divided by the word size, rounded up |
| MemoryPool.Allocate | MemoryManager/MemoryManager.cpp:68-122 | on a pool in use, the result is non-null iff the request is non-zero, its word count fits the pool and the strategy, given the encoded hole list, answers other than -1, and then it is that answer times the word size; null and no change for a zero request, a pool not in use, more words than the pool, or a -1 answer; otherwise the address is a word-aligned byte offset, the allocation is recorded with its word count, and the chosen hole is carved |
| MemoryPool.AllocateExample | MemoryManager/MemoryManager.cpp:68-122 | in an 8-word pool of 1-byte words, a 3-byte request gets address 0 with either strategy, leaving the hole `(3, 5)` and the allocation `0 -> 3` |
| MemoryPool.FullPoolRefusesAllocation | MemoryManager/MemoryManager.cpp:17-66 | a freshly initialized pool of 65536 words returns null for every request, with either strategy, because its one hole is encoded with size 0 |
| MemoryPool.InitializeEncodable | MemoryManager/MemoryManager.cpp:17-31 | `initialize` with the limit lowered to 65535 words: a larger or otherwise rejected size changes nothing, an accepted one puts the pool in use with that size |
| MemoryPool.EncodablePoolServes | MemoryManager/MemoryManager.cpp:17-122 | with the lowered limit, a fresh pool serves every non-zero request that fits it at address 0: with worst fit always, with best fit when the pool has fewer than 10000 words |
| MemoryPool.Free | MemoryManager/MemoryManager.cpp:124-191 | ignored for a pool not in use, an address outside the block or an address that is not a live allocation; otherwise exactly that allocation is removed and its words become free, with no other word changing |
| MemoryPool.DoubleFree | MemoryManager/MemoryManager.cpp:132-133 | freeing the same address twice has the effect of freeing it once |
| MemoryPool.AllocatePreservesValid | MemoryManager/MemoryManager.cpp:68-122 | `allocate` preserves the pool invariant, tiling included, for either strategy |
| MemoryPool.FreePreservesValid | MemoryManager/MemoryManager.cpp:124-191 | `free` preserves the pool invariant, tiling included |
| MemoryPool.AllocateFreeRoundTrip | MemoryManager/MemoryManager.cpp:68-191 | in a valid pool, freeing the address `allocate` returned restores the exact previous holes and allocation table |
| Bitmap.ByteCount | MemoryManager/MemoryManager.cpp:253-256 | the bitmap has the fewest bytes that hold one bit per word |
| Bitmap.ClearWord | MemoryManager/MemoryManager.cpp:275-283 | one step of the inner loop clears the bit of that word when it is inside the pool and leaves every other bit, and all bits when it is not |
| Bitmap.ClearHole | MemoryManager/MemoryManager.cpp:270-286 | clearing one hole's bits clears exactly the bits of that hole's words inside the pool and keeps every other bit |
| Bitmap.ClearPadding | MemoryManager/MemoryManager.cpp:291-302 | the last-byte mask clears exactly the bits of words at or past the end of the pool |
| Bitmap.GetBitmap | MemoryManager/MemoryManager.cpp:247-319 | null iff the pool is not in use or empty; otherwise 2 little-endian length bytes and then one bit per word, set iff the word lies in no hole, which in a valid pool means it is allocated; padding bits are 0 |
| Report.DecimalValue | MemoryManager/MemoryManager.cpp:220-225 | the decimal text of a number reads back as that number |
| Report.Render | MemoryManager/MemoryManager.cpp:211-233 | the memory-map text reads back as exactly the encoded `(offset, size)` pairs, in list order; an empty list gives the empty text. The reader accepts only decimals without leading zeros, as `std::to_string` writes them |
| Report.ParseNumberCanonical | MemoryManager/MemoryManager.cpp:220-225 | a number the reader accepts is written exactly as `std::to_string` writes it |
| Report.ParseItemsInjective | MemoryManager/MemoryManager.cpp:215-230 | two texts that read back as the same items are the same text |
| Report.RenderIsTheOnlyText | MemoryManager/MemoryManager.cpp:211-233 | the text of a hole list is the only text that reads back as its holes, so the reading-back contract fixes the exact text |
| Report.LeadingZeroRejected | MemoryManager/MemoryManager.cpp:220 | a zero-padded number, as in `[04, 4]`, is not memory-map text |
| Report.RenderExample | MemoryManager/MemoryManager.cpp:215-233 | holes `(0,4)` and `(8,4)` are written as `[0, 4] - [8, 4]` |
| FirstFit.NewPool | MemoryManager.cpp:4-9 | a new manager is not in use and keeps its word size |
| FirstFit.Shutdown | MemoryManager.cpp:34-44 | `shutdown` leaves a pool that is not in use, with no holes and word size 0 |
| FirstFit.Initialize | MemoryManager.cpp:16-32 | a zero size, a zero word size or more than 65536 words changes nothing; otherwise the pool is in use and ends with the hole `(0, n)`, and re-initializing a pool in use zeroes the word size |
| FirstFit.Release | MemoryManager.cpp:34-44 | the corrected `shutdown`: the pool is not in use and has no holes, and the word size survives, unlike the reset at line 40 |
| FirstFit.ShutdownDisables | MemoryManager.cpp:19-44 | after `shutdown` every `initialize` is rejected and every `allocate` returns null |
| FirstFit.InitializeFresh | MemoryManager.cpp:16-32 | on a fresh pool an accepted `initialize` leaves exactly one hole `(0, n)` and a valid pool |
| FirstFit.ReinitializeZeroesWordSize | MemoryManager.cpp:25 | initializing twice leaves the pool in use with word size 0, which breaks the invariant |
| FirstFit.InitializeKeepingWordSize | MemoryManager.cpp:16-32 | `initialize` with a shutdown that keeps the word size: a rejected size changes nothing; an accepted one keeps the word size and leaves exactly one hole `(0, n)`; the invariant is kept either way |
| FirstFit.ReinitializeThenAllocate | MemoryManager.cpp:16-106 | with the corrected `initialize`, a re-initialized pool serves an allocation |
| FirstFit.FirstFrom | MemoryManager.cpp:86-89 | the search finds the first hole with room for the request, or reports that no hole has room |
| FirstFit.CarveAt | MemoryManager.cpp:95-103 | the chosen hole loses its front `words` words and is dropped when it empties; the holes before and after it are unchanged |
| FirstFit.Allocate | MemoryManager.cpp:72-112 | null and no change for a zero request, a pool not in use or no hole with room; otherwise the first hole with room loses its front words and the result is that hole's offset in bytes |
| FirstFit.CarveAtIsCarve | MemoryManager.cpp:95-103 | on valid holes, this revision's carve of the first hole that fits agrees with the later revision's carve by offset |
| FirstFit.AllocatePreservesValid | MemoryManager.cpp:72-112 | first-fit allocation keeps the holes non-empty, sorted, non-adjacent and inside the largest pool |
| FirstFit.AllocateCovers | MemoryManager.cpp:86-106 | after a first-fit allocation a word is free iff it was free and is not one of the words handed out |
| FirstFit.Free | MemoryManager.cpp:115-118 | `free` is empty in this revision: the holes, the word size and the in-use flag are unchanged, so the invariant holds after it |
| FirstFit.FreeLeaks | MemoryManager.cpp:115-118 | `free` changes nothing, so an allocated word never returns to the holes |
| FirstFit.FirstFitExample | MemoryManager.cpp:86-106 | with holes `(0,4)` and `(10,2)`, a 2-word request is taken from the first hole, not the tighter second one |

## Left out

- The contents of the block: `new`, `delete[]`, `memset` and `memcpy`, and the destructor. Addresses are byte offsets from an abstract base. A pointer below the base is a negative offset.
- The file handling of `dumpMemoryMap`: `open`, `write`, `close` and the -1 results on failure. Only the text it writes is modelled.
- `setAllocator` and the `std::function` plumbing. The strategy is a `Strategy` value.
- The getters `getWordSize`, `getMemoryStart` and `getMemoryLimit`.
- In the earlier revision, the `allocator(sizeInWords, pointer)` call made only for its side effect, and the reset of the allocator in `shutdown`.
- MemoryPool.Allocate: the strategy's answer is used as an offset only when it is -1 or a hole's offset. No model strategy returns any other value, so the `static_cast<size_t>` of another negative value is not modelled.
- The width of the fields: `wordSize` is modelled as an unbounded natural, not a 32-bit `unsigned`, and byte offsets are never wrapped. The 16-bit truncation in `getList` and the `size_t` wrap of a hole's size in the later revision's carve are modelled.
- `Hole.h` and the later revision's header are not part of this model. The layout of `Hole` is taken from its uses.

## Findings

| source | as written | input that shows it | evidently intended | confidence | as-written member | corrected member |
|---|---|---|---|---|---|---|
| MemoryManager.cpp:25 | `initialize` on a pool in use calls `shutdown`, which sets the word size to 0, and then builds the new hole; the pool is in use with word size 0 | word size 4, then `initialize(8)` twice; the next `allocate` divides by the zero word size | shut down without clearing the word size, as the later revision's `shutdown` does | not executed | FirstFit.ReinitializeZeroesWordSize | FirstFit.InitializeKeepingWordSize |
| MemoryManager/MemoryManager.cpp:20 | `initialize` accepts 65536 words, but `getList` stores each hole size in 16 bits, so the one hole of such a pool is reported with size 0 and neither strategy ever picks it | word size 1, `initialize(65536)`, then `allocate(1)` with either strategy returns null | a pool that `initialize` accepts can serve a request that fits it; one fix: accept at most 65535 words, which the hole list can describe (modelled); another: keep 65536 and widen the size field of the hole list | not executed | MemoryPool.FullPoolRefusesAllocation | MemoryPool.EncodablePoolServes |
