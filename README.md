# Pool allocator model

A Dafny model of `PoolAllocator<T>` from `lib/allocator.h`, a C++
allocator that serves element arrays from a fixed list of pools. Each pool
(`Pool`) owns one buffer of `size_pool` chunks of `size_chunk` bytes, one
free flag per chunk and a cached free-chunk counter.

- `allocate(size)` turns the request into `sizeof(T) * size` bytes. It picks
  the pool with the least free capacity (counter times chunk size) that still
  covers the request and is below `INT_MAX`, the first such pool on ties.
  That pool's `CheckPool` reserves the left-most run of free chunks whose
  bytes reach the request, and `allocate` returns the address of the run's
  first chunk. With no eligible pool, or when `CheckPool` finds no run,
  `allocate` throws `bad_alloc`. No other pool is tried.
- `deallocate(ptr, n)` asks every pool's `FindChunk` whether it claims `ptr`.
  Each pool that does releases `n` elements from the chunk `ptr` falls in.
  When no pool claims `ptr`, `deallocate` throws `invalid_argument`.

Layout, one module per file:

- `outcomes.dfy` (`Outcomes`): `Option`, `Result` and the two exceptions.
- `arith.dfy` (`Arith`): small facts about multiplication and division.
- `chunks.dfy` (`Chunks`): the flag sequence, free counts, first-fit search
  and the run length `ChunksNeeded`.
- `pool_spec.dfy` (`PoolSpec`): a pool as a value (`PoolView`) and each pool
  operation as a function on it, with its properties.
- `pool.dfy` (`Pools`): the `Pool` class. Its flags are an `array<bool>`
  changed in place and its counter is a field. Each method is proved equal
  to its `PoolSpec` function.
- `allocator_spec.dfy` (`AllocatorSpec`): pool choice, `allocate` and
  `deallocate` as functions on the sequence of pool views, with their
  properties.
- `allocator.dfy` (`Allocators`): the `PoolAllocator` class. Each method is
  proved equal to its `AllocatorSpec` function.

The classes follow the code as written. Three behaviours of the code look
unintended, and the model follows the code in each (see "## Findings"):

- `FindChunk` stops at the start of the last chunk.
- `Deallocate` marks one chunk fewer than it adds to the counter.
- A request of zero elements reserves one chunk, but a release of zero
  elements frees none.

The corrected behaviour is defined beside the code's in the spec modules
(`PoolSpec.Owns`, `PoolSpec.Release`, `AllocatorSpec.DeallocateIntended`),
and the round trip is proved for it.

Addresses are natural numbers. The address `malloc` returns for a pool's
buffer is a constructor parameter (`begin` for a pool, `bases` for the
allocator). `sizeof(T)` is the allocator's `elemSize`.

## Model

| member | source | states |
|---|---|---|
| Pools.Pool.constructor | lib/allocator.h:69-77 | A new pool has every flag free and its counter equal to the number of chunks, so the counter is consistent from the start (`PoolSpec.Initial`). |
| PoolSpec.Initial | lib/allocator.h:69-77 | The fresh pool is well formed and consistent, with the given start, chunk size and chunk count, and every chunk free. |
| Allocators.PoolAllocator.constructor | lib/allocator.h:10-17 | One pool per `(size_pool, size_chunk)` pair, in list order, each in its initial state and distinct from the others. |
| Pools.Pool.FindChunk | lib/allocator.h:79-82 | Every address `FindChunk` accepts lies inside the pool's buffer. |
| PoolSpec.FindChunk | lib/allocator.h:79-82 | The containment test as written, on a pool value: with positive chunks, every address it accepts lies in the buffer. |
| PoolSpec.ChunkIndex | lib/allocator.h:46 | The chunk index `deallocate` computes names the chunk holding the address: the address lies between that chunk's start and the next one's. |
| PoolSpec.FindChunkClaims | lib/allocator.h:79-82 | `FindChunk` accepts exactly the addresses of chunks `0 .. size_pool-2` plus the first byte of the last chunk. |
| PoolSpec.FindChunkSound | lib/allocator.h:79-82 | An accepted address lies in the buffer and its chunk index names an existing chunk. |
| PoolSpec.FindChunkAtChunkStart | lib/allocator.h:33-35 | The start of every chunk is accepted by `FindChunk` and maps back to that chunk index, as `deallocate` computes it at line 46. |
| PoolSpec.FindChunkMissesLastByte | lib/allocator.h:79-82 | With chunks over one byte, the buffer's last byte belongs to the pool but `FindChunk` rejects it. |
| PoolSpec.OwnsIffChunkInPool | lib/allocator.h:46 | An address lies in the buffer exactly when its chunk index `(ptr - begin) / size_chunk` is below the chunk count. |
| Chunks.FirstFitIsLeast | lib/allocator.h:97-118 | First fit returns `s` exactly when chunks `s .. s+k-1` are free and no earlier start has `k` free chunks. It returns nothing exactly when no start has them. |
| Chunks.ReachesTargetOnlyAtNeeded | lib/allocator.h:99-106 | A run of `m <= k` chunks reaches the target byte count only when `m` is `k`, the least positive count whose bytes reach the target. |
| Chunks.ChunksNeeded | lib/allocator.h:99-106 | The run length is at least one, its bytes reach the target, and one chunk fewer would not. |
| Chunks.Reserve | lib/allocator.h:107-111 | Reserving a free run clears exactly its flags, keeps the others, and lowers the free count by its length. |
| Chunks.CountFreeSetRange | lib/allocator.h:107-109 | Setting a range of flags changes the free count by what the range gains or loses. |
| Pools.Pool.ScanForRun | lib/allocator.h:97-106 | The scan loop stops at the left-most run of `ChunksNeeded` free chunks and returns its first and last chunk, or reports that there is none. |
| Pools.Pool.CheckPool | lib/allocator.h:92-120 | The method's result and new state are exactly `PoolSpec.CheckPool` of the old state, and the pool stays well formed. |
| PoolSpec.CheckPool | lib/allocator.h:92-120 | `CheckPool` keeps the layout and the well-formedness, and keeps a consistent counter consistent. |
| PoolSpec.CheckPoolSucceeds | lib/allocator.h:97-113 | `CheckPool` returns `s` exactly when `s` is the least start of `k` free chunks. Then exactly those flags become occupied and the counter drops by `k`. |
| PoolSpec.CheckPoolFails | lib/allocator.h:97-119 | `CheckPool` throws `bad_alloc` exactly when no run of `k` free chunks exists, and then the pool is unchanged. |
| PoolSpec.FragmentedPoolRefuses | lib/allocator.h:97-119 | Fragmentation: 32 free bytes in runs of 16 cannot serve 24 bytes. |
| PoolSpec.ReleaseLength | lib/allocator.h:85 | The release length is the least chunk count whose bytes cover `n` elements. It is 0 exactly when the byte count is 0. |
| PoolSpec.ReleaseLengthMatchesReserved | lib/allocator.h:85 | For a positive request, the ceiling `Deallocate` computes equals the run length `CheckPool` reserved. |
| Pools.Pool.Deallocate | lib/allocator.h:84-90 | The method's new state is exactly `PoolSpec.Deallocate` of the old state, and the pool stays well formed. |
| PoolSpec.Deallocate | lib/allocator.h:84-90 | Deallocate as written keeps the layout and keeps the counter at or above the number of free flags. A release of zero chunks from a chunk other than 0 is allowed, and its loop does nothing. |
| PoolSpec.DeallocateAfterCheckPool | lib/allocator.h:84-113 | For `n > 0` elements, reserving and then releasing as written restores the counter but leaves the run's last chunk occupied, so a consistent pool becomes inconsistent. The zero case is `PoolSpec.ZeroReleaseAfterZeroReserve`. |
| PoolSpec.Release | lib/allocator.h:84-90 | The intended release frees the whole run `CheckPool` reserved for `n` elements, one chunk for zero elements. It keeps the layout and the well-formedness. |
| PoolSpec.ReleaseAfterCheckPool | lib/allocator.h:84-113 | For every element count, zero included, reserving and then releasing as intended gives back exactly the pool there was before. |
| PoolSpec.ZeroReleaseAfterZeroReserve | lib/allocator.h:85-113 | A zero-byte request reserves one chunk. A zero-element release as written then changes nothing from any chunk but 0, so that chunk stays occupied. From chunk 0 its loop bound wraps around. |
| AllocatorSpec.CapacityBounds | lib/allocator.h:25 | A pool's reported free bytes never understate the bytes of its free chunks, and equal them when the counter is consistent. |
| AllocatorSpec.BestFit | lib/allocator.h:24-30 | The chosen pool exists and is eligible: its capacity covers the request and is below `INT_MAX`. |
| AllocatorSpec.BestFitIsBest | lib/allocator.h:24-32 | The selection loop picks `i` exactly when `i` is eligible, no eligible pool has less capacity and no earlier eligible pool has as little. It picks none exactly when no pool is eligible. |
| AllocatorSpec.BestFitPrefersSmallerCapacity | lib/allocator.h:24-30 | With 100 and 50 free bytes, a 40-byte request goes to the 50-byte pool. |
| Allocators.PoolAllocator.SelectPool | lib/allocator.h:20-30 | The loop's best capacity stays at `INT_MAX` exactly when no pool is eligible. Otherwise its index is the best fit and its capacity that pool's. |
| Allocators.PoolAllocator.Allocate | lib/allocator.h:19-39 | The method's result and new pools are exactly `AllocatorSpec.Allocate` of the old pools, and the allocator stays valid. |
| AllocatorSpec.Allocate | lib/allocator.h:19-39 | `allocate` keeps the number of pools, their layouts and their well-formedness. |
| AllocatorSpec.AllocateUsesBestFit | lib/allocator.h:24-38 | With no eligible pool, `bad_alloc` and nothing changes. Otherwise only the best-fit pool changes, as its `CheckPool` says, and the result is that pool's `begin + s * size_chunk` or its `bad_alloc`. |
| AllocatorSpec.AllocateFailureChangesNothing | lib/allocator.h:32-38 | A failed `allocate` throws `bad_alloc` and leaves every pool unchanged. |
| AllocatorSpec.AllocateDoesNotFallBack | lib/allocator.h:32-35 | When the best-fit pool's `CheckPool` throws, `allocate` throws even though another pool could serve the request. |
| AllocatorSpec.AllocateBeyondEveryBuffer | lib/allocator.h:19-39 | A request larger than every pool's whole buffer fails and changes nothing, whatever the counters say. |
| AllocatorSpec.AllocateAddressInOnePool | lib/allocator.h:33-35 | With disjoint buffers, whenever `allocate` succeeds, the address it returns lies in exactly one pool's buffer, and that pool's `FindChunk` accepts it afterwards. |
| AllocatorSpec.ReleaseIfClaimed | lib/allocator.h:44-48 | One turn of `deallocate`'s loop on a pool value: a claiming pool is credited the release length, and any other pool is left as it was. |
| Allocators.PoolAllocator.ReleaseInPool | lib/allocator.h:44-48 | One turn of the `deallocate` loop: the pool releases from `ptr`'s chunk exactly when its `FindChunk` claims `ptr`, and reports whether it did. |
| Allocators.PoolAllocator.Deallocate | lib/allocator.h:41-53 | The method's result and new pools are exactly `AllocatorSpec.Deallocate` of the old pools, and the allocator stays valid. |
| AllocatorSpec.Deallocate | lib/allocator.h:41-53 | `deallocate` keeps the number of pools and their well-formedness. |
| AllocatorSpec.DeallocateRouting | lib/allocator.h:41-53 | No pool claims `ptr` exactly when `deallocate` throws `invalid_argument` and changes nothing. Pools that do not claim `ptr` are unchanged. Every claiming pool releases from `ptr`'s chunk; the loop does not stop at the first. |
| AllocatorSpec.DeallocateSingleClaimer | lib/allocator.h:41-53 | When exactly one pool claims `ptr`, `deallocate` succeeds and changes that pool alone. |
| AllocatorSpec.DeallocateAfterAllocate | lib/allocator.h:19-53 | For `n > 0` elements, deallocating an address `allocate(n)` just returned reaches the chosen pool alone, at the run's first chunk. The zero case is `PoolSpec.ZeroReleaseAfterZeroReserve`. |
| AllocatorSpec.AllocateThenDeallocate | lib/allocator.h:19-53 | As written, for `n > 0` elements, whenever `allocate(n)` succeeds, `deallocate(p, n)` with its address `p` succeeds and restores every counter, yet one pool keeps a chunk occupied and its counter no longer matches its flags. The zero case is `PoolSpec.ZeroReleaseAfterZeroReserve`. |
| AllocatorSpec.DeallocateIntended | lib/allocator.h:41-53 | The corrected `deallocate` keeps the number of pools and their well-formedness. |
| AllocatorSpec.AllocateThenDeallocateIntended | lib/allocator.h:19-53 | With the corrected ownership test and release, whenever `allocate(n)` succeeds, `deallocate(p, n)` with its address `p` gives back exactly the pools there were before. This holds for every `n`, zero included. |
| AllocatorSpec.DeallocateIntendedSingleOwner | lib/allocator.h:41-53 | When exactly one pool owns the address, the corrected `deallocate` succeeds and releases in that pool alone. |

## Left out

- Memory itself: `malloc`, `free`, the destructors and the bytes handed to callers are not modelled. Only addresses and bookkeeping are.
- The copy assignment of a `Pool` in the allocator's constructor (line 15) copies raw pointers and then destroys the temporary, which frees the buffers. The model builds each pool in place instead.
- `reinterpret_cast` and address arithmetic: addresses are natural numbers, and an address's chunk index is the integer `(ptr - begin) / size_chunk`.
- The `double` ceiling at line 85 is exact integer ceiling division (`Chunks.CeilDiv`). Rounding for very large byte counts is not modelled.
- `size_t` wrap-around: all sizes, counters and products are unbounded. An overflowing `sizeof(T) * size`, or a counter pushed past `SIZE_MAX` by repeated releases, is not modelled.
- Undefined behaviour is excluded by preconditions, and the source does not check any of it:
  - a pool with zero chunks or zero-byte chunks;
  - a release of zero chunks from chunk 0, whose unsigned loop bound `0 + 0 - 1` wraps around;
  - a release whose marked chunks run past the end of the flags.

  A release of zero chunks from any other chunk does nothing and is modelled.
- Allocators.PoolAllocator.Deallocate: requires every claiming pool's run to fit, because the source then writes past the end of `free_`.
- Thread safety and the allocator typedefs (`value_type` and its pointer type) are not modelled.
- `pools_` is a sequence fixed at construction rather than an array, because the allocator never replaces a pool after its constructor.
- Pools.Pool.ScanForRun: the scan of `CheckPool` is a method of its own that returns the run's first and last chunk. `CheckPool` then runs the marking loop. This is the same loop split at the point where the source starts marking.
- Allocators.PoolAllocator.ReleaseInPool: the body of `deallocate`'s loop is a method of its own, called once per pool.
- Allocators.PoolAllocator.SelectPool: the selection loop of `allocate` (lines 24-30) is a method of its own that returns the best capacity and its pool. `Allocate` then tests it against `INT_MAX`.

## Findings

| source | as written | input that shows it | evidently intended | confidence | as-written member | corrected member |
|---|---|---|---|---|---|---|
| lib/allocator.h:86-89 | The release loop stops at `start + k - 1`, so it frees `k - 1` chunks but adds `k` to the counter. | Any successful `allocate(n)` with `n > 0` followed by `deallocate(p, n)` with the returned address, for example one pool of 2 chunks of 8 bytes and a 16-byte request: chunk 1 stays occupied while the counter says 2 are free. For `n == 0` see the row for line 85. | Free all `k` chunks of the run. | high; not executed | AllocatorSpec.AllocateThenDeallocate | AllocatorSpec.AllocateThenDeallocateIntended |
| lib/allocator.h:81 | `FindChunk` accepts addresses only up to the start of the last chunk. | A pool of 4 chunks of 8 bytes at address 0: address 31 lies in the buffer but is rejected, so `deallocate(31, 1)` throws `invalid_argument`. | Accept every address below `begin + size_chunk * size_pool`. No address `allocate` returns is affected, because every chunk start is accepted (`PoolSpec.FindChunkAtChunkStart`). Only addresses the allocator never handed out are rejected, so the narrow bound may be deliberate. | medium; not executed | PoolSpec.FindChunkMissesLastByte | PoolSpec.OwnsIffChunkInPool |
| lib/allocator.h:85 | A release of `n` elements computes `ceil(n * sizeof(T) / size_chunk)` chunks, which is 0 for `n == 0`, yet `CheckPool` reserves one chunk for a zero-byte request (lines 97-106). | One pool of 2 chunks of 8 bytes with chunk 0 occupied: `allocate(0)` reserves chunk 1, and `deallocate(p, 0)` frees and credits nothing, so chunk 1 is never freed. | Release the run the matching `allocate(n)` reserved: one chunk for `n == 0`. | medium; not executed | PoolSpec.ZeroReleaseAfterZeroReserve | PoolSpec.ReleaseAfterCheckPool |
