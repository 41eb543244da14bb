/** The state of one `Pool` as a value, and what each of its operations does
    to that value.  The class `Pools.Pool` is proved to follow these. */
module PoolSpec {
  import opened Outcomes
  import opened Chunks
  import opened Arith

  /** A pool as its fields describe it: the first address of its buffer
      (`begin_chunk_`), the chunk size in bytes (`size_chunk_`), one flag per
      chunk (`free_`, whose length is `size_pool_`; `true` means free) and
      the cached free-chunk counter (`size_free_chunks_`). */
  datatype PoolView = PoolView(begin: nat, chunkSize: nat, free: seq<bool>, freeChunks: nat)
  {
    /** One past the last byte of the buffer. */
    function End(): nat
    {
      begin + chunkSize * |free|
    }
  }

  /** What every pool keeps: chunks of positive size, at least one chunk,
      and a counter never below the number of free flags. */
  predicate WellFormed(v: PoolView)
  {
    v.chunkSize > 0 && |v.free| > 0 && v.freeChunks >= CountFree(v.free)
  }

  /** The intended invariant: the counter equals the number of free flags. */
  predicate Consistent(v: PoolView)
  {
    v.freeChunks == CountFree(v.free)
  }

  /** Two views of the same buffer (same start, chunk size and chunk count). */
  predicate SameLayout(v: PoolView, w: PoolView)
  {
    v.begin == w.begin && v.chunkSize == w.chunkSize && |v.free| == |w.free|
  }

  /** A freshly constructed pool: every chunk free and the counter at the
      number of chunks, so the counter is consistent from the start. */
  function Initial(begin: nat, poolSize: nat, chunkSize: nat): (v: PoolView)
    requires poolSize > 0 && chunkSize > 0
    ensures WellFormed(v) && Consistent(v)
    ensures v.begin == begin && v.chunkSize == chunkSize && |v.free| == poolSize
    ensures forall i | 0 <= i < poolSize :: v.free[i]
  {
    CountFreeFill(poolSize, true);
    PoolView(begin, chunkSize, Fill(poolSize, true), poolSize)
  }

  // ---------------------------------------------------------------------
  // Addresses

  /** `FindChunk` as written: the address lies between the start of the
      buffer and the START of the last chunk, both included.  Whatever it
      accepts lies in the buffer. */
  predicate FindChunk(v: PoolView, p: nat)
    requires |v.free| > 0
    ensures v.chunkSize > 0 && FindChunk(v, p) ==> Owns(v, p)
  {
    assert v.chunkSize * |v.free| == v.chunkSize * (|v.free| - 1) + v.chunkSize;
    v.begin <= p <= v.begin + v.chunkSize * (|v.free| - 1)
  }

  /** The address lies in the buffer. */
  predicate Owns(v: PoolView, p: nat)
  {
    v.begin <= p < v.End()
  }

  /** The chunk that holds address `p`, as `deallocate` computes it: the
      address lies between that chunk's start and the next chunk's. */
  function ChunkIndex(v: PoolView, p: nat): (c: nat)
    requires v.chunkSize > 0 && v.begin <= p
    ensures v.begin + c * v.chunkSize <= p < v.begin + (c + 1) * v.chunkSize
  {
    var c := (p - v.begin) / v.chunkSize;
    assert p - v.begin == c * v.chunkSize + (p - v.begin) % v.chunkSize;
    MulSucc(c, v.chunkSize);
    c
  }

  /** An address lies in the buffer exactly when its chunk index names one
      of the pool's chunks. */
  lemma {:induction false} OwnsIffChunkInPool(v: PoolView, p: nat)
    requires v.chunkSize > 0
    ensures Owns(v, p) <==> v.begin <= p && ChunkIndex(v, p) < |v.free|
  {
    if v.begin <= p {
      DivBelow(p - v.begin, v.chunkSize, |v.free|);
    }
  }

  /** What `FindChunk` claims: every address of chunks `0 .. n-2`, and of the
      last chunk only its first byte. */
  lemma {:induction false} FindChunkClaims(v: PoolView, p: nat)
    requires WellFormed(v)
    ensures FindChunk(v, p) <==>
              v.begin <= p &&
              (ChunkIndex(v, p) < |v.free| - 1 || p == v.begin + v.chunkSize * (|v.free| - 1))
  {
    if v.begin <= p {
      DivBelow(p - v.begin, v.chunkSize, |v.free| - 1);
    }
  }

  /** Every address `FindChunk` claims lies in the buffer, and its chunk
      index names one of the pool's chunks. */
  lemma {:induction false} FindChunkSound(v: PoolView, p: nat)
    requires WellFormed(v) && FindChunk(v, p)
    ensures Owns(v, p) && ChunkIndex(v, p) < |v.free|
  {
    FindChunkClaims(v, p);
    OwnsIffChunkInPool(v, p);
  }

  /** The start of every chunk is claimed, and maps back to that chunk. */
  lemma {:induction false} FindChunkAtChunkStart(v: PoolView, s: nat)
    requires WellFormed(v) && s < |v.free|
    ensures FindChunk(v, v.begin + s * v.chunkSize)
    ensures ChunkIndex(v, v.begin + s * v.chunkSize) == s
  {
    MulMonotone(s, |v.free| - 1, v.chunkSize);
    DivOfMultiple(s, v.chunkSize);
  }

  /** The last byte of the buffer is not claimed when chunks are larger than
      one byte, although it belongs to the pool. */
  lemma {:induction false} FindChunkMissesLastByte(v: PoolView)
    requires WellFormed(v) && v.chunkSize > 1
    ensures Owns(v, v.End() - 1) && !FindChunk(v, v.End() - 1)
  {
    var cs, n := v.chunkSize, |v.free|;
    assert cs * n == cs * (n - 1) + cs;
  }

  // ---------------------------------------------------------------------
  // Reserving a run

  /** `CheckPool(target)`: reserve the left-most run of chunks whose bytes
      reach `target`, and return the run's first chunk; with no such run,
      throw `bad_alloc` and change nothing. */
  function CheckPool(v: PoolView, target: nat): (out: (Result<nat>, PoolView))
    requires WellFormed(v)
    ensures WellFormed(out.1) && SameLayout(v, out.1)
    ensures Consistent(v) ==> Consistent(out.1)
  {
    var k := ChunksNeeded(target, v.chunkSize);
    match FirstFit(v.free, k)
    case None => (Err(BadAlloc), v)
    case Some(s) =>
      RunFreeCount(v.free, s, k);
      (Ok(s), v.(free := Reserve(v.free, s, k), freeChunks := v.freeChunks - k))
  }

  /** Success: the returned chunk is the least start of a free run of
      `ChunksNeeded` chunks; exactly those flags become occupied and the
      counter drops by their number. */
  lemma {:induction false} CheckPoolSucceeds(v: PoolView, target: nat, s: nat)
    requires WellFormed(v)
    ensures var k := ChunksNeeded(target, v.chunkSize);
            CheckPool(v, target).0 == Ok(s) <==> RunFree(v.free, s, k) && NoFitIn(v.free, k, 0, s)
    ensures var k := ChunksNeeded(target, v.chunkSize);
            var (r, w) := CheckPool(v, target);
            r == Ok(s) ==>
              w.freeChunks == v.freeChunks - k &&
              forall j | 0 <= j < |v.free| :: w.free[j] == (v.free[j] && !(s <= j < s + k))
  {
    FirstFitIsLeast(v.free, ChunksNeeded(target, v.chunkSize), s);
  }

  /** The value `CheckPool` produces once the left-most free run is known. */
  lemma {:induction false} CheckPoolAt(v: PoolView, target: nat, s: nat)
    requires WellFormed(v)
    requires RunFree(v.free, s, ChunksNeeded(target, v.chunkSize))
    requires NoFitIn(v.free, ChunksNeeded(target, v.chunkSize), 0, s)
    ensures var k := ChunksNeeded(target, v.chunkSize);
            v.freeChunks >= k &&
            CheckPool(v, target) == (Ok(s), v.(free := Reserve(v.free, s, k), freeChunks := v.freeChunks - k))
  {
    var k := ChunksNeeded(target, v.chunkSize);
    FirstFitIsLeast(v.free, k, s);
    RunFreeCount(v.free, s, k);
  }

  /** Failure: `bad_alloc` exactly when no run of `ChunksNeeded` free
      chunks exists anywhere, and then nothing changes. */
  lemma {:induction false} CheckPoolFails(v: PoolView, target: nat)
    requires WellFormed(v)
    ensures var k := ChunksNeeded(target, v.chunkSize);
            CheckPool(v, target).0.Err? <==> NoFitIn(v.free, k, 0, |v.free| + 1)
    ensures CheckPool(v, target).0.Err? ==> CheckPool(v, target) == (Err(BadAlloc), v)
  {
    FirstFitIsLeast(v.free, ChunksNeeded(target, v.chunkSize), 0);
  }

  /** Fragmentation: chunks of 8 bytes laid out free, free, occupied, free,
      free hold 32 free bytes, yet a 24-byte request fails. */
  lemma FragmentedPoolRefuses()
    ensures var v := PoolView(0, 8, [true, true, false, true, true], 4);
            WellFormed(v) && v.freeChunks * v.chunkSize >= 24 &&
            CheckPool(v, 24) == (Err(BadAlloc), v)
  {
    var v := PoolView(0, 8, [true, true, false, true, true], 4);
    assert ChunksNeeded(24, 8) == 3;
    assert !v.free[2];
    CheckPoolFails(v, 24);
    assert NoFitIn(v.free, 3, 0, |v.free| + 1);
  }

  // ---------------------------------------------------------------------
  // Releasing a run

  /** Chunks `Deallocate(_, n)` computes for `n` elements of `elemSize`
      bytes: the ceiling of `n * elemSize / chunkSize`, the least chunk count
      whose bytes cover them, which is 0 for zero bytes. */
  function ReleaseLength(n: nat, elemSize: nat, chunkSize: nat): (k: nat)
    requires chunkSize > 0
    ensures k * chunkSize >= n * elemSize
    ensures k > 0 ==> (k - 1) * chunkSize < n * elemSize
    ensures k == 0 <==> n * elemSize == 0
  {
    CeilDiv(n * elemSize, chunkSize)
  }

  /** For a positive byte count, the released length equals the reserved one. */
  lemma {:induction false} ReleaseLengthMatchesReserved(n: nat, elemSize: nat, chunkSize: nat)
    requires n > 0 && elemSize > 0 && chunkSize > 0
    ensures ReleaseLength(n, elemSize, chunkSize) == ChunksNeeded(n * elemSize, chunkSize)
    ensures ReleaseLength(n, elemSize, chunkSize) >= 1
  {
    assert n * elemSize >= 1 * elemSize;
  }

  /** A release the source can carry out without writing past the flags.
      With `k` chunks to release, the loop's bound `start + k - 1` is an
      unsigned value: for `k == 0` it wraps around when `start` is 0 (the
      loop then runs off the flags) and is below `start` otherwise (the
      loop does nothing); for `k > 0` every marked chunk must exist. */
  predicate DeallocateFits(v: PoolView, start: nat, n: nat, elemSize: nat)
  {
    v.chunkSize > 0 &&
    var k := ReleaseLength(n, elemSize, v.chunkSize);
    if k == 0 then start > 0 else start + k - 1 <= |v.free|
  }

  /** `Deallocate(start, n)` as written: of the `k` chunks it computes it
      marks only `start .. start+k-2` free, and it adds `k` to the counter;
      with `k == 0` it changes nothing. */
  function Deallocate(v: PoolView, start: nat, n: nat, elemSize: nat): (w: PoolView)
    requires WellFormed(v) && DeallocateFits(v, start, n, elemSize)
    ensures WellFormed(w) && SameLayout(v, w)
  {
    var k := ReleaseLength(n, elemSize, v.chunkSize);
    if k == 0 then v
    else
      CountFreeSetRange(v.free, start, start + k - 1, true);
      v.(free := SetRange(v.free, start, start + k - 1, true), freeChunks := v.freeChunks + k)
  }

  /** After `CheckPool` reserved `n` elements at `s`, a release of `n`
      elements from `s` as written stays within the flags. */
  lemma {:induction false} DeallocateFitsAfterCheckPool(v: PoolView, n: nat, elemSize: nat)
    requires WellFormed(v) && n > 0 && elemSize > 0
    ensures var (r, v1) := CheckPool(v, elemSize * n);
            r.Ok? ==> DeallocateFits(v1, r.value, n, elemSize)
  {
    var (r, v1) := CheckPool(v, elemSize * n);
    if r.Ok? {
      assert elemSize * n == n * elemSize;
      CheckPoolSucceeds(v, elemSize * n, r.value);
      ReleaseLengthMatchesReserved(n, elemSize, v.chunkSize);
    }
  }

  /** Releasing right after reserving, as written: the counter is back at its
      old value, but the run's last chunk stays occupied, so a pool whose
      counter was consistent no longer is. */
  lemma {:induction false} DeallocateAfterCheckPool(v: PoolView, n: nat, elemSize: nat)
    requires WellFormed(v) && Consistent(v) && n > 0 && elemSize > 0
    requires CheckPool(v, n * elemSize).0.Ok?
    ensures var (r, v1) := CheckPool(v, n * elemSize);
            var k := ReleaseLength(n, elemSize, v.chunkSize);
            DeallocateFits(v1, r.value, n, elemSize) &&
            var w := Deallocate(v1, r.value, n, elemSize);
            w.freeChunks == v.freeChunks &&
            v.free[r.value + k - 1] && !w.free[r.value + k - 1] &&
            !Consistent(w)
  {
    var s := CheckPool(v, n * elemSize).0.value;
    ReleaseLengthMatchesReserved(n, elemSize, v.chunkSize);
    CheckPoolSucceeds(v, n * elemSize, s);
    CheckPoolAt(v, n * elemSize, s);
    DeallocateAfterReserve(v, s, n, elemSize);
  }

  /** The release as written right after the run `s .. s+k-1` was reserved. */
  lemma {:induction false} DeallocateAfterReserve(v: PoolView, s: nat, n: nat, elemSize: nat)
    requires WellFormed(v) && Consistent(v) && n > 0 && elemSize > 0
    requires RunFree(v.free, s, ReleaseLength(n, elemSize, v.chunkSize))
    ensures var k := ReleaseLength(n, elemSize, v.chunkSize);
            v.freeChunks >= k &&
            var v1 := v.(free := Reserve(v.free, s, k), freeChunks := v.freeChunks - k);
            WellFormed(v1) && DeallocateFits(v1, s, n, elemSize) &&
            var w := Deallocate(v1, s, n, elemSize);
            w.freeChunks == v.freeChunks &&
            v.free[s + k - 1] && !w.free[s + k - 1] &&
            !Consistent(w)
  {
    var k := ReleaseLength(n, elemSize, v.chunkSize);
    ReleaseLengthMatchesReserved(n, elemSize, v.chunkSize);
    RunFreeCount(v.free, s, k);
    var v1 := v.(free := Reserve(v.free, s, k), freeChunks := v.freeChunks - k);
    ReserveThenFreeAllButLast(v.free, s, k);
    DeallocateRun(v1, s, n, elemSize);
  }

  /** A release of `k > 0` chunks as written: flags `start .. start+k-2`
      set free and `k` added to the counter. */
  lemma {:induction false} DeallocateRun(v: PoolView, start: nat, n: nat, elemSize: nat)
    requires WellFormed(v) && DeallocateFits(v, start, n, elemSize)
    requires ReleaseLength(n, elemSize, v.chunkSize) > 0
    ensures var k := ReleaseLength(n, elemSize, v.chunkSize);
            Deallocate(v, start, n, elemSize)
              == v.(free := SetRange(v.free, start, start + k - 1, true), freeChunks := v.freeChunks + k)
  {
  }

  /** The release the code evidently intends: the `k` chunks that
      `CheckPool` reserved for `n` elements (one chunk for zero elements)
      all become free again and the counter grows by `k`. */
  function Release(v: PoolView, start: nat, n: nat, elemSize: nat): (w: PoolView)
    requires WellFormed(v)
    requires start + ChunksNeeded(n * elemSize, v.chunkSize) <= |v.free|
    ensures WellFormed(w) && SameLayout(v, w)
  {
    var k := ChunksNeeded(n * elemSize, v.chunkSize);
    CountFreeSetRange(v.free, start, start + k, true);
    v.(free := SetRange(v.free, start, start + k, true), freeChunks := v.freeChunks + k)
  }

  /** Releasing right after reserving, as intended, gives back exactly the
      pool that was there before. */
  lemma {:induction false} ReleaseAfterCheckPool(v: PoolView, n: nat, elemSize: nat)
    requires WellFormed(v)
    ensures var (r, v1) := CheckPool(v, n * elemSize);
            r.Ok? ==>
              r.value + ChunksNeeded(n * elemSize, v.chunkSize) <= |v1.free| &&
              Release(v1, r.value, n, elemSize) == v
  {
    var (r, v1) := CheckPool(v, n * elemSize);
    if r.Ok? {
      var s, k := r.value, ChunksNeeded(n * elemSize, v.chunkSize);
      CheckPoolSucceeds(v, n * elemSize, s);
      ReserveThenFree(v.free, s, k);
    }
  }

  /** A request of zero elements still reserves one chunk, yet a release of
      zero elements as written frees none and credits none: from any chunk
      but the first it leaves the pool as it is, so the reserved chunk stays
      occupied for good, and from the first chunk its loop bound wraps
      around. */
  lemma {:induction false} ZeroReleaseAfterZeroReserve(v: PoolView, elemSize: nat)
    requires WellFormed(v)
    ensures var (r, v1) := CheckPool(v, 0);
            r.Ok? ==>
              r.value < |v.free| && v.free[r.value] && !v1.free[r.value] &&
              v1.freeChunks == v.freeChunks - 1 &&
              (r.value > 0 ==> DeallocateFits(v1, r.value, 0, elemSize) &&
                               Deallocate(v1, r.value, 0, elemSize) == v1) &&
              (r.value == 0 ==> !DeallocateFits(v1, r.value, 0, elemSize))
  {
    var (r, v1) := CheckPool(v, 0);
    if r.Ok? {
      assert ChunksNeeded(0, v.chunkSize) == 1;
      CheckPoolSucceeds(v, 0, r.value);
      assert ReleaseLength(0, elemSize, v.chunkSize) == 0;
    }
  }
}
