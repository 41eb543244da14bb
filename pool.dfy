/** The `Pool` struct: a buffer of `poolSize` chunks of `chunkSize` bytes,
    a flag per chunk changed in place, and a cached free-chunk counter. */
module Pools {
  import opened Outcomes
  import opened Chunks
  import opened Arith
  import PoolSpec

  class Pool {
    /** `size_chunk_`: bytes per chunk. */
    const chunkSize: nat
    /** `size_pool_`: number of chunks. */
    const poolSize: nat
    /** `begin_chunk_`: the address of the buffer's first byte. */
    const begin: nat
    /** `free_`: one flag per chunk, `true` when the chunk is free. */
    const free: array<bool>
    /** `size_free_chunks_`: the cached number of free chunks. */
    var freeChunks: nat

    /** The pool as a value. */
    ghost function View(): PoolSpec.PoolView
      reads this, free
    {
      PoolSpec.PoolView(begin, chunkSize, free[..], freeChunks)
    }

    ghost predicate Valid()
      reads this, free
    {
      free.Length == poolSize && PoolSpec.WellFormed(View())
    }

    /** `Pool(size_pool, size_chunk)`: every chunk free, the counter at the
        number of chunks.  `begin` stands for the address `malloc` returned. */
    constructor (poolSize: nat, chunkSize: nat, begin: nat)
      requires poolSize > 0 && chunkSize > 0
      ensures Valid() && fresh(free)
      ensures this.poolSize == poolSize && this.chunkSize == chunkSize && this.begin == begin
      ensures View() == PoolSpec.Initial(begin, poolSize, chunkSize)
    {
      this.chunkSize := chunkSize;
      this.poolSize := poolSize;
      this.freeChunks := poolSize;
      this.begin := begin;
      this.free := new bool[poolSize];
      new;
      var i := 0;
      while i < poolSize
        invariant i <= poolSize
        invariant forall j | 0 <= j < i :: free[j]
        invariant freeChunks == poolSize
      {
        free[i] := true;
        i := i + 1;
      }
      assert free[..] == Fill(poolSize, true);
    }

    /** `FindChunk(ptr)`: whether the address lies between the buffer's start
        and the start of its last chunk.  Whatever it accepts lies in the
        buffer. */
    predicate FindChunk(p: nat)
      requires poolSize > 0 && chunkSize > 0 && free.Length == poolSize
      reads this, free
      ensures FindChunk(p) == PoolSpec.FindChunk(View(), p)
      ensures FindChunk(p) ==> begin <= p < begin + chunkSize * poolSize
    {
      begin <= p <= begin + chunkSize * (poolSize - 1)
    }

    /** The scan of `CheckPool(target_size)`: walk the chunks left to right,
        counting the bytes of the current run of free chunks, and stop at the
        first chunk where they reach `target`, returning the run's first and
        last chunk.  The run found is the left-most run of
        `ChunksNeeded(target, chunkSize)` free chunks. */
    method ScanForRun(target: nat) returns (r: Option<(nat, nat)>)
      requires Valid()
      ensures var k := ChunksNeeded(target, chunkSize);
              match r
              case None => FirstFit(free[..], k) == None
              case Some((first, last)) => FirstFit(free[..], k) == Some(first) && last == first + k - 1
    {
      ghost var s := free[..];
      ghost var k := ChunksNeeded(target, chunkSize);
      var beginFree: nat := 0;
      var currentSegment := false;
      var currentSize: nat := 0;
      var i: nat := 0;
      ghost var runLen: nat := 0;
      while i < poolSize
        invariant i <= poolSize
        invariant currentSegment ==> beginFree < i
        invariant currentSegment ==> forall j | beginFree <= j < i :: s[j]
        invariant currentSegment ==> beginFree == 0 || !s[beginFree - 1]
        invariant !currentSegment ==> i == 0 || !s[i - 1]
        invariant runLen == if currentSegment then i - beginFree else 0
        invariant currentSize == runLen * chunkSize
        invariant runLen < k
        invariant NoFitEndingBy(s, k, i)
      {
        if free[i] {
          MulSucc(runLen, chunkSize);
          currentSize := currentSize + chunkSize;
          runLen := runLen + 1;
          if !currentSegment {
            currentSegment := true;
            beginFree := i;
          }
          ReachesTargetOnlyAtNeeded(target, chunkSize, runLen);
          if currentSize >= target {
            assert RunFree(s, beginFree, k);
            assert NoFitIn(s, k, 0, beginFree);
            FirstFitIsLeast(s, k, beginFree);
            return Some((beginFree, i));
          }
        } else {
          currentSegment := false;
          currentSize := 0;
          runLen := 0;
        }
        NoFitEndingByStep(s, k, i, if currentSegment then beginFree else i + 1);
        i := i + 1;
      }
      NoFitEndingByEnd(s, k);
      FirstFitIsLeast(s, k, 0);
      return None;
    }

    /** `CheckPool(target_size)`: reserve the run the scan found, marking
        each of its chunks occupied, take its length off the counter and
        return its first chunk; throw `bad_alloc`, changing nothing, when the
        scan found none. */
    method CheckPool(target: nat) returns (r: Result<nat>)
      requires Valid()
      modifies this, free
      ensures Valid()
      ensures (r, View()) == PoolSpec.CheckPool(old(View()), target)
    {
      ghost var v0 := View();
      ghost var s := free[..];
      ghost var k := ChunksNeeded(target, chunkSize);
      var found := ScanForRun(target);
      if found.None? {
        return Err(BadAlloc);
      }
      var (beginFree, last) := found.value;
      FirstFitIsLeast(s, k, beginFree);
      RunFreeCount(s, beginFree, k);
      var j := beginFree;
      while j <= last
        invariant beginFree <= j <= last + 1
        invariant forall m | 0 <= m < poolSize :: free[m] == (s[m] && !(beginFree <= m < j))
        invariant freeChunks == old(freeChunks)
      {
        free[j] := false;
        j := j + 1;
      }
      freeChunks := freeChunks - (last - beginFree + 1);
      ReservePointwise(s, free[..], beginFree, k);
      PoolSpec.CheckPoolAt(v0, target, beginFree);
      return Ok(beginFree);
    }

    /** `Deallocate(index_begin_chunk, n)` as written: it computes the run
        length `k` of `n` elements but marks only the first `k - 1` chunks
        free, and adds `k` to the counter.  The loop bound `last` is
        unsigned: for `k == 0` it lies below `start` and the loop does
        nothing. */
    method Deallocate(start: nat, n: nat, elemSize: nat)
      requires Valid() && PoolSpec.DeallocateFits(View(), start, n, elemSize)
      modifies this, free
      ensures Valid()
      ensures View() == PoolSpec.Deallocate(old(View()), start, n, elemSize)
    {
      var k := CeilDiv(n * elemSize, chunkSize);
      var last: nat := start + k - 1;
      var i := start;
      while i < last
        invariant start <= i && (i <= last || i == start)
        invariant forall m | 0 <= m < poolSize :: free[m] == if start <= m < i then true else old(free[m])
        invariant freeChunks == old(freeChunks)
      {
        free[i] := true;
        i := i + 1;
      }
      freeChunks := freeChunks + k;
      ghost var w := PoolSpec.Deallocate(old(View()), start, n, elemSize);
      if k == 0 {
        assert free[..] == old(free[..]);
      } else {
        assert free[..] == SetRange(old(free[..]), start, start + k - 1, true);
      }
      assert w.free == free[..] && w.freeChunks == freeChunks;
      assert View() == w;
    }
  }
}
