/** `PoolAllocator<T>`: a fixed list of pools, each changed in place by
    `allocate` and `deallocate`. */
module Allocators {
  import opened Outcomes
  import opened Pools
  import PoolSpec
  import AllocatorSpec

  class PoolAllocator {
    /** `sizeof(value_type)`: bytes per element. */
    const elemSize: nat
    /** `pools_`, in the order the constructor's list gave them. */
    const pools: seq<Pool>

    /** The pools and their flag arrays: everything the allocator changes. */
    ghost function Repr(): set<object>
    {
      (set i | 0 <= i < |pools| :: pools[i] as object) + (set i | 0 <= i < |pools| :: pools[i].free as object)
    }

    ghost predicate Valid()
      reads Repr()
    {
      elemSize > 0 &&
      (forall i | 0 <= i < |pools| :: pools[i].Valid()) &&
      (forall i, j | 0 <= i < |pools| && 0 <= j < |pools| && i != j ::
         pools[i] != pools[j] && pools[i].free != pools[j].free)
    }

    /** The pools as values. */
    ghost function Views(): (vs: seq<PoolSpec.PoolView>)
      reads Repr()
      ensures |vs| == |pools|
      ensures forall i | 0 <= i < |pools| :: vs[i] == pools[i].View()
    {
      seq(|pools|, i requires 0 <= i < |pools| reads Repr() => pools[i].View())
    }

    /** `PoolAllocator(list)`: one pool per `(size_pool, size_chunk)` pair,
        each all free.  `bases[i]` stands for the address `malloc` returns
        for pool `i`'s buffer. */
    constructor (specs: seq<(nat, nat)>, bases: seq<nat>, elemSize: nat)
      requires elemSize > 0 && |bases| == |specs|
      requires forall i | 0 <= i < |specs| :: specs[i].0 > 0 && specs[i].1 > 0
      ensures Valid() && fresh(Repr())
      ensures this.elemSize == elemSize && |pools| == |specs|
      ensures forall i | 0 <= i < |specs| ::
                Views()[i] == PoolSpec.Initial(bases[i], specs[i].0, specs[i].1)
    {
      var ps: seq<Pool> := [];
      var i := 0;
      while i < |specs|
        invariant i <= |specs| && |ps| == i
        invariant forall j | 0 <= j < i ::
                    fresh(ps[j]) && fresh(ps[j].free) && ps[j].Valid() &&
                    ps[j].View() == PoolSpec.Initial(bases[j], specs[j].0, specs[j].1)
        invariant forall j, m | 0 <= j < i && 0 <= m < i && j != m ::
                    ps[j] != ps[m] && ps[j].free != ps[m].free
      {
        var p := new Pool(specs[i].0, specs[i].1, bases[i]);
        ps := ps + [p];
        i := i + 1;
      }
      this.elemSize := elemSize;
      this.pools := ps;
    }

    /** The selection loop of `allocate(size)`: the least free capacity
        below `INT_MAX` that covers `need`, and its pool; `best` stays at
        `INT_MAX` when no pool qualifies.  The pool it picks is
        `AllocatorSpec.BestFit`'s. */
    method SelectPool(need: nat) returns (best: nat, index: nat)
      requires Valid()
      ensures var caps := AllocatorSpec.Capacities(Views());
              if best == AllocatorSpec.IntMax then AllocatorSpec.BestFit(caps, need) == None
              else AllocatorSpec.BestFit(caps, need) == Some(index) && best == caps[index]
    {
      ghost var caps := AllocatorSpec.Capacities(Views());
      best, index := AllocatorSpec.IntMax, 0;
      var i := 0;
      while i < |pools|
        invariant i <= |pools| && best <= AllocatorSpec.IntMax
        invariant AllocatorSpec.BestFit(caps[..i], need)
               == if best == AllocatorSpec.IntMax then None else Some(index)
        invariant best != AllocatorSpec.IntMax ==> index < i && best == caps[index]
      {
        assert caps[..i + 1][..i] == caps[..i];
        var current := pools[i].freeChunks * pools[i].chunkSize;
        if need <= current && current < best {
          index := i;
          best := current;
        }
        i := i + 1;
      }
      assert caps[..|pools|] == caps;
    }

    /** A step that changed pool `i` alone keeps the allocator valid and
        changes its view `i` alone. */
    twostate lemma OnlyPoolChanged(i: nat)
      requires old(Valid()) && i < |pools| && pools[i].Valid()
      requires forall j | 0 <= j < |pools| && j != i :: unchanged(pools[j], pools[j].free)
      ensures Valid()
      ensures Views() == old(Views())[i := pools[i].View()]
    {
    }

    /** `allocate(size)`: reserve `elemSize * size` bytes in the best-fit
        pool and return the address of the run's first chunk; `bad_alloc`
        when no pool qualifies or that pool has no long enough free run. */
    method Allocate(size: nat) returns (r: Result<nat>)
      requires Valid()
      modifies Repr()
      ensures Valid()
      ensures r == AllocatorSpec.Allocate(old(Views()), elemSize, size).0
      ensures Views() == AllocatorSpec.Allocate(old(Views()), elemSize, size).1
    {
      ghost var v0 := Views();
      var best, index := SelectPool(elemSize * size);
      if best == AllocatorSpec.IntMax {
        return Err(BadAlloc);
      }
      AllocatorSpec.AllocateInChosen(v0, elemSize, size, index);
      var found := pools[index].CheckPool(elemSize * size);
      OnlyPoolChanged(index);
      match found
      case Ok(s) => r := Ok(pools[index].begin + s * pools[index].chunkSize);
      case Err(e) => r := Err(e);
    }

    /** One turn of `deallocate`'s loop: pool `i` releases the run from
        `ptr`'s chunk when its `FindChunk` claims `ptr`, and says whether it
        did. */
    method ReleaseInPool(i: nat, ptr: nat, n: nat) returns (claimed: bool)
      requires Valid() && i < |pools|
      requires PoolSpec.FindChunk(pools[i].View(), ptr) ==>
                 PoolSpec.DeallocateFits(pools[i].View(), PoolSpec.ChunkIndex(pools[i].View(), ptr), n, elemSize)
      modifies pools[i], pools[i].free
      ensures Valid()
      ensures claimed == PoolSpec.FindChunk(old(pools[i].View()), ptr)
      ensures pools[i].View() == AllocatorSpec.ReleaseIfClaimed(old(pools[i].View()), elemSize, ptr, n)
    {
      claimed := pools[i].FindChunk(ptr);
      if claimed {
        var indexPtr := (ptr - pools[i].begin) / pools[i].chunkSize;
        pools[i].Deallocate(indexPtr, n, elemSize);
      }
    }

    /** `deallocate(ptr, n)`: every pool whose `FindChunk` claims `ptr`
        releases `n` elements from the chunk `ptr` falls in; the loop visits
        every pool and does not stop at the first; `invalid_argument` when no
        pool claimed `ptr`. */
    method Deallocate(ptr: nat, n: nat) returns (r: Result<()>)
      requires Valid() && AllocatorSpec.DeallocateFitsAll(Views(), elemSize, ptr, n)
      modifies Repr()
      ensures Valid()
      ensures r == AllocatorSpec.Deallocate(old(Views()), elemSize, ptr, n).0
      ensures Views() == AllocatorSpec.Deallocate(old(Views()), elemSize, ptr, n).1
    {
      ghost var v0 := Views();
      AllocatorSpec.DeallocateLoopEnds(v0, elemSize, ptr, n);
      var foundTargetPool := false;
      var i := 0;
      while i < |pools|
        invariant i <= |pools| && Valid()
        invariant foundTargetPool == AllocatorSpec.ClaimedBefore(v0, ptr, i)
        invariant Views() == AllocatorSpec.ReleasedUpTo(v0, elemSize, ptr, n, i)
      {
        label Before:
        AllocatorSpec.DeallocateLoopStep(v0, elemSize, ptr, n, i);
        assert pools[i].View() == v0[i];
        var claimed := ReleaseInPool(i, ptr, n);
        OnlyPoolChanged@Before(i);
        if claimed {
          foundTargetPool := true;
        }
        i := i + 1;
      }
      if !foundTargetPool {
        r := Err(InvalidArgument);
      } else {
        r := Ok(());
      }
    }
  }
}
