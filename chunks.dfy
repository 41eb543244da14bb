/** Bookkeeping over a pool's per-chunk flags.  A pool's occupancy is a
    sequence of flags, one per chunk, where `true` means the chunk is free
    (the source's `free_` array). */
module Chunks {
  import opened Outcomes

  /** Number of free chunks the flags record. */
  function CountFree(s: seq<bool>): (c: nat)
    ensures c <= |s|
  {
    if s == [] then 0 else (if s[0] then 1 else 0) + CountFree(s[1..])
  }

  lemma {:induction false} CountFreeAppend(a: seq<bool>, b: seq<bool>)
    ensures CountFree(a + b) == CountFree(a) + CountFree(b)
  {
    if a == [] {
      assert a + b == b;
    } else {
      assert (a + b)[1..] == a[1..] + b;
      CountFreeAppend(a[1..], b);
    }
  }

  /** `k` flags all equal to `v`. */
  function Fill(k: nat, v: bool): seq<bool>
  {
    seq(k, _ => v)
  }

  lemma {:induction false} CountFreeFill(k: nat, v: bool)
    ensures CountFree(Fill(k, v)) == if v then k else 0
  {
    if k > 0 {
      assert Fill(k, v)[1..] == Fill(k - 1, v);
      CountFreeFill(k - 1, v);
    }
  }

  /** The flags with positions `lo .. hi-1` set to `v` and all others kept:
      what a marking loop `for i in [lo, hi): free_[i] = v` leaves behind. */
  function SetRange(s: seq<bool>, lo: nat, hi: nat, v: bool): (r: seq<bool>)
    requires lo <= hi <= |s|
    ensures |r| == |s|
    ensures forall j | 0 <= j < |s| :: r[j] == if lo <= j < hi then v else s[j]
  {
    s[..lo] + Fill(hi - lo, v) + s[hi..]
  }

  /** Setting a range changes the free count by what the range gains or loses. */
  lemma {:induction false} CountFreeSetRange(s: seq<bool>, lo: nat, hi: nat, v: bool)
    requires lo <= hi <= |s|
    ensures CountFree(SetRange(s, lo, hi, v))
         == CountFree(s) - CountFree(s[lo..hi]) + (if v then hi - lo else 0)
  {
    var a, b, c, f := s[..lo], s[lo..hi], s[hi..], Fill(hi - lo, v);
    calc {
      CountFree(s);
      { assert s == (a + b) + c; }
      CountFree((a + b) + c);
      { CountFreeAppend(a + b, c); CountFreeAppend(a, b); }
      CountFree(a) + CountFree(b) + CountFree(c);
    }
    calc {
      CountFree(SetRange(s, lo, hi, v));
      CountFree((a + f) + c);
      { CountFreeAppend(a + f, c); CountFreeAppend(a, f); }
      CountFree(a) + CountFree(f) + CountFree(c);
      { CountFreeFill(hi - lo, v); }
      CountFree(a) + (if v then hi - lo else 0) + CountFree(c);
    }
  }

  /** Chunks `start .. start+k-1` exist and are all free. */
  predicate RunFree(s: seq<bool>, start: nat, k: nat)
  {
    start + k <= |s| && forall j | start <= j < start + k :: s[j]
  }

  /** A free run of `k` chunks accounts for `k` of the free count. */
  lemma {:induction false} RunFreeCount(s: seq<bool>, start: nat, k: nat)
    requires RunFree(s, start, k)
    ensures CountFree(s[start..start + k]) == k
    ensures CountFree(s) >= k
  {
    assert s[start..start + k] == Fill(k, true);
    CountFreeFill(k, true);
    CountFreeSetRange(s, start, start + k, false);
  }

  /** The flags after the run `start .. start+k-1` has been reserved. */
  function Reserve(s: seq<bool>, start: nat, k: nat): (r: seq<bool>)
    requires RunFree(s, start, k)
    ensures |r| == |s|
    ensures forall j | 0 <= j < |s| :: r[j] == (s[j] && !(start <= j < start + k))
    ensures CountFree(r) == CountFree(s) - k
  {
    RunFreeCount(s, start, k);
    CountFreeSetRange(s, start, start + k, false);
    SetRange(s, start, start + k, false)
  }

  /** Flags that differ from `s` exactly by the reserved run are `Reserve`'s. */
  lemma {:induction false} ReservePointwise(s: seq<bool>, t: seq<bool>, start: nat, k: nat)
    requires RunFree(s, start, k) && |t| == |s|
    requires forall m | 0 <= m < |s| :: t[m] == (s[m] && !(start <= m < start + k))
    ensures t == Reserve(s, start, k)
  {
  }

  /** Marking a reserved run free again restores the flags. */
  lemma {:induction false} ReserveThenFree(s: seq<bool>, start: nat, k: nat)
    requires RunFree(s, start, k)
    ensures SetRange(Reserve(s, start, k), start, start + k, true) == s
  {
    var r := SetRange(Reserve(s, start, k), start, start + k, true);
    assert forall j | 0 <= j < |s| :: r[j] == s[j];
  }

  /** Marking all but the last chunk of a reserved run free leaves exactly
      that last chunk occupied, one free chunk short of before. */
  lemma {:induction false} ReserveThenFreeAllButLast(s: seq<bool>, start: nat, k: nat)
    requires k >= 1 && RunFree(s, start, k)
    ensures SetRange(Reserve(s, start, k), start, start + k - 1, true)
         == SetRange(s, start + k - 1, start + k, false)
    ensures CountFree(SetRange(s, start + k - 1, start + k, false)) == CountFree(s) - 1
  {
    var r := SetRange(Reserve(s, start, k), start, start + k - 1, true);
    var t := SetRange(s, start + k - 1, start + k, false);
    assert forall j | 0 <= j < |s| :: r[j] == t[j];
    CountFreeSetRange(s, start + k - 1, start + k, false);
    assert s[start + k - 1..start + k] == [s[start + k - 1]];
  }

  /** No run of `k` free chunks starts at any of `lo .. hi-1`. */
  predicate NoFitIn(s: seq<bool>, k: nat, lo: nat, hi: nat)
  {
    forall st: nat | lo <= st < hi :: !RunFree(s, st, k)
  }

  /** No run of `k` free chunks ends before position `i`. */
  predicate NoFitEndingBy(s: seq<bool>, k: nat, i: nat)
  {
    forall st: nat | st + k <= i :: !RunFree(s, st, k)
  }

  /** Scanning one more chunk keeps "no fit so far" when the free run
      ending there, which starts at `lo`, is still shorter than `k`. */
  lemma {:induction false} NoFitEndingByStep(s: seq<bool>, k: nat, i: nat, lo: nat)
    requires i < |s| && lo <= i + 1 && i + 1 - lo < k
    requires lo == 0 || !s[lo - 1]
    requires NoFitEndingBy(s, k, i)
    ensures NoFitEndingBy(s, k, i + 1)
  {
    forall st: nat | st + k <= i + 1
      ensures !RunFree(s, st, k)
    {
      if st + k == i + 1 {
        assert st <= lo - 1 < st + k;
      }
    }
  }

  /** A scan that reached the end without a fit has ruled out every start. */
  lemma {:induction false} NoFitEndingByEnd(s: seq<bool>, k: nat)
    requires NoFitEndingBy(s, k, |s|)
    ensures NoFitIn(s, k, 0, |s| + 1)
  {
    forall st: nat | st < |s| + 1
      ensures !RunFree(s, st, k)
    {
      if st + k <= |s| {
        assert !RunFree(s, st, k);
      }
    }
  }

  /** First-fit search from position `i`: the least start `>= i` of a run
      of `k` free chunks, or `None` when there is none. */
  function FirstFitFrom(s: seq<bool>, k: nat, i: nat): (r: Option<nat>)
    decreases |s| - i
    ensures r.Some? ==> i <= r.value && RunFree(s, r.value, k) && NoFitIn(s, k, i, r.value)
    ensures r.None? ==> NoFitIn(s, k, i, |s| + 1)
  {
    if i + k > |s| then None
    else if RunFree(s, i, k) then Some(i)
    else FirstFitFrom(s, k, i + 1)
  }

  /** The left-most run of `k` free chunks. */
  function FirstFit(s: seq<bool>, k: nat): Option<nat>
  {
    FirstFitFrom(s, k, 0)
  }

  /** First fit is exactly the least start of a free run of length `k`,
      and it fails exactly when no such run exists anywhere. */
  lemma {:induction false} FirstFitIsLeast(s: seq<bool>, k: nat, st: nat)
    ensures FirstFit(s, k) == Some(st) <==> RunFree(s, st, k) && NoFitIn(s, k, 0, st)
    ensures FirstFit(s, k) == None <==> NoFitIn(s, k, 0, |s| + 1)
  {
    var r := FirstFit(s, k);
    if r.Some? {
      assert RunFree(s, r.value, k);
      assert r.value <= |s|;
    }
  }

  /** Integer ceiling division: the least `q` with `q * b >= a`. */
  function CeilDiv(a: nat, b: nat): (q: nat)
    requires b > 0
    ensures q * b >= a
    ensures q > 0 ==> (q - 1) * b < a
  {
    var q := (a + b - 1) / b;
    assert (a + b - 1) == q * b + (a + b - 1) % b;
    q
  }

  /** How many chunks the scan of `CheckPool` reserves for `target` bytes:
      it stops at the first free chunk at which the run's byte count reaches
      `target`, so the run is the least `k >= 1` with `k * chunkSize >= target`. */
  function ChunksNeeded(target: nat, chunkSize: nat): (k: nat)
    requires chunkSize > 0
    ensures k >= 1 && k * chunkSize >= target
    ensures k > 1 ==> (k - 1) * chunkSize < target
  {
    if target == 0 then 1 else CeilDiv(target, chunkSize)
  }

  /** A run of `m <= k` chunks reaches `target` bytes only when `m == k`. */
  lemma {:induction false} ReachesTargetOnlyAtNeeded(target: nat, chunkSize: nat, m: nat)
    requires chunkSize > 0
    requires 1 <= m <= ChunksNeeded(target, chunkSize)
    ensures m * chunkSize >= target <==> m == ChunksNeeded(target, chunkSize)
  {
    var k := ChunksNeeded(target, chunkSize);
    if m < k {
      var d := k - 1 - m;
      assert (k - 1) * chunkSize == m * chunkSize + d * chunkSize;
      assert d * chunkSize >= 0;
      assert m * chunkSize < target;
    }
  }
}
