/** The message FIFO and node pool of the Wi-Fi framework's runtime half (chips/ws63/rf/src/frw.rs):
    what each critical section does, said of a sequence and a set. */
module FrwQueue {
  import opened Wrappers

  const POOL_LEN: nat := 16
  const FIFO_LEN: nat := 32

  /** The critical section of `post`: refuse when full, else append. */
  function Enqueue<T>(queue: seq<T>, node: T): (bool, seq<T>) {
    if |queue| >= FIFO_LEN then (false, queue) else (true, queue + [node])
  }

  /** The lowest free slot, POOL_LEN when there is none. */
  function FirstFree(live: set<nat>, from: nat): (slot: nat)
    requires from <= POOL_LEN
    ensures from <= slot <= POOL_LEN
    ensures slot < POOL_LEN ==> slot !in live
    ensures forall i :: from <= i < slot ==> i in live
    decreases live, POOL_LEN - from
  {
    if from == POOL_LEN || from !in live then from else FirstFree(live, from + 1)
  }

  ghost predicate Distinct<T>(s: seq<T>) {
    forall i, j :: 0 <= i < j < |s| ==> s[i] != s[j]
  }

  lemma {:induction false} DistinctSize<T>(s: seq<T>)
    requires Distinct(s)
    ensures |Elements(s)| == |s|
  {
    if s != [] {
      var last := |s| - 1;
      DistinctSize(s[..last]);
      assert s == s[..last] + [s[last]];
      assert Elements(s) == Elements(s[..last]) + {s[last]};
    }
  }

  lemma SubsetSize<T>(a: set<T>, b: set<T>)
    requires a <= b
    ensures |a| <= |b|
  {
    assert |b - a| == |b| - |a|;
  }

  ghost function Slots(n: nat): (s: set<nat>)
    ensures forall i :: i in s <==> 0 <= i < n
    ensures |s| == n
  {
    if n == 0 then {} else Slots(n - 1) + {n - 1}
  }

  /** Sixteen nodes, each queued at most once, never fill thirty-two places. */
  lemma NeverFull(queue: seq<nat>)
    requires Distinct(queue) && Elements(queue) <= Slots(POOL_LEN)
    ensures |queue| <= POOL_LEN
  {
    DistinctSize(queue);
    SubsetSize(Elements(queue), Slots(POOL_LEN));
  }

  // ----- the pool flags as a set

  ghost function Used(flags: seq<bool>): (live: set<nat>)
    ensures forall i :: i in live <==> 0 <= i < |flags| && flags[i]
  {
    set i: nat | i < |flags| && flags[i]
  }
}
