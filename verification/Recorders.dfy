/** Sources and their recorder pools (trunk-recorder/source.cc), under the contract
    that a successful start takes a recorder out of AVAILABLE, only stop returns
    it, and a failed start changes nothing. */
module Recorders {
  import opened Common

  /** For every recorder of a pool, whether its state is AVAILABLE. */
  type Pool = seq<bool>

  datatype Source = Source(minHz: real, maxHz: real, digital: Pool, analog: Pool)

  /** A recorder: its source, its pool, and its place there. */
  datatype Recorder = Recorder(source: nat, analog: bool, index: nat)

  function PoolOf(sources: seq<Source>, s: nat, analog: bool): Pool
    requires s < |sources|
  {
    if analog then sources[s].analog else sources[s].digital
  }

  predicate Exists(sources: seq<Source>, r: Recorder) {
    r.source < |sources| && r.index < |PoolOf(sources, r.source, r.analog)|
  }

  predicate Free(sources: seq<Source>, r: Recorder)
    requires Exists(sources, r)
  {
    PoolOf(sources, r.source, r.analog)[r.index]
  }

  function SetFree(sources: seq<Source>, r: Recorder, free: bool): (t: seq<Source>)
    requires Exists(sources, r)
    ensures |t| == |sources|
  {
    var src := sources[r.source];
    sources[r.source := if r.analog then src.(analog := src.analog[r.index := free])
                        else src.(digital := src.digital[r.index := free])]
  }

  /** start succeeds, and stop. */
  function Taken(sources: seq<Source>, r: Recorder): (t: seq<Source>)
    requires Exists(sources, r)
    ensures |t| == |sources|
  {
    SetFree(sources, r, false)
  }

  function Stopped(sources: seq<Source>, r: Recorder): (t: seq<Source>)
    requires Exists(sources, r)
    ensures |t| == |sources|
  {
    SetFree(sources, r, true)
  }

  /** The availability counters. */
  function CountFree(pool: Pool): (n: nat)
    ensures n <= |pool|
  {
    if pool == [] then 0 else (if pool[|pool| - 1] then 1 else 0) + CountFree(pool[..|pool| - 1])
  }

  function Available(sources: seq<Source>, s: nat, analog: bool): nat
    requires s < |sources|
  {
    CountFree(PoolOf(sources, s, analog))
  }

  /** The first recorder that is AVAILABLE. */
  function FirstFree(pool: Pool, from: nat): (i: Option<nat>)
    requires from <= |pool|
    ensures match i
      case Some(k) => from <= k < |pool| && pool[k] && forall j :: from <= j < k ==> !pool[j]
      case None => forall j :: from <= j < |pool| ==> !pool[j]
    decreases |pool| - from
  {
    if from == |pool| then None
    else if pool[from] then Some(from)
    else FirstFree(pool, from + 1)
  }

  // ---------------------------------------------------------------- counting

  lemma {:induction false} CountUpdate(pool: Pool, i: nat, free: bool)
    requires i < |pool|
    ensures CountFree(pool[i := free]) == CountFree(pool) - (if pool[i] then 1 else 0) + (if free then 1 else 0)
    decreases |pool|
  {
    var n := |pool| - 1;
    if i < n {
      CountUpdate(pool[..n], i, free);
      assert pool[i := free][..n] == pool[..n][i := free];
    } else {
      assert pool[i := free][..n] == pool[..n];
    }
  }

  /** Changing one recorder changes its pool by one place and no other pool. */
  lemma PoolsAfter(sources: seq<Source>, r: Recorder, free: bool, s: nat, analog: bool)
    requires Exists(sources, r) && s < |sources|
    ensures var p, q := PoolOf(sources, s, analog), PoolOf(SetFree(sources, r, free), s, analog);
      q == if s == r.source && analog == r.analog then p[r.index := free] else p
  {
  }

  lemma ExistsAfter(sources: seq<Source>, r: Recorder, free: bool, x: Recorder)
    requires Exists(sources, r) && Exists(sources, x)
    ensures Exists(SetFree(sources, r, free), x)
    ensures Free(SetFree(sources, r, free), x) == if x == r then free else Free(sources, x)
  {
    PoolsAfter(sources, r, free, x.source, x.analog);
  }

  lemma AvailableAfter(sources: seq<Source>, r: Recorder, free: bool, s: nat, analog: bool)
    requires Exists(sources, r) && s < |sources| && Free(sources, r) == !free
    ensures var t := SetFree(sources, r, free);
      Available(t, s, analog) == Available(sources, s, analog)
        + (if s == r.source && analog == r.analog then if free then 1 else -1 else 0)
    ensures |PoolOf(SetFree(sources, r, free), s, analog)| == |PoolOf(sources, s, analog)|
  {
    PoolsAfter(sources, r, free, s, analog);
    if s == r.source && analog == r.analog { CountUpdate(PoolOf(sources, s, analog), r.index, free); }
  }

  // ---------------------------------------------------------------- the loops of source.cc

  method GetNumAvailable(pool: Pool) returns (n: nat)
    ensures n == CountFree(pool)
  {
    n := 0;
    for i := 0 to |pool|
      invariant n == CountFree(pool[..i])
    {
      assert pool[..i + 1][..i] == pool[..i];
      if pool[i] { n := n + 1; }
    }
    assert pool[..|pool|] == pool;
  }

  method GetRecorder(pool: Pool) returns (r: Option<nat>)
    ensures r == FirstFree(pool, 0)
  {
    for i := 0 to |pool|
      invariant FirstFree(pool, 0) == FirstFree(pool, i)
    {
      if pool[i] { return Some(i); }
    }
    return None;
  }
}
