/** Request counters: counted per worker, flushed into a ring of one-second
    slots, summed over the workers. */
module Metrics {
  import opened Percentiles

  const MAX_WORKERS: nat := 64
  const RING_HISTORY: nat := 60

  datatype Counters = Counters(requests: nat, h1: nat, h2: nat, errors: nat, errorsH1: nat, errorsH2: nat,
                               bytes: nat, buckets: seq<nat>)

  /** Every request is in one bucket and of one protocol. */
  predicate Balanced(c: Counters) {
    && |c.buckets| == BUCKETS && Total(c.buckets) == c.requests
    && c.h1 + c.h2 == c.requests
    && c.errorsH1 + c.errorsH2 == c.errors <= c.requests
  }

  lemma {:induction false} CumAdd(a: seq<nat>, b: seq<nat>, n: nat)
    requires n <= |a| == |b|
    ensures Cum(Sums(a, b), n) == Cum(a, n) + Cum(b, n)
  {
    if n > 0 {
      CumAdd(a, b, n - 1);
    }
  }

  function Sums(a: seq<nat>, b: seq<nat>): (r: seq<nat>)
    requires |a| == |b|
    ensures |r| == |a| && forall i :: 0 <= i < |r| ==> r[i] == a[i] + b[i]
  {
    seq(|a|, i requires 0 <= i < |a| => a[i] + b[i])
  }

  lemma {:induction false} CumBump(b: seq<nat>, i: nat, n: nat)
    requires i < |b| && n <= |b|
    ensures Cum(b[i := b[i] + 1], n) == Cum(b, n) + (if i < n then 1 else 0)
  {
    if n > 0 {
      CumBump(b, i, n - 1);
    }
  }

  lemma {:induction false} CumZero(b: seq<nat>, n: nat)
    requires n <= |b| && forall i :: 0 <= i < |b| ==> b[i] == 0
    ensures Cum(b, n) == 0
  {
    if n > 0 {
      CumZero(b, n - 1);
    }
  }

  function Zero(): (z: Counters)
    ensures |z.buckets| == BUCKETS && z.requests == 0
  {
    Counters(0, 0, 0, 0, 0, 0, 0, seq(BUCKETS, _ => 0))
  }

  lemma ZeroBalanced()
    ensures Balanced(Zero())
  {
    var z := Zero();
    CumZero(z.buckets, |z.buckets|);
    hide Cum;
  }

  function Plus(a: Counters, b: Counters): Counters
    requires |a.buckets| == |b.buckets|
  {
    Counters(a.requests + b.requests, a.h1 + b.h1, a.h2 + b.h2, a.errors + b.errors,
             a.errorsH1 + b.errorsH1, a.errorsH2 + b.errorsH2, a.bytes + b.bytes, Sums(a.buckets, b.buckets))
  }

  lemma PlusBalanced(a: Counters, b: Counters)
    requires Balanced(a) && Balanced(b)
    ensures Balanced(Plus(a, b))
  {
    CumAdd(a.buckets, b.buckets, |a.buckets|);
  }

  predicate AllBalanced(cs: seq<Counters>) {
    forall i :: 0 <= i < |cs| ==> Balanced(cs[i])
  }

  /** The sum of the first `n` workers. */
  function SumOf(cs: seq<Counters>, n: nat): (r: Counters)
    requires n <= |cs| && forall i :: 0 <= i < |cs| ==> |cs[i].buckets| == BUCKETS
    ensures |r.buckets| == BUCKETS
    decreases n, |cs|
  {
    if n == 0 then Zero() else Plus(SumOf(cs, n - 1), cs[n - 1])
  }

  lemma {:induction false} SumOfBalanced(cs: seq<Counters>, n: nat)
    requires AllBalanced(cs) && n <= |cs|
    ensures Balanced(SumOf(cs, n))
  {
    if n == 0 {
      ZeroBalanced();
    } else {
      SumOfBalanced(cs, n - 1);
      PlusBalanced(SumOf(cs, n - 1), cs[n - 1]);
    }
  }

  lemma {:induction false} SumOfZeros(cs: seq<Counters>, n: nat)
    requires n <= |cs| && forall i :: 0 <= i < |cs| ==> cs[i] == Zero() && |cs[i].buckets| == BUCKETS
    ensures SumOf(cs, n) == Zero()
  {
    if n > 0 {
      SumOfZeros(cs, n - 1);
      assert Sums(Zero().buckets, Zero().buckets) == Zero().buckets;
    }
  }

  datatype Slot = Slot(timestamp: nat, workers: seq<Counters>, total: Counters)

  /** `t` is the sum of all of `cs`. */
  predicate IsSum(t: Counters, cs: seq<Counters>) {
    AllBalanced(cs) && t == SumOf(cs, |cs|)
  }

  lemma SumBalanced(t: Counters, cs: seq<Counters>)
    requires IsSum(t, cs)
    ensures Balanced(t)
  {
    SumOfBalanced(cs, |cs|);
  }

  predicate SlotOk(s: Slot) {
    |s.workers| == MAX_WORKERS && AllBalanced(s.workers) && IsSum(s.total, s.workers)
  }

  method SumWorkers(all: seq<Counters>) returns (total: Counters)
    requires AllBalanced(all)
    ensures IsSum(total, all)
  {
    hide Zero;
    total := Zero();
    for i := 0 to |all|
      invariant total == SumOf(all, i)
    {
      total := Plus(total, all[i]);
    }
  }

  /** No requests from any worker. */
  lemma NothingSums(cs: seq<Counters>)
    requires forall i :: 0 <= i < |cs| ==> cs[i] == Zero()
    ensures IsSum(Zero(), cs)
  {
    hide Zero, Balanced;
    ZeroBalanced();
    SumOfZeros(cs, |cs|);
  }

  predicate IsWorker(wid: int) {
    0 <= wid < MAX_WORKERS
  }

  /** The latency is within the bounds of bucket `i`; the last has no upper one. */
  predicate InBucket(i: nat, latency: nat) {
    i < BUCKETS && LOWER[i] <= latency && (i < BUCKETS - 1 ==> latency < UPPER[i])
  }

  lemma OneBucket(i: nat, j: nat, latency: nat)
    requires InBucket(i, latency) && InBucket(j, latency)
    ensures i == j
  {
    if i < j {
      BoundsChain(i, j);
    } else if j < i {
      BoundsChain(j, i);
    }
  }

  method FindBucket(latency: nat) returns (bucket: nat)
    ensures InBucket(bucket, latency)
  {
    bucket := BUCKETS - 1;
    var i := 0;
    while i < BUCKETS - 1
      invariant 0 <= i <= BUCKETS - 1 && bucket == BUCKETS - 1 && LOWER[i] <= latency
    {
      if latency < UPPER[i] {
        return i;
      }
      BoundsChain(i, i + 1);
      BoundsMeet(i);
      i := i + 1;
    }
  }

  lemma BoundsMeet(i: nat)
    requires i < BUCKETS - 1
    ensures LOWER[i + 1] == UPPER[i]
  {
  }

  // ---- Flushes and the ring ----

  /** A flush: worker `wid` put its counters into the slot of second `secs`. */
  datatype Snapshot = Snapshot(wid: nat, secs: nat, counters: Counters)

  predicate Into(s: Snapshot, slot: nat, w: nat) {
    s.wid == w && s.secs % RING_HISTORY == slot
  }

  /** The last of the first `n` snapshots of worker `w` for a slot. */
  function LastInto(log: seq<Snapshot>, n: nat, slot: nat, w: nat): Counters
    requires n <= |log|
  {
    if n == 0 then Zero()
    else if Into(log[n - 1], slot, w) then log[n - 1].counters
    else LastInto(log, n - 1, slot, w)
  }

  /** Every slot holds the last snapshot flushed there by each worker. */
  predicate RingIs(ring: seq<Slot>, log: seq<Snapshot>) {
    forall i, w :: 0 <= i < |ring| && 0 <= w < |ring[i].workers| ==> ring[i].workers[w] == LastInto(log, |log|, i, w)
  }

  /** The requests of worker `w` in the first `k` slots, and in all flushes. */
  function InSlots(log: seq<Snapshot>, n: nat, w: nat, k: nat): nat
    requires n <= |log|
    decreases k, |log|
  {
    if k == 0 then 0 else InSlots(log, n, w, k - 1) + LastInto(log, n, k - 1, w).requests
  }

  function Flushed(log: seq<Snapshot>, n: nat, w: nat): nat
    requires n <= |log|
  {
    if n == 0 then 0 else Flushed(log, n - 1, w) + (if log[n - 1].wid == w then log[n - 1].counters.requests else 0)
  }

  /** What the flushes of worker `w` overwrote: each one what its slot held. */
  function Lost(log: seq<Snapshot>, n: nat, w: nat): nat
    requires n <= |log|
  {
    if n == 0 then 0
    else Lost(log, n - 1, w)
         + (if log[n - 1].wid == w then LastInto(log, n - 1, log[n - 1].secs % RING_HISTORY, w).requests else 0)
  }

  lemma {:induction false} OneSlotChanges(log: seq<Snapshot>, n: nat, w: nat, k: nat)
    requires 0 < n <= |log| && k <= RING_HISTORY
    ensures var s, slot := log[n - 1], log[n - 1].secs % RING_HISTORY;
            InSlots(log, n, w, k) + (if s.wid == w && slot < k then LastInto(log, n - 1, slot, w).requests else 0) ==
            InSlots(log, n - 1, w, k) + (if s.wid == w && slot < k then s.counters.requests else 0)
    decreases k
  {
    if k > 0 {
      OneSlotChanges(log, n, w, k - 1);
    }
  }

  lemma {:induction false} NoSlots(log: seq<Snapshot>, w: nat, k: nat)
    ensures InSlots(log, 0, w, k) == 0
    decreases k
  {
    if k > 0 {
      NoSlots(log, w, k - 1);
    }
  }

  /** The ring and what was overwritten account for every flushed request. */
  lemma {:induction false} RingAccounts(log: seq<Snapshot>, n: nat, w: nat)
    requires n <= |log|
    ensures InSlots(log, n, w, RING_HISTORY) + Lost(log, n, w) == Flushed(log, n, w)
    decreases n
  {
    if n == 0 {
      NoSlots(log, w, RING_HISTORY);
    } else {
      RingAccounts(log, n - 1, w);
      hide InSlots;
      OneSlotChanges(log, n, w, RING_HISTORY);
    }
  }

  /** Among the first `n` flushes, no snapshot with requests of worker `w` is
      followed by another of its flushes for the same second modulo 60. */
  predicate NothingOverwritten(log: seq<Snapshot>, n: nat, w: nat)
    requires n <= |log|
  {
    forall a, b :: 0 <= a < b < n && log[a].wid == w && Into(log[b], log[a].secs % RING_HISTORY, w) ==>
      log[a].counters.requests == 0
  }

  /** A snapshot of a slot is the last one there or has a later one. */
  lemma {:induction false} LaterInto(log: seq<Snapshot>, n: nat, slot: nat, w: nat, a: nat) returns (b: nat)
    requires a < n <= |log| && Into(log[a], slot, w)
    ensures a <= b < n && Into(log[b], slot, w) && LastInto(log, n, slot, w) == log[b].counters
    decreases n
  {
    if Into(log[n - 1], slot, w) {
      b := n - 1;
    } else {
      b := LaterInto(log, n - 1, slot, w, a);
    }
  }

  lemma {:induction false} LastIsSome(log: seq<Snapshot>, n: nat, slot: nat, w: nat) returns (a: nat)
    requires n <= |log| && LastInto(log, n, slot, w).requests > 0
    ensures a < n && Into(log[a], slot, w) && LastInto(log, n, slot, w) == log[a].counters
    decreases n
  {
    assert n > 0;
    if Into(log[n - 1], slot, w) {
      a := n - 1;
    } else {
      a := LastIsSome(log, n - 1, slot, w);
    }
  }

  /** Requests are lost exactly when a snapshot with requests is overwritten. */
  lemma {:induction false} LostExactly(log: seq<Snapshot>, n: nat, w: nat)
    requires n <= |log|
    ensures Lost(log, n, w) == 0 <==> NothingOverwritten(log, n, w)
    decreases n
  {
    if n > 0 {
      LostExactly(log, n - 1, w);
      var s := log[n - 1];
      var slot := s.secs % RING_HISTORY;
      if s.wid == w {
        hide Lost;
        if LastInto(log, n - 1, slot, w).requests > 0 {
          var a := LastIsSome(log, n - 1, slot, w);
          assert !NothingOverwritten(log, n, w);
        } else if NothingOverwritten(log, n - 1, w) {
          forall a | 0 <= a < n - 1 && log[a].wid == w && Into(s, log[a].secs % RING_HISTORY, w)
            ensures log[a].counters.requests == 0
          {
            var b := LaterInto(log, n - 1, slot, w, a);
          }
        }
      }
      LostStep(log, n, w);
    }
  }

  lemma LostStep(log: seq<Snapshot>, n: nat, w: nat)
    requires 0 < n <= |log|
    ensures Lost(log, n, w) == Lost(log, n - 1, w)
      + (if log[n - 1].wid == w then LastInto(log, n - 1, log[n - 1].secs % RING_HISTORY, w).requests else 0)
  {
  }

  /** Flushes of a worker in seconds that differ modulo 60 lose nothing. */
  lemma DistinctSeconds(log: seq<Snapshot>, w: nat)
    requires forall a, b :: 0 <= a < b < |log| && log[a].wid == w ==> !Into(log[b], log[a].secs % RING_HISTORY, w)
    ensures InSlots(log, |log|, w, RING_HISTORY) == Flushed(log, |log|, w)
  {
    hide InSlots, Flushed, Lost;
    LostExactly(log, |log|, w);
    RingAccounts(log, |log|, w);
  }

  /** Two flushes in one second lose what the first one flushed. */
  lemma DoubleFlushLoses(c: Counters)
    ensures var log := [Snapshot(0, 5, c), Snapshot(0, 5, Zero())];
            Flushed(log, 2, 0) == c.requests && InSlots(log, 2, 0, RING_HISTORY) == 0
  {
    var log := [Snapshot(0, 5, c), Snapshot(0, 5, Zero())];
    assert Flushed(log, 1, 0) == c.requests;
    assert LastInto(log, 1, 5, 0) == c;
    assert Lost(log, 1, 0) == 0 by { assert LastInto(log, 0, 5, 0) == Zero(); }
    assert Lost(log, 2, 0) == c.requests;
    hide InSlots;
    RingAccounts(log, 2, 0);
  }

  lemma {:induction false} LastIntoPrefix(log: seq<Snapshot>, s: Snapshot, n: nat, slot: nat, w: nat)
    requires n <= |log|
    ensures LastInto(log + [s], n, slot, w) == LastInto(log, n, slot, w)
  {
    if n > 0 {
      LastIntoPrefix(log, s, n - 1, slot, w);
    }
  }

  lemma {:induction false} FlushedPrefix(log: seq<Snapshot>, s: Snapshot, n: nat, w: nat)
    requires n <= |log|
    ensures Flushed(log + [s], n, w) == Flushed(log, n, w)
  {
    if n > 0 {
      FlushedPrefix(log, s, n - 1, w);
    }
  }

  /** One more flush in the log and in the ring. */
  lemma RingTakes(ring: seq<Slot>, log: seq<Snapshot>, s: Snapshot, total: Counters)
    requires RingIs(ring, log) && |ring| == RING_HISTORY
    requires s.wid < |ring[s.secs % RING_HISTORY].workers|
    ensures var slot := s.secs % RING_HISTORY;
            RingIs(ring[slot := Slot(s.secs, ring[slot].workers[s.wid := s.counters], total)], log + [s])
  {
    var slot := s.secs % RING_HISTORY;
    var ring' := ring[slot := Slot(s.secs, ring[slot].workers[s.wid := s.counters], total)];
    forall i, w | 0 <= i < |ring'| && 0 <= w < |ring'[i].workers|
      ensures ring'[i].workers[w] == LastInto(log + [s], |log| + 1, i, w)
    {
      LastIntoPrefix(log, s, |log|, i, w);
    }
  }

  /** In the ring itself: the requests of worker `w` in the first `k` slots. */
  function RingRequests(ring: seq<Slot>, w: nat, k: nat): nat
    requires k <= |ring| && forall i :: 0 <= i < |ring| ==> w < |ring[i].workers|
    decreases k, |ring|
  {
    if k == 0 then 0 else RingRequests(ring, w, k - 1) + ring[k - 1].workers[w].requests
  }

  lemma {:induction false} RingRequestsAre(ring: seq<Slot>, log: seq<Snapshot>, w: nat, k: nat)
    requires RingIs(ring, log) && k <= |ring| && forall i :: 0 <= i < |ring| ==> w < |ring[i].workers|
    ensures RingRequests(ring, w, k) == InSlots(log, |log|, w, k)
    decreases k
  {
    if k > 0 {
      RingRequestsAre(ring, log, w, k - 1);
    }
  }

  // ---- The collector ----

  datatype Op = Request(latency: nat, status: int, bytes: nat, wid: int, h2: bool) | FlushAt(wid: int, secs: nat)

  /** The requests of worker `w` among the first `n` operations. */
  function Asked(ops: seq<Op>, n: nat, w: nat): nat
    requires n <= |ops|
  {
    if n == 0 then 0
    else Asked(ops, n - 1, w) + (if ops[n - 1].Request? && ops[n - 1].wid == w then 1 else 0)
  }

  /** The requests in worker `w`'s counters after the first `n` operations:
      those made since its last flush. */
  function Waiting(start: seq<Counters>, ops: seq<Op>, n: nat, w: nat): nat
    requires n <= |ops| && w < |start|
  {
    if n == 0 then start[w].requests
    else if ops[n - 1].wid != w then Waiting(start, ops, n - 1, w)
    else if ops[n - 1].Request? then Waiting(start, ops, n - 1, w) + 1
    else 0
  }

  /** A flush seen from outside: by whom, when, and of how many requests. */
  datatype FlushRecord = FlushRecord(wid: nat, secs: nat, requests: nat)

  function RecordsOf(log: seq<Snapshot>): seq<FlushRecord> {
    seq(|log|, i requires 0 <= i < |log| => FlushRecord(log[i].wid, log[i].secs, log[i].counters.requests))
  }

  /** The flushes among the first `n` operations, each of the requests since the
      one before. */
  function FlushesIn(start: seq<Counters>, ops: seq<Op>, n: nat): seq<FlushRecord>
    requires n <= |ops| && |start| == MAX_WORKERS
  {
    if n == 0 then []
    else FlushesIn(start, ops, n - 1) + FlushOf(ops[n - 1], AllWaiting(start, ops, n - 1))
  }

  function AllWaiting(start: seq<Counters>, ops: seq<Op>, n: nat): seq<nat>
    requires n <= |ops|
  {
    seq(|start|, w requires 0 <= w < |start| => Waiting(start, ops, n, w))
  }

  function FlushOf(op: Op, waiting: seq<nat>): seq<FlushRecord>
    requires |waiting| == MAX_WORKERS
  {
    if op.FlushAt? && IsWorker(op.wid) then [FlushRecord(op.wid, op.secs, waiting[op.wid])] else []
  }

  predicate SameSlot(a: FlushRecord, b: FlushRecord) {
    a.secs % RING_HISTORY == b.secs % RING_HISTORY
  }

  /** No flush of worker `w` with requests is followed by another of its flushes
      for the same second modulo 60. */
  predicate KeepsAll(rs: seq<FlushRecord>, w: nat) {
    forall a, b :: 0 <= a < b < |rs| && rs[a].wid == rs[b].wid == w && SameSlot(rs[a], rs[b]) ==> rs[a].requests == 0
  }

  lemma KeepsAllIs(log: seq<Snapshot>, w: nat)
    ensures KeepsAll(RecordsOf(log), w) <==> NothingOverwritten(log, |log|, w)
  {
    var rs := RecordsOf(log);
    if KeepsAll(rs, w) {
      forall a, b | 0 <= a < b < |log| && log[a].wid == w && Into(log[b], log[a].secs % RING_HISTORY, w)
        ensures log[a].counters.requests == 0
      {
        assert rs[a].requests == 0 by { assert rs[b].wid == w; }
      }
    }
    if NothingOverwritten(log, |log|, w) {
      forall a, b | 0 <= a < b < |rs| && rs[a].wid == rs[b].wid == w && SameSlot(rs[a], rs[b])
        ensures rs[a].requests == 0
      {
        assert Into(log[b], log[a].secs % RING_HISTORY, w);
      }
    }
  }

  class MetricsCollector {
    var workers: seq<Counters>
    var ring: seq<Slot>
    /** Every flush so far. */
    ghost var log: seq<Snapshot>

    ghost predicate Valid()
      reads this
    {
      && |workers| == MAX_WORKERS && AllBalanced(workers)
      && |ring| == RING_HISTORY && (forall i :: 0 <= i < |ring| ==> SlotOk(ring[i]))
      && RingIs(ring, log)
    }

    /** Requests counted for a worker: in its counters, and flushed. */
    ghost function Counted(w: nat): nat
      requires Valid() && w < MAX_WORKERS
      reads this
    {
      workers[w].requests + Flushed(log, |log|, w)
    }

    constructor ()
      ensures Valid() && log == [] && forall w :: 0 <= w < MAX_WORKERS ==> Counted(w) == 0
    {
      hide IsSum, Balanced, Zero;
      var none := seq(MAX_WORKERS, _ => Zero());
      ZeroBalanced();
      NothingSums(none);
      workers := none;
      ring := seq(RING_HISTORY, _ => Slot(0, none, Zero()));
      log := [];
    }

    method OnRequest(latency: nat, status: int, bytes: nat, wid: int, h2: bool)
      requires Valid()
      modifies `workers
      ensures Valid()
      ensures forall w :: 0 <= w < MAX_WORKERS ==> Counted(w) == old(Counted(w)) + (if w == wid then 1 else 0)
      ensures forall w :: 0 <= w < MAX_WORKERS && w != wid ==> workers[w] == old(workers)[w]
      ensures IsWorker(wid) ==> forall i :: 0 <= i < BUCKETS ==>
                workers[wid].buckets[i] == old(workers)[wid].buckets[i] + (if InBucket(i, latency) then 1 else 0)
      ensures IsWorker(wid) ==> workers[wid].errors == old(workers)[wid].errors + (if 200 <= status < 300 then 0 else 1)
      ensures IsWorker(wid) ==>
                workers[wid].errorsH2 == old(workers)[wid].errorsH2 + (if h2 && !(200 <= status < 300) then 1 else 0)
      ensures IsWorker(wid) ==> workers[wid].bytes == old(workers)[wid].bytes + bytes
      ensures IsWorker(wid) ==> workers[wid].h2 == old(workers)[wid].h2 + (if h2 then 1 else 0)
    {
      if wid < 0 || wid >= MAX_WORKERS {
        return;
      }
      hide SlotOk, RingIs, Flushed;
      var c := workers[wid];
      var bucket := FindBucket(latency);
      CumBump(c.buckets, bucket, |c.buckets|);
      c := c.(requests := c.requests + 1, bytes := c.bytes + bytes,
              buckets := c.buckets[bucket := c.buckets[bucket] + 1]);
      c := if h2 then c.(h2 := c.h2 + 1) else c.(h1 := c.h1 + 1);
      if status < 200 || status >= 300 {
        c := c.(errors := c.errors + 1);
        c := if h2 then c.(errorsH2 := c.errorsH2 + 1) else c.(errorsH1 := c.errorsH1 + 1);
      }
      forall i | 0 <= i < BUCKETS && InBucket(i, latency) ensures i == bucket {
        OneBucket(i, bucket, latency);
      }
      hide InBucket;
      workers := workers[wid := c];
    }

    /** The worker's counters move to the slot of this second, in place of what
        it had there, and the slot's total is summed again. */
    method Flush(wid: int, secs: nat)
      requires Valid()
      modifies this
      ensures Valid() && forall w :: 0 <= w < MAX_WORKERS ==> Counted(w) == old(Counted(w))
      ensures workers == if IsWorker(wid) then old(workers)[wid := Zero()] else old(workers)
      ensures log == if IsWorker(wid) then old(log) + [Snapshot(wid, secs, old(workers)[wid])] else old(log)
      ensures IsWorker(wid) ==> ring[secs % RING_HISTORY].timestamp == secs
      ensures forall i :: 0 <= i < RING_HISTORY && (!IsWorker(wid) || i != secs % RING_HISTORY) ==>
                ring[i] == old(ring)[i]
    {
      hide IsSum, Balanced, Zero, RingIs, Flushed;
      ZeroBalanced();
      if wid < 0 || wid >= MAX_WORKERS {
        return;
      }
      var snap := workers[wid];
      workers := workers[wid := Zero()];
      var slot := secs % RING_HISTORY;
      var all := ring[slot].workers[wid := snap];
      var total := SumWorkers(all);
      ghost var s := Snapshot(wid, secs, snap);
      RingTakes(ring, log, s, total);
      forall w | 0 <= w < MAX_WORKERS
        ensures Flushed(log + [s], |log| + 1, w) == Flushed(log, |log|, w) + (if w == wid then snap.requests else 0)
      {
        FlushedOne(log, s, w);
      }
      ring := ring[slot := Slot(secs, all, total)];
      log := log + [s];
    }

    /** After any run: every counter set is balanced, in the workers, the ring
        and its totals; every request is in its worker's counters, in the
        ring, or lost, and none is lost exactly when no flush of the run, or of
        before, with requests was overwritten by a later one. */
    method Run(ops: seq<Op>)
      requires Valid()
      modifies this
      ensures Valid()
      ensures RecordsOf(log) == old(RecordsOf(log)) + FlushesIn(old(workers), ops, |ops|)
      ensures forall w :: 0 <= w < MAX_WORKERS ==>
                && workers[w].requests == Waiting(old(workers), ops, |ops|, w)
                && Counted(w) == old(Counted(w)) + Asked(ops, |ops|, w)
                && workers[w].requests + RingRequests(ring, w, |ring|) + Lost(log, |log|, w) == Counted(w)
                && (workers[w].requests + RingRequests(ring, w, |ring|) == Counted(w)
                    <==> KeepsAll(old(RecordsOf(log)) + FlushesIn(old(workers), ops, |ops|), w))
      ensures forall i :: 0 <= i < RING_HISTORY ==> Balanced(ring[i].total)
    {
      hide IsSum, Balanced, RingIs, Flushed, RecordsOf, Zero, KeepsAll, FlushOf;
      assert old(RecordsOf(log)) + [] == old(RecordsOf(log));
      for n := 0 to |ops|
        invariant Valid() && RecordsOf(log) == old(RecordsOf(log)) + FlushesIn(old(workers), ops, n)
        invariant forall w :: 0 <= w < MAX_WORKERS ==>
                    && workers[w].requests == Waiting(old(workers), ops, n, w)
                    && Counted(w) == old(Counted(w)) + Asked(ops, n, w)
      {
        Perform(ops[n], AllWaiting(old(workers), ops, n));
      }
      forall w | 0 <= w < MAX_WORKERS
        ensures workers[w].requests + RingRequests(ring, w, |ring|) + Lost(log, |log|, w) == Counted(w)
        ensures workers[w].requests + RingRequests(ring, w, |ring|) == Counted(w) <==> KeepsAll(RecordsOf(log), w)
      {
        RingRequestsAre(ring, log, w, |ring|);
        RingAccounts(log, |log|, w);
        LostExactly(log, |log|, w);
        KeepsAllIs(log, w);
      }
      forall i | 0 <= i < RING_HISTORY ensures Balanced(ring[i].total) {
        SumBalanced(ring[i].total, ring[i].workers);
      }
    }

    method Perform(op: Op, ghost waiting: seq<nat>)
      requires Valid() && |waiting| == MAX_WORKERS
      requires forall w :: 0 <= w < MAX_WORKERS ==> workers[w].requests == waiting[w]
      modifies this
      ensures Valid() && RecordsOf(log) == old(RecordsOf(log)) + FlushOf(op, waiting)
      ensures forall w :: 0 <= w < MAX_WORKERS ==>
                && workers[w].requests
                   == (if op.wid != w then waiting[w] else if op.Request? then waiting[w] + 1 else 0)
                && Counted(w) == old(Counted(w)) + (if op.Request? && op.wid == w then 1 else 0)
    {
      hide SlotOk, Balanced, RingIs, Flushed, InBucket;
      match op
      case Request(latency, status, bytes, wid, h2) => OnRequest(latency, status, bytes, wid, h2);
      case FlushAt(wid, secs) => Flush(wid, secs);
    }
  }

  lemma FlushedOne(log: seq<Snapshot>, s: Snapshot, w: nat)
    ensures Flushed(log + [s], |log| + 1, w) == Flushed(log, |log|, w) + (if s.wid == w then s.counters.requests else 0)
  {
    FlushedPrefix(log, s, |log|, w);
  }
}
