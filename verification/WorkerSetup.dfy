/** Core validation, queue assignment and transmit queue selection of example/fpm_direct/app_main.c. */
module WorkerSetup {

  const MAX_WORKERS: nat := 64
  const INTERFACE_MAX: nat := 8

  const INT_MAX: int := 0x7FFF_FFFF

  type Int32 = x: int | -INT_MAX - 1 <= x <= INT_MAX

  /** What a C `int` holds for the result `x`: anything, `ub`, when it does not fit. */
  function ToInt(x: int, ub: Int32): Int32 {
    if -INT_MAX - 1 <= x <= INT_MAX then x else ub
  }

  /** Workers run on `count` consecutive cores, the first of them `start`. */
  predicate OnCores(start: int, count: int, total: int) {
    0 <= start && start + count <= total
  }

  /** No overflow decides the outcome: cores are few, and without a count the start is not far below zero. */
  predicate InReach(reqCoreStart: Int32, reqCoreCount: Int32, totalCoreCount: Int32) {
    totalCoreCount <= INT_MAX - MAX_WORKERS && (reqCoreCount == 0 ==> totalCoreCount - reqCoreStart <= INT_MAX)
  }

  /** A start that is not negative is in reach. */
  lemma StartInReach(reqCoreStart: Int32, reqCoreCount: Int32, totalCoreCount: Int32)
    requires 0 <= reqCoreStart && totalCoreCount <= INT_MAX - MAX_WORKERS
    ensures InReach(reqCoreStart, reqCoreCount, totalCoreCount)
  {
  }

  method ValidateCoresSettings(reqCoreStart: Int32, reqCoreCount: Int32, totalCoreCount: Int32, ub: Int32)
    returns (ok: bool, coreStart: Int32, coreCount: Int32)
    ensures InReach(reqCoreStart, reqCoreCount, totalCoreCount) ==>
      (ok <==>
        && reqCoreStart < totalCoreCount
        && (reqCoreCount == 0 ==> totalCoreCount - reqCoreStart <= MAX_WORKERS)
        && (reqCoreCount != 0 ==> 0 < reqCoreCount <= MAX_WORKERS && reqCoreStart + reqCoreCount <= totalCoreCount))
    ensures InReach(reqCoreStart, reqCoreCount, totalCoreCount) && ok ==>
      && coreStart == reqCoreStart
      && coreCount == (if reqCoreCount == 0 then totalCoreCount - reqCoreStart else reqCoreCount)
      && 1 <= coreCount <= MAX_WORKERS
      && (OnCores(coreStart, coreCount, totalCoreCount) <==> reqCoreStart >= 0)
    ensures ok ==> coreCount <= MAX_WORKERS
  {
    ok, coreStart, coreCount := false, 0, 0;
    if reqCoreStart >= totalCoreCount {
      return;
    }
    coreStart := reqCoreStart;
    if reqCoreCount != 0 {
      if ToInt(coreStart + reqCoreCount, ub) > totalCoreCount {
        return;
      }
      coreCount := reqCoreCount;
    } else {
      coreCount := ToInt(totalCoreCount - coreStart, ub);
    }
    if coreCount < 0 {
      return;
    }
    if coreCount > MAX_WORKERS {
      return;
    }
    ok := true;
  }

  /** Two workers from core -1 on are accepted on a machine with four cores. */
  method NegativeStart() returns (ok: bool, coreStart: Int32, coreCount: Int32)
    ensures ok && coreStart == -1 && coreCount == 2 && !OnCores(coreStart, coreCount, 4)
  {
    ok, coreStart, coreCount := ValidateCoresSettings(-1, 2, 4, 0);
  }

  // ----- receive queues

  /** What the lookup of one interface and its list of receive queues give. */
  datatype Lookup = NotFound | Found(queues: seq<nat>)

  datatype Outcome = Configured | LookupFailed | TooFewQueues

  /** Every interface was found and has as many receive queues as there are workers. */
  predicate Assignable(lookups: seq<Lookup>, numWorkers: nat) {
    forall i :: 0 <= i < |lookups| ==> lookups[i].Found? && |lookups[i].queues| == numWorkers
  }

  /** Queue handles of one device are distinct, and no two devices share one. */
  ghost predicate DistinctQueues(lookups: seq<Lookup>, numWorkers: nat)
    requires Assignable(lookups, numWorkers)
  {
    forall i, j, k, l :: 0 <= i < |lookups| && 0 <= j < |lookups| && 0 <= k < numWorkers && 0 <= l < numWorkers ==>
      lookups[i].queues[k] == lookups[j].queues[l] ==> i == j && k == l
  }

  /** The worker arguments: one entry per worker, one receive queue slot per interface. */
  class WorkerArgs {
    const numPktin: array<nat>
    const processTimers: array<bool>
    const pktin: array2<nat>

    predicate Valid() {
      numPktin.Length == MAX_WORKERS && processTimers.Length == MAX_WORKERS
      && pktin.Length0 == MAX_WORKERS && pktin.Length1 == INTERFACE_MAX
    }

    constructor ()
      ensures Valid() && fresh(numPktin) && fresh(processTimers) && fresh(pktin)
    {
      numPktin := new nat[MAX_WORKERS](_ => 0);
      processTimers := new bool[MAX_WORKERS](_ => false);
      pktin := new nat[MAX_WORKERS, INTERFACE_MAX]((_, _) => 0);
    }

    /** Worker `w` polls queue `q`. */
    ghost predicate Polls(w: nat, slot: nat, q: nat)
      requires Valid()
      reads numPktin, pktin
    {
      w < MAX_WORKERS && slot < INTERFACE_MAX && slot < numPktin[w] && pktin[w, slot] == q
    }

    method Configure(lookups: seq<Lookup>, numWorkers: nat) returns (r: Outcome)
      requires Valid() && 1 <= numWorkers <= MAX_WORKERS && |lookups| <= INTERFACE_MAX
      modifies numPktin, processTimers, pktin
      ensures r == Configured <==> Assignable(lookups, numWorkers)
      ensures forall w :: 0 <= w < numWorkers ==> numPktin[w] == |lookups| && (processTimers[w] <==> w == 0)
      ensures r == Configured ==>
        forall w, i :: 0 <= w < numWorkers && 0 <= i < |lookups| ==> pktin[w, i] == lookups[i].queues[w]
      ensures r == Configured && DistinctQueues(lookups, numWorkers) ==>
        forall i, k, w, slot :: 0 <= i < |lookups| && 0 <= k < numWorkers && 0 <= w < numWorkers && 0 <= slot ==>
          (Polls(w, slot, lookups[i].queues[k]) <==> w == k && slot == i)
    {
      for w := 0 to numWorkers
        invariant forall k :: 0 <= k < w ==> numPktin[k] == |lookups| && !processTimers[k]
      {
        numPktin[w] := |lookups|;
        processTimers[w] := false;
      }
      processTimers[0] := true;
      for i := 0 to |lookups|
        invariant forall k :: 0 <= k < numWorkers ==> numPktin[k] == |lookups| && (processTimers[k] <==> k == 0)
        invariant forall k :: 0 <= k < i ==> lookups[k].Found? && |lookups[k].queues| == numWorkers
        invariant forall w, k :: 0 <= w < numWorkers && 0 <= k < i ==> pktin[w, k] == lookups[k].queues[w]
      {
        if lookups[i].NotFound? {
          return LookupFailed;
        }
        if |lookups[i].queues| != numWorkers {
          return TooFewQueues;
        }
        for j := 0 to numWorkers
          invariant forall k :: 0 <= k < numWorkers ==> numPktin[k] == |lookups| && (processTimers[k] <==> k == 0)
          invariant forall w, k :: 0 <= w < numWorkers && 0 <= k < i ==> pktin[w, k] == lookups[k].queues[w]
          invariant forall w :: 0 <= w < j ==> pktin[w, i] == lookups[i].queues[w]
        {
          pktin[j, i] := lookups[i].queues[j];
        }
      }
      r := Configured;
    }
  }

  // ----- transmit queues

  /** The transmit queue a core uses when there are `queues` of them. */
  function TxQueue(core: nat, queues: nat): nat
    requires queues > 0
  {
    core % queues
  }

  lemma {:induction false} MulGap(a: int, b: int, m: nat)
    requires a > b
    ensures a * m >= b * m + m
    decreases a - b
  {
    assert a * m == (a - 1) * m + m;
    if a - 1 > b {
      MulGap(a - 1, b, m);
    }
  }

  lemma DivUnique(x: nat, q: nat, r: nat, m: nat)
    requires 0 < m && r < m && x == q * m + r
    ensures x % m == r
  {
    var q', r' := x / m, x % m;
    assert x == q' * m + r' && 0 <= r' < m;
    if q > q' {
      MulGap(q, q', m);
    } else if q < q' {
      MulGap(q', q, m);
    }
  }

  /** A core that is `d` above another, `d` below the number of queues, uses another queue unless `d` is zero. */
  lemma ModOffset(a: nat, d: nat, m: nat)
    requires 0 < m && d < m
    ensures (a + d) % m == if a % m + d < m then a % m + d else a % m + d - m
  {
    var q, r := a / m, a % m;
    assert a == q * m + r;
    if r + d < m {
      DivUnique(a + d, q, r + d, m);
    } else {
      assert a + d == (q + 1) * m + (r + d - m);
      DivUnique(a + d, q + 1, r + d - m, m);
    }
  }

  /** Worker `i` of `workers`, on core `start + i`, with one transmit queue more than workers. */
  function WorkerQueue(start: nat, workers: nat, i: nat): nat {
    TxQueue(start + i, workers + 1)
  }

  /** Workers on consecutive cores never share a queue. */
  lemma WorkersNeverShare(start: nat, workers: nat, i: nat, j: nat)
    requires i < j < workers
    ensures WorkerQueue(start, workers, i) != WorkerQueue(start, workers, j)
  {
    ModOffset(start + i, j - i, workers + 1);
  }

  /** No worker shares with core 0 exactly when the first worker's core is 1 modulo the number of queues. */
  lemma NoneSharesWithCoreZero(start: nat, workers: nat)
    requires workers > 0
    ensures (forall i :: 0 <= i < workers ==> WorkerQueue(start, workers, i) != TxQueue(0, workers + 1))
      <==> start % (workers + 1) == 1
  {
    var m := workers + 1;
    var r := start % m;
    DivUnique(0, 0, 0, m);
    if r == 1 {
      forall i | 0 <= i < workers ensures WorkerQueue(start, workers, i) != 0 {
        ModOffset(start, i, m);
      }
    } else {
      var i := if r == 0 then 0 else m - r;
      ModOffset(start, i, m);
      assert i < workers && WorkerQueue(start, workers, i) == 0;
    }
  }
}
