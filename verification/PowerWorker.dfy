/**
 The idle detection and interrupt protocol of the receive workers of
 example/fpm_power/app_main.c.

 The trace lists the calls a worker makes and their results, oldest first. The
 environment answers each call from the number of calls made before it, so it
 ranges over all behaviours; `stop` bounds when the processing flag is cleared.
 */
module PowerWorker {
  import opened Common
  import opened DirectDispatch
  import opened PacketVector
  import opened Sequences

  datatype Call =
    | Poll(queue: nat, got: Receive)
    | Clock(now: nat)
    | IntrSet(queue: nat, on: bool, ok: bool)
    | IntrWait(result: int)

  datatype Env = Env(running: nat -> bool, recv: nat -> Receive, clock: nat -> nat, setOk: nat -> bool,
                     wait: nat -> int, stop: nat)

  ghost predicate Stops(env: Env) {
    forall n: nat :: n >= env.stop ==> !env.running(n)
  }

  /** The local clock never runs backwards within a run. */
  ghost predicate Monotone(env: Env) {
    forall m: nat, n: nat :: m <= n ==> env.clock(m) <= env.clock(n) < WORD
  }

  /** Whether an interrupt may be enabled: a failed call to enable it may have done so. */
  ghost predicate MayBeOn(trace: seq<Call>, q: nat) {
    trace != [] &&
    var c, before := trace[|trace| - 1], trace[..|trace| - 1];
    if c.IntrSet? && c.queue == q then c.on || (!c.ok && MayBeOn(before, q)) else MayBeOn(before, q)
  }

  ghost predicate AllOff(trace: seq<Call>, queues: nat) {
    forall q :: 0 <= q < queues ==> !MayBeOn(trace, q)
  }

  /** The call receives no packet. */
  predicate Nothing(c: Call) {
    c.Poll? && c.got.Got? ==> c.got.pkts == []
  }

  /** No poll in the given stretch of the trace received a packet. */
  ghost predicate Quiet(trace: seq<Call>, from: nat, to: nat)
    requires to <= |trace|
  {
    forall k :: from <= k < to ==> Nothing(trace[k])
  }

  /**
   The clock was read at `a`, after an empty round, and again at `b`, longer than `idleTmo`
   after, with only empty polls since.
   */
  ghost predicate IdleSince(trace: seq<Call>, queues: nat, idleTmo: nat, a: nat, b: nat) {
    && queues <= a < b < |trace| && trace[a].Clock? && trace[b].Clock?
    && trace[b].now - trace[a].now > idleTmo
    && (forall k :: a - queues <= k < a ==> trace[k].Poll?)
    && Quiet(trace, a - queues, |trace|)
  }

  ghost predicate Idle(trace: seq<Call>, queues: nat, idleTmo: nat) {
    exists a, b :: IdleSince(trace, queues, idleTmo, a, b)
  }

  /** Polls only with every interrupt off; interrupts enabled only after an idle period. */
  ghost predicate Safe(trace: seq<Call>, queues: nat, idleTmo: nat) {
    trace == [] ||
    var c, before := trace[|trace| - 1], trace[..|trace| - 1];
    && Safe(before, queues, idleTmo)
    && (c.Poll? ==> AllOff(before, queues))
    && (c.IntrSet? && c.on ==> Idle(before, queues, idleTmo))
  }

  lemma Snoc(trace: seq<Call>, c: Call, queues: nat, idleTmo: nat)
    requires Safe(trace, queues, idleTmo)
    requires c.Poll? ==> AllOff(trace, queues)
    requires c.IntrSet? && c.on ==> Idle(trace, queues, idleTmo)
    ensures Safe(trace + [c], queues, idleTmo)
    ensures !c.IntrSet? && AllOff(trace, queues) ==> AllOff(trace + [c], queues)
  {
    assert (trace + [c])[..|trace|] == trace;
  }

  /** What `Safe` says of every position of a trace. */
  lemma {:induction false} SafeAt(trace: seq<Call>, queues: nat, idleTmo: nat, i: nat)
    requires Safe(trace, queues, idleTmo) && i < |trace|
    ensures trace[i].Poll? ==> forall q :: 0 <= q < queues ==> !MayBeOn(trace[..i], q)
    ensures trace[i].IntrSet? && trace[i].on ==> exists a, b :: IdleSince(trace[..i], queues, idleTmo, a, b)
  {
    var before := trace[..|trace| - 1];
    if i < |before| {
      SafeAt(before, queues, idleTmo, i);
      assert before[..i] == trace[..i];
    }
  }

  lemma MayBeOnSnoc(trace: seq<Call>, c: Call, q: nat)
    ensures MayBeOn(trace + [c], q) ==
      if c.IntrSet? && c.queue == q then c.on || (!c.ok && MayBeOn(trace, q)) else MayBeOn(trace, q)
  {
    assert (trace + [c])[..|trace|] == trace;
  }

  lemma OffStep(trace: seq<Call>, c: Call, i: nat)
    requires c.IntrSet? && !c.on && c.ok && c.queue == i && AllOff(trace, i)
    ensures AllOff(trace + [c], i + 1)
  {
    forall q: nat | q <= i ensures !MayBeOn(trace + [c], q) {
      MayBeOnSnoc(trace, c, q);
    }
  }

  /** Names a call of a trace, so that what is known of a stretch of calls is used only for those a proof names. */
  ghost predicate Moment(k: int) {
    0 <= k
  }

  /** The calls from `from` to `to` switch the queues in order, and all but the last succeed. */
  ghost predicate Switched(env: Env, enable: bool, trace: seq<Call>, from: nat, to: nat) {
    && from <= to <= |trace|
    && forall k {:trigger Moment(k)} :: Moment(k) && from <= k < to ==>
      trace[k] == IntrSet(k - from, enable, env.setOk(k)) && (k < to - 1 ==> env.setOk(k))
  }

  lemma SwitchedSnoc(env: Env, enable: bool, trace: seq<Call>, from: nat, c: Call)
    requires Switched(env, enable, trace, from, |trace|) && (from < |trace| ==> env.setOk(|trace| - 1))
    requires c == IntrSet(|trace| - from, enable, env.setOk(|trace|))
    ensures Switched(env, enable, trace + [c], from, |trace + [c]|)
  {
  }

  lemma IdleSnoc(trace: seq<Call>, c: Call, queues: nat, idleTmo: nat)
    requires Idle(trace, queues, idleTmo) && !c.Poll?
    ensures Idle(trace + [c], queues, idleTmo)
  {
    var a, b :| IdleSince(trace, queues, idleTmo, a, b);
    assert IdleSince(trace + [c], queues, idleTmo, a, b);
  }

  /** The last call is a switch that a queue refused. */
  ghost predicate Refused(trace: seq<Call>) {
    trace != [] && trace[|trace| - 1].IntrSet? && !trace[|trace| - 1].ok
  }

  /** One call of `pktin_intr_set`: all queues, or up to the first that refuses. */
  ghost predicate Switch(env: Env, enable: bool, queues: nat, trace: seq<Call>, from: nat, to: nat, ok: bool) {
    && Switched(env, enable, trace, from, to) && to - from <= queues
    && if ok then to - from == queues && (queues > 0 ==> env.setOk(to - 1)) else from < to && !env.setOk(to - 1)
  }

  /** Where `pktin_intr_set` is after switching the first `i` queues without a refusal. */
  ghost predicate SwitchedFirst(env: Env, queues: nat, idleTmo: nat, enable: bool,
                                before: seq<Call>, trace: seq<Call>, i: nat)
  {
    && |trace| == |before| + i && (i > 0 ==> env.setOk(|trace| - 1))
    && Safe(trace, queues, idleTmo) && before <= trace
    && Switched(env, enable, trace, |before|, |trace|)
    && if enable then Idle(trace, queues, idleTmo) else AllOff(trace, i)
  }

  lemma SwitchMore(env: Env, queues: nat, idleTmo: nat, enable: bool,
                   before: seq<Call>, trace: seq<Call>, i: nat, c: Call)
    requires SwitchedFirst(env, queues, idleTmo, enable, before, trace, i)
    requires c == IntrSet(i, enable, env.setOk(|trace|))
    ensures Safe(trace + [c], queues, idleTmo) && before <= trace + [c]
    ensures Switched(env, enable, trace + [c], |before|, |trace + [c]|)
    ensures c.ok ==> SwitchedFirst(env, queues, idleTmo, enable, before, trace + [c], i + 1)
  {
    Snoc(trace, c, queues, idleTmo);
    SwitchedSnoc(env, enable, trace, |before|, c);
    PrefixTrans(before, trace, trace + [c]);
    if enable {
      IdleSnoc(trace, c, queues, idleTmo);
    } else if c.ok {
      OffStep(trace, c, i);
    }
  }

  /** `pktin_intr_set`: stops at the first queue that refuses. */
  method PktinIntrSet(env: Env, queues: nat, enable: bool, before: seq<Call>, idleTmo: nat)
    returns (ok: bool, trace: seq<Call>)
    requires Safe(before, queues, idleTmo) && (enable ==> Idle(before, queues, idleTmo))
    ensures Safe(trace, queues, idleTmo) && before <= trace
    ensures Switch(env, enable, queues, trace, |before|, |trace|, ok) && (!ok ==> Refused(trace))
    ensures ok && !enable ==> AllOff(trace, queues)
  {
    trace := before;
    for i := 0 to queues
      invariant SwitchedFirst(env, queues, idleTmo, enable, before, trace, i)
    {
      var c := IntrSet(i, enable, env.setOk(|trace|));
      SwitchMore(env, queues, idleTmo, enable, before, trace, i, c);
      trace := trace + [c];
      if !c.ok {
        return false, trace;
      }
    }
    ok := true;
  }

  /** What ends the loop: clearing goes on while interrupts are pending, waiting until one arrives or fails. */
  predicate Ends(clear: bool, result: int) {
    if clear then result <= 0 else result != 0
  }

  /** The calls from `from` to `to` wait for interrupts, and none but the last ends the loop. */
  ghost predicate Waited(env: Env, clear: bool, trace: seq<Call>, from: nat, to: nat) {
    && from <= to <= |trace|
    && forall k {:trigger Moment(k)} :: Moment(k) && from <= k < to ==>
      trace[k] == IntrWait(env.wait(k)) && env.running(k) && (k < to - 1 ==> !Ends(clear, env.wait(k)))
  }

  /** The calls from `from` to `to` are one such loop, run to its end. */
  ghost predicate Looped(env: Env, clear: bool, trace: seq<Call>, from: nat, to: nat) {
    && Waited(env, clear, trace, from, to)
    && (env.running(to) ==> from < to && Ends(clear, env.wait(to - 1)))
  }

  lemma WaitedSnoc(env: Env, clear: bool, trace: seq<Call>, from: nat, c: Call)
    requires Waited(env, clear, trace, from, |trace|) && (from < |trace| ==> !Ends(clear, env.wait(|trace| - 1)))
    requires c == IntrWait(env.wait(|trace|)) && env.running(|trace|)
    ensures Waited(env, clear, trace + [c], from, |trace + [c]|)
  {
  }

  /** `loop_intr_wait` with a timeout, or `loop_intr_clear` without: neither polls nor switches interrupts. */
  method IntrLoop(env: Env, clear: bool, before: seq<Call>, queues: nat, idleTmo: nat) returns (trace: seq<Call>)
    requires Stops(env) && Safe(before, queues, idleTmo)
    ensures Safe(trace, queues, idleTmo) && before <= trace
    ensures Looped(env, clear, trace, |before|, |trace|)
    ensures AllOff(before, queues) ==> AllOff(trace, queues)
    ensures Idle(before, queues, idleTmo) ==> Idle(trace, queues, idleTmo)
  {
    trace := before;
    while env.running(|trace|)
      invariant Safe(trace, queues, idleTmo) && before <= trace
      invariant Waited(env, clear, trace, |before|, |trace|)
      invariant |before| < |trace| ==> !Ends(clear, env.wait(|trace| - 1))
      invariant AllOff(before, queues) ==> AllOff(trace, queues)
      invariant Idle(before, queues, idleTmo) ==> Idle(trace, queues, idleTmo)
      decreases env.stop - |trace|
    {
      var c := IntrWait(env.wait(|trace|));
      WaitedSnoc(env, clear, trace, |before|, c);
      Snoc(trace, c, queues, idleTmo);
      if Idle(before, queues, idleTmo) {
        IdleSnoc(trace, c, queues, idleTmo);
      }
      trace := trace + [c];
      if Ends(clear, c.result) {
        break;
      }
    }
  }

  ghost predicate ClockOf(env: Env, trace: seq<Call>) {
    forall k :: 0 <= k < |trace| && trace[k].Clock? ==> trace[k].now == env.clock(k)
  }

  // ----- the packets

  /** The packets of all polls of a trace. */
  function Received(trace: seq<Call>): seq<Packet> {
    if trace == [] then []
    else
      var c := trace[|trace| - 1];
      Received(trace[..|trace| - 1]) + if c.Poll? then Burst(c.got) else []
  }

  lemma ReceivedSnoc(trace: seq<Call>, c: Call)
    ensures Received(trace + [c]) == Received(trace) + if c.Poll? then Burst(c.got) else []
  {
    assert (trace + [c])[..|trace|] == trace;
  }

  ghost predicate NoPolls(trace: seq<Call>, from: nat) {
    forall k {:trigger Moment(k)} :: Moment(k) && from <= k < |trace| ==> !trace[k].Poll?
  }

  /** Calls other than polls receive nothing. */
  lemma {:induction false} ReceivedSame(trace: seq<Call>, longer: seq<Call>)
    requires trace <= longer && NoPolls(longer, |trace|)
    ensures Received(longer) == Received(trace)
  {
    if |longer| == |trace| {
      assert longer == trace;
    } else {
      assert Moment(|longer| - 1);
      ReceivedSame(trace, longer[..|longer| - 1]);
    }
  }

  /** What each call of a trace received. */
  function Receives(trace: seq<Call>): (r: seq<Receive>)
    ensures |r| == |trace|
    ensures forall k :: 0 <= k < |trace| ==> r[k] == if trace[k].Poll? then trace[k].got else Failed
  {
    seq(|trace|, k requires 0 <= k < |trace| => if trace[k].Poll? then trace[k].got else Failed)
  }

  lemma {:induction false} ReceivedIs(trace: seq<Call>)
    ensures Received(trace) == Arrivals(Receives(trace))
  {
    if trace != [] {
      var before := trace[..|trace| - 1];
      ReceivedIs(before);
      assert Receives(trace)[..|trace| - 1] == Receives(before);
    }
  }

  /** What `n` calls from `from` on receive when all of them are polls. */
  function Heard(env: Env, from: nat, n: nat): (r: seq<Receive>)
    ensures |r| == n && forall i :: 0 <= i < n ==> r[i] == env.recv(from + i)
  {
    seq(n, i requires 0 <= i < n => env.recv(from + i))
  }

  lemma HeardLess(env: Env, from: nat, n: nat)
    requires n > 0
    ensures Heard(env, from, n)[..n - 1] == Heard(env, from, n - 1)
  {
  }

  lemma {:induction false} HeardByPolls(env: Env, before: seq<Call>, trace: seq<Call>)
    requires before <= trace && forall k :: |before| <= k < |trace| ==> trace[k].Poll? && trace[k].got == env.recv(k)
    ensures Received(trace) == Received(before) + Arrivals(Heard(env, |before|, |trace| - |before|))
  {
    var n := |trace| - |before|;
    if n == 0 {
      assert trace == before;
    } else {
      var init, heard := trace[..|trace| - 1], Heard(env, |before|, n);
      HeardByPolls(env, before, init);
      HeardLess(env, |before|, n);
      Assoc(Received(before), Arrivals(heard[..n - 1]), Burst(heard[n - 1]));
    }
  }

  lemma SamePrefix<T>(a: seq<T>, b: seq<T>, c: seq<T>)
    requires a + b == a + c
    ensures b == c
  {
    assert (a + b)[|a|..] == b && (a + c)[|a|..] == c;
  }

  /** Vectors as the stack gets them: never empty, never over their size. */
  ghost predicate Sized(vectors: seq<seq<Packet>>) {
    forall i :: 0 <= i < |vectors| ==> 1 <= |vectors[i]| <= VECTOR_SIZE
  }

  lemma HandMore(handed: seq<seq<Packet>>, more: seq<seq<Packet>>, before: seq<Packet>, got: seq<Packet>)
    requires Sized(handed) && Sized(more) && Flat(handed) == before && Flat(more) == got
    ensures Sized(handed + more) && Flat(handed + more) == before + got
  {
    FlatAppend(handed, more);
  }

  /** `trace` is `before` and polls of the first queues, all allowed. */
  ghost predicate PollsSoFar(env: Env, queues: nat, idleTmo: nat, before: seq<Call>, trace: seq<Call>) {
    && Safe(trace, queues, idleTmo) && AllOff(trace, queues) && ClockOf(env, trace) && before <= trace
    && forall k {:trigger Moment(k)} :: Moment(k) && |before| <= k < |trace| ==>
      trace[k] == Poll(k - |before|, env.recv(k))
  }

  lemma PollsMore(env: Env, queues: nat, idleTmo: nat, before: seq<Call>, trace: seq<Call>, c: Call)
    requires PollsSoFar(env, queues, idleTmo, before, trace)
    requires c == Poll(|trace| - |before|, env.recv(|trace|))
    ensures PollsSoFar(env, queues, idleTmo, before, trace + [c])
    ensures Quiet(trace + [c], |before|, |trace + [c]|) <==> Quiet(trace, |before|, |trace|) && Nothing(c)
  {
    Snoc(trace, c, queues, idleTmo);
    var longer := trace + [c];
    assert longer[|trace|] == c;
    assert forall k :: 0 <= k < |trace| ==> longer[k] == trace[k];
  }

  /** Poll one queue and batch what it gave. */
  method PollOne(vec: Vector, c: Call, vectors: seq<seq<Packet>>, ghost before: seq<Packet>, ghost trace: seq<Call>)
    returns (vectors': seq<seq<Packet>>)
    requires vec.Valid() && !vec.IsFull() && AllFull(vectors) && c.Poll?
    requires Received(trace) == before + (Flat(vectors) + vec.Contents())
    modifies vec`num, vec.pkt
    ensures vec.Valid() && !vec.IsFull() && AllFull(vectors')
    ensures Received(trace + [c]) == before + (Flat(vectors') + vec.Contents())
  {
    ghost var held := vec.Contents();
    var more := BatchBurst(vec, Burst(c.got));
    BurstStep(vectors, more, held, vec.Contents(), Flat(vectors) + held, Burst(c.got));
    ReceivedSnoc(trace, c);
    Assoc(before, Flat(vectors) + held, Burst(c.got));
    vectors' := vectors + more;
  }

  /** The loop over the receive queues. */
  method PollQueues(env: Env, vec: Vector, queues: nat, before: seq<Call>, idleTmo: nat)
    returns (pktSum: nat, trace: seq<Call>, vectors: seq<seq<Packet>>)
    requires PollsSoFar(env, queues, idleTmo, before, before)
    requires vec.Valid() && vec.num == 0
    modifies vec`num, vec.pkt
    ensures PollsSoFar(env, queues, idleTmo, before, trace) && |trace| == |before| + queues
    ensures pktSum == 0 <==> Quiet(trace, |before|, |trace|)
    ensures vec.Valid() && !vec.IsFull() && AllFull(vectors)
    ensures Received(trace) == Received(before) + (Flat(vectors) + vec.Contents())
  {
    trace, pktSum, vectors := before, 0, [];
    for i := 0 to queues
      invariant PollsSoFar(env, queues, idleTmo, before, trace) && |trace| == |before| + i
      invariant pktSum == 0 <==> Quiet(trace, |before|, |trace|)
      invariant vec.Valid() && !vec.IsFull() && AllFull(vectors)
      invariant Received(trace) == Received(before) + (Flat(vectors) + vec.Contents())
    {
      var c := Poll(i, env.recv(|trace|));
      PollsMore(env, queues, idleTmo, before, trace, c);
      pktSum := pktSum + |Burst(c.got)|;
      vectors := PollOne(vec, c, vectors, Received(before), trace);
      trace := trace + [c];
    }
  }

  lemma PollsAre(env: Env, queues: nat, idleTmo: nat, before: seq<Call>, trace: seq<Call>)
    requires PollsSoFar(env, queues, idleTmo, before, trace)
    ensures forall k :: |before| <= k < |trace| ==> trace[k] == Poll(k - |before|, env.recv(k))
  {
    forall k | |before| <= k < |trace| ensures trace[k] == Poll(k - |before|, env.recv(k)) {
      assert Moment(k);
    }
  }

  lemma HandedOnce(env: Env, queues: nat, idleTmo: nat, before: seq<Call>, trace: seq<Call>, pkts: seq<Packet>)
    requires PollsSoFar(env, queues, idleTmo, before, trace) && |trace| == |before| + queues
    requires Received(trace) == Received(before) + pkts
    ensures exists at :: EachOnce(Heard(env, |before|, queues), pkts, at)
  {
    var heard := Heard(env, |before|, queues);
    PollsAre(env, queues, idleTmo, before, trace);
    HeardByPolls(env, before, trace);
    SamePrefix(Received(before), pkts, Arrivals(heard));
    var at := ArrivedOnce(heard);
  }

  /** One pass over the receive queues and the flush after it: everything received is handed over in order. */
  method PollAll(env: Env, vec: Vector, queues: nat, before: seq<Call>, idleTmo: nat)
    returns (pktSum: nat, trace: seq<Call>, vectors: seq<seq<Packet>>)
    requires Safe(before, queues, idleTmo) && AllOff(before, queues) && ClockOf(env, before)
    requires vec.Valid() && vec.num == 0
    modifies vec`num, vec.pkt
    ensures Safe(trace, queues, idleTmo) && AllOff(trace, queues) && ClockOf(env, trace)
    ensures before <= trace && |trace| == |before| + queues
    ensures forall k :: |before| <= k < |trace| ==> trace[k] == Poll(k - |before|, env.recv(k))
    ensures pktSum == 0 <==> Quiet(trace, |before|, |trace|)
    ensures vec.Valid() && vec.num == 0
    ensures Grouped(vectors) && Received(trace) == Received(before) + Flat(vectors)
    ensures exists at :: EachOnce(Heard(env, |before|, queues), Flat(vectors), at)
  {
    pktSum, trace, vectors := PollQueues(env, vec, queues, before, idleTmo);
    ghost var last := vec.Contents();
    var tail := FlushVector(vec);
    LastVector(vectors, last, tail);
    vectors := vectors + tail;
    HandedOnce(env, queues, idleTmo, before, trace, Flat(vectors));
    PollsAre(env, queues, idleTmo, before, trace);
  }

  // ----- the calls of a run

  /** Two clock readings with only empty polls between them, further apart than `idleTmo`. */
  ghost predicate Overdue(trace: seq<Call>, idleTmo: nat, a: nat, b: nat) {
    && a < b < |trace| && trace[a].Clock? && trace[b].Clock?
    && trace[b].now - trace[a].now > idleTmo && Quiet(trace, a, b)
  }

  ghost predicate OverdueAt(trace: seq<Call>, idleTmo: nat, b: nat) {
    exists a :: Overdue(trace, idleTmo, a, b)
  }

  /**
   A sleep from `from` on: pending interrupts are cleared up to `a`, enabled, waited for up to `b`,
   and disabled. It ends early when a queue refuses to be switched.
   */
  ghost predicate Sleeping(env: Env, queues: nat, trace: seq<Call>, from: nat, a: nat, b: nat, to: nat, ok: bool) {
    && Looped(env, true, trace, from, a)
    && (|| (!ok && Switch(env, true, queues, trace, a, to, false))
        || (&& Switch(env, true, queues, trace, a, a + queues, true)
            && Looped(env, false, trace, a + queues, b)
            && Switch(env, false, queues, trace, b, to, ok)))
  }

  ghost predicate Sleeps(env: Env, queues: nat, trace: seq<Call>, from: nat, to: nat, ok: bool) {
    exists a: nat, b: nat :: Sleeping(env, queues, trace, from, a, b, to, ok)
  }

  /**
   The calls of one round: a poll of each queue; if nothing came, a reading of the clock; if that
   finds the worker idle for too long, a sleep.
   */
  ghost predicate Course(env: Env, queues: nat, idleTmo: nat, trace: seq<Call>, from: nat, to: nat, ok: bool) {
    && env.running(from) && from + queues <= to <= |trace|
    && (forall k :: from <= k < from + queues ==> trace[k] == Poll(k - from, env.recv(k)))
    && var read := from + queues;
       if !Quiet(trace, from, read) then to == read && ok
       else
         && read < to && trace[read] == Clock(env.clock(read))
         && if OverdueAt(trace, idleTmo, read) then Sleeps(env, queues, trace, read + 1, to, ok)
            else to == read + 1 && ok
  }

  /** The trace is cut into rounds, all of which but perhaps the last end without a refusal. */
  ghost predicate Rounds(env: Env, queues: nat, idleTmo: nat, trace: seq<Call>, cuts: seq<nat>, ok: bool) {
    && cuts != [] && cuts[0] == 0 && cuts[|cuts| - 1] == |trace|
    && (|cuts| == 1 ==> ok)
    && forall i :: 0 <= i < |cuts| - 1 ==>
      Course(env, queues, idleTmo, trace, cuts[i], cuts[i + 1], ok || i < |cuts| - 2)
  }

  /** Every call holds what the environment answers to it. */
  ghost predicate Answered(env: Env, trace: seq<Call>) {
    forall k :: 0 <= k < |trace| ==>
      match trace[k]
      case Poll(_, got) => got == env.recv(k)
      case Clock(now) => now == env.clock(k)
      case IntrSet(_, _, ok) => ok == env.setOk(k)
      case IntrWait(result) => result == env.wait(k)
  }

  /** Each queue is polled once, in order, from `from` on. */
  ghost predicate RoundAt(trace: seq<Call>, queues: nat, from: int) {
    && 0 <= from && from + queues <= |trace|
    && forall k :: from <= k < from + queues ==> trace[k].Poll? && trace[k].queue == k - from
  }

  ghost predicate WholeRounds(trace: seq<Call>, queues: nat) {
    forall k :: 0 <= k < |trace| && trace[k].Poll? ==>
      trace[k].queue < queues && RoundAt(trace, queues, k - trace[k].queue)
  }

  /** The next call starts a round, or the run is over because the flag was cleared. */
  ghost predicate Onward(env: Env, trace: seq<Call>, k: nat) {
    if k < |trace| then env.running(k) && trace[k].Poll? && trace[k].queue == 0
    else k == |trace| && !env.running(k)
  }

  /** A round that got nothing is followed by a clock reading, one that got packets by the next round. */
  ghost predicate ReadsClock(env: Env, trace: seq<Call>, queues: nat) {
    forall from: nat :: RoundAt(trace, queues, from) ==>
      if Quiet(trace, from, from + queues) then from + queues < |trace| && trace[from + queues].Clock?
      else Onward(env, trace, from + queues)
  }

  ghost predicate SleepsAfter(env: Env, queues: nat, trace: seq<Call>, read: nat, to: nat, ok: bool) {
    Sleeps(env, queues, trace, read + 1, to, ok) && if ok then Onward(env, trace, to) else to == |trace|
  }

  /** A reading that is overdue is followed by a sleep, any other by the next round. */
  ghost predicate SleepsWhenOverdue(env: Env, trace: seq<Call>, queues: nat, idleTmo: nat) {
    forall k: nat :: k < |trace| && trace[k].Clock? ==>
      && RoundAt(trace, queues, k - queues) && Quiet(trace, k - queues, k)
      && if OverdueAt(trace, idleTmo, k) then exists to, ok :: SleepsAfter(env, queues, trace, k, to, ok)
         else Onward(env, trace, k + 1)
  }

  lemma KeepLooped(env: Env, clear: bool, trace: seq<Call>, longer: seq<Call>, from: nat, to: nat)
    requires Looped(env, clear, trace, from, to) && trace <= longer
    ensures Looped(env, clear, longer, from, to)
  {
  }

  lemma KeepSwitch(env: Env, enable: bool, queues: nat, trace: seq<Call>, longer: seq<Call>,
                   from: nat, to: nat, ok: bool)
    requires Switch(env, enable, queues, trace, from, to, ok) && trace <= longer
    ensures Switch(env, enable, queues, longer, from, to, ok)
  {
  }

  lemma KeepSleeps(env: Env, queues: nat, trace: seq<Call>, longer: seq<Call>, from: nat, to: nat, ok: bool)
    requires Sleeps(env, queues, trace, from, to, ok) && trace <= longer
    ensures Sleeps(env, queues, longer, from, to, ok)
  {
    var a: nat, b: nat :| Sleeping(env, queues, trace, from, a, b, to, ok);
    KeepLooped(env, true, trace, longer, from, a);
    if !ok && Switch(env, true, queues, trace, a, to, false) {
      KeepSwitch(env, true, queues, trace, longer, a, to, false);
    } else {
      KeepSwitch(env, true, queues, trace, longer, a, a + queues, true);
      KeepLooped(env, false, trace, longer, a + queues, b);
      KeepSwitch(env, false, queues, trace, longer, b, to, ok);
    }
    assert Sleeping(env, queues, longer, from, a, b, to, ok);
  }

  lemma KeepQuiet(trace: seq<Call>, longer: seq<Call>, from: nat, to: nat)
    requires trace <= longer && to <= |trace|
    ensures Quiet(longer, from, to) <==> Quiet(trace, from, to)
  {
    assert forall k {:trigger trace[k]} {:trigger longer[k]} :: 0 <= k < |trace| ==> longer[k] == trace[k];
  }

  lemma KeepOverdue(trace: seq<Call>, longer: seq<Call>, idleTmo: nat, b: nat)
    requires trace <= longer && b < |trace|
    ensures OverdueAt(longer, idleTmo, b) <==> OverdueAt(trace, idleTmo, b)
  {
    forall a: nat ensures Overdue(longer, idleTmo, a, b) <==> Overdue(trace, idleTmo, a, b) {
      if a < b {
        KeepQuiet(trace, longer, a, b);
      }
    }
  }

  lemma KeepCourse(env: Env, queues: nat, idleTmo: nat, trace: seq<Call>, longer: seq<Call>,
                   from: nat, to: nat, ok: bool)
    requires Course(env, queues, idleTmo, trace, from, to, ok) && trace <= longer
    ensures Course(env, queues, idleTmo, longer, from, to, ok)
  {
    var read := from + queues;
    KeepQuiet(trace, longer, from, read);
    if Quiet(trace, from, read) {
      KeepOverdue(trace, longer, idleTmo, read);
      if OverdueAt(trace, idleTmo, read) {
        KeepSleeps(env, queues, trace, longer, read + 1, to, ok);
      }
    }
  }

  lemma RoundsMore(env: Env, queues: nat, idleTmo: nat, trace: seq<Call>, longer: seq<Call>, cuts: seq<nat>, ok: bool)
    requires Rounds(env, queues, idleTmo, trace, cuts, true) && trace <= longer
    requires Course(env, queues, idleTmo, longer, |trace|, |longer|, ok)
    ensures Rounds(env, queues, idleTmo, longer, cuts + [|longer|], ok)
  {
    var cuts' := cuts + [|longer|];
    forall i | 0 <= i < |cuts'| - 1
      ensures Course(env, queues, idleTmo, longer, cuts'[i], cuts'[i + 1], ok || i < |cuts'| - 2)
    {
      if i < |cuts| - 1 {
        KeepCourse(env, queues, idleTmo, trace, longer, cuts[i], cuts[i + 1], true);
      }
    }
  }

  lemma {:induction false} RoundOf(cuts: seq<nat>, k: nat) returns (i: nat)
    requires cuts != [] && cuts[0] <= k < cuts[|cuts| - 1]
    ensures i < |cuts| - 1 && cuts[i] <= k < cuts[i + 1]
  {
    if cuts[|cuts| - 2] <= k {
      i := |cuts| - 2;
    } else {
      i := RoundOf(cuts[..|cuts| - 1], k);
    }
  }

  lemma SleepCall(env: Env, queues: nat, trace: seq<Call>, from: nat, to: nat, ok: bool, k: nat)
    requires Sleeps(env, queues, trace, from, to, ok) && from <= k < to <= |trace|
    ensures (trace[k].IntrSet? && trace[k].ok == env.setOk(k)) || trace[k] == IntrWait(env.wait(k))
  {
    assert Moment(k);
  }

  /** Which call of a round is which. */
  lemma CourseCall(env: Env, queues: nat, idleTmo: nat, trace: seq<Call>, from: nat, to: nat, ok: bool, k: nat)
    requires Course(env, queues, idleTmo, trace, from, to, ok) && from <= k < to
    ensures k < from + queues ==> trace[k] == Poll(k - from, env.recv(k))
    ensures k == from + queues ==> trace[k] == Clock(env.clock(k))
    ensures k > from + queues ==>
      (trace[k].IntrSet? && trace[k].ok == env.setOk(k)) || trace[k] == IntrWait(env.wait(k))
  {
    if k > from + queues {
      SleepCall(env, queues, trace, from + queues + 1, to, ok, k);
    }
  }

  lemma RunAnswered(env: Env, queues: nat, idleTmo: nat, trace: seq<Call>, cuts: seq<nat>, ok: bool)
    requires Rounds(env, queues, idleTmo, trace, cuts, ok)
    ensures Answered(env, trace)
  {
    forall k: nat | k < |trace|
      ensures match trace[k]
        case Poll(_, got) => got == env.recv(k)
        case Clock(now) => now == env.clock(k)
        case IntrSet(_, _, ok) => ok == env.setOk(k)
        case IntrWait(result) => result == env.wait(k)
    {
      var i := RoundOf(cuts, k);
      CourseCall(env, queues, idleTmo, trace, cuts[i], cuts[i + 1], ok || i < |cuts| - 2, k);
    }
  }

  /** The end of a round is the start of the next or the end of the run. */
  lemma RoundEnd(env: Env, queues: nat, idleTmo: nat, trace: seq<Call>, cuts: seq<nat>, ok: bool, i: nat)
    requires Rounds(env, queues, idleTmo, trace, cuts, ok) && (ok ==> !env.running(|trace|)) && queues > 0
    requires i < |cuts| - 1
    ensures (ok || i < |cuts| - 2) ==> Onward(env, trace, cuts[i + 1])
    ensures !(ok || i < |cuts| - 2) ==> cuts[i + 1] == |trace|
  {
    if i + 1 < |cuts| - 1 {
      var from, to, done := cuts[i + 1], cuts[i + 2], ok || i + 1 < |cuts| - 2;
      assert Course(env, queues, idleTmo, trace, from, to, done);
      CourseCall(env, queues, idleTmo, trace, from, to, done, from);
    }
  }

  /** A poll of queue `q` is call `q` of its round. */
  lemma PollPlace(env: Env, queues: nat, idleTmo: nat, trace: seq<Call>, cuts: seq<nat>, ok: bool, k: nat)
    returns (i: nat)
    requires Rounds(env, queues, idleTmo, trace, cuts, ok) && k < |trace| && trace[k].Poll?
    ensures i < |cuts| - 1 && cuts[i] + trace[k].queue == k && trace[k].queue < queues
    ensures Course(env, queues, idleTmo, trace, cuts[i], cuts[i + 1], ok || i < |cuts| - 2)
  {
    i := RoundOf(cuts, k);
    CourseCall(env, queues, idleTmo, trace, cuts[i], cuts[i + 1], ok || i < |cuts| - 2, k);
  }

  lemma RunWholeRounds(env: Env, queues: nat, idleTmo: nat, trace: seq<Call>, cuts: seq<nat>, ok: bool)
    requires Rounds(env, queues, idleTmo, trace, cuts, ok)
    ensures WholeRounds(trace, queues)
  {
    forall k: nat | k < |trace| && trace[k].Poll?
      ensures trace[k].queue < queues && RoundAt(trace, queues, k - trace[k].queue)
    {
      var i := PollPlace(env, queues, idleTmo, trace, cuts, ok, k);
    }
  }

  lemma RunStarts(env: Env, queues: nat, idleTmo: nat, trace: seq<Call>, cuts: seq<nat>, ok: bool)
    requires Rounds(env, queues, idleTmo, trace, cuts, ok) && (ok ==> !env.running(|trace|)) && queues > 0
    ensures Onward(env, trace, 0)
  {
    if |cuts| > 1 {
      CourseCall(env, queues, idleTmo, trace, cuts[0], cuts[1], ok || 0 < |cuts| - 2, 0);
    }
  }

  lemma RunReadsClock(env: Env, queues: nat, idleTmo: nat, trace: seq<Call>, cuts: seq<nat>, ok: bool)
    requires Rounds(env, queues, idleTmo, trace, cuts, ok) && (ok ==> !env.running(|trace|)) && queues > 0
    ensures ReadsClock(env, trace, queues)
  {
    forall from: nat | RoundAt(trace, queues, from)
      ensures if Quiet(trace, from, from + queues) then from + queues < |trace| && trace[from + queues].Clock?
        else Onward(env, trace, from + queues)
    {
      var i := PollPlace(env, queues, idleTmo, trace, cuts, ok, from);
      RoundEnd(env, queues, idleTmo, trace, cuts, ok, i);
    }
  }

  lemma RunSleepsWhenOverdue(env: Env, queues: nat, idleTmo: nat, trace: seq<Call>, cuts: seq<nat>, ok: bool)
    requires Rounds(env, queues, idleTmo, trace, cuts, ok) && (ok ==> !env.running(|trace|)) && queues > 0
    ensures SleepsWhenOverdue(env, trace, queues, idleTmo)
  {
    forall k: nat | k < |trace| && trace[k].Clock?
      ensures RoundAt(trace, queues, k - queues) && Quiet(trace, k - queues, k)
      ensures if OverdueAt(trace, idleTmo, k) then exists to, ok :: SleepsAfter(env, queues, trace, k, to, ok)
        else Onward(env, trace, k + 1)
    {
      var i := RoundOf(cuts, k);
      var done := ok || i < |cuts| - 2;
      CourseCall(env, queues, idleTmo, trace, cuts[i], cuts[i + 1], done, k);
      RoundEnd(env, queues, idleTmo, trace, cuts, ok, i);
      if OverdueAt(trace, idleTmo, k) {
        assert SleepsAfter(env, queues, trace, k, cuts[i + 1], done);
      }
    }
  }

  lemma RunLaws(env: Env, queues: nat, idleTmo: nat, trace: seq<Call>, cuts: seq<nat>, ok: bool)
    requires Rounds(env, queues, idleTmo, trace, cuts, ok) && (ok ==> !env.running(|trace|))
    ensures Answered(env, trace) && WholeRounds(trace, queues)
    ensures queues > 0 ==>
      Onward(env, trace, 0) && ReadsClock(env, trace, queues) && SleepsWhenOverdue(env, trace, queues, idleTmo)
  {
    RunAnswered(env, queues, idleTmo, trace, cuts, ok);
    RunWholeRounds(env, queues, idleTmo, trace, cuts, ok);
    if queues > 0 {
      RunStarts(env, queues, idleTmo, trace, cuts, ok);
      RunReadsClock(env, queues, idleTmo, trace, cuts, ok);
      RunSleepsWhenOverdue(env, queues, idleTmo, trace, cuts, ok);
    }
  }

  /** The worker is idle since the clock reading at `a`, the earliest of the quiet stretch. */
  ghost predicate IdlingFrom(trace: seq<Call>, queues: nat, a: nat, start: nat) {
    && queues <= a < |trace| && trace[a] == Clock(start)
    && (forall k :: a - queues <= k < a ==> trace[k].Poll?)
    && Quiet(trace, a - queues, |trace|)
    && (forall k :: 0 <= k < a ==> trace[k].Clock? ==> !Quiet(trace, k, |trace|))
  }

  ghost predicate NotIdling(trace: seq<Call>) {
    forall k :: 0 <= k < |trace| ==> trace[k].Clock? ==> !Quiet(trace, k, |trace|)
  }

  lemma StillLoud(was: seq<Call>, longer: seq<Call>, k: nat)
    requires was <= longer && !Quiet(was, k, |was|)
    ensures !Quiet(longer, k, |longer|)
  {
    var p :| k <= p < |was| && !Nothing(was[p]);
    assert longer[p] == was[p];
  }

  lemma KeepNotIdling(was: seq<Call>, longer: seq<Call>)
    requires NotIdling(was) && was <= longer && forall k :: |was| <= k < |longer| ==> !longer[k].Clock?
    ensures NotIdling(longer)
  {
    forall k | 0 <= k < |longer| && longer[k].Clock? ensures !Quiet(longer, k, |longer|) {
      assert was[k] == longer[k];
      StillLoud(was, longer, k);
    }
  }

  lemma KeepIdling(was: seq<Call>, longer: seq<Call>, queues: nat, a: nat, start: nat)
    requires IdlingFrom(was, queues, a, start) && was <= longer && Quiet(longer, |was|, |longer|)
    ensures IdlingFrom(longer, queues, a, start)
  {
    assert forall k {:trigger longer[k]} :: 0 <= k < |was| ==> longer[k] == was[k];
    forall k | 0 <= k < a && longer[k].Clock? ensures !Quiet(longer, k, |longer|) {
      assert was[k] == longer[k];
      StillLoud(was, longer, k);
    }
  }

  lemma Busy(was: seq<Call>, longer: seq<Call>)
    requires was <= longer && !Quiet(longer, |was|, |longer|) && forall k :: |was| <= k < |longer| ==> longer[k].Poll?
    ensures NotIdling(longer)
  {
    var p :| |was| <= p < |longer| && !Nothing(longer[p]);
    forall k | 0 <= k < |longer| && longer[k].Clock? ensures !Quiet(longer, k, |longer|) {
      assert k < |was| <= p;
    }
  }

  lemma StartIdling(trace: seq<Call>, queues: nat, now: nat)
    requires NotIdling(trace) && queues <= |trace| && Quiet(trace, |trace| - queues, |trace|)
    requires forall k :: |trace| - queues <= k < |trace| ==> trace[k].Poll?
    ensures IdlingFrom(trace + [Clock(now)], queues, |trace|, now)
  {
    var longer := trace + [Clock(now)];
    assert forall k {:trigger longer[k]} :: 0 <= k < |trace| ==> longer[k] == trace[k];
    forall k | 0 <= k < |trace| && longer[k].Clock? ensures !Quiet(longer, k, |longer|) {
      assert trace[k] == longer[k];
      StillLoud(trace, longer, k);
    }
  }

  /** The first reading of a quiet stretch finds nothing overdue. */
  lemma FirstReading(trace: seq<Call>, now: nat, idleTmo: nat)
    requires NotIdling(trace)
    ensures !OverdueAt(trace + [Clock(now)], idleTmo, |trace|)
  {
    var longer := trace + [Clock(now)];
    forall a: nat ensures !Overdue(longer, idleTmo, a, |trace|) {
      if a < |trace| && longer[a].Clock? {
        assert trace[a] == longer[a];
        KeepQuiet(trace, longer, a, |trace|);
      }
    }
  }

  /** A later reading finds overdue what is too long after the first one. */
  lemma LaterReading(env: Env, trace: seq<Call>, queues: nat, idleTmo: nat, a: nat, start: nat)
    requires Monotone(env) && ClockOf(env, trace) && IdlingFrom(trace, queues, a, start)
    ensures var now := env.clock(|trace|);
      start <= now < WORD && (OverdueAt(trace + [Clock(now)], idleTmo, |trace|) <==> now - start > idleTmo)
  {
    var now := env.clock(|trace|);
    var longer := trace + [Clock(now)];
    assert start == env.clock(a);
    KeepQuiet(trace, longer, a, |trace|);
    assert now - start > idleTmo ==> Overdue(longer, idleTmo, a, |trace|);
    forall b: nat | Overdue(longer, idleTmo, b, |trace|) ensures now - start > idleTmo {
      assert trace[b] == longer[b];
      KeepQuiet(trace, longer, b, |trace|);
      assert a <= b;
    }
  }

  ghost predicate OnlyInterrupts(trace: seq<Call>, from: nat) {
    forall k {:trigger Moment(k)} :: Moment(k) && from <= k < |trace| ==> trace[k].IntrWait? || trace[k].IntrSet?
  }

  lemma NoClock(trace: seq<Call>, from: nat)
    requires OnlyInterrupts(trace, from) && from <= |trace|
    ensures Quiet(trace, from, |trace|) && forall k :: from <= k < |trace| ==> !trace[k].Clock?
  {
    forall k | from <= k < |trace| ensures !trace[k].Clock? && !trace[k].Poll? {
      assert Moment(k);
    }
  }

  lemma SleepCalls(env: Env, queues: nat, trace: seq<Call>, from: nat, a: nat, b: nat, ok: bool)
    requires Sleeping(env, queues, trace, from, a, b, |trace|, ok)
    ensures OnlyInterrupts(trace, from)
  {
  }

  lemma SleepEnds(env: Env, queues: nat, before: seq<Call>, cleared: seq<Call>, enabled: seq<Call>,
                  waited: seq<Call>, trace: seq<Call>, ok: bool)
    requires before <= cleared <= enabled <= waited <= trace
    requires Looped(env, true, cleared, |before|, |cleared|)
    requires Switch(env, true, queues, enabled, |cleared|, |enabled|, true)
    requires Looped(env, false, waited, |enabled|, |waited|)
    requires Switch(env, false, queues, trace, |waited|, |trace|, ok)
    ensures before <= trace && Sleeping(env, queues, trace, |before|, |cleared|, |waited|, |trace|, ok)
  {
    PrefixTrans(enabled, waited, trace);
    PrefixTrans(cleared, enabled, trace);
    PrefixTrans(before, cleared, trace);
    KeepLooped(env, true, cleared, trace, |before|, |cleared|);
    KeepSwitch(env, true, queues, enabled, trace, |cleared|, |enabled|, true);
    KeepLooped(env, false, waited, trace, |enabled|, |waited|);
  }

  /** Clear pending interrupts, enable, wait, disable. */
  method Sleep(env: Env, queues: nat, before: seq<Call>, idleTmo: nat) returns (ok: bool, trace: seq<Call>)
    requires Stops(env) && Safe(before, queues, idleTmo) && Idle(before, queues, idleTmo)
    ensures Safe(trace, queues, idleTmo) && before <= trace && OnlyInterrupts(trace, |before|)
    ensures Sleeps(env, queues, trace, |before|, |trace|, ok)
    ensures if ok then AllOff(trace, queues) else Refused(trace)
  {
    var cleared := IntrLoop(env, true, before, queues, idleTmo);
    ok, trace := PktinIntrSet(env, queues, true, cleared, idleTmo);
    if !ok {
      PrefixTrans(before, cleared, trace);
      KeepLooped(env, true, cleared, trace, |before|, |cleared|);
      assert Sleeping(env, queues, trace, |before|, |cleared|, 0, |trace|, ok);
      SleepCalls(env, queues, trace, |before|, |cleared|, 0, ok);
      return;
    }
    ghost var enabled := trace;
    var waited := IntrLoop(env, false, trace, queues, idleTmo);
    ok, trace := PktinIntrSet(env, queues, false, waited, idleTmo);
    SleepEnds(env, queues, before, cleared, enabled, waited, trace, ok);
    SleepCalls(env, queues, trace, |before|, |cleared|, |waited|, ok);
  }

  lemma OnlyClockAnd(polled: seq<Call>, now: nat, trace: seq<Call>)
    requires polled + [Clock(now)] <= trace && OnlyInterrupts(trace, |polled| + 1)
    ensures polled <= trace && NoPolls(trace, |polled|)
  {
    assert trace[|polled|] == (polled + [Clock(now)])[|polled|];
    PrefixTrans(polled, polled + [Clock(now)], trace);
  }

  lemma LongIdle(trace: seq<Call>, queues: nat, idleTmo: nat, a: nat, start: nat, b: nat)
    requires IdlingFrom(trace, queues, a, start) && a < b < |trace| && trace[b].Clock? && trace[b].now - start > idleTmo
    ensures Idle(trace, queues, idleTmo)
  {
    assert IdleSince(trace, queues, idleTmo, a, b);
  }

  lemma ClockSnoc(env: Env, trace: seq<Call>, now: nat)
    requires ClockOf(env, trace) && now == env.clock(|trace|)
    ensures ClockOf(env, trace + [Clock(now)])
  {
  }

  /** The 64-bit difference of two clock readings. */
  method IdleTime(start: nat, now: nat) returns (t: nat)
    requires start <= now < WORD
    ensures t == now - start
  {
    t := (now - start) % WORD;
  }

  /** What follows the polls of an empty round: the clock, and a sleep if that is overdue. */
  ghost predicate Checked(env: Env, queues: nat, idleTmo: nat, polled: seq<Call>, trace: seq<Call>, ok: bool) {
    && polled + [Clock(env.clock(|polled|))] <= trace
    && if OverdueAt(trace, idleTmo, |polled|) then Sleeps(env, queues, trace, |polled| + 1, |trace|, ok)
       else |trace| == |polled| + 1 && ok
  }

  lemma CheckedAwake(env: Env, queues: nat, idleTmo: nat, polled: seq<Call>)
    requires !OverdueAt(polled + [Clock(env.clock(|polled|))], idleTmo, |polled|)
    ensures Checked(env, queues, idleTmo, polled, polled + [Clock(env.clock(|polled|))], true)
  {
  }

  lemma CheckedAsleep(env: Env, queues: nat, idleTmo: nat, polled: seq<Call>, trace: seq<Call>, ok: bool)
    requires OverdueAt(polled + [Clock(env.clock(|polled|))], idleTmo, |polled|)
    requires polled + [Clock(env.clock(|polled|))] <= trace && Sleeps(env, queues, trace, |polled| + 1, |trace|, ok)
    ensures Checked(env, queues, idleTmo, polled, trace, ok)
  {
    KeepOverdue(polled + [Clock(env.clock(|polled|))], trace, idleTmo, |polled|);
  }

  /** A later clock reading of an idle worker. */
  lemma ReadAgain(env: Env, polled: seq<Call>, now: nat, queues: nat, idleTmo: nat, a: nat, start: nat)
    requires Monotone(env) && ClockOf(env, polled) && now == env.clock(|polled|)
    requires IdlingFrom(polled, queues, a, start)
    ensures start <= now < WORD
    ensures var trace := polled + [Clock(now)];
      && ClockOf(env, trace) && IdlingFrom(trace, queues, a, start) && Received(trace) == Received(polled)
      && if now - start > idleTmo then Idle(trace, queues, idleTmo) && OverdueAt(trace, idleTmo, |polled|)
         else Checked(env, queues, idleTmo, polled, trace, true)
  {
    var trace := polled + [Clock(now)];
    KeepIdling(polled, trace, queues, a, start);
    ReceivedSnoc(polled, Clock(now));
    ClockSnoc(env, polled, now);
    LaterReading(env, polled, queues, idleTmo, a, start);
    if now - start > idleTmo {
      LongIdle(trace, queues, idleTmo, a, start, |polled|);
    } else {
      CheckedAwake(env, queues, idleTmo, polled);
    }
  }

  lemma ClockLater(env: Env, trace: seq<Call>, longer: seq<Call>)
    requires ClockOf(env, trace) && trace <= longer && forall k :: |trace| <= k < |longer| ==> !longer[k].Clock?
    ensures ClockOf(env, longer)
  {
    assert forall k {:trigger longer[k]} :: 0 <= k < |trace| ==> longer[k] == trace[k];
  }

  /** A sleep after the reading `now` leaves the worker idling, with nothing received. */
  lemma AfterSleep(env: Env, polled: seq<Call>, now: nat, read: seq<Call>, trace: seq<Call>,
                   queues: nat, idleTmo: nat, a: nat, start: nat, ok: bool)
    requires read == polled + [Clock(now)] && read <= trace && OnlyInterrupts(trace, |read|)
    requires now == env.clock(|polled|) && OverdueAt(read, idleTmo, |polled|)
    requires Sleeps(env, queues, trace, |read|, |trace|, ok)
    requires ClockOf(env, read) && IdlingFrom(read, queues, a, start)
    ensures ClockOf(env, trace) && Received(trace) == Received(polled)
    ensures IdlingFrom(trace, queues, a, start) && Checked(env, queues, idleTmo, polled, trace, ok)
  {
    CheckedAsleep(env, queues, idleTmo, polled, trace, ok);
    NoClock(trace, |read|);
    OnlyClockAnd(polled, now, trace);
    ReceivedSame(polled, trace);
    KeepIdling(read, trace, queues, a, start);
    ClockLater(env, read, trace);
  }

  /** The first clock reading after an empty round. */
  method BeginIdling(env: Env, queues: nat, polled: seq<Call>, idleTmo: nat) returns (start: nat, trace: seq<Call>)
    requires NotIdling(polled) && queues <= |polled| && Quiet(polled, |polled| - queues, |polled|)
    requires forall k :: |polled| - queues <= k < |polled| ==> polled[k].Poll?
    requires Safe(polled, queues, idleTmo) && AllOff(polled, queues) && ClockOf(env, polled)
    ensures Checked(env, queues, idleTmo, polled, trace, true)
    ensures Safe(trace, queues, idleTmo) && AllOff(trace, queues) && ClockOf(env, trace)
    ensures IdlingFrom(trace, queues, |polled|, start) && Received(trace) == Received(polled)
  {
    start := env.clock(|polled|);
    StartIdling(polled, queues, start);
    FirstReading(polled, start, idleTmo);
    CheckedAwake(env, queues, idleTmo, polled);
    Snoc(polled, Clock(start), queues, idleTmo);
    ReceivedSnoc(polled, Clock(start));
    trace := polled + [Clock(start)];
  }

  /** The clock check of an idle worker after an empty round. */
  method CheckIdle(env: Env, queues: nat, polled: seq<Call>, idleTmo: nat, idlingStart: nat, ghost a: nat)
    returns (ok: bool, trace: seq<Call>)
    requires Stops(env) && Monotone(env)
    requires Safe(polled, queues, idleTmo) && AllOff(polled, queues) && ClockOf(env, polled)
    requires IdlingFrom(polled, queues, a, idlingStart)
    ensures Checked(env, queues, idleTmo, polled, trace, ok)
    ensures Safe(trace, queues, idleTmo) && ClockOf(env, trace)
    ensures IdlingFrom(trace, queues, a, idlingStart)
    ensures if ok then AllOff(trace, queues) else Refused(trace)
    ensures Received(trace) == Received(polled)
  {
    var now := env.clock(|polled|);
    Snoc(polled, Clock(now), queues, idleTmo);
    trace := polled + [Clock(now)];
    ReadAgain(env, polled, now, queues, idleTmo, a, idlingStart);
    var idle := IdleTime(idlingStart, now);
    if idle > idleTmo {
      ghost var read := trace;
      ok, trace := Sleep(env, queues, trace, idleTmo);
      AfterSleep(env, polled, now, read, trace, queues, idleTmo, a, idlingStart, ok);
    } else {
      ok := true;
    }
  }

  lemma BusyRound(env: Env, queues: nat, idleTmo: nat, was: seq<Call>, trace: seq<Call>, cuts: seq<nat>)
    requires Rounds(env, queues, idleTmo, was, cuts, true) && was <= trace && |trace| == |was| + queues
    requires env.running(|was|) && !Quiet(trace, |was|, |trace|)
    requires forall k :: |was| <= k < |trace| ==> trace[k] == Poll(k - |was|, env.recv(k))
    ensures Rounds(env, queues, idleTmo, trace, cuts + [|trace|], true)
  {
    RoundsMore(env, queues, idleTmo, was, trace, cuts, true);
  }

  lemma IdleRound(env: Env, queues: nat, idleTmo: nat, was: seq<Call>, polled: seq<Call>, trace: seq<Call>,
                  cuts: seq<nat>, ok: bool)
    requires Rounds(env, queues, idleTmo, was, cuts, true) && was <= polled && |polled| == |was| + queues
    requires env.running(|was|) && Quiet(polled, |was|, |polled|)
    requires forall k :: |was| <= k < |polled| ==> polled[k] == Poll(k - |was|, env.recv(k))
    requires Checked(env, queues, idleTmo, polled, trace, ok)
    ensures Rounds(env, queues, idleTmo, trace, cuts + [|trace|], ok) && |trace| > |was|
  {
    var read := polled + [Clock(env.clock(|polled|))];
    PrefixTrans(polled, read, trace);
    PrefixTrans(was, polled, trace);
    KeepQuiet(polled, trace, |was|, |polled|);
    assert trace[|polled|] == read[|polled|];
    assert forall k :: 0 <= k < |polled| ==> trace[k] == polled[k];
    RoundsMore(env, queues, idleTmo, was, trace, cuts, ok);
  }

  /** What the worker remembers of the quiet stretch it is in. */
  ghost predicate Remembers(trace: seq<Call>, queues: nat, isIdling: bool, a: nat, start: nat) {
    if isIdling then IdlingFrom(trace, queues, a, start) else NotIdling(trace)
  }

  /** The rest of an empty round. */
  method EndEmptyRound(env: Env, queues: nat, ghost was: seq<Call>, polled: seq<Call>, idleTmo: nat,
                       isIdling: bool, idlingStart: nat, ghost a: nat, ghost cuts: seq<nat>)
    returns (ok: bool, start: nat, trace: seq<Call>, ghost a': nat)
    requires Stops(env) && Monotone(env) && Remembers(was, queues, isIdling, a, idlingStart)
    requires Rounds(env, queues, idleTmo, was, cuts, true) && was <= polled && |polled| == |was| + queues
    requires env.running(|was|) && Quiet(polled, |was|, |polled|)
    requires forall k :: |was| <= k < |polled| ==> polled[k] == Poll(k - |was|, env.recv(k))
    requires Safe(polled, queues, idleTmo) && AllOff(polled, queues) && ClockOf(env, polled)
    ensures Rounds(env, queues, idleTmo, trace, cuts + [|trace|], ok) && |trace| > |was|
    ensures Safe(trace, queues, idleTmo) && ClockOf(env, trace) && Remembers(trace, queues, true, a', start)
    ensures if ok then AllOff(trace, queues) else Refused(trace)
    ensures Received(trace) == Received(polled)
  {
    if !isIdling {
      KeepNotIdling(was, polled);
      ok, a' := true, |polled|;
      start, trace := BeginIdling(env, queues, polled, idleTmo);
    } else {
      KeepIdling(was, polled, queues, a, idlingStart);
      start, a' := idlingStart, a;
      ok, trace := CheckIdle(env, queues, polled, idleTmo, idlingStart, a);
    }
    IdleRound(env, queues, idleTmo, was, polled, trace, cuts, ok);
  }

  /**
   Every receive poll happens with interrupts off on all queues, and interrupts are enabled only
   after more than `idleTmo` of empty polls. Polls come in whole rounds; an empty one is followed
   by a clock reading, and an overdue reading by a whole sleep. All packets received are handed
   over, once and in order. The run ends only when the flag is cleared or a queue refuses a switch.
   */
  method PktIoRecv(env: Env, queues: nat, idleTmo: nat) returns (trace: seq<Call>, handed: seq<seq<Packet>>)
    requires Stops(env) && Monotone(env)
    ensures Safe(trace, queues, idleTmo)
    ensures Answered(env, trace) && WholeRounds(trace, queues)
    ensures queues > 0 ==>
      Onward(env, trace, 0) && ReadsClock(env, trace, queues) && SleepsWhenOverdue(env, trace, queues, idleTmo)
    ensures env.running(|trace|) ==> Refused(trace)
    ensures Sized(handed) && Flat(handed) == Received(trace)
    ensures exists at :: EachOnce(Receives(trace), Flat(handed), at)
  {
    var vec := new Vector();
    trace, handed := [], [];
    var isIdling, idlingStart: nat := false, 0;
    ghost var a: nat, cuts: seq<nat>, done := 0, [0], true;
    while env.running(|trace|)
      invariant fresh(vec) && fresh(vec.pkt) && vec.Valid() && vec.num == 0
      invariant Sized(handed) && Flat(handed) == Received(trace)
      invariant Safe(trace, queues, idleTmo) && AllOff(trace, queues) && ClockOf(env, trace)
      invariant Remembers(trace, queues, isIdling, a, idlingStart)
      invariant Rounds(env, queues, idleTmo, trace, cuts, done) && done
      decreases env.stop - |trace|
    {
      ghost var was := trace;
      var pktSum, vectors;
      pktSum, trace, vectors := PollAll(env, vec, queues, trace, idleTmo);
      HandMore(handed, vectors, Received(was), Flat(vectors));
      handed := handed + vectors;
      if pktSum != 0 {
        Busy(was, trace);
        BusyRound(env, queues, idleTmo, was, trace, cuts);
        isIdling := false;
      } else {
        var ok;
        ok, idlingStart, trace, a := EndEmptyRound(env, queues, was, trace, idleTmo, isIdling, idlingStart, a, cuts);
        isIdling := true;
        if !ok {
          cuts, done := cuts + [|trace|], false;
          break;
        }
      }
      cuts := cuts + [|trace|];
    }
    ReceivedIs(trace);
    ghost var at := ArrivedOnce(Receives(trace));
    RunLaws(env, queues, idleTmo, trace, cuts, done);
  }
}
