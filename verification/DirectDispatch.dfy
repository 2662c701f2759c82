/**
 The direct-mode workers of example/fpm_direct/app_main.c.

 A run is a sequence of rounds; each round lists what the scheduler and the
 receive queues returned in it, so every run of the worker loops is covered.
 `PktIoRecv` batches packets in a vector; it refines `PktIoRecvSingle`.
 */
module DirectDispatch {
  import opened Sequences
  import opened PacketVector

  /** One `odp_pktin_recv`: an error, or a burst. */
  datatype Receive = Failed | Got(pkts: seq<Packet>)

  datatype Round = Round(inQueue: nat, events: seq<Event>, receives: seq<Receive>)

  function Burst(r: Receive): seq<Packet> {
    if r.Got? then r.pkts else []
  }

  function EventActions(events: seq<Event>, inQueue: nat): seq<Action> {
    if events == [] then []
    else
      var ev := events[|events| - 1];
      EventActions(events[..|events| - 1], inQueue) +
      match ev
      case InvalidEvent => []
      case TimeoutEvent(_) => [HandleTimer(ev)]
      case PacketEvent(pkt) => [Input(pkt, FromQueue(inQueue))]
      case OtherEvent(_) => [FreeEvent(ev)]
  }

  function Arrivals(receives: seq<Receive>): seq<Packet> {
    if receives == [] then [] else Arrivals(receives[..|receives| - 1]) + Burst(receives[|receives| - 1])
  }

  /** What one round means, packet by packet. */
  function RoundActions(processTimers: bool, r: Round): seq<Action> {
    (if processTimers then EventActions(r.events, r.inQueue) else [])
    + Singles(Arrivals(r.receives), NoQueue)
    + [SendPending]
  }

  function RunActions(processTimers: bool, rounds: seq<Round>): seq<Action> {
    if rounds == [] then []
    else RunActions(processTimers, rounds[..|rounds| - 1]) + RoundActions(processTimers, rounds[|rounds| - 1])
  }

  ghost predicate FullOrLast(log: seq<Action>, i: nat)
    requires i < |log|
  {
    log[i].InputMulti? ==>
      && 1 <= |log[i].pkts| <= VECTOR_SIZE
      && (|log[i].pkts| < VECTOR_SIZE ==> i + 1 < |log| && log[i + 1] == SendPending)
  }

  /** A vector that is not full is the last thing handed over before the transmit queues are flushed. */
  ghost predicate FullButLast(log: seq<Action>) {
    forall i :: 0 <= i < |log| ==> FullOrLast(log, i)
  }

  ghost predicate NothingFreed(log: seq<Action>) {
    forall a | a in log :: !a.FreePacket?
  }

  lemma {:induction false} UnbatchPlain(log: seq<Action>)
    requires forall a | a in log :: !a.InputMulti?
    ensures Unbatch(log) == log
  {
    if log != [] {
      var init, a := log[..|log| - 1], log[|log| - 1];
      assert log == init + [a] && a in log;
      UnbatchPlain(init);
      UnbatchSnoc(init, a);
    }
  }

  lemma FullButLastAppend(a: seq<Action>, b: seq<Action>)
    requires FullButLast(a) && FullButLast(b)
    ensures FullButLast(a + b)
  {
    var log := a + b;
    forall i | 0 <= i < |log| ensures FullOrLast(log, i) {
      if i < |a| {
        assert FullOrLast(a, i);
      } else {
        assert FullOrLast(b, i - |a|);
      }
    }
  }

  /** The call is the one the kind of event asks for. */
  predicate Serves(a: Action, ev: Event, inQueue: nat) {
    match a
    case HandleTimer(e) => e == ev && ev.TimeoutEvent?
    case Input(pkt, queue) => ev == PacketEvent(pkt) && queue == FromQueue(inQueue)
    case FreeEvent(e) => e == ev && ev.OtherEvent?
    case _ => false
  }

  /** Call `k` serves event `at[k]`, events are served in order, and none but the invalid ones is left out. */
  ghost predicate OneCallEach(events: seq<Event>, inQueue: nat, log: seq<Action>, at: seq<nat>) {
    && |at| == |log|
    && (forall k :: 0 <= k < |log| ==> at[k] < |events| && Serves(log[k], events[at[k]], inQueue))
    && (forall j, k :: 0 <= j < k < |at| ==> at[j] < at[k])
    && (forall i :: 0 <= i < |events| && events[i] != InvalidEvent ==> i in at)
  }

  lemma OneCallSkip(events: seq<Event>, inQueue: nat, log: seq<Action>, at: seq<nat>)
    requires OneCallEach(events, inQueue, log, at)
    ensures OneCallEach(events + [InvalidEvent], inQueue, log, at)
  {
    var longer := events + [InvalidEvent];
    assert forall i :: 0 <= i < |events| ==> longer[i] == events[i];
  }

  lemma OneCallMore(events: seq<Event>, inQueue: nat, log: seq<Action>, at: seq<nat>, ev: Event, a: Action)
    requires OneCallEach(events, inQueue, log, at) && Serves(a, ev, inQueue)
    ensures OneCallEach(events + [ev], inQueue, log + [a], at + [|events|])
  {
    var longer, at' := events + [ev], at + [|events|];
    assert forall i :: 0 <= i < |events| ==> longer[i] == events[i];
    assert at'[|at|] == |events|;
    forall i | 0 <= i < |longer| && longer[i] != InvalidEvent ensures i in at' {
      assert i < |events| ==> i in at;
    }
  }

  /** Every valid event gets exactly one call, of the kind its type says, in order. */
  lemma {:induction false} EventsServedOnce(events: seq<Event>, inQueue: nat) returns (at: seq<nat>)
    ensures OneCallEach(events, inQueue, EventActions(events, inQueue), at)
  {
    if events == [] {
      at := [];
    } else {
      var init, ev := events[..|events| - 1], events[|events| - 1];
      assert events == init + [ev];
      at := EventsServedOnce(init, inQueue);
      var log := EventActions(init, inQueue);
      if ev == InvalidEvent {
        OneCallSkip(init, inQueue, log, at);
        assert log + [] == log;
      } else {
        var a := EventActions(events, inQueue)[|log|];
        OneCallMore(init, inQueue, log, at, ev, a);
        at := at + [|init|];
      }
    }
  }

  /** `at` names packet `at.1` of receive `at.0`. */
  predicate Names(receives: seq<Receive>, at: (nat, nat)) {
    at.0 < |receives| && receives[at.0].Got? && at.1 < |receives[at.0].pkts|
  }

  predicate Earlier(a: (nat, nat), b: (nat, nat)) {
    a.0 < b.0 || (a.0 == b.0 && a.1 < b.1)
  }

  /** Packet `k` is the received one that `at[k]` names, in order of arrival, and no received one is left out. */
  ghost predicate EachOnce(receives: seq<Receive>, pkts: seq<Packet>, at: seq<(nat, nat)>) {
    && |at| == |pkts|
    && (forall k :: 0 <= k < |at| ==> Names(receives, at[k]) && pkts[k] == receives[at[k].0].pkts[at[k].1])
    && (forall j, k :: 0 <= j < k < |at| ==> Earlier(at[j], at[k]))
    && (forall p: (nat, nat) :: Names(receives, p) ==> p in at)
  }

  lemma EachOnceMore(receives: seq<Receive>, pkts: seq<Packet>, at: seq<(nat, nat)>, r: Receive)
    returns (at': seq<(nat, nat)>)
    requires EachOnce(receives, pkts, at)
    ensures EachOnce(receives + [r], pkts + Burst(r), at')
  {
    var n, longer, burst := |receives|, receives + [r], Burst(r);
    var more := seq<(nat, nat)>(|burst|, k requires 0 <= k < |burst| => (n, k));
    at' := at + more;
    assert forall i :: 0 <= i < n ==> longer[i] == receives[i];
    forall k | 0 <= k < |at'|
      ensures Names(longer, at'[k]) && (pkts + burst)[k] == longer[at'[k].0].pkts[at'[k].1]
    {
      assert k < |at| ==> Names(receives, at[k]);
    }
    forall p: (nat, nat) | Names(longer, p) ensures p in at' {
      if p.0 < n {
        assert Names(receives, p);
      } else {
        assert at'[|at| + p.1] == p;
      }
    }
  }

  /** Every received packet arrives once, in order. */
  lemma {:induction false} ArrivedOnce(receives: seq<Receive>) returns (at: seq<(nat, nat)>)
    ensures EachOnce(receives, Arrivals(receives), at)
  {
    if receives == [] {
      at := [];
    } else {
      var init := receives[..|receives| - 1];
      at := ArrivedOnce(init);
      at := EachOnceMore(init, Arrivals(init), at, receives[|receives| - 1]);
      assert init + [receives[|receives| - 1]] == receives;
    }
  }

  /** A round's calls: one for each valid event, one for each received packet, the flush. */
  ghost predicate Parts(processTimers: bool, r: Round, part: seq<Action>, calls: seq<Action>, pkts: seq<Packet>) {
    && part == calls + Singles(pkts, NoQueue) + [SendPending]
    && (if processTimers then exists at :: OneCallEach(r.events, r.inQueue, calls, at) else calls == [])
    && exists at :: EachOnce(r.receives, pkts, at)
  }

  ghost predicate RoundServed(processTimers: bool, r: Round, part: seq<Action>) {
    exists calls, pkts :: Parts(processTimers, r, part, calls, pkts)
  }

  /** The log is one part for each round. */
  ghost predicate RunServed(processTimers: bool, rounds: seq<Round>, log: seq<Action>, parts: seq<seq<Action>>) {
    && |parts| == |rounds| && Flat(parts) == log
    && forall n :: 0 <= n < |rounds| ==> RoundServed(processTimers, rounds[n], parts[n])
  }

  lemma RoundActionsServe(processTimers: bool, r: Round)
    ensures RoundServed(processTimers, r, RoundActions(processTimers, r))
  {
    var calls := if processTimers then EventActions(r.events, r.inQueue) else [];
    var at := EventsServedOnce(r.events, r.inQueue);
    var pairs := ArrivedOnce(r.receives);
    assert Parts(processTimers, r, RoundActions(processTimers, r), calls, Arrivals(r.receives));
  }

  lemma RunServedMore(processTimers: bool, rounds: seq<Round>, log: seq<Action>, parts: seq<seq<Action>>,
                      r: Round, part: seq<Action>)
    requires RunServed(processTimers, rounds, log, parts) && RoundServed(processTimers, r, part)
    ensures RunServed(processTimers, rounds + [r], log + part, parts + [part])
  {
    FlatSnoc(parts, part);
  }

  /** In every run each round serves its events and its packets, all of them and once each. */
  lemma {:induction false} RunActionsServe(processTimers: bool, rounds: seq<Round>) returns (parts: seq<seq<Action>>)
    ensures RunServed(processTimers, rounds, RunActions(processTimers, rounds), parts)
  {
    if rounds == [] {
      parts := [];
    } else {
      var init, r := rounds[..|rounds| - 1], rounds[|rounds| - 1];
      parts := RunActionsServe(processTimers, init);
      RoundActionsServe(processTimers, r);
      RunServedMore(processTimers, init, RunActions(processTimers, init), parts, r, RoundActions(processTimers, r));
      assert init + [r] == rounds;
      parts := parts + [RoundActions(processTimers, r)];
    }
  }

  method HandleEvents(events: seq<Event>, inQueue: nat) returns (log: seq<Action>)
    ensures log == EventActions(events, inQueue)
    ensures exists at :: OneCallEach(events, inQueue, log, at)
    ensures forall a | a in log :: !a.InputMulti? && !a.FreePacket?
  {
    log := [];
    for i := 0 to |events|
      invariant log == EventActions(events[..i], inQueue)
      invariant forall a | a in log :: !a.InputMulti? && !a.FreePacket?
    {
      assert events[..i + 1][..i] == events[..i];
      var ev := events[i];
      if ev == InvalidEvent {
        continue;
      }
      if ev.TimeoutEvent? {
        log := log + [HandleTimer(ev)];
      } else if ev.PacketEvent? {
        log := log + [Input(ev.pkt, FromQueue(inQueue))];
      } else {
        log := log + [FreeEvent(ev)];
      }
    }
    assert events[..|events|] == events;
    ghost var at := EventsServedOnce(events, inQueue);
  }

  method ReceiveSingle(receives: seq<Receive>) returns (log: seq<Action>)
    ensures log == Singles(Arrivals(receives), NoQueue)
  {
    log := [];
    for i := 0 to |receives|
      invariant log == Singles(Arrivals(receives[..i]), NoQueue)
    {
      assert receives[..i + 1][..i] == receives[..i];
      var pkts := Burst(receives[i]);
      ghost var arrived := Arrivals(receives[..i]);
      for k := 0 to |pkts|
        invariant log == Singles(arrived + pkts[..k], NoQueue)
      {
        assert arrived + pkts[..k + 1] == (arrived + pkts[..k]) + [pkts[k]];
        log := log + [Input(pkts[k], NoQueue)];
      }
      assert pkts[..|pkts|] == pkts;
    }
    assert receives[..|receives|] == receives;
  }

  method RoundSingle(processTimers: bool, round: Round) returns (log: seq<Action>)
    ensures log == RoundActions(processTimers, round)
  {
    log := [];
    if processTimers {
      log := HandleEvents(round.events, round.inQueue);
    }
    var body := ReceiveSingle(round.receives);
    log := log + body + [SendPending];
  }

  method PktIoRecvSingle(processTimers: bool, rounds: seq<Round>) returns (log: seq<Action>)
    ensures log == RunActions(processTimers, rounds)
    ensures exists parts :: RunServed(processTimers, rounds, log, parts)
  {
    log := [];
    for n := 0 to |rounds|
      invariant log == RunActions(processTimers, rounds[..n])
    {
      assert rounds[..n + 1][..n] == rounds[..n];
      var part := RoundSingle(processTimers, rounds[n]);
      log := log + part;
    }
    assert rounds[..|rounds|] == rounds;
    ghost var parts := RunActionsServe(processTimers, rounds);
  }

  /** The receive loop of one batched round and the flush of the vector after it. */
  method ReceiveVectors(vec: Vector, receives: seq<Receive>) returns (vectors: seq<seq<Packet>>)
    requires vec.Valid() && vec.num == 0
    modifies vec`num, vec.pkt
    ensures vec.Valid() && vec.num == 0
    ensures Flat(vectors) == Arrivals(receives)
    ensures exists at :: EachOnce(receives, Flat(vectors), at)
    ensures Grouped(vectors)
  {
    vectors := [];
    for i := 0 to |receives|
      invariant vec.Valid() && !vec.IsFull() && AllFull(vectors)
      invariant Flat(vectors) + vec.Contents() == Arrivals(receives[..i])
    {
      assert receives[..i + 1][..i] == receives[..i];
      ghost var held := vec.Contents();
      var more := BatchBurst(vec, Burst(receives[i]));
      BurstStep(vectors, more, held, vec.Contents(), Arrivals(receives[..i]), Burst(receives[i]));
      vectors := vectors + more;
    }
    assert receives[..|receives|] == receives;
    ghost var last := vec.Contents();
    var tail := FlushVector(vec);
    LastVector(vectors, last, tail);
    vectors := vectors + tail;
    ghost var at := ArrivedOnce(receives);
  }

  method ReceiveBatched(vec: Vector, receives: seq<Receive>) returns (log: seq<Action>)
    requires vec.Valid() && vec.num == 0
    modifies vec`num, vec.pkt
    ensures vec.Valid() && vec.num == 0
    ensures Unbatch(log) == Singles(Arrivals(receives), NoQueue)
    ensures FullButLast(log + [SendPending]) && NothingFreed(log)
  {
    var vectors := ReceiveVectors(vec, receives);
    UnbatchHandOver(vectors);
    log := HandOver(vectors);
  }

  method RoundBatched(vec: Vector, processTimers: bool, round: Round) returns (log: seq<Action>)
    requires vec.Valid() && vec.num == 0
    modifies vec`num, vec.pkt
    ensures vec.Valid() && vec.num == 0
    ensures Unbatch(log) == RoundActions(processTimers, round)
    ensures FullButLast(log) && NothingFreed(log)
  {
    log := [];
    if processTimers {
      log := HandleEvents(round.events, round.inQueue);
    }
    var body := ReceiveBatched(vec, round.receives);
    UnbatchPlain(log);
    UnbatchAppend(log, body);
    UnbatchSnoc(log + body, SendPending);
    FullButLastAppend(log, body + [SendPending]);
    assert log + body + [SendPending] == log + (body + [SendPending]);
    log := log + body + [SendPending];
  }

  /** For every run, the batched worker makes the single-packet worker's calls, grouped. */
  method PktIoRecv(processTimers: bool, rounds: seq<Round>) returns (log: seq<Action>)
    ensures Unbatch(log) == RunActions(processTimers, rounds)
    ensures exists parts :: RunServed(processTimers, rounds, Unbatch(log), parts)
    ensures FullButLast(log) && NothingFreed(log)
  {
    var vec := new Vector();
    log := [];
    for n := 0 to |rounds|
      invariant fresh(vec) && fresh(vec.pkt) && vec.Valid() && vec.num == 0
      invariant Unbatch(log) == RunActions(processTimers, rounds[..n])
      invariant FullButLast(log) && NothingFreed(log)
    {
      assert rounds[..n + 1][..n] == rounds[..n];
      var part := RoundBatched(vec, processTimers, rounds[n]);
      UnbatchAppend(log, part);
      FullButLastAppend(log, part);
      log := log + part;
    }
    assert rounds[..|rounds|] == rounds;
    ghost var parts := RunActionsServe(processTimers, rounds);
  }
}
