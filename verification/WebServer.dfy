/**
 The connection table of example/webserver/httpd.c and the two server loops that share it.

 `connections` holds a descriptor per slot, -1 for a free one. The trace lists
 the calls and table updates of a run; `Safe` says what may happen when.
 */
module WebServer {
  import opened Sequences

  const NUM_CONNECTIONS: nat := 1024
  const FREE: int := -1

  datatype Call =
    | Select(asked: set<int>, nfds: int, ready: set<int>, knock: bool)
    | Wait(ready: set<int>, knock: bool)
    | Accept(slot: nat, fd: int)
    | NoAccept
    | Recv(slot: nat, fd: int, result: int)
    | Close(fd: int)
    | FreeSlot(slot: nat)
    | CloseListener

  /**
   The table, the descriptors reported ready and not yet served, those closed while in the
   table, whether a report of the listening socket is unanswered, the slots registered for epoll
   and the largest descriptor ever accepted.
   */
  datatype Track = Track(conns: seq<int>, reported: set<int>, closed: set<int>, knocked: bool,
                         registered: set<nat>, top: nat)

  function Live(conns: seq<int>): set<int> {
    set x | x in conns && x != FREE
  }

  function Next(t: Track, c: Call): Track {
    match c
    case Select(_, _, ready, knock) => t.(reported := ready, knocked := knock)
    case Wait(ready, knock) => t.(reported := ready, knocked := knock)
    case Accept(slot, fd) =>
      t.(conns := if slot < |t.conns| then t.conns[slot := fd] else t.conns,
         reported := t.reported - {fd}, closed := t.closed - {fd}, knocked := false,
         registered := t.registered + {slot}, top := if fd > t.top then fd else t.top)
    case NoAccept => t.(knocked := false)
    case Recv(slot, fd, _) => t.(reported := t.reported - {fd}, registered := t.registered - {slot})
    case Close(fd) => t.(closed := t.closed + {fd})
    case FreeSlot(slot) => t.(conns := if slot < |t.conns| then t.conns[slot := FREE] else t.conns)
    case CloseListener => t
  }

  /** Nothing of the last report is left to do. */
  ghost predicate RoundOver(t: Track, serv: int) {
    t.reported <= {serv} && !t.knocked
  }

  /** A report of `fd`, unless it is the listener's, has been answered by a receive. */
  ghost predicate Read(t: Track, fd: int, serv: int) {
    fd in t.reported ==> fd == serv
  }

  /** What a step must respect in a server that listens on `serv`. */
  ghost predicate Allowed(t: Track, c: Call, serv: int) {
    match c
    case Select(asked, nfds, ready, knock) =>
      && asked == Live(t.conns) + {serv} && (forall x | x in asked :: x <= nfds)
      && nfds == (if t.top > serv then t.top else serv)
      && ready <= asked && (knock <==> serv in ready) && RoundOver(t, serv)
    case Wait(ready, knock) => ready <= Live(t.conns) && (knock <==> serv in ready) && RoundOver(t, serv)
    case NoAccept => t.knocked
    case Accept(slot, fd) =>
      t.knocked && slot < |t.conns| && t.conns[slot] == FREE && fd >= 0 && fd !in t.conns && fd != serv
    case Recv(slot, fd, _) =>
      slot < |t.conns| && t.conns[slot] == fd && fd != FREE && fd in t.reported && fd != serv
    case Close(fd) => fd in Live(t.conns) && Read(t, fd, serv)
    case FreeSlot(slot) =>
      slot < |t.conns| && t.conns[slot] != FREE && t.conns[slot] in t.closed && Read(t, t.conns[slot], serv)
    case CloseListener => Live(t.conns) == {} && RoundOver(t, serv)
  }

  function TrackOf(start: seq<int>, trace: seq<Call>): Track {
    if trace == [] then Track(start, {}, {}, false, {0}, 0)
    else Next(TrackOf(start, trace[..|trace| - 1]), trace[|trace| - 1])
  }

  /** Names a call of a trace, so that what is known of all calls is used only for those a proof names. */
  ghost predicate Step(k: int) {
    0 <= k
  }

  /** Every call was allowed where it happened. */
  ghost predicate Safe(start: seq<int>, trace: seq<Call>, serv: int) {
    forall k {:trigger Step(k)} :: Step(k) && k < |trace| ==> Allowed(TrackOf(start, trace[..k]), trace[k], serv)
  }

  lemma TakeOf<T>(s: seq<T>, longer: seq<T>, i: nat)
    requires s <= longer && i <= |s|
    ensures longer[..i] == s[..i]
  {
  }

  lemma TrackSnoc(start: seq<int>, trace: seq<Call>, c: Call)
    ensures TrackOf(start, trace + [c]) == Next(TrackOf(start, trace), c)
  {
    TakeOf(trace, trace + [c], |trace|);
    assert trace[..|trace|] == trace;
  }

  lemma Snoc(start: seq<int>, trace: seq<Call>, c: Call, serv: int)
    requires Safe(start, trace, serv) && Allowed(TrackOf(start, trace), c, serv)
    ensures Safe(start, trace + [c], serv) && TrackOf(start, trace + [c]) == Next(TrackOf(start, trace), c)
  {
    TrackSnoc(start, trace, c);
    var longer := trace + [c];
    forall k | Step(k) && k < |longer| ensures Allowed(TrackOf(start, longer[..k]), longer[k], serv) {
      TakeOf(trace, longer, k);
      assert trace[..|trace|] == trace;
    }
  }

  // ----- what the environment answers

  datatype Env = Env(running: nat -> bool, select: nat -> int, ready: nat -> set<int>, slots: nat -> set<nat>,
                     accept: nat -> int, recv: nat -> int, closeOk: nat -> bool, stop: nat)

  /** The processing flag is cleared at some point, and a close is not refused forever. */
  ghost predicate Stops(env: Env) {
    forall n: nat :: n >= env.stop ==> !env.running(n) && env.closeOk(n)
  }

  /** The descriptors in the slots `pending`. */
  function ReadyOf(conns: seq<int>, pending: set<nat>): set<int> {
    set k | k in pending && k < |conns| :: conns[k]
  }

  /** The slot a new connection gets. */
  ghost predicate FirstFree(conns: seq<int>, slot: int) {
    0 <= slot < |conns| && conns[slot] == FREE && forall k :: 0 <= k < slot ==> conns[k] != FREE
  }

  /**
   Call `n` holds the answer of the environment. The select server is told the descriptors that
   are ready of those it asked for, the epoll server those in the registered slots.
   */
  ghost predicate Answers(env: Env, n: nat, t: Track, c: Call, serv: int) {
    match c
    case Select(asked, _, ready, _) =>
      env.running(n) && ready == if env.select(n) > 0 then env.ready(n) * asked else {}
    case Wait(ready, knock) =>
      var slots := if env.select(n) == 0 then {} else env.slots(n) * t.registered;
      env.running(n) && env.select(n) >= 0 && ready == ReadyOf(t.conns, slots) && (knock <==> 0 in slots)
    case Accept(slot, fd) => fd == env.accept(n) && FirstFree(t.conns, slot)
    case NoAccept => FREE !in t.conns || env.accept(n) < 0 || env.accept(n) in Live(t.conns) + {serv}
    case Recv(_, _, result) => result == env.recv(n)
    case Close(_) => true
    case FreeSlot(_) => true
    case CloseListener => true
  }

  ghost predicate Told(env: Env, start: seq<int>, trace: seq<Call>, serv: int) {
    forall k {:trigger Step(k)} :: Step(k) && k < |trace| ==>
      Answers(env, k, TrackOf(start, trace[..k]), trace[k], serv)
  }

  lemma ToldSnoc(env: Env, start: seq<int>, trace: seq<Call>, c: Call, serv: int)
    requires Told(env, start, trace, serv) && Answers(env, |trace|, TrackOf(start, trace), c, serv)
    ensures Told(env, start, trace + [c], serv)
  {
    var longer := trace + [c];
    forall k | Step(k) && k < |longer| ensures Answers(env, k, TrackOf(start, longer[..k]), longer[k], serv) {
      TakeOf(trace, longer, k);
      assert trace[..|trace|] == trace;
    }
  }

  /** What is reported and received is what the environment has ready and gives. */
  ghost predicate Heeds(env: Env, trace: seq<Call>) {
    && (forall k :: 0 <= k < |trace| && trace[k].Select? ==>
         trace[k].ready == if env.select(k) > 0 then env.ready(k) * trace[k].asked else {})
    && (forall k :: 0 <= k < |trace| && trace[k].Recv? ==> trace[k].result == env.recv(k))
    && (forall k :: 0 <= k < |trace| && trace[k].Accept? ==> trace[k].fd == env.accept(k))
  }

  lemma ToldHeeds(env: Env, start: seq<int>, trace: seq<Call>, serv: int)
    requires Told(env, start, trace, serv)
    ensures Heeds(env, trace)
  {
    forall k | 0 <= k < |trace| ensures Answers(env, k, TrackOf(start, trace[..k]), trace[k], serv) {
      assert Step(k);
    }
  }

  // ----- what holds over every run

  /** Slots in use hold different descriptors. */
  ghost predicate Unshared(conns: seq<int>) {
    forall i, j :: 0 <= i < j < |conns| && conns[i] != FREE ==> conns[i] != conns[j]
  }

  /** The prefix of a safe trace is safe, and every call in it was allowed where it happened. */
  lemma SafeAt(start: seq<int>, trace: seq<Call>, serv: int, i: nat)
    requires Safe(start, trace, serv) && i <= |trace|
    ensures Safe(start, trace[..i], serv)
    ensures i < |trace| ==> Allowed(TrackOf(start, trace[..i]), trace[i], serv)
  {
    assert Step(i);
    forall k | Step(k) && k < i ensures Allowed(TrackOf(start, trace[..i][..k]), trace[..i][k], serv) {
      TakeTake(trace, k, i);
    }
  }

  /** Over every run, no two slots ever hold the same descriptor. */
  lemma {:induction false} SafeUnshared(start: seq<int>, trace: seq<Call>, serv: int)
    requires Safe(start, trace, serv) && Unshared(start)
    ensures Unshared(TrackOf(start, trace).conns)
  {
    if trace != [] {
      SafeAt(start, trace, serv, |trace| - 1);
      SafeUnshared(start, trace[..|trace| - 1], serv);
    }
  }

  /** The report at `r` names `fd`, and `fd` is neither accepted nor served between `r` and `i`. */
  ghost predicate ReportedBy(trace: seq<Call>, fd: int, r: nat, i: nat) {
    && r < i <= |trace|
    && ((trace[r].Select? && fd in trace[r].ready) || (trace[r].Wait? && fd in trace[r].ready))
    && forall k :: r < k < i ==> !(trace[k].Accept? && trace[k].fd == fd) && !(trace[k].Recv? && trace[k].fd == fd)
  }

  lemma {:induction false} ReportedFrom(start: seq<int>, trace: seq<Call>, fd: int, i: nat)
    requires i <= |trace| && fd in TrackOf(start, trace[..i]).reported
    ensures exists r :: ReportedBy(trace, fd, r, i)
    decreases i
  {
    if i > 0 {
      assert trace[..i][..i - 1] == trace[..i - 1];
      if (trace[i - 1].Select? || trace[i - 1].Wait?) {
        assert ReportedBy(trace, fd, i - 1, i);
      } else {
        ReportedFrom(start, trace, fd, i - 1);
        var r :| ReportedBy(trace, fd, r, i - 1);
        assert ReportedBy(trace, fd, r, i);
      }
    }
  }

  /** A connection is served only on a report made after it was accepted, and once per report. */
  lemma ServedWhenReported(start: seq<int>, trace: seq<Call>, serv: int, i: nat)
    requires Safe(start, trace, serv) && i < |trace| && trace[i].Recv?
    ensures exists r :: ReportedBy(trace, trace[i].fd, r, i)
  {
    SafeAt(start, trace, serv, i);
    ReportedFrom(start, trace, trace[i].fd, i);
  }

  predicate Report(c: Call) {
    c.Select? || c.Wait?
  }

  lemma FreedLive(conns: seq<int>, i: nat)
    requires i < |conns|
    ensures Live(conns[i := FREE]) <= Live(conns) <= Live(conns[i := FREE]) + {conns[i]}
    ensures forall x | x in conns[i := FREE] :: x == FREE || x in conns
  {
    var conns' := conns[i := FREE];
    forall x | x in Live(conns) && x != conns[i] ensures x in Live(conns') {
      var k :| 0 <= k < |conns| && conns[k] == x;
      assert conns'[k] == x;
    }
  }

  lemma AcceptedLive(conns: seq<int>, i: nat, fd: int)
    requires i < |conns| && conns[i] == FREE && fd >= 0
    ensures Live(conns[i := fd]) == Live(conns) + {fd}
    ensures forall x | x in conns[i := fd] :: x == fd || x in conns
  {
    var conns' := conns[i := fd];
    assert conns'[i] == fd;
    forall x | x in Live(conns) ensures x in Live(conns') {
      var k :| 0 <= k < |conns| && conns[k] == x;
      assert conns'[k] == x;
    }
  }

  lemma NextReportedLive(t: Track, c: Call, serv: int)
    requires Allowed(t, c, serv) && t.reported <= Live(t.conns) + {serv}
    ensures Next(t, c).reported <= Live(Next(t, c).conns) + {serv}
  {
    match c
    case Accept(slot, fd) => AcceptedLive(t.conns, slot, fd);
    case FreeSlot(slot) => FreedLive(t.conns, slot);
    case Select(_, _, _, _) =>
    case Wait(_, _) =>
    case NoAccept =>
    case Recv(_, _, _) =>
    case Close(_) =>
    case CloseListener =>
  }

  /** A descriptor that is reported and not yet read stays in the table. */
  lemma {:induction false} ReportedLive(start: seq<int>, trace: seq<Call>, serv: int)
    requires Safe(start, trace, serv)
    ensures TrackOf(start, trace).reported <= Live(TrackOf(start, trace).conns) + {serv}
  {
    if trace != [] {
      SafeAt(start, trace, serv, |trace| - 1);
      ReportedLive(start, trace[..|trace| - 1], serv);
      NextReportedLive(TrackOf(start, trace[..|trace| - 1]), trace[|trace| - 1], serv);
    }
  }

  lemma NextStillReported(t: Track, c: Call, serv: int, fd: int)
    requires Allowed(t, c, serv) && t.reported <= Live(t.conns) + {serv} && !Report(c)
    ensures fd in t.reported && fd != serv && !(c.Recv? && c.fd == fd) ==> fd in Next(t, c).reported
    ensures t.knocked && !c.Accept? && c != NoAccept ==> Next(t, c).knocked
  {
  }

  lemma {:induction false} StillReported(start: seq<int>, trace: seq<Call>, serv: int, fd: int, r: nat, i: nat)
    requires Safe(start, trace, serv)
    requires r < i <= |trace| && Report(trace[r]) && forall k :: r < k < i ==> !Report(trace[k])
    ensures fd in trace[r].ready && fd != serv && (forall k :: r < k < i ==> !(trace[k].Recv? && trace[k].fd == fd)) ==>
      fd in TrackOf(start, trace[..i]).reported
    ensures trace[r].knock && (forall k :: r < k < i ==> !trace[k].Accept? && trace[k] != NoAccept) ==>
      TrackOf(start, trace[..i]).knocked
    decreases i
  {
    assert trace[..i][..i - 1] == trace[..i - 1];
    if i != r + 1 {
      StillReported(start, trace, serv, fd, r, i - 1);
      SafeAt(start, trace, serv, i - 1);
      ReportedLive(start, trace[..i - 1], serv);
      NextStillReported(TrackOf(start, trace[..i - 1]), trace[i - 1], serv, fd);
    }
  }

  /** Between two reports every reported connection is read and a reported listener is answered. */
  lemma ServedBeforeNext(start: seq<int>, trace: seq<Call>, serv: int, fd: int, r: nat, i: nat)
    requires Safe(start, trace, serv) && r < i < |trace| && Report(trace[r]) && Report(trace[i])
    requires forall k :: r < k < i ==> !Report(trace[k])
    ensures fd in trace[r].ready && fd != serv ==> exists k :: r < k < i && trace[k].Recv? && trace[k].fd == fd
    ensures trace[r].knock ==> exists k :: r < k < i && (trace[k].Accept? || trace[k] == NoAccept)
  {
    SafeAt(start, trace, serv, i);
    StillReported(start, trace, serv, fd, r, i);
  }

  lemma FreedGone(conns: seq<int>, slot: nat)
    requires Unshared(conns) && slot < |conns| && conns[slot] != FREE
    ensures conns[slot] !in conns[slot := FREE]
  {
    assert forall k :: 0 <= k < |conns| && k != slot ==> conns[k] != conns[slot];
  }

  lemma StaysGone(t: Track, c: Call, fd: int)
    requires fd !in t.conns && fd != FREE && !(c.Accept? && c.fd == fd)
    ensures fd !in Next(t, c).conns
  {
  }

  /** Once the slot of `fd` has been freed, `fd` is not in the table until it is accepted again. */
  lemma {:induction false} GoneUntilAccepted(start: seq<int>, trace: seq<Call>, serv: int, fd: int, j: nat, i: nat)
    requires Safe(start, trace, serv) && Unshared(start) && fd != FREE
    requires j < i <= |trace| && trace[j].FreeSlot?
    requires trace[j].slot < |TrackOf(start, trace[..j]).conns| && TrackOf(start, trace[..j]).conns[trace[j].slot] == fd
    requires forall k :: j < k < i ==> !(trace[k].Accept? && trace[k].fd == fd)
    ensures fd !in TrackOf(start, trace[..i]).conns
    decreases i
  {
    assert trace[..i][..i - 1] == trace[..i - 1];
    if i == j + 1 {
      SafeAt(start, trace, serv, j);
      SafeUnshared(start, trace[..j], serv);
      FreedGone(TrackOf(start, trace[..j]).conns, trace[j].slot);
    } else {
      GoneUntilAccepted(start, trace, serv, fd, j, i - 1);
      StaysGone(TrackOf(start, trace[..i - 1]), trace[i - 1], fd);
    }
  }

  /** No descriptor is closed after its slot was freed, unless it was accepted again in between. */
  lemma ClosedOnlyWhileHeld(start: seq<int>, trace: seq<Call>, serv: int, j: nat, i: nat)
    requires Safe(start, trace, serv) && Unshared(start)
    requires j < i < |trace| && trace[j].FreeSlot? && trace[i].Close?
    requires trace[j].slot < |TrackOf(start, trace[..j]).conns|
    requires TrackOf(start, trace[..j]).conns[trace[j].slot] == trace[i].fd
    ensures exists k :: j < k < i && trace[k].Accept? && trace[k].fd == trace[i].fd
  {
    SafeAt(start, trace, serv, i);
    if !exists k :: j < k < i && trace[k].Accept? && trace[k].fd == trace[i].fd {
      GoneUntilAccepted(start, trace, serv, trace[i].fd, j, i);
      assert false;
    }
  }

  /** A slot keeps the descriptor it was given until it is freed. */
  lemma {:induction false} HeldUntilFreed(start: seq<int>, trace: seq<Call>, serv: int, a: nat, i: nat)
    requires Safe(start, trace, serv) && a < i <= |trace| && trace[a].Accept?
    requires forall k :: a < k < i ==> !(trace[k].FreeSlot? && trace[k].slot == trace[a].slot)
    ensures var conns := TrackOf(start, trace[..i]).conns;
      trace[a].slot < |conns| && conns[trace[a].slot] == trace[a].fd && trace[a].fd >= 0
    decreases i
  {
    assert trace[..i][..i - 1] == trace[..i - 1];
    if i == a + 1 {
      SafeAt(start, trace, serv, a);
    } else {
      HeldUntilFreed(start, trace, serv, a, i - 1);
      SafeAt(start, trace, serv, i - 1);
    }
  }

  lemma {:induction false} ClosedSince(start: seq<int>, trace: seq<Call>, a: nat, i: nat)
    requires a < i <= |trace| && trace[a].Accept? && trace[a].fd in TrackOf(start, trace[..i]).closed
    ensures exists k :: a < k < i && trace[k].Close? && trace[k].fd == trace[a].fd
    decreases i
  {
    assert trace[..i][..i - 1] == trace[..i - 1];
    if i == a + 1 {
      assert false;
    } else if !(trace[i - 1].Close? && trace[i - 1].fd == trace[a].fd) {
      ClosedSince(start, trace, a, i - 1);
    }
  }

  /** If no slot is in use at the end of a run, every connection accepted in it was closed. */
  lemma AcceptedIsClosed(start: seq<int>, trace: seq<Call>, serv: int, a: nat)
    requires Safe(start, trace, serv) && a < |trace| && trace[a].Accept?
    requires Live(TrackOf(start, trace).conns) == {}
    ensures exists k :: a < k < |trace| && trace[k].Close? && trace[k].fd == trace[a].fd
  {
    var slot := trace[a].slot;
    var i := a + 1;
    while i < |trace| && !(trace[i].FreeSlot? && trace[i].slot == slot)
      invariant a < i <= |trace| && forall k :: a < k < i ==> !(trace[k].FreeSlot? && trace[k].slot == slot)
    {
      i := i + 1;
    }
    HeldUntilFreed(start, trace, serv, a, i);
    assert trace[..|trace|] == trace;
    assert TrackOf(start, trace[..i]).conns[slot] in Live(TrackOf(start, trace[..i]).conns);
    if i == |trace| {
      assert false;
    } else {
      SafeAt(start, trace, serv, i);
      ClosedSince(start, trace, a, i);
    }
  }

  // ----- the table operations

  /** The stack never hands out a descriptor that is in use. */
  function AcceptAnswer(env: Env, n: nat, inUse: set<int>): (fd: int)
    ensures fd !in inUse || fd < 0
  {
    if env.accept(n) in inUse then -1 else env.accept(n)
  }

  /**
   In the epoll server slot 0 listens, registered slots are in use, and the slots still to be
   served are those reported.
   */
  ghost predicate Polled(t: Track, pending: set<nat>, serv: int) {
    && |t.conns| > 0 && t.conns[0] == serv && 0 in t.registered && pending <= t.registered
    && (forall k | k in t.registered :: k < |t.conns| && t.conns[k] != FREE)
    && (forall k | k in pending && k != 0 :: t.conns[k] in t.reported)
    && (forall x | x in t.reported && x != serv :: exists k :: k in pending && t.conns[k] == x)
    && (t.knocked <==> 0 in pending)
  }

  lemma PolledOver(t: Track, serv: int)
    requires Polled(t, {}, serv)
    ensures RoundOver(t, serv)
  {
    assert forall x | x in t.reported :: x == serv;
  }

  lemma PolledWait(t: Track, pending: set<nat>, ready: set<int>, serv: int)
    requires Polled(t, {}, serv) && Unshared(t.conns) && serv != FREE && pending <= t.registered
    requires ready == ReadyOf(t.conns, pending)
    ensures Allowed(t, Wait(ready, 0 in pending), serv)
    ensures Polled(Next(t, Wait(ready, 0 in pending)), pending, serv)
  {
    PolledOver(t, serv);
  }

  lemma PolledAccept(t: Track, pending: set<nat>, slot: nat, fd: int, serv: int)
    requires Polled(t, pending, serv) && 0 in pending
    requires slot < |t.conns| && t.conns[slot] == FREE && fd >= 0 && fd !in t.conns
    ensures Polled(Next(t, Accept(slot, fd)), pending - {0}, serv)
  {
    var t' := Next(t, Accept(slot, fd));
    assert slot !in t.registered;
    forall x | x in t'.reported && x != serv ensures exists k :: k in pending - {0} && t'.conns[k] == x {
      var k :| k in pending && t.conns[k] == x;
      assert k in pending - {0} && t'.conns[k] == x;
    }
  }

  lemma PolledServed(t: Track, t': Track, pending: set<nat>, slot: nat, serv: int)
    requires Polled(t, pending, serv) && slot in pending && slot != 0 && Unshared(t.conns)
    requires t'.conns == t.conns || t'.conns == t.conns[slot := FREE]
    requires t'.reported == t.reported - {t.conns[slot]} && t'.knocked == t.knocked
    requires t'.registered == t.registered - {slot}
    ensures Polled(t', pending - {slot}, serv)
  {
    forall x | x in t'.reported && x != serv ensures exists k :: k in pending - {slot} && t'.conns[k] == x {
      var k :| k in pending && t.conns[k] == x;
      assert k in pending - {slot} && t'.conns[k] == x;
    }
  }

  // ----- what follows a receive in the epoll server

  /** Call `i` is a receive that failed. */
  ghost predicate Failed(trace: seq<Call>, i: int) {
    0 <= i < |trace| && trace[i].Recv? && trace[i].result < 0
  }

  /** Call `i` is a receive that got a request or the end of the stream. */
  ghost predicate Answered(trace: seq<Call>, i: int) {
    0 <= i < |trace| && trace[i].Recv? && trace[i].result >= 0
  }

  /** The call reports, fills, reads, closes or frees the slot or the descriptor. */
  predicate Mentions(c: Call, slot: nat, fd: int) {
    match c
    case Select(_, _, ready, _) => fd in ready
    case Wait(ready, _) => fd in ready
    case Accept(s, f) => s == slot || f == fd
    case Recv(s, f, _) => s == slot || f == fd
    case Close(f) => f == fd
    case FreeSlot(s) => s == slot
    case NoAccept => false
    case CloseListener => false
  }

  /** Nothing happens to the connection any more after the receive at `i`. */
  ghost predicate Abandoned(trace: seq<Call>, i: nat)
    requires i < |trace| && trace[i].Recv?
  {
    forall k :: i < k < |trace| ==> !Mentions(trace[k], trace[i].slot, trace[i].fd)
  }

  /**
   The receive at `i` is followed by closing the descriptor and, at `k`, by freeing its slot. After
   a request the close is repeated until it succeeds; after an end of file it is tried once.
   */
  ghost predicate FreedBy(env: Env, trace: seq<Call>, i: int, k: int) {
    && 0 <= i && i + 1 < k < |trace| && trace[i].Recv? && trace[k] == FreeSlot(trace[i].slot)
    && (forall m :: i < m < k ==> trace[m] == Close(trace[i].fd))
    && if trace[i].result > 0 then env.closeOk(k - 1) && forall m :: i < m < k - 1 ==> !env.closeOk(m) else k == i + 2
  }

  /** Call `k` closes or frees because of the receive at `i`. */
  ghost predicate Due(env: Env, trace: seq<Call>, i: int, k: int, e: int) {
    i < k <= e && FreedBy(env, trace, i, e) && Answered(trace, i)
  }

  predicate Closes(trace: seq<Call>, k: int) {
    0 <= k < |trace| && (trace[k].Close? || trace[k].FreeSlot?)
  }

  /** A connection is closed and its slot freed right after a receive that did not fail, and only then. */
  ghost predicate ClosesWhenRead(env: Env, trace: seq<Call>) {
    && (forall i :: Answered(trace, i) ==> exists k :: FreedBy(env, trace, i, k))
    && (forall k :: Closes(trace, k) ==> exists i, e :: Due(env, trace, i, k, e))
  }

  /** After a receive that failed the connection is left alone. */
  ghost predicate Settled(trace: seq<Call>) {
    forall i :: Failed(trace, i) ==> Abandoned(trace, i)
  }

  lemma KeepFreedBy(env: Env, trace: seq<Call>, longer: seq<Call>, i: int, k: int)
    requires FreedBy(env, trace, i, k) && trace <= longer
    ensures FreedBy(env, longer, i, k)
  {
  }

  /** More calls: none that closes, no receive that did not fail. */
  lemma ClosesMore(env: Env, trace: seq<Call>, longer: seq<Call>)
    requires ClosesWhenRead(env, trace) && trace <= longer
    requires forall k :: |trace| <= k ==> !Closes(longer, k) && !Answered(longer, k)
    ensures ClosesWhenRead(env, longer)
  {
    forall i | Answered(longer, i) ensures exists k :: FreedBy(env, longer, i, k) {
      assert Answered(trace, i);
      var k :| FreedBy(env, trace, i, k);
      KeepFreedBy(env, trace, longer, i, k);
    }
    forall k | Closes(longer, k) ensures exists i, e :: Due(env, longer, i, k, e) {
      assert Closes(trace, k);
      var i, e :| Due(env, trace, i, k, e);
      KeepFreedBy(env, trace, longer, i, e);
      assert Due(env, longer, i, k, e);
    }
  }

  /** A receive and the closing after it. */
  lemma ClosesRead(env: Env, trace: seq<Call>, longer: seq<Call>)
    requires ClosesWhenRead(env, trace) && trace < longer && Answered(longer, |trace|)
    requires FreedBy(env, longer, |trace|, |longer| - 1)
    ensures ClosesWhenRead(env, longer)
  {
    forall i | Answered(longer, i) ensures exists k :: FreedBy(env, longer, i, k) {
      if i < |trace| {
        assert Answered(trace, i);
        var k :| FreedBy(env, trace, i, k);
        KeepFreedBy(env, trace, longer, i, k);
      }
    }
    forall k | Closes(longer, k) ensures exists i, e :: Due(env, longer, i, k, e) {
      if k < |trace| {
        assert Closes(trace, k);
        var i, e :| Due(env, trace, i, k, e);
        KeepFreedBy(env, trace, longer, i, e);
        assert Due(env, longer, i, k, e);
      } else {
        assert Due(env, longer, |trace|, k, |longer| - 1);
      }
    }
  }

  /** Connections whose receive failed are still in their slots, which are not registered. */
  ghost predicate Kept(t: Track, trace: seq<Call>) {
    forall i :: Failed(trace, i) ==>
      var c := trace[i];
      c.slot < |t.conns| && t.conns[c.slot] == c.fd && c.fd != FREE && c.slot !in t.registered
  }

  /** The slot of a receive is freed after it exactly when the receive did not fail. */
  lemma FreedExactly(env: Env, trace: seq<Call>, i: nat)
    requires Settled(trace) && ClosesWhenRead(env, trace) && i < |trace| && trace[i].Recv?
    ensures (exists k :: i < k < |trace| && trace[k] == FreeSlot(trace[i].slot)) <==> trace[i].result >= 0
  {
    if trace[i].result >= 0 {
      assert Answered(trace, i);
      var k :| FreedBy(env, trace, i, k);
      assert trace[k] == FreeSlot(trace[i].slot);
    } else {
      assert Failed(trace, i);
    }
  }

  /** A call that leaves the abandoned connections alone. */
  ghost predicate LeavesAlone(trace: seq<Call>, c: Call) {
    forall i :: Failed(trace, i) ==> !Mentions(c, trace[i].slot, trace[i].fd)
  }

  lemma SettledExtend(trace: seq<Call>, longer: seq<Call>)
    requires Settled(trace) && trace <= longer
    requires forall k :: |trace| <= k < |longer| ==> LeavesAlone(trace, longer[k])
    requires forall i :: |trace| <= i < |longer| && longer[i].Recv? && longer[i].result < 0 ==> i == |longer| - 1
    ensures Settled(longer)
  {
    forall i | Failed(longer, i) ensures Abandoned(longer, i) {
      if i < |trace| {
        assert Failed(trace, i);
      }
    }
  }

  /** A report of registered slots does not name an abandoned connection. */
  lemma WaitLeavesAlone(t: Track, trace: seq<Call>, pending: set<nat>, c: Call)
    requires Kept(t, trace) && Unshared(t.conns) && pending <= t.registered
    requires forall k | k in pending :: k < |t.conns|
    requires c.Wait? && c.ready == ReadyOf(t.conns, pending)
    ensures LeavesAlone(trace, c)
  {
    forall i | Failed(trace, i) ensures !Mentions(c, trace[i].slot, trace[i].fd) {
      assert forall k | k in pending :: k != trace[i].slot && t.conns[k] != trace[i].fd;
    }
  }

  lemma SettledServed(t: Track, t': Track, trace: seq<Call>, longer: seq<Call>, slot: nat, fd: int)
    requires Settled(trace) && Kept(t, trace) && Unshared(t.conns) && t'.registered == t.registered - {slot}
    requires slot in t.registered && slot < |t.conns| && t.conns[slot] == fd && fd != FREE
    requires trace < longer && longer[|trace|].Recv? && longer[|trace|].slot == slot && longer[|trace|].fd == fd
    requires forall k :: |trace| < k < |longer| ==> longer[k] == Close(fd) || longer[k] == FreeSlot(slot)
    requires if longer[|trace|].result < 0 then |longer| == |trace| + 1 && t'.conns == t.conns
      else t'.conns == t.conns[slot := FREE]
    ensures Settled(longer) && Kept(t', longer)
  {
    forall k | |trace| <= k < |longer| ensures LeavesAlone(trace, longer[k]) {
      forall i | Failed(trace, i) ensures !Mentions(longer[k], trace[i].slot, trace[i].fd) {
        assert trace[i].slot != slot && t.conns[trace[i].slot] == trace[i].fd;
      }
    }
    SettledExtend(trace, longer);
    forall i | Failed(longer, i)
      ensures var c := longer[i];
        c.slot < |t'.conns| && t'.conns[c.slot] == c.fd && c.fd != FREE && c.slot !in t'.registered
    {
      if i < |trace| {
        assert Failed(trace, i);
      }
    }
  }

  /** A call that is no receive and leaves the table entries of the abandoned connections alone. */
  lemma SettledSnoc(t: Track, t': Track, trace: seq<Call>, c: Call)
    requires Settled(trace) && Kept(t, trace) && !c.Recv? && LeavesAlone(trace, c)
    requires |t'.conns| == |t.conns|
    requires forall i :: Failed(trace, i) ==>
      t'.conns[trace[i].slot] == t.conns[trace[i].slot] && trace[i].slot !in t'.registered
    ensures Settled(trace + [c]) && Kept(t', trace + [c])
  {
    var longer := trace + [c];
    SettledExtend(trace, longer);
    forall i | Failed(longer, i)
      ensures var d := longer[i];
        d.slot < |t'.conns| && t'.conns[d.slot] == d.fd && d.fd != FREE && d.slot !in t'.registered
    {
      assert Failed(trace, i);
    }
  }

  lemma SettledAccept(t: Track, trace: seq<Call>, slot: nat, fd: int)
    requires Settled(trace) && Kept(t, trace)
    requires slot < |t.conns| && t.conns[slot] == FREE && fd !in t.conns
    ensures Settled(trace + [Accept(slot, fd)])
    ensures Kept(Next(t, Accept(slot, fd)), trace + [Accept(slot, fd)])
  {
    var t' := Next(t, Accept(slot, fd));
    forall i | Failed(trace, i)
      ensures trace[i].slot != slot && trace[i].fd != fd && t'.conns[trace[i].slot] == t.conns[trace[i].slot]
    {
      assert t.conns[trace[i].slot] == trace[i].fd;
    }
    SettledSnoc(t, t', trace, Accept(slot, fd));
  }

  /** Call `k` closes a connection or frees the slot of the one closed just before. */
  ghost predicate PairAt(start: seq<int>, trace: seq<Call>, from: nat, k: nat)
    requires from <= k < |trace|
  {
    if trace[k].Close? then k + 1 < |trace| && trace[k + 1].FreeSlot?
    else
      && trace[k].FreeSlot? && k > from
      && var conns := TrackOf(start, trace[..k]).conns;
         trace[k].slot < |conns| && trace[k - 1] == Close(conns[trace[k].slot])
  }

  /** From `from` on connections are closed and their slots freed, one after the other. */
  ghost predicate Pairs(start: seq<int>, trace: seq<Call>, from: nat) {
    forall k :: from <= k < |trace| ==> PairAt(start, trace, from, k)
  }

  lemma KeepPair(start: seq<int>, trace: seq<Call>, longer: seq<Call>, from: nat, k: nat)
    requires from <= k < |trace| && PairAt(start, trace, from, k) && trace <= longer
    ensures PairAt(start, longer, from, k)
  {
    assert longer[..k] == trace[..k];
  }

  lemma PairsMore(start: seq<int>, trace: seq<Call>, from: nat, conns: seq<int>, slot: nat)
    requires Pairs(start, trace, from) && from <= |trace| && conns == TrackOf(start, trace).conns && slot < |conns|
    ensures Pairs(start, trace + [Close(conns[slot])] + [FreeSlot(slot)], from)
  {
    var closed := trace + [Close(conns[slot])];
    var longer := closed + [FreeSlot(slot)];
    assert closed[..|trace|] == trace && longer[..|closed|] == closed;
    forall k | from <= k < |longer| ensures PairAt(start, longer, from, k) {
      if k < |trace| {
        KeepPair(start, trace, longer, from, k);
      }
    }
  }

  /** After `was` come tries to close `fd`, of which none but perhaps the last succeeds. */
  ghost predicate Tries(env: Env, was: seq<Call>, trace: seq<Call>, fd: int) {
    && was < trace
    && (forall k :: |was| <= k < |trace| ==> trace[k] == Close(fd))
    && (forall k :: |was| <= k < |trace| - 1 ==> !env.closeOk(k))
  }

  lemma CloseTwice(t: Track, fd: int)
    ensures Next(Next(t, Close(fd)), Close(fd)) == Next(t, Close(fd))
  {
  }

  lemma TriesMore(env: Env, was: seq<Call>, trace: seq<Call>, fd: int)
    requires Tries(env, was, trace, fd) && !env.closeOk(|trace| - 1)
    ensures Tries(env, was, trace + [Close(fd)], fd)
  {
  }

  /** After `was` the descriptor is closed, insisting on it or not, and its slot is freed. */
  ghost predicate ClosedAndFreed(env: Env, was: seq<Call>, trace: seq<Call>, fd: int, slot: nat, insist: bool) {
    && trace != [] && trace[|trace| - 1] == FreeSlot(slot) && Tries(env, was, trace[..|trace| - 1], fd)
    && if insist then env.closeOk(|trace| - 2) else |trace| == |was| + 2
  }

  lemma FreeAfter(env: Env, was: seq<Call>, trace: seq<Call>, fd: int, slot: nat, insist: bool)
    requires Tries(env, was, trace, fd)
    requires if insist then env.closeOk(|trace| - 1) else |trace| == |was| + 1
    ensures ClosedAndFreed(env, was, trace + [FreeSlot(slot)], fd, slot, insist)
  {
    assert (trace + [FreeSlot(slot)])[..|trace|] == trace;
  }

  lemma ReadAndFreed(env: Env, was: seq<Call>, trace: seq<Call>, fd: int, slot: nat, result: nat)
    requires ClosedAndFreed(env, was + [Recv(slot, fd, result)], trace, fd, slot, result > 0)
    ensures was < trace && trace[|was|] == Recv(slot, fd, result) && FreedBy(env, trace, |was|, |trace| - 1)
    ensures forall k :: |was| <= k < |trace| ==> !Report(trace[k])
    ensures forall k :: |was| <= k < |trace| ==> trace[k] != FreeSlot(0) || slot == 0
  {
    var tries := trace[..|trace| - 1];
    assert tries[|was|] == (was + [Recv(slot, fd, result)])[|was|];
    assert forall k :: 0 <= k < |tries| ==> trace[k] == tries[k];
    assert was <= trace;
  }

  /** No select among the first `n` calls failed. */
  ghost predicate NoFailedSelect(env: Env, trace: seq<Call>, n: int) {
    forall k :: 0 <= k < n && k < |trace| && trace[k].Select? ==> env.select(k) >= 0
  }

  lemma KeepNoFailedSelect(env: Env, trace: seq<Call>, longer: seq<Call>, n: int)
    requires NoFailedSelect(env, trace, n) && trace <= longer
    requires forall k :: |trace| <= k < |longer| ==> longer[k].Select? ==> k >= n || env.select(k) >= 0
    ensures NoFailedSelect(env, longer, n)
  {
  }

  lemma SnocTake<T>(s: seq<T>, x: T, prefix: seq<T>)
    requires prefix <= s
    ensures (s + [x])[..|s|] == s && (s + [x])[..|prefix|] == prefix
  {
  }

  class Server {
    const connections: array<int>
    const serv: int
    const env: Env
    ghost const start: seq<int>
    var trace: seq<Call>

    ghost predicate Valid()
      reads this, connections
    {
      && connections.Length == NUM_CONNECTIONS == |start| && serv >= 0 && Stops(env)
      && Safe(start, trace, serv) && Told(env, start, trace, serv)
      && connections[..] == TrackOf(start, trace).conns
    }

    /** A server over `table` that has made no call yet. */
    constructor (env: Env, serv: int, table: array<int>)
      requires table.Length == NUM_CONNECTIONS && serv >= 0 && Stops(env)
      ensures Valid() && trace == [] && connections == table && start == table[..]
      ensures this.serv == serv && this.env == env
    {
      this.env := env;
      connections := table;
      this.serv := serv;
      start := table[..];
      trace := [];
    }

    method Record(c: Call)
      requires Valid() && Allowed(TrackOf(start, trace), c, serv) && !c.Accept? && !c.FreeSlot?
      requires Answers(env, |trace|, TrackOf(start, trace), c, serv)
      modifies this`trace
      ensures Valid() && trace == old(trace) + [c] && TrackOf(start, trace) == Next(old(TrackOf(start, trace)), c)
    {
      Snoc(start, trace, c, serv);
      ToldSnoc(env, start, trace, c, serv);
      trace := trace + [c];
    }

    method SetSlot(i: nat, fd: int, c: Call)
      requires Valid() && i < NUM_CONNECTIONS && Allowed(TrackOf(start, trace), c, serv)
      requires Answers(env, |trace|, TrackOf(start, trace), c, serv)
      requires c == Accept(i, fd) || (c == FreeSlot(i) && fd == FREE)
      modifies this`trace, connections
      ensures Valid() && trace == old(trace) + [c] && TrackOf(start, trace) == Next(old(TrackOf(start, trace)), c)
      ensures connections[..] == old(connections[..])[i := fd]
    {
      Snoc(start, trace, c, serv);
      ToldSnoc(env, start, trace, c, serv);
      connections[i] := fd;
      trace := trace + [c];
    }

    /** First free slot, then the call: with a full table the stack is not even asked. */
    method AcceptConnection() returns (fd: int, slot: nat)
      requires Valid() && TrackOf(start, trace).knocked
      modifies this`trace, connections
      ensures Valid()
      ensures var answer := AcceptAnswer(env, |old(trace)|, old(Live(connections[..])) + {serv});
        fd == if FREE in old(connections[..]) && answer >= 0 then answer else -1
      ensures fd < 0 ==>
        && connections[..] == old(connections[..]) && trace == old(trace) + [NoAccept]
        && TrackOf(start, trace) == Next(old(TrackOf(start, trace)), NoAccept)
      ensures fd >= 0 ==>
        && FirstFree(old(connections[..]), slot)
        && connections[..] == old(connections[..])[slot := fd]
        && fd !in old(Live(connections[..])) && fd != serv
        && trace == old(trace) + [Accept(slot, fd)]
        && TrackOf(start, trace) == Next(old(TrackOf(start, trace)), Accept(slot, fd))
    {
      slot := 0;
      while slot < NUM_CONNECTIONS && connections[slot] != FREE
        invariant slot <= NUM_CONNECTIONS && forall k :: 0 <= k < slot ==> connections[k] != FREE
      {
        slot := slot + 1;
      }
      if slot >= NUM_CONNECTIONS {
        Record(NoAccept);
        return -1, slot;
      }
      assert connections[..][slot] == FREE;
      fd := AcceptAnswer(env, |trace|, Live(connections[..]) + {serv});
      if fd < 0 {
        Record(NoAccept);
        return -1, slot;
      }
      SetSlot(slot, fd, Accept(slot, fd));
    }

    /** Close a descriptor until the stack agrees. */
    method CloseUntilDone(fd: int)
      requires Valid() && fd in Live(connections[..]) && Read(TrackOf(start, trace), fd, serv)
      modifies this`trace
      ensures Valid() && TrackOf(start, trace) == Next(old(TrackOf(start, trace)), Close(fd))
      ensures Tries(env, old(trace), trace, fd) && env.closeOk(|trace| - 1)
    {
      ghost var was, t := trace, Next(TrackOf(start, trace), Close(fd));
      var closed := env.closeOk(|trace|);
      Record(Close(fd));
      while !closed
        invariant Valid() && TrackOf(start, trace) == t && Tries(env, was, trace, fd)
        invariant closed == env.closeOk(|trace| - 1)
        decreases !closed, env.stop - |trace|
      {
        closed := env.closeOk(|trace|);
        TriesMore(env, was, trace, fd);
        CloseTwice(TrackOf(start, was), fd);
        Record(Close(fd));
      }
    }

    /** After a request the close is repeated until it succeeds; after an end of file it is tried once. */
    method CloseAndFree(i: nat, insist: bool)
      requires Valid() && i < NUM_CONNECTIONS && connections[i] != FREE
      requires Read(TrackOf(start, trace), connections[i], serv)
      modifies this`trace, connections
      ensures Valid() && connections[..] == old(connections[..])[i := FREE]
      ensures TrackOf(start, trace) == Next(Next(old(TrackOf(start, trace)), Close(old(connections[i]))), FreeSlot(i))
      ensures ClosedAndFreed(env, old(trace), trace, old(connections[i]), i, insist)
    {
      var fd := connections[i];
      assert connections[..][i] == fd;
      if insist {
        CloseUntilDone(fd);
      } else {
        Record(Close(fd));
      }
      FreeAfter(env, old(trace), trace, fd, i, insist);
      SetSlot(i, FREE, FreeSlot(i));
    }

    ghost predicate ListenerKept(from: nat)
      reads this
    {
      forall k :: from <= k < |trace| ==> !(trace[k].FreeSlot? && trace[k].slot == 0)
    }

    method HandleConnection(i: nat)
      requires Valid() && i < NUM_CONNECTIONS && connections[i] != FREE
      requires connections[i] in TrackOf(start, trace).reported && connections[i] != serv
      requires ClosesWhenRead(env, trace)
      modifies this`trace, connections
      ensures Valid() && old(trace) < trace
      ensures trace[|old(trace)|] == Recv(i, old(connections[i]), env.recv(|old(trace)|))
      ensures if env.recv(|old(trace)|) < 0
        then |trace| == |old(trace)| + 1 && connections[..] == old(connections[..])
        else FreedBy(env, trace, |old(trace)|, |trace| - 1) && connections[..] == old(connections[..])[i := FREE]
      ensures TrackOf(start, trace).reported == old(TrackOf(start, trace)).reported - {old(connections[i])}
      ensures TrackOf(start, trace).knocked == old(TrackOf(start, trace)).knocked
      ensures TrackOf(start, trace).registered == old(TrackOf(start, trace)).registered - {i}
      ensures TrackOf(start, trace).top == old(TrackOf(start, trace)).top
      ensures ClosesWhenRead(env, trace)
      ensures forall k :: |old(trace)| <= k < |trace| ==> !Report(trace[k])
      ensures i != 0 ==> ListenerKept(|old(trace)|)
    {
      ghost var was := trace;
      var fd := connections[i];
      assert connections[..][i] == fd;
      var r := env.recv(|trace|);
      Record(Recv(i, fd, r));
      if r < 0 {
        ClosesMore(env, was, trace);
        return;
      }
      CloseAndFree(i, r > 0);
      ReadAndFreed(env, was, trace, fd, i, r);
      ClosesRead(env, was, trace);
    }

    /** `monitor_connections`: every descriptor in use joins the set. */
    method MonitorConnections(readFd: set<int>) returns (asked: set<int>)
      requires Valid()
      ensures asked == readFd + Live(connections[..])
    {
      asked := readFd;
      for i := 0 to NUM_CONNECTIONS
        invariant asked == readFd + Live(connections[..i])
      {
        assert connections[..i + 1] == connections[..i] + [connections[i]];
        if connections[i] != FREE {
          asked := asked + {connections[i]};
        }
      }
      assert connections[..NUM_CONNECTIONS] == connections[..];
    }

    /** `nfds` is the largest descriptor ever accepted or the listening socket, and so covers those in use. */
    ghost predicate Covers(nfds: int)
      reads this, connections
    {
      && (forall x | x in Live(connections[..]) :: x <= nfds)
      && nfds == var top := TrackOf(start, trace).top; if top > serv then top else serv
    }

    /** Serve every slot whose descriptor was reported, and leave none of the report unserved. */
    method ServeReady(ready: set<int>, nfds: int) returns (readFd: set<int>)
      requires Valid() && serv !in connections[..]
      requires ready == TrackOf(start, trace).reported && ready <= Live(connections[..]) + {serv}
      requires !TrackOf(start, trace).knocked
      requires Covers(nfds) && ClosesWhenRead(env, trace)
      modifies this`trace, connections
      ensures Valid() && serv !in connections[..] && old(trace) <= trace && ClosesWhenRead(env, trace)
      ensures forall k :: |old(trace)| <= k < |trace| ==> !Report(trace[k])
      ensures readFd == TrackOf(start, trace).reported && RoundOver(TrackOf(start, trace), serv)
      ensures Covers(nfds)
    {
      readFd := ready;
      assert connections[0..] == connections[..];
      for i := 0 to NUM_CONNECTIONS
        invariant Valid() && serv !in connections[..] && old(trace) <= trace && ClosesWhenRead(env, trace)
        invariant forall k :: |old(trace)| <= k < |trace| ==> !Report(trace[k])
        invariant readFd == TrackOf(start, trace).reported && !TrackOf(start, trace).knocked
        invariant forall x | x in readFd && x != serv :: x in connections[i..] && x != FREE
        invariant Covers(nfds)
      {
        ghost var rest := connections[i + 1..];
        assert connections[i..] == [connections[i]] + rest;
        if connections[i] != FREE && connections[i] in readFd {
          var tmpFd := connections[i];
          ghost var conns := connections[..];
          assert conns[i] == tmpFd;
          HandleConnection(i);
          FreedLive(conns, i);
          assert connections[i + 1..] == connections[..][i + 1..] == rest;
          readFd := readFd - {tmpFd};
        }
      }
      assert connections[NUM_CONNECTIONS..] == [];
      assert forall x | x in readFd :: x == serv;
    }

    /** Close what is still open: afterwards the table is empty. */
    method Cleanup()
      requires Valid() && RoundOver(TrackOf(start, trace), serv)
      modifies this`trace, connections
      ensures Valid() && Live(connections[..]) == {}
      ensures old(trace) <= trace && RoundOver(TrackOf(start, trace), serv)
      ensures Pairs(start, trace, |old(trace)|)
    {
      for i := 0 to NUM_CONNECTIONS
        invariant Valid() && old(trace) <= trace && RoundOver(TrackOf(start, trace), serv)
        invariant Pairs(start, trace, |old(trace)|)
        invariant forall k :: 0 <= k < i ==> connections[k] == FREE
      {
        ghost var was, conns := trace, connections[..];
        assert connections[..][i] == connections[i];
        if connections[i] != FREE {
          Record(Close(connections[i]));
          SetSlot(i, FREE, FreeSlot(i));
          PairsMore(start, was, |old(trace)|, conns, i);
          assert trace == was + [Close(conns[i])] + [FreeSlot(i)];
          assert forall k :: 0 <= k < i ==> connections[k] == connections[..][k];
        }
      }
    }

    /** Answer the report of the listening socket: a new descriptor is covered by `nfds'` and not yet reported. */
    method AcceptReported(ghost ready: set<int>, nfds: int) returns (nfds': int)
      requires Valid() && serv !in connections[..] && TrackOf(start, trace).knocked
      requires ready == TrackOf(start, trace).reported && ready <= Live(connections[..]) + {serv}
      requires Covers(nfds) && ClosesWhenRead(env, trace)
      modifies this`trace, connections
      ensures Valid() && serv !in connections[..] && !TrackOf(start, trace).knocked
      ensures old(trace) < trace && |trace| == |old(trace)| + 1 && !Report(trace[|old(trace)|])
      ensures ready == TrackOf(start, trace).reported && ready <= Live(connections[..]) + {serv}
      ensures Covers(nfds') && ClosesWhenRead(env, trace)
    {
      ghost var conns, was := connections[..], trace;
      var tmpFd, slot := AcceptConnection();
      if tmpFd >= 0 {
        AcceptedLive(conns, slot, tmpFd);
      }
      nfds' := if tmpFd > nfds then tmpFd else nfds;
      ClosesMore(env, was, trace);
    }

    /** In the select server `readFd` names connections in use or the listening socket. */
    ghost predicate Selecting(readFd: set<int>, nfds: int)
      reads this, connections
    {
      && Valid() && serv !in connections[..] && readFd <= Live(connections[..]) + {serv}
      && Covers(nfds) && ClosesWhenRead(env, trace)
    }

    /** Call select for the listening socket and all connections. */
    method AskReady(readFd: set<int>, nfds: int) returns (r: int, readFd': set<int>)
      requires Selecting(readFd, nfds) && RoundOver(TrackOf(start, trace), serv) && env.running(|trace|)
      modifies this`trace
      ensures r == env.select(|old(trace)|) && Selecting(readFd', nfds)
      ensures old(trace) < trace && |trace| == |old(trace)| + 1 && trace[|old(trace)|].Select?
      ensures TrackOf(start, trace).reported == (if r > 0 then readFd' else {})
      ensures TrackOf(start, trace).knocked <==> r > 0 && serv in readFd'
    {
      ghost var was := trace;
      var asked := MonitorConnections(readFd + {serv});
      r := env.select(|trace|);
      readFd' := env.ready(|trace|) * asked;
      Record(Select(asked, nfds, if r > 0 then readFd' else {}, r > 0 && serv in readFd'));
      ClosesMore(env, was, trace);
    }

    /** Answer the listening socket and read the connections that are ready. */
    method ServeReport(readFd: set<int>, nfds: int) returns (readFd': set<int>, nfds': int)
      requires Selecting(readFd, nfds) && readFd == TrackOf(start, trace).reported
      requires TrackOf(start, trace).knocked <==> serv in readFd
      modifies this`trace, connections
      ensures Selecting(readFd', nfds') && RoundOver(TrackOf(start, trace), serv)
      ensures old(trace) <= trace && forall k :: |old(trace)| <= k < |trace| ==> !Report(trace[k])
    {
      nfds' := nfds;
      if serv in readFd {
        nfds' := AcceptReported(readFd, nfds);
      }
      readFd' := ServeReady(readFd, nfds');
    }

    /** One select and what it reports, if it does not fail. */
    method SelectRound(readFd: set<int>, nfds: int) returns (r: int, readFd': set<int>, nfds': int)
      requires Selecting(readFd, nfds) && RoundOver(TrackOf(start, trace), serv) && env.running(|trace|)
      modifies this`trace, connections
      ensures r == env.select(|old(trace)|) && old(trace) < trace && trace[|old(trace)|].Select?
      ensures Selecting(readFd', nfds') && RoundOver(TrackOf(start, trace), serv)
      ensures r < 0 ==> |trace| == |old(trace)| + 1
      ensures forall k :: |old(trace)| < k < |trace| ==> !Report(trace[k])
    {
      nfds' := nfds;
      r, readFd' := AskReady(readFd, nfds);
      if r > 0 {
        readFd', nfds' := ServeReport(readFd', nfds);
      }
    }

    method SelectLoop()
      requires Valid() && trace == [] && forall i :: 0 <= i < NUM_CONNECTIONS ==> connections[i] == FREE
      modifies this`trace, connections
      ensures Valid() && RoundOver(TrackOf(start, trace), serv) && ClosesWhenRead(env, trace)
      ensures env.running(|trace|) ==> trace != [] && trace[|trace| - 1].Select? && env.select(|trace| - 1) < 0
      ensures NoFailedSelect(env, trace, |trace| - 1)
    {
      var readFd: set<int> := {};
      var nfds := serv;
      assert Live(connections[..]) == {};
      while env.running(|trace|)
        invariant Selecting(readFd, nfds) && RoundOver(TrackOf(start, trace), serv)
        invariant NoFailedSelect(env, trace, |trace|)
        decreases env.stop - |trace|
      {
        ghost var was := trace;
        var r;
        r, readFd, nfds := SelectRound(readFd, nfds);
        if r < 0 {
          KeepNoFailedSelect(env, was, trace, |trace| - 1);
          break;
        }
        KeepNoFailedSelect(env, was, trace, |trace|);
      }
    }

    /**
     The loop lasts until the flag is cleared or a select fails. What is ready is reported and
     read; a connection is closed after a receive that did not fail. In the end every connection
     and the listening socket are closed.
     */
    method WebserverSelect() returns (ghost loopEnd: nat)
      requires Valid() && trace == [] && forall i :: 0 <= i < NUM_CONNECTIONS ==> connections[i] == FREE
      modifies this`trace, connections
      ensures Valid() && Live(connections[..]) == {}
      ensures loopEnd < |trace| && trace[|trace| - 1] == CloseListener
      ensures env.running(loopEnd) ==> loopEnd > 0 && trace[loopEnd - 1].Select? && env.select(loopEnd - 1) < 0
      ensures NoFailedSelect(env, trace[..loopEnd], loopEnd - 1)
      ensures Heeds(env, trace) && ClosesWhenRead(env, trace[..loopEnd])
      ensures Pairs(start, trace[..|trace| - 1], loopEnd)
    {
      SelectLoop();
      loopEnd := |trace|;
      ghost var atEnd := trace;
      Cleanup();
      ghost var cleaned := trace;
      Record(CloseListener);
      SnocTake(cleaned, CloseListener, atEnd);
      ToldHeeds(env, start, trace, serv);
    }

    ghost predicate Polling(registered: set<nat>, pending: set<nat>)
      reads this, connections
    {
      && Valid() && Unshared(start) && Polled(TrackOf(start, trace), pending, serv)
      && registered == TrackOf(start, trace).registered
      && Settled(trace) && Kept(TrackOf(start, trace), trace) && ClosesWhenRead(env, trace)
    }

    /** An event on slot 0: accept a connection and register it, or register nothing. */
    method ServeListener(registered: set<nat>, pending: set<nat>) returns (registered': set<nat>)
      requires Polling(registered, pending) && 0 in pending
      modifies this`trace, connections
      ensures Polling(registered', pending - {0})
      ensures old(trace) <= trace && ListenerKept(|old(trace)|)
      ensures var fd := env.accept(|old(trace)|);
        fd >= 0 && fd !in old(connections[..]) && fd != serv ==>
          forall s :: FirstFree(old(connections[..]), s) ==>
            && registered' == registered + {s} && trace == old(trace) + [Accept(s, fd)]
            && connections[..] == old(connections[..])[s := fd]
    {
      ghost var t, was := TrackOf(start, trace), trace;
      var tmpFd, connId := AcceptConnection();
      assert env.accept(|was|) !in t.conns ==> env.accept(|was|) !in Live(t.conns);
      assert forall s :: FirstFree(t.conns, s) ==> FREE in t.conns && (tmpFd >= 0 ==> s == connId);
      if tmpFd < 0 {
        registered' := registered;
        assert Polled(TrackOf(start, trace), pending - {0}, serv);
        SettledSnoc(t, TrackOf(start, trace), was, NoAccept);
      } else {
        registered' := registered + {connId};
        PolledAccept(t, pending, connId, tmpFd, serv);
        SettledAccept(t, was, connId, tmpFd);
      }
      ClosesMore(env, was, trace);
    }

    /** An event on any other slot: serve the connection and take it out of the set, whatever came of it. */
    method ServeConnection(registered: set<nat>, pending: set<nat>, slot: nat) returns (registered': set<nat>)
      requires Polling(registered, pending) && slot in pending && slot != 0
      modifies this`trace, connections
      ensures Polling(registered', pending - {slot}) && registered' == registered - {slot}
      ensures old(trace) < trace && ListenerKept(|old(trace)|)
      ensures trace[|old(trace)|] == Recv(slot, old(connections[slot]), env.recv(|old(trace)|))
      ensures env.recv(|old(trace)|) < 0 ==> |trace| == |old(trace)| + 1 && connections[..] == old(connections[..])
    {
      ghost var t, was := TrackOf(start, trace), trace;
      SafeUnshared(start, trace, serv);
      assert t.conns[slot] == connections[slot];
      HandleConnection(slot);
      registered' := registered - {slot};
      PolledServed(t, TrackOf(start, trace), pending, slot, serv);
      SettledServed(t, TrackOf(start, trace), was, trace, slot, t.conns[slot]);
    }

    method ServeSlot(registered: set<nat>, pending: set<nat>, slot: nat) returns (registered': set<nat>)
      requires Polling(registered, pending) && slot in pending
      modifies this`trace, connections
      ensures Polling(registered', pending - {slot})
      ensures old(trace) <= trace && ListenerKept(|old(trace)|)
    {
      SafeUnshared(start, trace, serv);
      assert connections[..][slot] == connections[slot];
      if connections[slot] == serv {
        assert slot == 0;
        registered' := ServeListener(registered, pending);
      } else {
        registered' := ServeConnection(registered, pending, slot);
      }
    }

    /** The events of one report, in any order. */
    method ServeSlots(registered: set<nat>, pending: set<nat>) returns (registered': set<nat>)
      requires Polling(registered, pending)
      modifies this`trace, connections
      ensures Polling(registered', {})
      ensures old(trace) <= trace && ListenerKept(|old(trace)|)
    {
      registered' := registered;
      var left := pending;
      while left != {}
        invariant Polling(registered', left)
        invariant old(trace) <= trace && ListenerKept(|old(trace)|)
        decreases left
      {
        var slot :| slot in left;
        registered' := ServeSlot(registered', left, slot);
        left := left - {slot};
      }
    }

    /** One `epoll_wait`: any registered slots are reported. */
    method WaitEvents(registered: set<nat>, r: int) returns (pending: set<nat>)
      requires Polling(registered, {}) && env.running(|trace|) && r == env.select(|trace|) && r >= 0
      modifies this`trace
      ensures Polling(registered, pending)
      ensures pending == if r == 0 then {} else env.slots(|old(trace)|) * registered
      ensures trace == old(trace) + [Wait(ReadyOf(connections[..], pending), 0 in pending)]
    {
      pending := if r == 0 then {} else env.slots(|trace|) * registered;
      var c := Wait(ReadyOf(connections[..], pending), 0 in pending);
      ghost var t := TrackOf(start, trace);
      SafeUnshared(start, trace, serv);
      PolledWait(t, pending, c.ready, serv);
      WaitLeavesAlone(t, trace, pending, c);
      SettledSnoc(t, Next(t, c), trace, c);
      ClosesMore(env, trace, trace + [c]);
      Record(c);
    }

    /**
     The listening socket keeps slot 0 until the loop has ended; then everything is closed. Until
     then a connection whose receive failed keeps its slot and is not reported, read or closed again.
     */
    method WebserverEpoll() returns (loopEnd: nat)
      requires Valid() && trace == [] && start[0] == serv
      requires forall i :: 1 <= i < NUM_CONNECTIONS ==> start[i] == FREE
      modifies this`trace, connections
      ensures Valid() && Live(connections[..]) == {} && RoundOver(TrackOf(start, trace), serv)
      ensures loopEnd <= |trace| && (env.running(loopEnd) ==> env.select(loopEnd) < 0)
      ensures Heeds(env, trace) && ClosesWhenRead(env, trace[..loopEnd]) && Pairs(start, trace, loopEnd)
      ensures forall k :: 0 <= k < loopEnd ==> !(trace[k].FreeSlot? && trace[k].slot == 0)
      ensures var conns := TrackOf(start, trace[..loopEnd]).conns; |conns| > 0 && conns[0] == serv
      ensures Settled(trace[..loopEnd]) && Kept(TrackOf(start, trace[..loopEnd]), trace[..loopEnd])
    {
      var registered := {0};
      while env.running(|trace|)
        invariant Polling(registered, {}) && ListenerKept(0)
        decreases env.stop - |trace|
      {
        var r := env.select(|trace|);
        if r < 0 {
          break;
        }
        var pending := WaitEvents(registered, r);
        registered := ServeSlots(registered, pending);
      }
      PolledOver(TrackOf(start, trace), serv);
      loopEnd := |trace|;
      ghost var atEnd := trace;
      Cleanup();
      assert trace[..loopEnd] == atEnd;
      ToldHeeds(env, start, trace, serv);
    }
  }

  // ----- one run with a failing receive

  /** Slot 0 is ready first and slot 1 ever after; the stack accepts descriptor 5 and fails every receive. */
  function FailingEnv(): Env {
    Env(n => n < 5, n => 1, n => {}, n => if n == 0 then {0} else {1}, n => 5, n => -1, n => true, 5)
  }

  method FailingStart() returns (server: Server)
    ensures fresh(server) && fresh(server.connections)
    ensures server.Polling({0}, {}) && server.serv == 3 && server.env == FailingEnv() && server.trace == []
    ensures server.connections[0] == 3 && forall k :: 1 <= k < NUM_CONNECTIONS ==> server.connections[k] == FREE
  {
    var table := new int[NUM_CONNECTIONS](i => if i == 0 then 3 else FREE);
    server := new Server(FailingEnv(), 3, table);
    assert server.connections[..][0] == 3;
  }

  method FailingAccept(server: Server)
    requires server.Polling({0}, {}) && server.serv == 3 && server.env == FailingEnv() && server.trace == []
    requires server.connections[0] == 3 && forall k :: 1 <= k < NUM_CONNECTIONS ==> server.connections[k] == FREE
    modifies server`trace, server.connections
    ensures server.Polling({0, 1}, {}) && server.connections[1] == 5
    ensures server.trace == [Wait({3}, true), Accept(1, 5)]
  {
    ghost var conns := server.connections[..];
    assert FirstFree(conns, 1) && 5 !in conns && conns[0] == 3;
    assert FailingEnv().slots(0) * {0} == {0} && ReadyOf(conns, {0}) == {3};
    var pending := server.WaitEvents({0}, 1);
    assert server.trace == [Wait({3}, true)];
    var registered := server.ServeListener({0}, pending);
    assert registered == {0, 1} && pending - {0} == {};
    assert server.trace == [Wait({3}, true)] + [Accept(1, 5)];
    assert server.connections[..][1] == 5;
  }

  method FailingServe(server: Server)
    requires server.Polling({0, 1}, {}) && server.env == FailingEnv() && server.connections[1] == 5
    requires server.trace == [Wait({3}, true), Accept(1, 5)]
    modifies server`trace, server.connections
    ensures server.Polling({0}, {}) && server.connections[1] == 5
    ensures server.trace == [Wait({3}, true), Accept(1, 5), Wait({5}, false), Recv(1, 5, -1)]
  {
    ghost var conns := server.connections[..];
    assert conns[1] == 5;
    assert FailingEnv().slots(2) * {0, 1} == {1} && ReadyOf(conns, {1}) == {5};
    var pending := server.WaitEvents({0, 1}, 1);
    var registered := server.ServeConnection({0, 1}, pending, 1);
    assert registered == {0} && pending - {1} == {} && server.connections[..][1] == 5;
  }

  /**
   A connection is accepted and reported, its receive fails, and it is reported no more although
   the stack has data for it, while it still holds its slot.
   */
  method FailingReceive() returns (server: Server)
    ensures server.Polling({0}, {}) && server.connections[1] == 5
    ensures server.trace == [Wait({3}, true), Accept(1, 5), Wait({5}, false), Recv(1, 5, -1), Wait({}, false)]
  {
    server := FailingStart();
    FailingAccept(server);
    FailingServe(server);
    assert FailingEnv().slots(4) * {0} == {} && ReadyOf(server.connections[..], {}) == {};
    var pending := server.WaitEvents({0}, 1);
  }
}
