/**
 The partial-send loops of example/netwrap_crt: `writev` over an iovec list and
 `sendfile64` in chunks. The environment answers each call from the number of
 calls made before it: any pattern of short sends, refusals and errors. The log
 lists the calls made and their answers; `Run` says which calls may be made when.
 */
module SendLoops {
  import opened Common
  import opened Sequences

  const BUF_SIZE: nat := 1024

  datatype SendAnswer = Sent(n: nat) | WouldBlock | Failed

  datatype Env = Env(send: nat -> SendAnswer, read: nat -> int, seekOk: nat -> bool, patience: nat)

  /** One call: `lseek` to learn or to set the position, `read`, `nfp_send`. */
  datatype Io =
    | Tell(at: int)
    | SeekSet(to: int, ok: bool)
    | Read(result: int)
    | Send(data: seq<Byte>, answer: SendAnswer)

  /** The peer does not refuse data forever. */
  ghost predicate Progress(env: Env) {
    forall n: nat :: n >= env.patience ==> env.send(n).Failed? || (env.send(n).Sent? && env.send(n).n > 0)
  }

  // ----- what a log says

  predicate Fails(io: Io) {
    match io
    case Tell(at) => at == -1
    case SeekSet(_, ok) => !ok
    case Read(result) => result < 0
    case Send(_, answer) => answer.Failed?
  }

  predicate EndsInFailure(log: seq<Io>) {
    log != [] && Fails(log[|log| - 1])
  }

  /** How many of the offered bytes the socket took. */
  function Taken(io: Io): (n: nat)
    ensures n > 0 ==> io.Send? && n <= |io.data|
  {
    if io.Send? && io.answer.Sent? then Min(io.answer.n, |io.data|) else 0
  }

  function SentBy(log: seq<Io>): nat {
    if log == [] then 0 else SentBy(log[..|log| - 1]) + Taken(log[|log| - 1])
  }

  /** The bytes the socket took, in order. */
  function Output(log: seq<Io>): seq<Byte> {
    if log == [] then []
    else
      var io := log[|log| - 1];
      Output(log[..|log| - 1]) + if Taken(io) > 0 then io.data[..Taken(io)] else []
  }

  /** The number of bytes read from the file. */
  function ReadBy(log: seq<Io>): nat {
    if log == [] then 0
    else
      var io := log[|log| - 1];
      ReadBy(log[..|log| - 1]) + if io.Read? && io.result > 0 then io.result else 0
  }

  /** A read of the file at `pos`: an error, end of file, or at least one byte. */
  function ReadAnswer(env: Env, n: nat, file: seq<Byte>, pos: nat): (r: int)
    ensures r < 0 <==> env.read(n) < 0
    ensures r >= 0 ==> (r == 0 <==> pos >= |file|) && r <= BUF_SIZE && (r > 0 ==> pos + r <= |file|)
  {
    if env.read(n) < 0 then -1
    else if pos >= |file| then 0
    else
      var most := Min(BUF_SIZE, |file| - pos);
      if env.read(n) == 0 then 1 else Min(env.read(n), most)
  }

  /** What is to be sent: buffers in memory that end where `ends` says, or `count` bytes of a file from `from` on. */
  datatype Job = Buffers(bytes: seq<Byte>, ends: set<nat>) | Copy(file: seq<Byte>, from: int, count: nat)

  function Stream(job: Job): seq<Byte> {
    match job
    case Buffers(bytes, _) => bytes
    case Copy(file, from, _) => if 0 <= from <= |file| then file[from..] else []
  }

  /** Names an end of a buffer, so that what is known of all ends is used only for those a proof names. */
  ghost predicate End(e: int) {
    0 <= e
  }

  /** With `sent` bytes sent and `read` bytes read, the bytes at hand reach up to `end`. */
  ghost predicate AtHand(job: Job, sent: nat, read: nat, end: nat) {
    match job
    case Buffers(_, ends) => end in ends && forall e {:trigger End(e)} :: End(e) && e in ends ==> e <= sent || e >= end
    case Copy(_, _, _) => end == read
  }

  /** `data` is all that is at hand and not yet sent. */
  ghost predicate Offers(job: Job, sent: nat, read: nat, data: seq<Byte>) {
    var end := sent + |data|;
    data != [] && AtHand(job, sent, read, end) && end <= |Stream(job)| && data == Stream(job)[sent..end]
  }

  /**
   Every call gets its answer. A send offers all that is at hand and not yet sent, and at least
   a byte. The file is read only when everything read was sent, and fewer than `count` bytes were.
   */
  ghost predicate Allowed(env: Env, job: Job, before: seq<Io>, io: Io) {
    var n, sent, read := |before|, SentBy(before), ReadBy(before);
    match io
    case Tell(at) => job.Copy? && (at == -1 <==> !env.seekOk(n))
    case SeekSet(to, ok) => job.Copy? && (ok <==> to >= 0 && env.seekOk(n))
    case Read(result) =>
      && job.Copy? && job.from >= 0 && sent == read < job.count
      && result == ReadAnswer(env, n, job.file, job.from + read)
    case Send(data, answer) => answer == env.send(n) && Offers(job, sent, read, data)
  }

  /** Every call was allowed when it was made, and none was made after a failure. */
  ghost predicate Run(env: Env, job: Job, log: seq<Io>) {
    log == [] ||
    var io, before := log[|log| - 1], log[..|log| - 1];
    Run(env, job, before) && !EndsInFailure(before) && Allowed(env, job, before, io)
  }

  lemma {:induction false} RunPrefix(env: Env, job: Job, log: seq<Io>, n: nat)
    requires Run(env, job, log) && n <= |log|
    ensures Run(env, job, log[..n]) && (n < |log| ==> !EndsInFailure(log[..n]))
  {
    if n == |log| {
      assert log[..n] == log;
    } else {
      RunPrefix(env, job, log[..|log| - 1], n);
      TakeTake(log, n, |log| - 1);
    }
  }

  /** What `Run` says of every call of a log. */
  lemma RunAt(env: Env, job: Job, log: seq<Io>, n: nat)
    requires Run(env, job, log) && n < |log|
    ensures Allowed(env, job, log[..n], log[n])
    ensures n < |log| - 1 ==> !Fails(log[n])
  {
    RunPrefix(env, job, log, n + 1);
    TakeTake(log, n, n + 1);
  }

  lemma Snoc(env: Env, job: Job, log: seq<Io>, io: Io)
    requires Run(env, job, log) && !EndsInFailure(log) && Allowed(env, job, log, io)
    ensures Run(env, job, log + [io]) && EndsInFailure(log + [io]) == Fails(io)
    ensures SentBy(log + [io]) == SentBy(log) + Taken(io)
    ensures ReadBy(log + [io]) == ReadBy(log) + if io.Read? && io.result > 0 then io.result else 0
  {
    assert (log + [io])[..|log|] == log;
  }

  /** The environment lets call `n` fail. */
  predicate LetsFail(env: Env, n: nat, io: Io) {
    match io
    case Tell(_) => !env.seekOk(n)
    case SeekSet(to, _) => to < 0 || !env.seekOk(n)
    case Read(_) => env.read(n) < 0
    case Send(_, _) => env.send(n).Failed?
  }

  /** A run ends in failure exactly when the environment let one of its calls fail. */
  lemma FailsExactly(env: Env, job: Job, log: seq<Io>)
    requires Run(env, job, log)
    ensures EndsInFailure(log) <==> exists n :: 0 <= n < |log| && LetsFail(env, n, log[n])
  {
    forall n | 0 <= n < |log| ensures LetsFail(env, n, log[n]) <==> Fails(log[n]) {
      RunAt(env, job, log, n);
    }
    forall n | 0 <= n < |log| - 1 ensures !Fails(log[n]) {
      RunAt(env, job, log, n);
    }
  }

  lemma SliceMore<T>(s: seq<T>, i: nat, j: nat, n: nat)
    requires i <= j <= |s| && n <= j - i
    ensures s[..i] + s[i..j][..n] == s[..i + n]
  {
  }

  lemma OutputMore(out: seq<Byte>, stream: seq<Byte>, sent: nat, io: Io)
    requires sent <= |stream| && out == stream[..sent]
    requires io.Send? ==> sent + |io.data| <= |stream| && io.data == stream[sent..sent + |io.data|]
    ensures sent + Taken(io) <= |stream|
    ensures out + (if Taken(io) > 0 then io.data[..Taken(io)] else []) == stream[..sent + Taken(io)]
  {
    if Taken(io) > 0 {
      SliceMore(stream, sent, sent + |io.data|, Taken(io));
    }
  }

  /** In every run what was sent is the beginning of the stream. */
  lemma {:induction false} SentInOrder(env: Env, job: Job, log: seq<Io>)
    requires Run(env, job, log)
    ensures SentBy(log) <= |Stream(job)| && Output(log) == Stream(job)[..SentBy(log)]
  {
    if log != [] {
      var before, io := log[..|log| - 1], log[|log| - 1];
      SentInOrder(env, job, before);
      OutputMore(Output(before), Stream(job), SentBy(before), io);
    }
  }

  /** In every run the file is read from `from` on, no further than its end, and never far beyond `count`. */
  lemma {:induction false} ReadBounds(env: Env, job: Job, log: seq<Io>)
    requires Run(env, job, log) && job.Copy?
    ensures SentBy(log) <= ReadBy(log)
    ensures ReadBy(log) > 0 ==>
      job.from >= 0 && job.count > 0 && job.from + ReadBy(log) <= |job.file| && ReadBy(log) < job.count + BUF_SIZE
  {
    if log != [] {
      ReadBounds(env, job, log[..|log| - 1]);
    }
  }

  // ----- sending a buffer

  lemma SliceRest<T>(s: seq<T>, i: nat, j: nat, d: nat)
    requires i + d <= j <= |s|
    ensures s[i..j][d..] == s[i + d..j]
  {
  }

  lemma OffersRest(job: Job, sent: nat, read: nat, data: seq<Byte>, done: nat)
    requires Offers(job, sent, read, data) && done < |data|
    ensures Offers(job, sent + done, read, data[done..])
  {
    SliceRest(Stream(job), sent, sent + |data|, done);
  }

  lemma SendSnoc(env: Env, job: Job, log: seq<Io>, rest: seq<Byte>)
    requires Run(env, job, log) && !EndsInFailure(log) && Offers(job, SentBy(log), ReadBy(log), rest)
    ensures var io := Send(rest, env.send(|log|)); var log' := log + [io];
      && Run(env, job, log') && EndsInFailure(log') == io.answer.Failed? && ReadBy(log') == ReadBy(log)
      && SentBy(log') == SentBy(log) + Taken(io)
  {
    Snoc(env, job, log, Send(rest, env.send(|log|)));
  }

  /** One pass of the send loop: offer what is left. */
  method SendOnce(env: Env, rest: seq<Byte>, log: seq<Io>, ghost job: Job) returns (n: nat, log': seq<Io>)
    requires Progress(env) && Run(env, job, log) && !EndsInFailure(log)
    requires Offers(job, SentBy(log), ReadBy(log), rest)
    ensures log' == log + [Send(rest, env.send(|log|))] && Run(env, job, log')
    ensures ReadBy(log') == ReadBy(log) && n <= |rest| && SentBy(log') == SentBy(log) + n
    ensures |log| >= env.patience ==> n > 0 || EndsInFailure(log')
    ensures EndsInFailure(log') ==> n == 0
  {
    var answer := env.send(|log|);
    SendSnoc(env, job, log, rest);
    log' := log + [Send(rest, answer)];
    n := if answer.Sent? then Min(answer.n, |rest|) else 0;
  }

  /** `log` is `first` and then reads and sends only. */
  ghost predicate Copies(first: seq<Io>, log: seq<Io>) {
    first <= log && forall n :: |first| <= n < |log| ==> log[n].Read? || log[n].Send?
  }

  lemma CopiesTrans(a: seq<Io>, b: seq<Io>, c: seq<Io>)
    requires Copies(a, b) && Copies(b, c)
    ensures Copies(a, c)
  {
    forall n | |a| <= n < |c| ensures c[n].Read? || c[n].Send? {
      assert n < |b| ==> c[n] == b[n];
    }
  }

  lemma OffersNext(job: Job, log: seq<Io>, log': seq<Io>, data: seq<Byte>, done: nat)
    requires Offers(job, SentBy(log), ReadBy(log), data) && done < |data|
    requires SentBy(log') == SentBy(log) + done && ReadBy(log') == ReadBy(log)
    ensures Offers(job, SentBy(log'), ReadBy(log'), data[done..])
  {
    OffersRest(job, SentBy(log), ReadBy(log), data, done);
  }

  /** The inner loop of both functions: send all of `data`, whatever is accepted at a time. */
  method SendAll(env: Env, data: seq<Byte>, log: seq<Io>, ghost job: Job) returns (ok: bool, log': seq<Io>)
    requires Progress(env) && Run(env, job, log) && !EndsInFailure(log)
    requires data == [] || Offers(job, SentBy(log), ReadBy(log), data)
    ensures Copies(log, log') && Run(env, job, log') && ReadBy(log') == ReadBy(log)
    ensures ok <==> !EndsInFailure(log')
    ensures SentBy(log) <= SentBy(log') <= SentBy(log) + |data|
    ensures ok <==> SentBy(log') == SentBy(log) + |data|
  {
    var done := 0;
    log' := log;
    while done < |data|
      invariant done <= |data| && SentBy(log') == SentBy(log) + done
      invariant Copies(log, log') && ReadBy(log') == ReadBy(log)
      invariant Run(env, job, log') && !EndsInFailure(log')
      decreases |data| - done, if |log'| < env.patience then env.patience - |log'| else 0
    {
      ghost var was := log';
      OffersNext(job, log, log', data, done);
      var n;
      n, log' := SendOnce(env, data[done..], log', job);
      CopiesTrans(log, was, log');
      done := done + n;
      if EndsInFailure(log') {
        return false, log';
      }
    }
    ok := true;
  }

  // ----- writev

  lemma {:induction false} FlatPrefix(iov: seq<seq<Byte>>, i: nat)
    requires i < |iov|
    ensures Flat(iov[..i]) + iov[i] <= Flat(iov)
  {
    if i == |iov| - 1 {
    } else {
      var init := iov[..|iov| - 1];
      FlatPrefix(init, i);
      assert init[..i] == iov[..i];
    }
  }

  /** Where the buffers end. */
  ghost function Ends(iov: seq<seq<Byte>>): set<nat> {
    set i {:trigger iov[i]} | 0 <= i < |iov| :: |Flat(iov[..i + 1])|
  }

  lemma {:induction false} FlatLonger(iov: seq<seq<Byte>>, i: nat)
    requires i <= |iov|
    ensures |Flat(iov[..i])| <= |Flat(iov)|
  {
    if i == |iov| {
      assert iov[..i] == iov;
    } else {
      FlatLonger(iov[..|iov| - 1], i);
      TakeTake(iov, i, |iov| - 1);
    }
  }

  lemma FlatLongerOf(iov: seq<seq<Byte>>, i: nat, k: nat)
    requires i <= k <= |iov|
    ensures |Flat(iov[..i])| <= |Flat(iov[..k])|
  {
    FlatLonger(iov[..k], i);
    TakeTake(iov, i, k);
  }

  lemma FlatNext(iov: seq<seq<Byte>>, i: nat)
    requires i < |iov|
    ensures Flat(iov[..i + 1]) == Flat(iov[..i]) + iov[i]
  {
    TakeTake(iov, i, i + 1);
  }

  lemma NextEnd(iov: seq<seq<Byte>>, i: nat, e: nat)
    requires i < |iov| && e in Ends(iov)
    ensures e <= |Flat(iov[..i])| || e >= |Flat(iov[..i + 1])|
  {
    var k :| 0 <= k < |iov| && e == |Flat(iov[..k + 1])|;
    if k < i {
      FlatLongerOf(iov, k + 1, i);
    } else {
      FlatLongerOf(iov, i + 1, k + 1);
    }
  }

  lemma MiddleOf<T>(a: seq<T>, b: seq<T>, all: seq<T>)
    requires a + b <= all
    ensures all[|a|..|a| + |b|] == b
  {
    assert (a + b)[|a|..] == b;
  }

  lemma EndAtHand(bytes: seq<Byte>, iov: seq<seq<Byte>>, i: nat)
    requires i < |iov|
    ensures AtHand(Buffers(bytes, Ends(iov)), |Flat(iov[..i])|, 0, |Flat(iov[..i + 1])|)
  {
    assert |Flat(iov[..i + 1])| in Ends(iov);
    forall e | End(e) && e in Ends(iov) ensures e <= |Flat(iov[..i])| || e >= |Flat(iov[..i + 1])| {
      NextEnd(iov, i, e);
    }
  }

  lemma FlatMiddle(iov: seq<seq<Byte>>, i: nat)
    requires i < |iov|
    ensures var sent, end := |Flat(iov[..i])|, |Flat(iov[..i + 1])|;
      end == sent + |iov[i]| <= |Flat(iov)| && iov[i] == Flat(iov)[sent..end]
  {
    FlatNext(iov, i);
    FlatPrefix(iov, i);
    MiddleOf(Flat(iov[..i]), iov[i], Flat(iov));
  }

  /** The next buffer is what is at hand. */
  lemma BufferOffered(iov: seq<seq<Byte>>, i: nat)
    requires i < |iov| && iov[i] != []
    ensures Offers(Buffers(Flat(iov), Ends(iov)), |Flat(iov[..i])|, 0, iov[i])
  {
    EndAtHand(Flat(iov), iov, i);
    FlatMiddle(iov, i);
  }

  /** All buffers once and in order, or an error after a proper prefix of them: exactly when a send failed. */
  method Writev(env: Env, iov: seq<seq<Byte>>) returns (ret: int, log: seq<Io>)
    requires Progress(env)
    ensures Run(env, Buffers(Flat(iov), Ends(iov)), log) && (ret < 0 <==> EndsInFailure(log))
    ensures ret >= 0 ==> Output(log) == Flat(iov) && ret == |Flat(iov)|
    ensures ret < 0 ==> ret == -1 && Output(log) < Flat(iov)
  {
    var sum := 0;
    log := [];
    ghost var job := Buffers(Flat(iov), Ends(iov));
    for i := 0 to |iov|
      invariant SentBy(log) == |Flat(iov[..i])| == sum && ReadBy(log) == 0
      invariant Run(env, job, log) && !EndsInFailure(log)
    {
      FlatNext(iov, i);
      if iov[i] != [] {
        BufferOffered(iov, i);
      }
      var ok;
      ok, log := SendAll(env, iov[i], log, job);
      if !ok {
        SentInOrder(env, job, log);
        FlatLonger(iov, i + 1);
        return -1, log;
      }
      sum := sum + |iov[i]|;
    }
    assert iov[..|iov|] == iov;
    SentInOrder(env, job, log);
    ret := sum;
  }

  // ----- sendfile64

  datatype Offset = NoOffset | At(value: int)

  /** Where the bytes sent start. */
  function From(offset: Offset, pos: nat): int {
    if offset.At? then offset.value else pos
  }

  /** A chunk just read is at hand. */
  lemma ChunkOffered(job: Job, sent: nat, m: nat)
    requires job.Copy? && job.from >= 0 && job.from + sent + m <= |job.file| && m > 0
    ensures Offers(job, sent, sent + m, job.file[job.from + sent..job.from + sent + m])
  {
    assert job.file[job.from..][sent..sent + m] == job.file[job.from + sent..job.from + sent + m];
  }

  /** With an offset the position is noted and set first; without one nothing is but reading and sending. */
  ghost predicate Opened(offset: Offset, log: seq<Io>) {
    if offset.NoOffset? then Copies([], log)
    else log != [] && log[0].Tell? && (|log| > 1 ==> log[1].SeekSet? && log[1].to == offset.value)
  }

  /** Then, if any bytes are wanted, comes a read. */
  predicate Reads(offset: Offset, count: nat, log: seq<Io>) {
    var first := if offset.At? then 2 else 0;
    count > 0 && |log| > first ==> log[first].Read?
  }

  /**
   The result is what was sent, at least `count` bytes unless the file ended, and fewer than
   `count` and a chunk. The offset follows; with one, the position is put back.
   */
  ghost predicate Success(file: seq<Byte>, pos: nat, offset: Offset, count: nat, log: seq<Io>,
                          ret: int, offset': Offset, pos': nat)
  {
    var from := From(offset, pos);
    && from >= 0 && ret == SentBy(log) == ReadBy(log)
    && (ret >= count || from + ret >= |file|)
    && (ret > 0 ==> from + ret <= |file| && ret < count + BUF_SIZE)
    && match offset
       case NoOffset => offset' == NoOffset && pos' == pos + ret
       case At(value) =>
         offset' == At(value + ret) && pos' == pos && |log| >= 4 && log[|log| - 1] == Io.SeekSet(pos, true)
  }

  /**
   The position is where it was if it could not be set, else behind what was read. The offset is
   changed only when the copy was done: to -1 if the position could not be learnt, else to it.
   */
  ghost predicate Failure(pos: nat, offset: Offset, log: seq<Io>, ret: int, offset': Offset, pos': nat)
    requires log != []
  {
    var last := log[|log| - 1];
    && ret == -1
    && match offset
       case NoOffset => offset' == NoOffset && pos' == pos + ReadBy(log)
       case At(value) =>
         if |log| <= 2 then pos' == pos && offset' == offset
         else
           && pos' == value + ReadBy(log) && (last.SeekSet? ==> last.to == pos)
           && offset' == (if last.Tell? then At(-1) else if last.SeekSet? then At(pos') else offset)
  }

  ghost predicate Ended(file: seq<Byte>, pos: nat, offset: Offset, count: nat, log: seq<Io>,
                        ret: int, offset': Offset, pos': nat)
  {
    if EndsInFailure(log) then Failure(pos, offset, log, ret, offset', pos')
    else Success(file, pos, offset, count, log, ret, offset', pos')
  }

  /** Nothing is wanted, the offset is not valid, or no more than `count` bytes follow it. */
  predicate NeverMore(file: seq<Byte>, from: int, count: nat) {
    count == 0 || from < 0 || from + count >= |file|
  }

  /** The offset is not valid, or is the position already and there is nothing to read. */
  predicate NeverMoved(file: seq<Byte>, pos: nat, value: int, count: nat) {
    value < 0 || (value == pos && (count == 0 || value >= |file|))
  }

  /** The file, its position and the calls of one run. */
  class Transfer {
    const file: seq<Byte>
    var pos: nat
    var log: seq<Io>

    /** The calls so far are a run, none has failed, and everything read was sent. */
    ghost predicate Going(env: Env, job: Job)
      reads this
    {
      job.Copy? && job.file == file && Run(env, job, log) && !EndsInFailure(log) && SentBy(log) == ReadBy(log)
    }

    constructor (file: seq<Byte>, pos: nat)
      ensures this.file == file && this.pos == pos && log == []
    {
      this.file, this.pos, this.log := file, pos, [];
    }

    /** A call that sends nothing. */
    method Record(env: Env, io: Io, ghost job: Job)
      requires Going(env, job) && Allowed(env, job, log, io) && !io.Send?
      modifies this`log
      ensures log == old(log) + [io] && Run(env, job, log) && EndsInFailure(log) == Fails(io)
      ensures SentBy(log) == old(SentBy(log))
      ensures ReadBy(log) == old(ReadBy(log)) + if io.Read? && io.result > 0 then io.result else 0
    {
      Snoc(env, job, log, io);
      log := log + [io];
    }

    /** `lseek(fd, 0, SEEK_CUR)` */
    method Tell(env: Env, ghost job: Job) returns (at: int)
      requires Going(env, job)
      modifies this`log
      ensures at == -1 || at == pos
      ensures log == old(log) + [Io.Tell(at)] && Run(env, job, log) && (at != -1 ==> Going(env, job))
      ensures SentBy(log) == old(SentBy(log)) && ReadBy(log) == old(ReadBy(log))
    {
      at := if env.seekOk(|log|) then pos else -1;
      Record(env, Io.Tell(at), job);
    }

    /** `lseek(fd, to, SEEK_SET)` */
    method SeekSet(env: Env, to: int, ghost job: Job) returns (ok: bool)
      requires Going(env, job)
      modifies this`pos, this`log
      ensures pos == if ok then to else old(pos)
      ensures log == old(log) + [Io.SeekSet(to, ok)] && Run(env, job, log) && (ok ==> Going(env, job) && to >= 0)
      ensures SentBy(log) == old(SentBy(log)) && ReadBy(log) == old(ReadBy(log))
    {
      ok := to >= 0 && env.seekOk(|log|);
      Record(env, Io.SeekSet(to, ok), job);
      if ok {
        pos := to;
      }
    }

    /** Send a chunk that was read at `pos`. */
    method SendChunk(env: Env, dataRead: nat, ghost job: Job) returns (ok: bool)
      requires Progress(env) && job.Copy? && job.file == file && job.from >= 0
      requires Run(env, job, log) && !EndsInFailure(log) && ReadBy(log) == SentBy(log) + dataRead
      requires pos == job.from + SentBy(log) && pos + dataRead <= |file| && dataRead > 0
      modifies this`pos, this`log
      ensures pos == old(pos) + dataRead && ReadBy(log) == old(ReadBy(log)) && Copies(old(log), log)
      ensures Run(env, job, log) && EndsInFailure(log) == !ok && (ok ==> Going(env, job))
    {
      ChunkOffered(job, SentBy(log), dataRead);
      var more;
      ok, more := SendAll(env, file[pos..pos + dataRead], log, job);
      pos := pos + dataRead;
      log := more;
    }

    /** One pass of the copy: read a chunk and send it. */
    method CopyChunk(env: Env, ghost job: Job) returns (ok: bool, dataRead: int)
      requires Progress(env) && Going(env, job) && ReadBy(log) < job.count
      requires job.from >= 0 && pos == job.from + ReadBy(log)
      modifies this`pos, this`log
      ensures Copies(old(log), log) && Run(env, job, log) && EndsInFailure(log) == !ok
      ensures |log| > |old(log)| && log[|old(log)|] == Read(dataRead) && pos == job.from + ReadBy(log)
      ensures ReadBy(log) == old(ReadBy(log)) + if dataRead > 0 then dataRead else 0
      ensures ok ==> Going(env, job) && dataRead >= 0 && (dataRead == 0 ==> pos >= |file|)
    {
      dataRead := ReadAnswer(env, |log|, file, pos);
      Record(env, Read(dataRead), job);
      ok := dataRead >= 0;
      if dataRead > 0 {
        ghost var read := log;
        ok := SendChunk(env, dataRead, job);
        CopiesTrans(old(log), read, log);
      }
    }

    /** Read and send chunks until `count` bytes or end of file; the last chunk is not clipped. */
    method CopyChunks(env: Env, count: nat, ghost job: Job) returns (ok: bool, processed: nat)
      requires Progress(env) && Going(env, job) && ReadBy(log) == 0 && job.from == pos && job.count == count
      modifies this`pos, this`log
      ensures Copies(old(log), log) && Run(env, job, log) && EndsInFailure(log) == !ok
      ensures count > 0 ==> |log| > |old(log)| && log[|old(log)|].Read?
      ensures pos == old(pos) + ReadBy(log)
      ensures ok ==> Going(env, job) && processed == ReadBy(log) && (processed >= count || pos >= |file|)
    {
      processed := 0;
      ghost var first := log;
      while processed < count
        invariant Going(env, job) && processed == ReadBy(log) && pos == job.from + processed && Copies(first, log)
        invariant if processed == 0 then log == first else |log| > |first| && log[|first|].Read?
        decreases count - processed
      {
        ghost var was := log;
        var dataRead;
        ok, dataRead := CopyChunk(env, job);
        CopiesTrans(first, was, log);
        if !ok || dataRead == 0 {
          return;
        }
        processed := processed + dataRead;
      }
      ok := true;
    }

    /** Note where the copy ended and go back to `orig`. */
    method PutBack(env: Env, orig: nat, ghost job: Job) returns (ok: bool, at: int)
      requires Going(env, job)
      modifies this`pos, this`log
      ensures |log| > |old(log)| && log[|log| - 1] == (if at == -1 then Io.Tell(-1) else Io.SeekSet(orig, ok))
      ensures old(log) <= log && (at == -1 ==> !ok) && (at != -1 ==> at == old(pos) && |log| == |old(log)| + 2)
      ensures pos == if ok then orig else old(pos)
      ensures Run(env, job, log) && SentBy(log) == old(SentBy(log)) && ReadBy(log) == old(ReadBy(log))
    {
      at := Tell(env, job);
      if at == -1 {
        return false, at;
      }
      ok := SeekSet(env, orig, job);
    }

    /** Note the position and go to the offset. */
    method Open(env: Env, value: int, ghost job: Job) returns (ok: bool, orig: int)
      requires Going(env, job) && log == []
      modifies this`pos, this`log
      ensures Run(env, job, log) && SentBy(log) == 0 && ReadBy(log) == 0 && Opened(At(value), log) && |log| <= 2
      ensures if ok then Going(env, job) && |log| == 2 && orig == old(pos) && pos == value
        else EndsInFailure(log) && pos == old(pos)
    {
      ok := false;
      orig := Tell(env, job);
      if orig != -1 {
        ok := SeekSet(env, value, job);
      }
    }

    /** A failing copy, or what is left to do after one. */
    ghost predicate Copied(env: Env, job: Job, offset: Offset, was: seq<Io>)
      reads this
    {
      && job.Copy? && Run(env, job, log) && Copies(was, log) && Opened(offset, log) && Reads(offset, job.count, log)
      && (job.count > 0 ==> |log| > |was|)
      && pos == job.from + ReadBy(log)
    }

    /** The copy of `sendfile64` and its bounds. */
    method CopyFile(env: Env, offset: Offset, count: nat, ghost job: Job) returns (ok: bool, processed: nat)
      requires Progress(env) && Going(env, job) && ReadBy(log) == 0 && job.from == pos && job.count == count
      requires if offset.At? then |log| == 2 && Opened(offset, log) else log == []
      modifies this`pos, this`log
      ensures Copied(env, job, offset, old(log)) && EndsInFailure(log) == !ok
      ensures ok ==> Going(env, job) && processed == ReadBy(log) && (processed >= count || pos >= |file|)
      ensures processed > 0 && ok ==> pos <= |file| && processed < count + BUF_SIZE
    {
      ok, processed := CopyChunks(env, count, job);
      ReadBounds(env, job, log);
    }

    /**
     Succeeds exactly when no call fails (`FailsExactly`), and makes no further call after one that
     did. Either way the bytes sent are the first of those behind the offset (`SentInOrder`).
     */
    method Sendfile64(env: Env, offset: Offset, count: nat) returns (ret: int, offset': Offset)
      requires Progress(env) && log == []
      modifies this`pos, this`log
      ensures Run(env, Copy(file, From(offset, old(pos)), count), log)
      ensures Opened(offset, log) && Reads(offset, count, log)
      ensures ret < 0 <==> EndsInFailure(log)
      ensures Ended(file, old(pos), offset, count, log, ret, offset', pos)
    {
      ghost var job := Copy(file, From(offset, pos), count);
      ret, offset' := -1, offset;
      var ok, orig := true, 0;
      if offset.At? {
        ok, orig := Open(env, offset.value, job);
        if !ok {
          return;
        }
      }
      var processed;
      ok, processed := CopyFile(env, offset, count, job);
      if !ok {
        return;
      }
      if offset.At? {
        var at;
        ok, at := PutBack(env, orig, job);
        offset' := At(at);
        if !ok {
          return;
        }
      }
      ret := processed;
    }
  }

  // ----- when more than `count` bytes are sent

  /** Whatever the environment, no more than `count` bytes are sent. */
  lemma SendsNoMore(env: Env, file: seq<Byte>, from: int, count: nat, log: seq<Io>)
    requires Run(env, Copy(file, from, count), log) && NeverMore(file, from, count)
    ensures SentBy(log) <= count
  {
    ReadBounds(env, Copy(file, from, count), log);
  }

  predicate Odd(n: int) {
    n % 2 == 1
  }

  /** Two bytes at a time, but one first if `count` is even; nothing fails and sends take everything. */
  function TwoAtATime(first: nat, count: nat): Env {
    Env(n => Sent(BUF_SIZE), n => if n == first && count % 2 == 0 then 1 else 2, n => true, 0)
  }

  lemma TwoRead(first: nat, count: nat, n: nat, file: seq<Byte>, pos: nat)
    requires pos + 2 <= |file|
    ensures ReadAnswer(TwoAtATime(first, count), n, file, pos) == if n == first && count % 2 == 0 then 1 else 2
  {
  }

  lemma NextOdd(job: Job, first: nat, n: nat, read: nat)
    requires job.Copy? && job.from >= 0 && job.from + job.count < |job.file| && first <= n && read < job.count
    requires if n == first then read == 0 else Odd(read + job.count)
    ensures var more := ReadAnswer(TwoAtATime(first, job.count), n, job.file, job.from + read);
      more > 0 && Odd(read + more + job.count) && read + more <= job.count + 1
  {
    TwoRead(first, job.count, n, job.file, job.from + read);
  }

  /** In parity the bytes read are never as many as `count`. */
  lemma {:induction false} OddReads(job: Job, log: seq<Io>, first: nat)
    requires job.Copy? && job.from >= 0 && job.from + job.count < |job.file| && job.count > 0
    requires Run(TwoAtATime(first, job.count), job, log)
    requires forall n :: 0 <= n < first && n < |log| ==> !log[n].Read?
    requires first < |log| ==> log[first].Read?
    ensures |log| <= first ==> ReadBy(log) == 0
    ensures |log| > first ==> Odd(ReadBy(log) + job.count) && ReadBy(log) <= job.count + 1
  {
    if log != [] {
      var before, n := log[..|log| - 1], |log| - 1;
      OddReads(job, before, first);
      if log[n].Read? {
        NextOdd(job, first, n, ReadBy(before));
      }
    }
  }

  /** The last call, if it is a seek, is to a valid offset. */
  predicate SeeksForward(log: seq<Io>) {
    log != [] && log[|log| - 1].SeekSet? ==> log[|log| - 1].to >= 0
  }

  lemma NothingFails(job: Job, log: seq<Io>, first: nat, count: nat)
    requires Run(TwoAtATime(first, count), job, log) && SeeksForward(log)
    ensures !EndsInFailure(log)
  {
  }

  /** A number that differs in parity, reaches `count` and is at most one more is one more. */
  lemma OneMore(read: nat, count: nat)
    requires Odd(read + count) && count <= read <= count + 1
    ensures read == count + 1
  {
  }

  /** What was read is one more than `count`, or an odd number fewer, or nothing. */
  predicate OneOff(read: nat, count: nat) {
    read > 0 ==> Odd(read + count) && read <= count + 1
  }

  /** What a successful run of that kind sends. */
  lemma OneTooMany(file: seq<Byte>, pos: nat, offset: Offset, count: nat, log: seq<Io>,
                   ret: int, offset': Offset, pos': nat)
    requires Ended(file, pos, offset, count, log, ret, offset', pos') && !EndsInFailure(log)
    requires !NeverMore(file, From(offset, pos), count)
    requires OneOff(ReadBy(log), count)
    ensures ret == count + 1 == SentBy(log)
  {
    OneMore(ReadBy(log), count);
  }

  /** Where the first read is. */
  lemma FirstRead(offset: Offset, count: nat, first: nat, log: seq<Io>)
    requires Opened(offset, log) && Reads(offset, count, log) && count > 0
    requires first == if offset.At? then 2 else 0
    ensures forall n :: 0 <= n < first && n < |log| ==> !log[n].Read?
    ensures first < |log| ==> log[first].Read?
  {
  }

  /** Every run of that kind succeeds, and has read an odd number of bytes more or fewer. */
  lemma OddRun(file: seq<Byte>, from: int, count: nat, offset: Offset, first: nat, log: seq<Io>)
    requires Run(TwoAtATime(first, count), Copy(file, from, count), log) && SeeksForward(log)
    requires Opened(offset, log) && Reads(offset, count, log) && first == if offset.At? then 2 else 0
    requires !NeverMore(file, from, count)
    ensures !EndsInFailure(log)
    ensures OneOff(ReadBy(log), count)
  {
    var job := Copy(file, from, count);
    NothingFails(job, log, first, count);
    FirstRead(offset, count, first, log);
    OddReads(job, log, first);
  }

  lemma LastSeek(file: seq<Byte>, pos: nat, offset: Offset, count: nat, log: seq<Io>,
                 ret: int, offset': Offset, pos': nat)
    requires Ended(file, pos, offset, count, log, ret, offset', pos') && Opened(offset, log)
    requires From(offset, pos) >= 0
    ensures SeeksForward(log)
  {
  }

  /** For every file, offset and count outside `NeverMore` there is a run that sends a byte too many. */
  method Overshoot(file: seq<Byte>, pos: nat, offset: Offset, count: nat) returns (ret: int, transfer: Transfer)
    requires !NeverMore(file, From(offset, pos), count)
    ensures ret == count + 1 == SentBy(transfer.log)
  {
    transfer := new Transfer(file, pos);
    var first := if offset.At? then 2 else 0;
    var offset';
    ret, offset' := transfer.Sendfile64(TwoAtATime(first, count), offset, count);
    ghost var log := transfer.log;
    LastSeek(file, pos, offset, count, log, ret, offset', transfer.pos);
    OddRun(file, From(offset, pos), count, offset, first, log);
    OneTooMany(file, pos, offset, count, log, ret, offset', transfer.pos);
  }

  // ----- when the position is not put back

  /** Whatever the environment, a failing call leaves the position alone. */
  lemma LeavesPosition(env: Env, file: seq<Byte>, pos: nat, value: int, count: nat, log: seq<Io>,
                       ret: int, offset': Offset, pos': nat)
    requires Run(env, Copy(file, value, count), log) && Opened(At(value), log) && NeverMoved(file, pos, value, count)
    requires EndsInFailure(log) && Failure(pos, At(value), log, ret, offset', pos')
    ensures pos' == pos
  {
    var job := Copy(file, value, count);
    ReadBounds(env, job, log);
    if |log| > 2 {
      RunAt(env, job, log, 1);
    }
  }

  /** Seeks work twice, then fail; every read fails. */
  function FailingReads(): Env {
    Env(n => Failed, n => -1, n => n < 2, 0)
  }

  /** Every byte read is refused by the socket. */
  function FailingSends(): Env {
    Env(n => Failed, n => 1, n => true, 0)
  }

  lemma {:induction false} NothingRead(job: Job, log: seq<Io>)
    requires Run(FailingReads(), job, log)
    ensures ReadBy(log) == 0
  {
    if log != [] {
      NothingRead(job, log[..|log| - 1]);
    }
  }

  lemma {:induction false} NothingSent(job: Job, log: seq<Io>)
    requires Run(FailingSends(), job, log)
    ensures SentBy(log) == 0
  {
    if log != [] {
      NothingSent(job, log[..|log| - 1]);
    }
  }

  lemma {:induction false} ReadByGrows(log: seq<Io>, n: nat)
    requires n < |log| && log[n].Read? && log[n].result > 0
    ensures ReadBy(log) > 0
  {
    if n < |log| - 1 {
      ReadByGrows(log[..|log| - 1], n);
    }
  }

  lemma NoneReadYet(log: seq<Io>)
    requires |log| >= 2 && !log[0].Read? && !log[1].Read?
    ensures ReadBy(log[..2]) == 0
  {
    var one, two := log[..1], log[..2];
    assert two[..1] == one && one[..0] == [];
    assert ReadBy(one) == 0;
  }

  /** A run whose first two seeks work does not end with them. */
  lemma GoesOn(env: Env, job: Job, value: nat, log: seq<Io>)
    requires Run(env, job, log) && Opened(At(value), log) && env.seekOk(0) && env.seekOk(1) && EndsInFailure(log)
    ensures |log| > 2
  {
    RunAt(env, job, log, |log| - 1);
  }

  /** With another offset, reads that fail. */
  method MovedByOffset(file: seq<Byte>, pos: nat, value: nat, count: nat) returns (ret: int, transfer: Transfer)
    requires value != pos
    ensures ret == -1 && transfer.pos == value
  {
    transfer := new Transfer(file, pos);
    var offset';
    ret, offset' := transfer.Sendfile64(FailingReads(), At(value), count);
    ghost var job, log := Copy(file, value, count), transfer.log;
    if EndsInFailure(log) {
      GoesOn(FailingReads(), job, value, log);
      NothingRead(job, log);
    } else {
      assert false;
    }
  }

  /** With the position itself as the offset, a send that fails. */
  method MovedByReading(file: seq<Byte>, pos: nat, count: nat) returns (ret: int, transfer: Transfer)
    requires count > 0 && pos < |file|
    ensures ret == -1 && transfer.pos > pos
  {
    transfer := new Transfer(file, pos);
    var offset';
    ret, offset' := transfer.Sendfile64(FailingSends(), At(pos), count);
    ghost var job, log := Copy(file, pos, count), transfer.log;
    NothingSent(job, log);
    if EndsInFailure(log) {
      GoesOn(FailingSends(), job, pos, log);
    }
    RunAt(FailingSends(), job, log, 2);
    NoneReadYet(log);
    ReadByGrows(log, 2);
  }
}
