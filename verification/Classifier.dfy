/**
 The classifier example in channel mode: the dispatcher thread of
 example/classifier/classifier_main.c fills a packet vector, trims every packet
 to its UDP payload and sends the vector on a channel; the termination thread of
 example/classifier/classifier_term.c drains the channel and counts.

 A state holds both threads. A label is one step of one thread, with the answer
 of the call it makes, so a sequence of labels is one interleaving.
 */
module Classifier {
  import opened Common
  import opened Sequences
  import PacketVector

  const VECTOR_SIZE: nat := PacketVector.VECTOR_SIZE
  const CHANNEL_RECV_MAX: nat := 32
  const UDP_HEADER: nat := 8

  /** Packet lengths are 32-bit numbers. */
  const LENGTH_LIMIT: nat := 0x1_0000_0000

  /** A received packet and the offset of its transport header. */
  datatype Frame = Frame(l4: nat, data: seq<Byte>)

  predicate HasHeader(f: Frame) {
    f.l4 + UDP_HEADER <= |f.data|
  }

  /** The length field of the UDP header, in network order. */
  function UdpLength(f: Frame): (n: nat)
    requires HasHeader(f)
    ensures n < 0x1_0000
  {
    256 * (f.data[f.l4 + 4] as int) + f.data[f.l4 + 5] as int
  }

  /** A length written in network order is read back. */
  lemma UdpLengthReads(f: Frame, n: nat)
    requires HasHeader(f) && n < 0x1_0000 && f.data[f.l4 + 4] == n / 0x100 && f.data[f.l4 + 5] == n % 0x100
    ensures UdpLength(f) == n
  {
  }

  /** RFC 768: the length covers header and data, and the packet contains them. */
  predicate WellFormed(f: Frame) {
    HasHeader(f) && UDP_HEADER <= UdpLength(f) && f.l4 + UdpLength(f) <= |f.data|
  }

  function Payload(f: Frame): seq<Byte>
    requires WellFormed(f)
  {
    f.data[f.l4 + UDP_HEADER..f.l4 + UdpLength(f)]
  }

  /** Trimming as coded: 16-bit size, then head and tail pulled; a tail longer than the packet is not pulled. */
  function Trim(f: Frame): seq<Byte>
    requires HasHeader(f)
  {
    var udpSize := (UdpLength(f) - UDP_HEADER) % 0x1_0000;
    var rest := f.data[f.l4 + UDP_HEADER..];
    var tail := (|rest| - udpSize) % LENGTH_LIMIT;
    if tail <= |rest| then rest[..|rest| - tail] else rest
  }

  lemma TrimIsPayload(f: Frame)
    requires HasHeader(f) && |f.data| < LENGTH_LIMIT
    ensures WellFormed(f) ==> Trim(f) == Payload(f)
    ensures |f.data| < LENGTH_LIMIT - 0x1_0000 ==> (|Trim(f)| == UdpLength(f) - UDP_HEADER <==> WellFormed(f))
  {
  }

  /** What the scheduler may return. Packets are named by their arrival number. */
  datatype Event = NoEvent | Timeout | Other | Pkt(id: nat)

  datatype Incoming = InNone | InTimeout | InOther | InPacket(frame: Frame)

  /** Where the dispatcher is: before a poll, in the event loop, trimming, sending, freeing what was not sent. */
  datatype Pc = Poll | Scan | Trimming(next: nat) | Sending | Freeing

  datatype State = State(
    arrived: seq<Frame>,
    bytes: seq<seq<Byte>>,
    pc: Pc,
    events: seq<Event>,
    vec: seq<nat>,
    channel: seq<nat>,
    buf: seq<nat>,
    drained: seq<nat>,
    freed: seq<nat>,
    lost: seq<nat>,
    receivedPkts: nat,
    receivedBytes: nat)

  datatype Label =
    | Schedule(burst: seq<Incoming>)
    | NextEvent
    | TrimOne
    | Send(result: int)
    | FreeOne
    | Receive(count: nat)
    | DrainOne

  const Start := State([], [], Poll, [], [], [], [], [], [], [], 0, 0)

  function Frames(burst: seq<Incoming>): seq<Frame> {
    if burst == [] then []
    else (if burst[0].InPacket? then [burst[0].frame] else []) + Frames(burst[1..])
  }

  /** The events of a burst whose first packet is packet number `id`. */
  function Number(burst: seq<Incoming>, id: nat): seq<Event> {
    if burst == [] then []
    else
      match burst[0]
      case InNone => [NoEvent] + Number(burst[1..], id)
      case InTimeout => [Timeout] + Number(burst[1..], id)
      case InOther => [Other] + Number(burst[1..], id)
      case InPacket(_) => [Pkt(id)] + Number(burst[1..], id + 1)
  }

  function Ids(events: seq<Event>): seq<nat> {
    if events == [] then []
    else (if events[0].Pkt? then [events[0].id] else []) + Ids(events[1..])
  }

  /** The index from which unsent packets are freed: 16 bits wide in the code. */
  function FreeFrom(result: int): nat {
    if result == -1 then 0 else result % 0x1_0000
  }

  predicate Enabled(s: State, l: Label) {
    match l
    case Schedule(burst) => s.pc == Poll && forall i | i in burst :: i.InPacket? ==> HasHeader(i.frame)
    case NextEvent => s.pc == Scan
    case TrimOne => s.pc.Trimming?
    case Send(result) => s.pc == Sending && result <= |s.vec|
    case FreeOne => s.pc == Freeing
    case Receive(count) => s.buf == [] && count <= CHANNEL_RECV_MAX && count <= |s.channel|
    case DrainOne => s.buf != []
  }

  /** A packet as it is now: its header offset as received, its bytes as they have become. */
  function Current(s: State, id: nat): Frame
    requires id < |s.arrived| == |s.bytes|
  {
    Frame(s.arrived[id].l4, s.bytes[id])
  }

  ghost predicate InRange(s: State) {
    && |s.bytes| == |s.arrived|
    && (forall i :: 0 <= i < |s.arrived| ==> HasHeader(s.arrived[i]))
    && (forall i :: 0 <= i < |s.vec| ==> s.vec[i] < |s.arrived|)
    && (forall i :: 0 <= i < |s.buf| ==> s.buf[i] < |s.arrived|)
    && (s.pc.Trimming? && s.pc.next < |s.vec| ==> HasHeader(Current(s, s.vec[s.pc.next])))
  }

  function Step(s: State, l: Label): State
    requires Enabled(s, l) && InRange(s)
  {
    match l
    case Schedule(burst) =>
      if burst == [] then s
      else
        var frames := Frames(burst);
        s.(arrived := s.arrived + frames,
           bytes := s.bytes + seq(|frames|, i requires 0 <= i < |frames| => frames[i].data),
           events := Number(burst, |s.arrived|),
           pc := Scan)
    case NextEvent =>
      if s.events == [] then
        s.(pc := if s.vec == [] then Poll else Trimming(0))
      else
        var ev := s.events[0];
        if !ev.Pkt? then s.(events := s.events[1..])
        else if |s.vec| >= VECTOR_SIZE then s.(events := s.events[1..], freed := s.freed + [ev.id])
        else
          var vec := s.vec + [ev.id];
          s.(events := s.events[1..], vec := vec, pc := if |vec| == VECTOR_SIZE then Trimming(0) else Scan)
    case TrimOne =>
      var i := s.pc.next;
      if i < |s.vec| then
        s.(bytes := s.bytes[s.vec[i] := Trim(Current(s, s.vec[i]))], pc := Trimming(i + 1))
      else
        s.(pc := Sending)
    case Send(result) =>
      var sent := if result < 0 then 0 else result;
      var s1 := s.(channel := s.channel + s.vec[..sent]);
      if result == |s.vec| then
        s1.(vec := [], pc := Scan)
      else
        var from := Min(FreeFrom(result), |s.vec|);
        s1.(lost := if sent < from then s.lost + s.vec[sent..from] else s.lost,
            vec := s.vec[from..],
            pc := Freeing)
    case FreeOne =>
      if s.vec == [] then s.(pc := Scan)
      else s.(freed := s.freed + [s.vec[0]], vec := s.vec[1..])
    case Receive(count) =>
      s.(buf := s.channel[..count], channel := s.channel[count..])
    case DrainOne =>
      s.(receivedBytes := Add64(s.receivedBytes, |s.bytes[s.buf[0]]|),
         receivedPkts := Add64(s.receivedPkts, 1),
         drained := s.drained + [s.buf[0]],
         buf := s.buf[1..])
  }

  // ----- what every step keeps

  /** Packets still in the pipeline, oldest first. */
  ghost function Line(s: State): seq<nat> {
    s.drained + s.buf + s.channel + s.vec + Ids(s.events)
  }

  /** How far along the line the packets have been trimmed. */
  ghost function Boundary(s: State): nat {
    |s.drained| + |s.buf| + |s.channel| +
    match s.pc
    case Poll => 0
    case Scan => 0
    case Trimming(i) => i
    case Sending => |s.vec|
    case Freeing => |s.vec|
  }

  function Upto(n: nat): (r: seq<nat>)
    ensures |r| == n && forall i :: 0 <= i < n ==> r[i] == i
  {
    seq(n, i => i)
  }

  ghost predicate Increasing(s: seq<nat>) {
    forall i, j {:trigger Before(i, j)} :: 0 <= i && Before(i, j) && j < |s| ==> s[i] < s[j]
  }

  lemma IncreasingAt(s: seq<nat>, k: nat)
    requires Increasing(s) && k < |s|
    ensures forall i :: 0 <= i < |s| && i != k ==> s[i] != s[k]
  {
    forall i | 0 <= i < |s| && i != k ensures s[i] != s[k] {
      assert Before(i, k) || Before(k, i);
    }
  }

  /** Each of the `n` packets is in exactly one place, and the line is in arrival order. */
  ghost predicate Placed(line: seq<nat>, freed: seq<nat>, lost: seq<nat>, n: nat) {
    multiset(line) + multiset(freed) + multiset(lost) == multiset(Upto(n)) && Increasing(line)
  }

  ghost predicate Headers(arrived: seq<Frame>) {
    forall i :: 0 <= i < |arrived| ==> HasHeader(arrived[i])
  }

  ghost function TrimAll(arrived: seq<Frame>): (r: seq<seq<Byte>>)
    requires Headers(arrived)
    ensures |r| == |arrived| && forall i :: 0 <= i < |arrived| ==> r[i] == Trim(arrived[i])
  {
    seq(|arrived|, i requires 0 <= i < |arrived| => Trim(arrived[i]))
  }

  ghost function DataAll(arrived: seq<Frame>): (r: seq<seq<Byte>>)
    ensures |r| == |arrived| && forall i :: 0 <= i < |arrived| ==> r[i] == arrived[i].data
  {
    seq(|arrived|, i requires 0 <= i < |arrived| => arrived[i].data)
  }

  /** The first `k` packets of the line hold what `after` says, the others what `before` says. */
  ghost predicate Marked(line: seq<nat>, k: nat, after: seq<seq<Byte>>, before: seq<seq<Byte>>, bytes: seq<seq<Byte>>) {
    && |bytes| == |after| == |before| && k <= |line|
    && (forall i :: 0 <= i < |line| ==> line[i] < |bytes|)
    && (forall i :: 0 <= i < k ==> bytes[line[i]] == after[line[i]])
    && (forall i :: k <= i < |line| ==> bytes[line[i]] == before[line[i]])
  }

  ghost function Sizes(arrived: seq<Frame>): (r: seq<nat>)
    requires Headers(arrived)
    ensures |r| == |arrived| && forall i :: 0 <= i < |arrived| ==> r[i] == |Trim(arrived[i])|
  {
    seq(|arrived|, i requires 0 <= i < |arrived| => |Trim(arrived[i])|)
  }

  /** The sum of the sizes of the packets `ids`. */
  function Total(sizes: seq<nat>, ids: seq<nat>): nat
    requires forall i :: 0 <= i < |ids| ==> ids[i] < |sizes|
  {
    if ids == [] then 0 else Total(sizes, ids[..|ids| - 1]) + sizes[ids[|ids| - 1]]
  }

  lemma TotalSnoc(sizes: seq<nat>, ids: seq<nat>, id: nat)
    requires id < |sizes| && forall i :: 0 <= i < |ids| ==> ids[i] < |sizes|
    ensures Total(sizes, ids + [id]) == Total(sizes, ids) + sizes[id]
  {
    assert (ids + [id])[..|ids|] == ids;
  }

  /** A vector goes out when it is full, or when the burst has no more packets for it. */
  ghost predicate Gathered(s: State) {
    0 < |s.vec| <= VECTOR_SIZE && (|s.vec| < VECTOR_SIZE ==> s.events == [])
  }

  ghost predicate Control(s: State) {
    match s.pc
    case Poll => s.events == [] && s.vec == []
    case Scan => |s.vec| < VECTOR_SIZE
    case Trimming(i) => i <= |s.vec| && Gathered(s)
    case Sending => Gathered(s)
    case Freeing => |s.vec| <= VECTOR_SIZE
  }

  ghost predicate Counted(s: State) {
    && Headers(s.arrived)
    && (forall i :: 0 <= i < |s.drained| ==> s.drained[i] < |s.arrived|)
    && Stands(s.receivedPkts, |s.drained|)
    && Stands(s.receivedBytes, Total(Sizes(s.arrived), s.drained))
  }

  ghost predicate Ordered(s: State) {
    Placed(Line(s), s.freed, s.lost, |s.arrived|)
  }

  ghost predicate Filled(s: State)
    requires Headers(s.arrived)
  {
    Marked(Line(s), Boundary(s), TrimAll(s.arrived), DataAll(s.arrived), s.bytes)
  }

  ghost predicate Inv(s: State) {
    && Control(s)
    && Headers(s.arrived)
    && Ordered(s)
    && Filled(s)
    && Counted(s)
  }

  // Where each stage of the pipeline sits on the line.

  lemma LineParts(s: State)
    ensures var d, b, c := |s.drained|, |s.buf|, |s.channel|;
      && |Line(s)| == d + b + c + |s.vec| + |Ids(s.events)|
      && (forall i :: 0 <= i < d ==> Line(s)[i] == s.drained[i])
      && (forall i :: 0 <= i < b ==> Line(s)[d + i] == s.buf[i])
      && (forall i :: 0 <= i < c ==> Line(s)[d + b + i] == s.channel[i])
      && (forall i :: 0 <= i < |s.vec| ==> Line(s)[d + b + c + i] == s.vec[i])
  {
  }

  lemma PartsBelow(d: seq<nat>, b: seq<nat>, c: seq<nat>, v: seq<nat>, e: seq<nat>, n: nat)
    requires var line := d + b + c + v + e; forall i :: 0 <= i < |line| ==> line[i] < n
    ensures forall i :: 0 <= i < |b| ==> b[i] < n
    ensures forall i :: 0 <= i < |v| ==> v[i] < n
  {
    var line := d + b + c + v + e;
    forall i | 0 <= i < |b| ensures b[i] < n {
      assert line[|d| + i] == b[i];
    }
    forall i | 0 <= i < |v| ensures v[i] < n {
      assert line[|d| + |b| + |c| + i] == v[i];
    }
  }

  lemma NextToTrim(s: State, i: nat)
    requires s.pc == Trimming(i) && i < |s.vec|
    ensures Boundary(s) < |Line(s)| && Line(s)[Boundary(s)] == s.vec[i]
  {
    LineParts(s);
  }

  /** The next packet to trim is still as it was received. */
  lemma NextUntouched(s: State, i: nat)
    requires Headers(s.arrived) && Filled(s) && s.pc == Trimming(i) && i < |s.vec|
    ensures s.vec[i] < |s.arrived| == |s.bytes| && Current(s, s.vec[i]) == s.arrived[s.vec[i]]
  {
    NextToTrim(s, i);
  }

  lemma FilledInRange(s: State)
    requires Headers(s.arrived) && Filled(s)
    ensures InRange(s)
  {
    PartsBelow(s.drained, s.buf, s.channel, s.vec, Ids(s.events), |s.arrived|);
    if s.pc.Trimming? && s.pc.next < |s.vec| {
      NextUntouched(s, s.pc.next);
    }
  }

  lemma LineSplit(s: State, s': State, cut: nat)
    requires s'.events == s.events && s'.vec == s.vec && s'.drained == s.drained
    requires cut <= |s.channel| && s.buf == [] && s'.buf == s.channel[..cut] && s'.channel == s.channel[cut..]
    ensures Line(s') == Line(s)
  {
    assert s.channel == s'.buf + s'.channel;
    assert s.drained + s.buf + s.channel == s'.drained + s'.buf + s'.channel;
  }

  lemma LineDrain(s: State, s': State)
    requires s'.events == s.events && s'.vec == s.vec && s'.channel == s.channel
    requires s.buf != [] && s'.buf == s.buf[1..] && s'.drained == s.drained + [s.buf[0]]
    ensures Line(s') == Line(s)
  {
    assert s.drained + s.buf == s'.drained + s'.buf;
  }

  lemma LineAdd(s: State, s': State)
    requires s'.drained == s.drained && s'.buf == s.buf && s'.channel == s.channel
    requires s.events != [] && s'.events == s.events[1..]
    requires s'.vec == if s.events[0].Pkt? then s.vec + [s.events[0].id] else s.vec
    ensures Line(s') == Line(s)
  {
    assert s.vec + Ids(s.events) == s'.vec + Ids(s'.events);
    var front := s.drained + s.buf + s.channel;
    assert Line(s) == front + (s.vec + Ids(s.events));
    assert Line(s') == front + (s'.vec + Ids(s'.events));
  }

  lemma StartInv()
    ensures Inv(Start)
  {
    assert Line(Start) == [] && Upto(0) == [];
    assert Turns(0);
  }

  /** A step that leaves the line, the boundary and the bytes alone keeps the places and the bytes. */
  lemma SameLineKeeps(s: State, s': State)
    requires Headers(s.arrived) && Ordered(s) && Filled(s)
    requires Line(s') == Line(s) && Boundary(s') == Boundary(s)
    requires s'.arrived == s.arrived && s'.bytes == s.bytes && s'.freed == s.freed && s'.lost == s.lost
    ensures Ordered(s') && Filled(s')
  {
  }

  lemma CountedDrain(s: State, s': State)
    requires Counted(s) && s.buf != [] && s.buf[0] < |s.arrived| == |s.bytes|
    requires s.bytes[s.buf[0]] == Trim(s.arrived[s.buf[0]])
    requires s'.arrived == s.arrived && s'.drained == s.drained + [s.buf[0]]
    requires s'.receivedPkts == Add64(s.receivedPkts, 1)
    requires s'.receivedBytes == Add64(s.receivedBytes, |s.bytes[s.buf[0]]|)
    ensures Counted(s')
  {
    TotalSnoc(Sizes(s.arrived), s.drained, s.buf[0]);
    StandsAdd(s.receivedPkts, |s.drained|, 1);
    StandsAdd(s.receivedBytes, Total(Sizes(s.arrived), s.drained), |s.bytes[s.buf[0]]|);
  }

  /** What waits in the terminator's buffer has been trimmed. */
  lemma BufTrimmed(s: State)
    requires Headers(s.arrived) && Filled(s) && s.buf != []
    ensures s.buf[0] < |s.arrived| == |s.bytes| && s.bytes[s.buf[0]] == Trim(s.arrived[s.buf[0]])
  {
    LineParts(s);
    assert s.buf[0] == Line(s)[|s.drained|];
  }

  // Schedule: new packets join the end of the line.

  lemma {:induction false} NumberIds(burst: seq<Incoming>, id: nat)
    ensures |Ids(Number(burst, id))| == |Frames(burst)|
    ensures forall i :: 0 <= i < |Frames(burst)| ==> Ids(Number(burst, id))[i] == id + i
  {
    if burst != [] {
      var rest := burst[1..];
      if burst[0].InPacket? {
        NumberIds(rest, id + 1);
        assert Number(burst, id)[1..] == Number(rest, id + 1);
      } else {
        NumberIds(rest, id);
        assert Number(burst, id)[1..] == Number(rest, id);
      }
    }
  }

  lemma {:induction false} FramesHeaders(burst: seq<Incoming>)
    requires forall i | i in burst :: i.InPacket? ==> HasHeader(i.frame)
    ensures Headers(Frames(burst))
  {
    if burst != [] {
      assert burst[0] in burst;
      FramesHeaders(burst[1..]);
    }
  }

  lemma PlacedBelow(line: seq<nat>, freed: seq<nat>, lost: seq<nat>, n: nat)
    requires Placed(line, freed, lost, n)
    ensures forall i :: 0 <= i < |line| ==> line[i] < n
  {
    forall i | 0 <= i < |line| ensures line[i] < n {
      assert line[i] in multiset(line) + multiset(freed) + multiset(lost);
      assert line[i] in Upto(n);
    }
  }

  lemma PlacedAppend(line: seq<nat>, freed: seq<nat>, lost: seq<nat>, n: nat, ids: seq<nat>, line': seq<nat>, n': nat)
    requires Placed(line, freed, lost, n)
    requires forall i :: 0 <= i < |ids| ==> ids[i] == n + i
    requires line' == line + ids && n' == n + |ids|
    ensures Placed(line', freed, lost, n')
  {
    PlacedBelow(line, freed, lost, n);
    assert Upto(n') == Upto(n) + ids;
  }

  lemma MarkedAppend(line: seq<nat>, k: nat, after: seq<seq<Byte>>, before: seq<seq<Byte>>, bytes: seq<seq<Byte>>,
                     after': seq<seq<Byte>>, more: seq<seq<Byte>>, ids: seq<nat>)
    requires Marked(line, k, after, before, bytes) && |after'| == |more| == |ids|
    requires forall i :: 0 <= i < |ids| ==> ids[i] == |bytes| + i
    ensures Marked(line + ids, k, after + after', before + more, bytes + more)
  {
  }

  lemma {:induction false} TotalFrame(sizes: seq<nat>, more: seq<nat>, ids: seq<nat>)
    requires forall i :: 0 <= i < |ids| ==> ids[i] < |sizes|
    ensures Total(sizes + more, ids) == Total(sizes, ids)
  {
    if ids != [] {
      TotalFrame(sizes, more, ids[..|ids| - 1]);
    }
  }

  lemma SizesAppend(arrived: seq<Frame>, frames: seq<Frame>)
    requires Headers(arrived) && Headers(frames)
    ensures Headers(arrived + frames) && Sizes(arrived + frames) == Sizes(arrived) + Sizes(frames)
  {
  }

  /** New arrivals do not change what was counted. */
  lemma CountedFrame(s: State, s': State, frames: seq<Frame>)
    requires Counted(s) && Headers(frames) && s'.arrived == s.arrived + frames && s'.drained == s.drained
    requires s'.receivedPkts == s.receivedPkts && s'.receivedBytes == s.receivedBytes
    ensures Counted(s')
  {
    SizesAppend(s.arrived, frames);
    TotalFrame(Sizes(s.arrived), Sizes(frames), s.drained);
  }

  lemma LineSchedule(s: State, s': State)
    requires s.events == [] && s'.drained == s.drained && s'.buf == s.buf && s'.channel == s.channel && s'.vec == s.vec
    ensures Line(s') == Line(s) + Ids(s'.events)
  {
    assert Ids(s.events) == [];
  }

  lemma JoinFilled(s: State, s': State, frames: seq<Frame>, ids: seq<nat>)
    requires Headers(s.arrived) && Headers(frames) && Filled(s) && Boundary(s') == Boundary(s)
    requires Line(s') == Line(s) + ids && |ids| == |frames| && forall i :: 0 <= i < |ids| ==> ids[i] == |s.arrived| + i
    requires s'.arrived == s.arrived + frames && s'.bytes == s.bytes + DataAll(frames)
    ensures Headers(s'.arrived) && Filled(s')
  {
    MarkedAppend(Line(s), Boundary(s), TrimAll(s.arrived), DataAll(s.arrived), s.bytes,
                 TrimAll(frames), DataAll(frames), ids);
    assert TrimAll(s'.arrived) == TrimAll(s.arrived) + TrimAll(frames);
    assert DataAll(s'.arrived) == DataAll(s.arrived) + DataAll(frames);
  }

  // Trimming: the boundary moves over one packet.

  lemma MarkedTrim(line: seq<nat>, k: nat, after: seq<seq<Byte>>, before: seq<seq<Byte>>, bytes: seq<seq<Byte>>)
    requires Marked(line, k, after, before, bytes) && k < |line| && Increasing(line)
    ensures Marked(line, k + 1, after, before, bytes[line[k] := after[line[k]]])
  {
    IncreasingAt(line, k);
  }

  lemma TrimFilled(s: State, s': State, id: nat)
    requires Headers(s.arrived) && Ordered(s) && Filled(s)
    requires Line(s') == Line(s) && Boundary(s) < |Line(s)| && Boundary(s') == Boundary(s) + 1
    requires id == Line(s)[Boundary(s)] && id < |s.bytes| == |s.arrived|
    requires s'.arrived == s.arrived && s'.bytes == s.bytes[id := Trim(s.arrived[id])]
    ensures Filled(s')
  {
    MarkedTrim(Line(s), Boundary(s), TrimAll(s.arrived), DataAll(s.arrived), s.bytes);
  }

  // Sending and freeing: packets leave the middle of the line.

  lemma PlacedLose(a: seq<nat>, m: seq<nat>, b: seq<nat>, freed: seq<nat>, lost: seq<nat>, n: nat)
    requires Placed(a + m + b, freed, lost, n)
    ensures Placed(a + b, freed, lost + m, n)
    ensures Placed(a + b, freed + m, lost, n)
  {
    var whole := a + m + b;
    forall i, j | 0 <= i && Before(i, j) && j < |a + b| ensures (a + b)[i] < (a + b)[j] {
      var i', j' := if i < |a| then i else i + |m|, if j < |a| then j else j + |m|;
      assert Before(i', j') && whole[i'] < whole[j'];
    }
  }

  lemma MarkedLose(a: seq<nat>, m: seq<nat>, b: seq<nat>, k: nat,
                   after: seq<seq<Byte>>, before: seq<seq<Byte>>, bytes: seq<seq<Byte>>)
    requires Marked(a + m + b, k, after, before, bytes) && |a| + |m| <= k
    ensures Marked(a + b, k - |m|, after, before, bytes)
  {
    var whole := a + m + b;
    assert forall i :: 0 <= i < |a + b| ==> (a + b)[i] == whole[if i < |a| then i else i + |m|];
  }

  /** Packets `m`, trimmed, leave the line for `freed` or `lost`. */
  lemma LeaveKeeps(s: State, s': State, a: seq<nat>, m: seq<nat>, b: seq<nat>)
    requires Headers(s.arrived) && Ordered(s) && Filled(s)
    requires Line(s) == a + m + b && Line(s') == a + b
    requires |a| + |m| <= Boundary(s) && Boundary(s') == Boundary(s) - |m|
    requires s'.arrived == s.arrived && s'.bytes == s.bytes
    requires (s'.freed == s.freed + m && s'.lost == s.lost) || (s'.freed == s.freed && s'.lost == s.lost + m)
    ensures Ordered(s') && Filled(s')
  {
    PlacedLose(a, m, b, s.freed, s.lost, |s.arrived|);
    MarkedLose(a, m, b, Boundary(s), TrimAll(s.arrived), DataAll(s.arrived), s.bytes);
  }

  lemma LineFree(s: State, s': State)
    requires s.vec != [] && s'.vec == s.vec[1..]
    requires s'.drained == s.drained && s'.buf == s.buf && s'.channel == s.channel && s'.events == s.events
    ensures var a, m, b := s.drained + s.buf + s.channel, [s.vec[0]], s'.vec + Ids(s.events);
      Line(s) == a + m + b && Line(s') == a + b
  {
    assert s.vec == [s.vec[0]] + s.vec[1..];
  }

  lemma SplitThree<T>(v: seq<T>, i: nat, j: nat)
    requires i <= j <= |v|
    ensures v == v[..i] + v[i..j] + v[j..]
  {
  }

  lemma Regroup<T>(front: seq<T>, a: seq<T>, m: seq<T>, b: seq<T>, end: seq<T>)
    ensures front + (a + m + b) + end == (front + a) + m + (b + end)
  {
  }

  lemma LineSend(s: State, s': State, sent: nat, from: nat)
    requires sent <= from <= |s.vec|
    requires s'.drained == s.drained && s'.buf == s.buf && s'.events == s.events
    requires s'.channel == s.channel + s.vec[..sent] && s'.vec == s.vec[from..]
    ensures var a, m, b := s'.drained + s'.buf + s'.channel, s.vec[sent..from], s'.vec + Ids(s.events);
      Line(s) == a + m + b && Line(s') == a + b
  {
    SplitThree(s.vec, sent, from);
    Assoc(s.drained + s.buf, s.channel, s.vec[..sent]);
    Regroup(s.drained + s.buf + s.channel, s.vec[..sent], s.vec[sent..from], s.vec[from..], Ids(s.events));
    Assoc(s.drained + s.buf + s.channel + s.vec[..sent], s.vec[from..], Ids(s.events));
  }

  /** The first `sent` packets of the vector move on, those up to `from` are gone, the rest stay. */
  lemma SendMoves(s: State, s': State, sent: nat, from: nat)
    requires Headers(s.arrived) && Ordered(s) && Filled(s) && s.pc == Sending && sent <= from <= |s.vec|
    requires s'.arrived == s.arrived && s'.bytes == s.bytes && s'.freed == s.freed
    requires s'.drained == s.drained && s'.buf == s.buf && s'.events == s.events
    requires s'.channel == s.channel + s.vec[..sent] && s'.vec == s.vec[from..]
    requires s'.lost == s.lost + s.vec[sent..from]
    requires s'.pc == Freeing || (s'.pc == Scan && from == |s.vec|)
    ensures Ordered(s') && Filled(s')
  {
    LineSend(s, s', sent, from);
    LeaveKeeps(s, s', s'.drained + s'.buf + s'.channel, s.vec[sent..from], s'.vec + Ids(s.events));
  }

  lemma ScheduleKeeps(s: State, burst: seq<Incoming>)
    requires Inv(s) && InRange(s) && Enabled(s, Schedule(burst)) && burst != []
    ensures Inv(Step(s, Schedule(burst)))
  {
    var s' := Step(s, Schedule(burst));
    var frames, ids := Frames(burst), Ids(s'.events);
    NumberIds(burst, |s.arrived|);
    FramesHeaders(burst);
    LineSchedule(s, s');
    PlacedAppend(Line(s), s.freed, s.lost, |s.arrived|, ids, Line(s'), |s'.arrived|);
    assert s'.bytes == s.bytes + DataAll(frames);
    JoinFilled(s, s', frames, ids);
    CountedFrame(s, s', frames);
  }

  lemma NextEventKeeps(s: State)
    requires Inv(s) && InRange(s) && Enabled(s, NextEvent)
    ensures Inv(Step(s, NextEvent))
  {
    var s' := Step(s, NextEvent);
    if s.events != [] {
      LineAdd(s, s');
    }
    SameLineKeeps(s, s');
  }

  lemma TrimOneKeeps(s: State)
    requires Inv(s) && InRange(s) && Enabled(s, TrimOne)
    ensures Inv(Step(s, TrimOne))
  {
    var s' := Step(s, TrimOne);
    if s.pc.next < |s.vec| {
      NextToTrim(s, s.pc.next);
      NextUntouched(s, s.pc.next);
      TrimFilled(s, s', s.vec[s.pc.next]);
    } else {
      SameLineKeeps(s, s');
    }
  }

  /** What a send that returns `result` leaves: the packets before `from` are sent or lost. */
  lemma SendShape(s: State, result: int) returns (sent: nat, from: nat)
    requires Control(s) && InRange(s) && Enabled(s, Send(result))
    ensures sent <= from <= |s.vec|
    ensures var s' := Step(s, Send(result));
      && s' == s.(pc := s'.pc, channel := s.channel + s.vec[..sent], vec := s.vec[from..],
                  lost := s.lost + s.vec[sent..from])
      && (s'.pc == Freeing || (s'.pc == Scan && from == |s.vec|))
  {
    sent := if result < 0 then 0 else result;
    from := if result == |s.vec| then sent else Min(FreeFrom(result), |s.vec|);
    assert s.lost + [] == s.lost && s.vec[|s.vec|..] == [];
  }

  lemma SendKeeps(s: State, result: int)
    requires Inv(s) && InRange(s) && Enabled(s, Send(result))
    ensures Inv(Step(s, Send(result)))
  {
    var sent, from := SendShape(s, result);
    SendMoves(s, Step(s, Send(result)), sent, from);
  }

  lemma FreeOneKeeps(s: State)
    requires Inv(s) && InRange(s) && Enabled(s, FreeOne)
    ensures Inv(Step(s, FreeOne))
  {
    var s' := Step(s, FreeOne);
    if s.vec == [] {
      SameLineKeeps(s, s');
    } else {
      LineFree(s, s');
      LeaveKeeps(s, s', s.drained + s.buf + s.channel, [s.vec[0]], s'.vec + Ids(s.events));
    }
  }

  lemma ReceiveKeeps(s: State, count: nat)
    requires Inv(s) && InRange(s) && Enabled(s, Receive(count))
    ensures Inv(Step(s, Receive(count)))
  {
    var s' := Step(s, Receive(count));
    LineSplit(s, s', count);
    SameLineKeeps(s, s');
  }

  lemma DrainOneKeeps(s: State)
    requires Inv(s) && InRange(s) && Enabled(s, DrainOne)
    ensures Inv(Step(s, DrainOne))
  {
    var s' := Step(s, DrainOne);
    LineDrain(s, s');
    SameLineKeeps(s, s');
    BufTrimmed(s);
    CountedDrain(s, s');
  }

  /** Every step of either thread keeps the invariant. */
  lemma StepKeeps(s: State, l: Label)
    requires Inv(s) && Enabled(s, l)
    ensures InRange(s) && Inv(Step(s, l))
  {
    FilledInRange(s);
    match l
    case Schedule(burst) => if burst != [] { ScheduleKeeps(s, burst); }
    case NextEvent => NextEventKeeps(s);
    case TrimOne => TrimOneKeeps(s);
    case Send(result) => SendKeeps(s, result);
    case FreeOne => FreeOneKeeps(s);
    case Receive(count) => ReceiveKeeps(s, count);
    case DrainOne => DrainOneKeeps(s);
  }

  // ----- whole runs

  /** `run` is an interleaving of the two threads from `s`. */
  ghost predicate Interleaving(s: State, run: seq<Label>)
    decreases |run|
  {
    run == [] || (Enabled(s, run[0]) && InRange(s) && Interleaving(Step(s, run[0]), run[1..]))
  }

  ghost function After(s: State, run: seq<Label>): State
    requires Interleaving(s, run)
    decreases |run|
  {
    if run == [] then s else After(Step(s, run[0]), run[1..])
  }

  lemma {:induction false} RunKeeps(s: State, run: seq<Label>)
    requires Inv(s) && Interleaving(s, run)
    ensures Inv(After(s, run))
    decreases |run|
  {
    if run != [] {
      StepKeeps(s, run[0]);
      RunKeeps(Step(s, run[0]), run[1..]);
    }
  }

  lemma {:induction false} UptoOnce(n: nat, id: nat)
    ensures multiset(Upto(n))[id] == if id < n then 1 else 0
  {
    if n != 0 {
      UptoOnce(n - 1, id);
      assert Upto(n) == Upto(n - 1) + [n - 1];
    } else {
      assert Upto(0) == [];
    }
  }

  /** In every reachable state each received packet is in exactly one place. */
  lemma ExactlyOnePlace(run: seq<Label>, id: nat)
    requires Interleaving(Start, run) && id < |After(Start, run).arrived|
    ensures var s := After(Start, run);
      multiset(s.drained)[id] + multiset(s.buf)[id] + multiset(s.channel)[id] + multiset(s.vec)[id]
      + multiset(Ids(s.events))[id] + multiset(s.freed)[id] + multiset(s.lost)[id] == 1
  {
    var s := After(Start, run);
    StartInv();
    RunKeeps(Start, run);
    UptoOnce(|s.arrived|, id);
  }

  /** The termination thread sees packets in arrival order, and so does the channel behind it. */
  lemma ChannelIsFifo(run: seq<Label>, i: nat, j: nat)
    requires Interleaving(Start, run)
    requires var s := After(Start, run); i < j < |s.drained + s.buf + s.channel|
    ensures var s := After(Start, run); var out := s.drained + s.buf + s.channel; out[i] < out[j]
  {
    var s := After(Start, run);
    StartInv();
    RunKeeps(Start, run);
    var out := s.drained + s.buf + s.channel;
    assert Before(i, j) && Line(s)[i] == out[i] && Line(s)[j] == out[j];
  }

  /** A vector is sent only when it is full or the burst is exhausted. */
  lemma SentFull(run: seq<Label>)
    requires Interleaving(Start, run) && After(Start, run).pc == Sending
    ensures var s := After(Start, run); 0 < |s.vec| <= VECTOR_SIZE && (|s.vec| == VECTOR_SIZE || s.events == [])
  {
    StartInv();
    RunKeeps(Start, run);
  }

  /** The vector never overflows, and has room whenever a packet is added: adding never frees one. */
  lemma RoomInVector(run: seq<Label>)
    requires Interleaving(Start, run)
    ensures var s := After(Start, run);
      |s.vec| <= VECTOR_SIZE && (s.pc == Scan ==> |s.vec| < VECTOR_SIZE) && (s.pc == Poll ==> s.vec == [])
  {
    StartInv();
    RunKeeps(Start, run);
  }

  /** Packets that have been sent on are trimmed. */
  lemma SentTrimmed(s: State, i: nat)
    requires Inv(s) && i < |s.drained + s.buf + s.channel|
    ensures var id := (s.drained + s.buf + s.channel)[i];
      id < |s.arrived| == |s.bytes| && s.bytes[id] == Trim(s.arrived[id])
  {
    assert Line(s)[i] == (s.drained + s.buf + s.channel)[i];
  }

  /** The packet at position `i` of what was sent holds its UDP payload, if it is well formed. */
  ghost predicate HoldsPayload(s: State, i: nat)
    requires i < |s.drained + s.buf + s.channel|
  {
    var id := (s.drained + s.buf + s.channel)[i];
    && id < |s.arrived| == |s.bytes|
    && (WellFormed(s.arrived[id]) && |s.arrived[id].data| < LENGTH_LIMIT ==> s.bytes[id] == Payload(s.arrived[id]))
  }

  lemma SentHoldsPayload(s: State, i: nat)
    requires Inv(s) && i < |s.drained + s.buf + s.channel|
    ensures HoldsPayload(s, i)
  {
    SentTrimmed(s, i);
    var f := s.arrived[(s.drained + s.buf + s.channel)[i]];
    if |f.data| < LENGTH_LIMIT {
      TrimIsPayload(f);
    }
  }

  /** What was sent is exactly the UDP payload, for every well-formed packet. */
  lemma SentIsPayload(run: seq<Label>, i: nat)
    requires Interleaving(Start, run)
    requires i < |After(Start, run).drained + After(Start, run).buf + After(Start, run).channel|
    ensures HoldsPayload(After(Start, run), i)
  {
    StartInv();
    RunKeeps(Start, run);
    SentHoldsPayload(After(Start, run), i);
  }

  function PayloadLength(arrived: seq<Frame>, ids: seq<nat>): nat
    requires forall i :: 0 <= i < |ids| ==> ids[i] < |arrived| && WellFormed(arrived[ids[i]])
  {
    if ids == [] then 0
    else PayloadLength(arrived, ids[..|ids| - 1]) + |Payload(arrived[ids[|ids| - 1]])|
  }

  ghost predicate AllWellFormed(arrived: seq<Frame>, ids: seq<nat>) {
    forall i :: 0 <= i < |ids| ==>
      ids[i] < |arrived| && WellFormed(arrived[ids[i]]) && |arrived[ids[i]].data| < LENGTH_LIMIT
  }

  lemma {:induction false} TotalIsPayload(arrived: seq<Frame>, ids: seq<nat>)
    requires Headers(arrived) && AllWellFormed(arrived, ids)
    ensures Total(Sizes(arrived), ids) == PayloadLength(arrived, ids)
  {
    if ids != [] {
      TotalIsPayload(arrived, ids[..|ids| - 1]);
      TrimIsPayload(arrived[ids[|ids| - 1]]);
    }
  }

  /** The two counters are the number and the total payload length of the drained packets, in 64 bits. */
  lemma CountersCountDrained(run: seq<Label>)
    requires Interleaving(Start, run)
    requires var s := After(Start, run); AllWellFormed(s.arrived, s.drained)
    ensures var s := After(Start, run);
      && Stands(s.receivedPkts, |s.drained|)
      && Stands(s.receivedBytes, PayloadLength(s.arrived, s.drained))
  {
    var s := After(Start, run);
    StartInv();
    RunKeeps(Start, run);
    TotalIsPayload(s.arrived, s.drained);
  }

  // What the labels of a run say about its end.

  lemma PlacedCounts(line: seq<nat>, freed: seq<nat>, lost: seq<nat>, n: nat)
    requires Placed(line, freed, lost, n)
    ensures |line| + |freed| + |lost| == n
  {
    assert |multiset(line) + multiset(freed) + multiset(lost)| == |multiset(Upto(n))|;
  }

  /** The packets that all sends of a run together report as sent. */
  function SentBy(run: seq<Label>): nat {
    if run == [] then 0
    else (if run[0].Send? && run[0].result > 0 then run[0].result else 0) + SentBy(run[1..])
  }

  function ReceivedBy(run: seq<Label>): nat {
    if run == [] then 0 else (if run[0].Receive? then run[0].count else 0) + ReceivedBy(run[1..])
  }

  function DrainedBy(run: seq<Label>): nat {
    if run == [] then 0 else (if run[0].DrainOne? then 1 else 0) + DrainedBy(run[1..])
  }

  /** The packets in the bursts of a run. */
  function ArrivedBy(run: seq<Label>): seq<Frame> {
    if run == [] then [] else (if run[0].Schedule? then Frames(run[0].burst) else []) + ArrivedBy(run[1..])
  }

  lemma {:induction false} RunCounts(s: State, run: seq<Label>)
    requires Interleaving(s, run)
    ensures var t := After(s, run);
      && |t.drained| + |t.buf| + |t.channel| == |s.drained| + |s.buf| + |s.channel| + SentBy(run)
      && |t.drained| + |t.buf| == |s.drained| + |s.buf| + ReceivedBy(run)
      && |t.drained| == |s.drained| + DrainedBy(run)
    decreases |run|
  {
    if run != [] {
      RunCounts(Step(s, run[0]), run[1..]);
    }
  }

  lemma StepArrives(s: State, l: Label)
    requires Enabled(s, l) && InRange(s)
    ensures Step(s, l).arrived == s.arrived + if l.Schedule? then Frames(l.burst) else []
  {
  }

  lemma {:induction false} RunArrives(s: State, run: seq<Label>)
    requires Interleaving(s, run)
    ensures After(s, run).arrived == s.arrived + ArrivedBy(run)
    decreases |run|
  {
    if run != [] {
      var s' := Step(s, run[0]);
      StepArrives(s, run[0]);
      RunArrives(s', run[1..]);
      Assoc(s.arrived, if run[0].Schedule? then Frames(run[0].burst) else [], ArrivedBy(run[1..]));
    }
  }

  /** Frame `k` is the packet at position `at[k]` of the burst, in order, and no packet is left out. */
  ghost predicate FramesAt(burst: seq<Incoming>, frames: seq<Frame>, at: seq<nat>) {
    && |at| == |frames|
    && (forall k :: 0 <= k < |at| ==> at[k] < |burst| && burst[at[k]] == InPacket(frames[k]))
    && Increasing(at)
    && (forall i :: 0 <= i < |burst| && burst[i].InPacket? ==> i in at)
  }

  /** Positions one further on. */
  function Shift(at: seq<nat>): (r: seq<nat>)
    ensures |r| == |at| && forall k :: 0 <= k < |at| ==> r[k] == at[k] + 1
  {
    seq(|at|, k requires 0 <= k < |at| => at[k] + 1)
  }

  lemma ShiftFinds(at: seq<nat>, i: nat)
    requires i in at
    ensures i + 1 in Shift(at)
  {
    var k :| 0 <= k < |at| && at[k] == i;
    assert Shift(at)[k] == i + 1;
  }

  lemma ShiftIncreases(at: seq<nat>)
    requires Increasing(at)
    ensures Increasing(Shift(at)) && Increasing([0] + Shift(at))
  {
    var at' := [0] + Shift(at);
    forall i, j | 0 <= i && Before(i, j) && j < |at'| ensures at'[i] < at'[j] {
      assert Before(i - 1, j - 1);
    }
  }

  lemma FramesSkip(burst: seq<Incoming>, frames: seq<Frame>, at: seq<nat>)
    requires burst != [] && !burst[0].InPacket? && FramesAt(burst[1..], frames, at)
    ensures FramesAt(burst, frames, Shift(at))
  {
    var rest, at' := burst[1..], Shift(at);
    ShiftIncreases(at);
    forall k | 0 <= k < |at'| ensures at'[k] < |burst| && burst[at'[k]] == InPacket(frames[k]) {
      assert rest[at[k]] == burst[at'[k]];
    }
    forall i | 0 <= i < |burst| && burst[i].InPacket? ensures i in at' {
      assert rest[i - 1] == burst[i];
      ShiftFinds(at, i - 1);
    }
  }

  lemma FramesMore(burst: seq<Incoming>, frames: seq<Frame>, at: seq<nat>)
    requires burst != [] && burst[0].InPacket? && FramesAt(burst[1..], frames, at)
    ensures FramesAt(burst, [burst[0].frame] + frames, [0] + Shift(at))
  {
    var rest, at', frames' := burst[1..], [0] + Shift(at), [burst[0].frame] + frames;
    forall k | 0 <= k < |at'| ensures at'[k] < |burst| && burst[at'[k]] == InPacket(frames'[k]) {
      if k > 0 {
        assert rest[at[k - 1]] == burst[at'[k]] == InPacket(frames[k - 1]);
      }
    }
    ShiftIncreases(at);
    forall i | 0 <= i < |burst| && burst[i].InPacket? ensures i in at' {
      if i > 0 {
        assert rest[i - 1] == burst[i];
        ShiftFinds(at, i - 1);
      } else {
        assert at'[0] == 0;
      }
    }
  }

  /** What arrives with a burst are its packets, all of them and in order. */
  lemma {:induction false} FramesAre(burst: seq<Incoming>) returns (at: seq<nat>)
    ensures FramesAt(burst, Frames(burst), at)
  {
    if burst == [] {
      at := [];
    } else {
      at := FramesAre(burst[1..]);
      if burst[0].InPacket? {
        FramesMore(burst, Frames(burst[1..]), at);
        at := [0] + Shift(at);
      } else {
        FramesSkip(burst, Frames(burst[1..]), at);
        at := Shift(at);
        assert [] + Frames(burst[1..]) == Frames(burst[1..]);
      }
    }
  }

  /**
   Over every interleaving: what went into the channel is what the sends reported, what came out
   of it what the receives took, what was counted one packet for each step of the terminator,
   and what arrived is what the scheduler delivered.
   */
  lemma RunConserves(run: seq<Label>)
    requires Interleaving(Start, run)
    ensures var s := After(Start, run);
      && |s.drained| + |s.buf| + |s.channel| == SentBy(run)
      && |s.drained| + |s.buf| == ReceivedBy(run)
      && |s.drained| == DrainedBy(run)
      && s.arrived == ArrivedBy(run)
      && |s.arrived| == SentBy(run) + |s.vec| + |Ids(s.events)| + |s.freed| + |s.lost|
  {
    var s := After(Start, run);
    RunCounts(Start, run);
    RunArrives(Start, run);
    assert [] + ArrivedBy(run) == ArrivedBy(run);
    StartInv();
    RunKeeps(Start, run);
    PlacedCounts(Line(s), s.freed, s.lost, |s.arrived|);
    LineParts(s);
  }

  /** A send that does not fail with a code below -1 hands over as many packets as it says, and keeps the rest. */
  lemma SendTakes(s: State, result: int)
    requires Control(s) && InRange(s) && Enabled(s, Send(result)) && result >= -1
    ensures var sent := if result < 0 then 0 else result;
      Step(s, Send(result)) == s.(channel := s.channel + s.vec[..sent], vec := s.vec[sent..],
                                  pc := if sent == |s.vec| then Scan else Freeing)
  {
    if result == |s.vec| {
      assert s.vec[|s.vec|..] == [];
    } else {
      assert FreeFrom(result) == if result < 0 then 0 else result;
    }
  }

  /** Packets whose send failed and that are still to be freed. */
  function Doomed(s: State): seq<nat> {
    if s.pc == Freeing then s.vec else []
  }

  lemma FreesStep(s: State, l: Label)
    requires Enabled(s, l) && InRange(s) && (s.pc == Freeing || s.pc == Scan) && l != NextEvent
    ensures var t := Step(s, l);
      && (t.pc == Freeing || t.pc == Scan)
      && t.freed + Doomed(t) == s.freed + Doomed(s) && t.lost == s.lost
      && t.drained + t.buf + t.channel == s.drained + s.buf + s.channel
  {
    match l
    case FreeOne =>
      if s.vec != [] {
        HeadTail(s.vec);
        Assoc(s.freed, [s.vec[0]], s.vec[1..]);
      }
    case Receive(count) =>
      assert s.channel == s.channel[..count] + s.channel[count..];
    case DrainOne =>
      HeadTail(s.buf);
      Assoc(s.drained, [s.buf[0]], s.buf[1..]);
    case _ =>
  }

  /** Until the dispatcher looks at its next event, it frees what is left in the vector. */
  lemma {:induction false} FreesVector(s: State, run: seq<Label>)
    requires Interleaving(s, run) && (s.pc == Freeing || s.pc == Scan) && NextEvent !in run
    ensures var t := After(s, run);
      && (t.pc == Freeing || t.pc == Scan)
      && t.freed + Doomed(t) == s.freed + Doomed(s) && t.lost == s.lost
      && t.drained + t.buf + t.channel == s.drained + s.buf + s.channel
    decreases |run|
  {
    if run != [] {
      assert run[0] in run && forall l | l in run[1..] :: l in run;
      var s' := Step(s, run[0]);
      FreesStep(s, run[0]);
      FreesVector(s', run[1..]);
    }
  }

  /** After a send exactly the packets behind the sent ones are freed, whatever the terminator does meanwhile. */
  lemma SendFrees(s: State, result: int, run: seq<Label>)
    requires Inv(s) && Enabled(s, Send(result)) && result >= -1 && InRange(s)
    requires Interleaving(Step(s, Send(result)), run) && NextEvent !in run
    requires After(Step(s, Send(result)), run).pc == Scan
    ensures var t, sent := After(Step(s, Send(result)), run), if result < 0 then 0 else result;
      && t.freed == s.freed + s.vec[sent..] && t.lost == s.lost
      && t.drained + t.buf + t.channel == s.drained + s.buf + s.channel + s.vec[..sent]
  {
    SendTakes(s, result);
    var s' := Step(s, Send(result));
    FreesVector(s', run);
    var t := After(s', run);
    assert t.freed + [] == t.freed;
    var sent := if result < 0 then 0 else result;
    Assoc(s.drained + s.buf, s.channel, s.vec[..sent]);
    assert s'.pc == Scan ==> s.vec[sent..] == [];
  }

  /** A send leaks packets exactly when its failure code is below -1 and not a multiple of 2^16. */
  lemma SendLoses(s: State, result: int)
    requires Inv(s) && Enabled(s, Send(result))
    ensures InRange(s)
    ensures Step(s, Send(result)).lost == s.lost <==> result >= -1 || result % 0x1_0000 == 0
  {
    FilledInRange(s);
    if result >= -1 {
      SendTakes(s, result);
    } else {
      assert FreeFrom(result) == result % 0x1_0000;
      if result % 0x1_0000 != 0 {
        assert |Step(s, Send(result)).lost| > |s.lost|;
      }
    }
  }

  lemma {:induction false} NothingLost(s: State, run: seq<Label>)
    requires Inv(s) && Interleaving(s, run) && s.lost == []
    requires forall l | l in run :: l.Send? ==> l.result >= -1
    ensures After(s, run).lost == []
    decreases |run|
  {
    if run != [] {
      assert run[0] in run;
      StepKeeps(s, run[0]);
      if run[0].Send? {
        SendLoses(s, run[0].result);
      }
      NothingLost(Step(s, run[0]), run[1..]);
    }
  }

  lemma {:induction false} IncreasingFloor(ids: seq<nat>, i: nat)
    requires Increasing(ids) && i < |ids|
    ensures ids[i] >= i
  {
    if i != 0 {
      IncreasingFloor(ids, i - 1);
      assert Before(i - 1, i);
    }
  }

  lemma {:induction false} IncreasingCeiling(ids: seq<nat>, n: nat, i: nat)
    requires Increasing(ids) && i < |ids| == n && forall k :: 0 <= k < n ==> ids[k] < n
    ensures ids[i] <= i
    decreases n - i
  {
    if i != n - 1 {
      IncreasingCeiling(ids, n, i + 1);
      assert Before(i, i + 1);
    }
  }

  lemma IncreasingIsUpto(ids: seq<nat>, n: nat)
    requires Placed(ids, [], [], n)
    ensures ids == Upto(n)
  {
    assert |ids| == |multiset(ids)| == |multiset(Upto(n))| == n;
    PlacedBelow(ids, [], [], n);
    forall i | 0 <= i < n ensures ids[i] == i {
      IncreasingFloor(ids, i);
      IncreasingCeiling(ids, n, i);
    }
  }

  /** Once the pipeline is empty and no send failed, every packet was counted, in order, once. */
  lemma AllDelivered(run: seq<Label>)
    requires Interleaving(Start, run)
    requires var s := After(Start, run); s.pc == Poll && s.channel == [] && s.buf == [] && s.freed == [] && s.lost == []
    ensures After(Start, run).drained == Upto(|After(Start, run).arrived|)
  {
    var s := After(Start, run);
    StartInv();
    RunKeeps(Start, run);
    assert Line(s) == s.drained;
    IncreasingIsUpto(s.drained, |s.arrived|);
  }

  // ----- a run that loses a packet

  lemma RunCons(s: State, l: Label, rest: seq<Label>)
    requires Enabled(s, l) && InRange(s) && Interleaving(Step(s, l), rest)
    ensures Interleaving(s, [l] + rest) && After(s, [l] + rest) == After(Step(s, l), rest)
  {
    assert ([l] + rest)[0] == l && ([l] + rest)[1..] == rest;
  }

  function Holding(f: Frame, bytes: seq<Byte>, pc: Pc, events: seq<Event>, vec: seq<nat>): State {
    State([f], [bytes], pc, events, vec, [], [], [], [], [], 0, 0)
  }

  lemma LosesSchedule(f: Frame)
    requires HasHeader(f)
    ensures Enabled(Start, Schedule([InPacket(f)])) && InRange(Start)
    ensures Step(Start, Schedule([InPacket(f)])) == Holding(f, f.data, Scan, [Pkt(0)], [])
  {
    var burst := [InPacket(f)];
    assert burst[1..] == [] && Frames([]) == [] && Number([], 1) == [];
    assert Frames(burst) == [f] && Number(burst, 0) == [Pkt(0)];
    var s := Step(Start, Schedule(burst));
    assert s.arrived == [f] && s.bytes == [f.data];
  }

  lemma LosesScan(f: Frame)
    requires HasHeader(f)
    ensures var s := Holding(f, f.data, Scan, [Pkt(0)], []);
      Enabled(s, NextEvent) && InRange(s) && Step(s, NextEvent) == Holding(f, f.data, Scan, [], [0])
    ensures var s := Holding(f, f.data, Scan, [], [0]);
      Enabled(s, NextEvent) && InRange(s) && Step(s, NextEvent) == Holding(f, f.data, Trimming(0), [], [0])
  {
    assert [Pkt(0)][1..] == [];
    assert [] + [0] == [0];
  }

  lemma LosesTrim(f: Frame)
    requires HasHeader(f)
    ensures var s := Holding(f, f.data, Trimming(0), [], [0]);
      Enabled(s, TrimOne) && InRange(s) && Step(s, TrimOne) == Holding(f, Trim(f), Trimming(1), [], [0])
    ensures var s := Holding(f, Trim(f), Trimming(1), [], [0]);
      Enabled(s, TrimOne) && InRange(s) && Step(s, TrimOne) == Holding(f, Trim(f), Sending, [], [0])
  {
    var s := Holding(f, f.data, Trimming(0), [], [0]);
    assert Current(s, 0) == f;
  }

  lemma LosesSend(f: Frame)
    requires HasHeader(f)
    ensures var s := Holding(f, Trim(f), Sending, [], [0]);
      && Enabled(s, Send(-2)) && InRange(s)
      && Step(s, Send(-2)).lost == [0] && Step(s, Send(-2)).freed == [] && Step(s, Send(-2)).channel == []
  {
    assert FreeFrom(-2) == 0xFFFE;
    assert [0][0..1] == [0];
  }

  lemma LosesVector(f: Frame)
    requires HasHeader(f)
    ensures var s, run := Holding(f, f.data, Trimming(0), [], [0]), [TrimOne] + ([TrimOne] + ([Send(-2)] + []));
      && Interleaving(s, run)
      && After(s, run).lost == [0] && After(s, run).freed == [] && After(s, run).channel == []
  {
    LosesTrim(f);
    LosesSend(f);
    var s := Holding(f, Trim(f), Sending, [], [0]);
    assert Interleaving(Step(s, Send(-2)), []);
    RunCons(s, Send(-2), []);
    RunCons(Holding(f, Trim(f), Trimming(1), [], [0]), TrimOne, [Send(-2)] + []);
    RunCons(Holding(f, f.data, Trimming(0), [], [0]), TrimOne, [TrimOne] + ([Send(-2)] + []));
  }

  /** One packet arrives, is trimmed, and the send fails with -2: it is neither sent nor freed. */
  lemma LosingRun(f: Frame)
    requires HasHeader(f)
    ensures var run := [Schedule([InPacket(f)]), NextEvent, NextEvent, TrimOne, TrimOne, Send(-2)];
      && Interleaving(Start, run)
      && After(Start, run).lost == [0] && After(Start, run).freed == [] && After(Start, run).channel == []
  {
    LosesSchedule(f);
    LosesScan(f);
    LosesVector(f);
    var tail := [TrimOne] + ([TrimOne] + ([Send(-2)] + []));
    RunCons(Holding(f, f.data, Scan, [], [0]), NextEvent, tail);
    RunCons(Holding(f, f.data, Scan, [Pkt(0)], []), NextEvent, [NextEvent] + tail);
    RunCons(Start, Schedule([InPacket(f)]), [NextEvent] + ([NextEvent] + tail));
    assert [Schedule([InPacket(f)]), NextEvent, NextEvent, TrimOne, TrimOne, Send(-2)]
      == [Schedule([InPacket(f)])] + ([NextEvent] + ([NextEvent] + tail));
  }

  // ----- every reachable state can be emptied

  /** The packets that can still come out at the far end: those being freed no longer can. */
  ghost function Deliverable(s: State): seq<nat> {
    s.drained + s.buf + s.channel + (if s.pc == Freeing then [] else s.vec) + Ids(s.events)
  }

  /** A step on the way out: the dispatcher first, every send accepted; then the terminator. */
  function WayOut(s: State): Label {
    match s.pc
    case Scan => NextEvent
    case Trimming(_) => TrimOne
    case Sending => Send(|s.vec|)
    case Freeing => FreeOne
    case Poll =>
      if s.buf != [] then DrainOne
      else Receive(Min(CHANNEL_RECV_MAX, |s.channel|))
  }

  predicate Empty(s: State) {
    s.pc == Poll && s.buf == [] && s.channel == []
  }

  /** How far the dispatcher is from its next poll, with no event left. */
  function Phase(s: State): nat {
    match s.pc
    case Poll => 0
    case Scan => if s.vec == [] then 1 else 4 * VECTOR_SIZE + 2
    case Freeing => 2 + |s.vec|
    case Sending => 2 * VECTOR_SIZE
    case Trimming(i) => 2 * VECTOR_SIZE + 1 + if i < |s.vec| then |s.vec| - i else 0
  }

  ghost predicate Closer(s: State, s': State) {
    || |s'.events| < |s.events|
    || (|s'.events| == |s.events| && Phase(s') < Phase(s))
    || (|s'.events| == |s.events| && Phase(s') == Phase(s) && |s'.channel + s'.buf| < |s.channel + s.buf|)
    || (|s'.events| == |s.events| && Phase(s') == Phase(s) && |s'.channel + s'.buf| == |s.channel + s.buf|
        && |s'.channel| < |s.channel|)
  }

  /** The step keeps what will come out and what is lost, and frees only what was doomed. */
  ghost predicate OnTheWay(s: State, s': State) {
    && Closer(s, s') && Deliverable(s') == Deliverable(s)
    && s'.arrived == s.arrived && s'.lost == s.lost && s'.freed + Doomed(s') == s.freed + Doomed(s)
  }

  lemma ScanOut(s: State)
    requires Inv(s) && InRange(s) && s.pc == Scan
    ensures OnTheWay(s, Step(s, NextEvent))
  {
    var s' := Step(s, NextEvent);
    if s.events != [] {
      LineAdd(s, s');
    }
  }

  lemma SendOut(s: State)
    requires Inv(s) && InRange(s) && s.pc == Sending
    ensures OnTheWay(s, Step(s, Send(|s.vec|)))
  {
    var s' := Step(s, Send(|s.vec|));
    assert s.vec[..|s.vec|] == s.vec;
    Assoc(s.drained + s.buf, s.channel, s.vec);
    assert s'.drained + s'.buf + s'.channel + [] == s.drained + s.buf + s.channel + s.vec;
  }

  lemma FreeOut(s: State)
    requires Inv(s) && InRange(s) && s.pc == Freeing
    ensures OnTheWay(s, Step(s, FreeOne))
  {
    if s.vec != [] {
      assert s.vec == [s.vec[0]] + s.vec[1..];
      Assoc(s.freed, [s.vec[0]], s.vec[1..]);
    }
  }

  lemma DrainOut(s: State)
    requires Inv(s) && InRange(s) && s.pc == Poll && !Empty(s)
    ensures Enabled(s, WayOut(s)) && OnTheWay(s, Step(s, WayOut(s)))
  {
    var s' := Step(s, WayOut(s));
    if s.buf != [] {
      LineDrain(s, s');
    } else {
      LineSplit(s, s', Min(CHANNEL_RECV_MAX, |s.channel|));
    }
  }

  lemma TrimOut(s: State)
    requires Inv(s) && InRange(s) && s.pc.Trimming?
    ensures OnTheWay(s, Step(s, TrimOne))
  {
  }

  lemma StepOut(s: State)
    requires Inv(s) && InRange(s) && !Empty(s)
    ensures Enabled(s, WayOut(s)) && OnTheWay(s, Step(s, WayOut(s)))
  {
    match s.pc
    case Scan => ScanOut(s);
    case Trimming(_) => TrimOut(s);
    case Sending => SendOut(s);
    case Freeing => FreeOut(s);
    case Poll => DrainOut(s);
  }

  /** In `t` all that could still come out of `s` has come out, in order, and nothing more was lost or freed. */
  ghost predicate Emptied(s: State, t: State) {
    && Empty(t) && t.drained == Deliverable(s) && t.freed == s.freed + Doomed(s)
    && t.lost == s.lost && t.arrived == s.arrived
  }

  lemma EmptiedBefore(s: State, s': State, t: State)
    requires OnTheWay(s, s') && Emptied(s', t)
    ensures Emptied(s, t)
  {
  }

  lemma EmptiedAlready(s: State)
    requires Control(s) && Empty(s)
    ensures Emptied(s, s)
  {
    assert Ids([]) == [];
    assert Deliverable(s) == s.drained + [] + [] + [] + [] == s.drained;
    assert s.freed + [] == s.freed;
  }

  /** From any state of the invariant the pipeline can run empty. */
  lemma {:induction false} RunsEmpty(s: State) returns (run: seq<Label>)
    requires Inv(s)
    ensures Interleaving(s, run) && Emptied(s, After(s, run))
    decreases |s.events|, Phase(s), |s.channel + s.buf|, |s.channel|
  {
    if Empty(s) {
      run := [];
      EmptiedAlready(s);
    } else {
      FilledInRange(s);
      StepOut(s);
      StepKeeps(s, WayOut(s));
      var s' := Step(s, WayOut(s));
      var rest := RunsEmpty(s');
      RunCons(s, WayOut(s), rest);
      EmptiedBefore(s, s', After(s', rest));
      run := [WayOut(s)] + rest;
    }
  }

  lemma {:induction false} RunAppend(s: State, run: seq<Label>, more: seq<Label>)
    requires Interleaving(s, run) && Interleaving(After(s, run), more)
    ensures Interleaving(s, run + more) && After(s, run + more) == After(After(s, run), more)
    decreases |run|
  {
    if run == [] {
      assert run + more == more;
    } else {
      RunAppend(Step(s, run[0]), run[1..], more);
      HeadTail(run);
      Assoc([run[0]], run[1..], more);
      RunCons(s, run[0], run[1..] + more);
    }
  }

  /** Every interleaving can be continued until the pipeline is empty, without losing or freeing anything more. */
  lemma CanRunEmpty(run: seq<Label>) returns (more: seq<Label>)
    requires Interleaving(Start, run)
    ensures Interleaving(Start, run + more)
    ensures Emptied(After(Start, run), After(Start, run + more))
  {
    StartInv();
    RunKeeps(Start, run);
    more := RunsEmpty(After(Start, run));
    RunAppend(Start, run, more);
  }
}
