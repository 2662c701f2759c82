/** Packets, what a worker hands to the stack, and the packet vector of include/api/nfp_pkt_vector.h. */
module PacketVector {
  import opened Sequences

  const VECTOR_SIZE: nat := 32

  datatype Packet = Packet(id: nat, len: nat)

  datatype InQueue = NoQueue | FromQueue(id: nat)

  datatype Event =
    | InvalidEvent
    | TimeoutEvent(id: nat)
    | PacketEvent(pkt: Packet)
    | OtherEvent(id: nat)

  /** One call a dispatcher makes on the stack or the pools. */
  datatype Action =
    | Input(pkt: Packet, queue: InQueue)
    | InputMulti(pkts: seq<Packet>, queue: InQueue)
    | HandleTimer(ev: Event)
    | FreeEvent(ev: Event)
    | FreePacket(pkt: Packet)
    | SendPending

  /** The deliveries of single packets, in order. */
  function Singles(pkts: seq<Packet>, queue: InQueue): (r: seq<Action>)
    ensures |r| == |pkts|
    ensures forall i :: 0 <= i < |pkts| ==> r[i] == Input(pkts[i], queue)
  {
    seq(|pkts|, i requires 0 <= i < |pkts| => Input(pkts[i], queue))
  }

  /** A log in which every vector is replaced by its packets, one call each. */
  function Unbatch(log: seq<Action>): seq<Action> {
    if log == [] then []
    else
      var a := log[|log| - 1];
      Unbatch(log[..|log| - 1]) + if a.InputMulti? then Singles(a.pkts, a.queue) else [a]
  }

  lemma UnbatchSnoc(log: seq<Action>, a: Action)
    ensures Unbatch(log + [a]) == Unbatch(log) + if a.InputMulti? then Singles(a.pkts, a.queue) else [a]
  {
    assert (log + [a])[..|log|] == log;
  }

  lemma {:induction false} UnbatchAppend(a: seq<Action>, b: seq<Action>)
    ensures Unbatch(a + b) == Unbatch(a) + Unbatch(b)
  {
    if b == [] {
      assert a + b == a;
    } else {
      var b', x := b[..|b| - 1], b[|b| - 1];
      assert b == b' + [x] && a + b == (a + b') + [x];
      UnbatchAppend(a, b');
    }
  }

  lemma SinglesAppend(a: seq<Packet>, b: seq<Packet>, queue: InQueue)
    ensures Singles(a + b, queue) == Singles(a, queue) + Singles(b, queue)
  {
  }

  ghost predicate AllFull(vectors: seq<seq<Packet>>) {
    forall v | v in vectors :: |v| == VECTOR_SIZE
  }

  lemma {:induction false} AllFullLength(vectors: seq<seq<Packet>>)
    requires AllFull(vectors)
    ensures |Flat(vectors)| == VECTOR_SIZE * |vectors|
  {
    if vectors != [] {
      assert vectors[|vectors| - 1] in vectors;
      AllFullLength(vectors[..|vectors| - 1]);
    }
  }

  /** The calls that hand over `vectors`. */
  function HandOver(vectors: seq<seq<Packet>>): (r: seq<Action>)
    ensures |r| == |vectors|
    ensures forall i :: 0 <= i < |vectors| ==> r[i] == InputMulti(vectors[i], NoQueue)
  {
    seq(|vectors|, i requires 0 <= i < |vectors| => InputMulti(vectors[i], NoQueue))
  }

  lemma {:induction false} UnbatchHandOver(vectors: seq<seq<Packet>>)
    ensures Unbatch(HandOver(vectors)) == Singles(Flat(vectors), NoQueue)
  {
    if vectors != [] {
      var init, v := vectors[..|vectors| - 1], vectors[|vectors| - 1];
      UnbatchHandOver(init);
      assert HandOver(vectors) == HandOver(init) + [InputMulti(v, NoQueue)];
      UnbatchSnoc(HandOver(init), InputMulti(v, NoQueue));
      SinglesAppend(Flat(init), v, NoQueue);
    }
  }

  class Vector {
    var pkt: array<Packet>
    var num: nat

    ghost predicate Valid()
      reads this
    {
      pkt.Length == VECTOR_SIZE && num <= VECTOR_SIZE
    }

    function Contents(): seq<Packet>
      requires Valid()
      reads this, pkt
    {
      pkt[..num]
    }

    constructor ()
      ensures Valid() && num == 0 && fresh(pkt)
    {
      pkt := new Packet[VECTOR_SIZE](i => Packet(0, 0));
      num := 0;
    }

    method Init()
      requires Valid()
      modifies this`num
      ensures Valid() && num == 0
    {
      num := 0;
    }

    /** The documented contract: 1 and the packet in the first free position, or 0 when there is none. */
    method Add(p: Packet) returns (added: nat)
      requires Valid()
      modifies this`num, pkt
      ensures Valid()
      ensures added == if old(num) < VECTOR_SIZE then 1 else 0
      ensures Contents() == if added == 1 then old(Contents()) + [p] else old(Contents())
    {
      if num == pkt.Length {
        return 0;
      }
      pkt[num] := p;
      num := num + 1;
      added := 1;
    }

    predicate IsFull()
      reads this
    {
      num == VECTOR_SIZE
    }

    predicate HasData()
      reads this
    {
      num != 0
    }
  }

  /** One pass of the batching loop: add a packet, hand the vector over when that fills it. */
  method BatchOne(vec: Vector, pkt: Packet, vectors: seq<seq<Packet>>, ghost before: seq<Packet>)
    returns (vectors': seq<seq<Packet>>)
    requires vec.Valid() && !vec.IsFull() && AllFull(vectors) && Flat(vectors) + vec.Contents() == before
    modifies vec`num, vec.pkt
    ensures vec.Valid() && !vec.IsFull() && AllFull(vectors') && Flat(vectors') + vec.Contents() == before + [pkt]
  {
    Assoc(Flat(vectors), vec.Contents(), [pkt]);
    vectors' := vectors;
    var added := vec.Add(pkt);
    if added != 1 {
      // The packet would be freed here: the vector has room whenever the loop adds to it.
      assert false;
    }
    if vec.IsFull() {
      FlatSnoc(vectors, vec.Contents());
      vectors' := vectors + [vec.Contents()];
      vec.Init();
    }
  }

  /**
   The batching loop shared by the receive workers: add each packet, hand the vector over
   when it is full. Nothing is freed, nothing is reordered, and room is left afterwards.
   */
  method BatchBurst(vec: Vector, pkts: seq<Packet>) returns (vectors: seq<seq<Packet>>)
    requires vec.Valid() && !vec.IsFull()
    modifies vec`num, vec.pkt
    ensures vec.Valid() && !vec.IsFull() && AllFull(vectors)
    ensures Flat(vectors) + vec.Contents() == old(vec.Contents()) + pkts
  {
    vectors := [];
    ghost var start := vec.Contents();
    for i := 0 to |pkts|
      invariant vec.Valid() && !vec.IsFull() && AllFull(vectors)
      invariant Flat(vectors) + vec.Contents() == start + pkts[..i]
    {
      TakeSnoc(pkts, i);
      Assoc(start, pkts[..i], [pkts[i]]);
      vectors := BatchOne(vec, pkts[i], vectors, start + pkts[..i]);
    }
    assert pkts[..|pkts|] == pkts;
  }

  lemma Regroup<T>(a: seq<T>, h: seq<T>, b: seq<T>, h': seq<T>, p: seq<T>)
    requires b + h' == h + p
    ensures (a + b) + h' == (a + h) + p
  {
    assert (a + b) + h' == a + (b + h');
    assert (a + h) + p == a + (h + p);
  }

  /** Appending what a burst produced keeps the vectors in step with the arrivals. */
  lemma BurstStep(vectors: seq<seq<Packet>>, more: seq<seq<Packet>>, held: seq<Packet>,
                  held': seq<Packet>, arrived: seq<Packet>, pkts: seq<Packet>)
    requires Flat(vectors) + held == arrived && Flat(more) + held' == held + pkts
    ensures Flat(vectors + more) + held' == arrived + pkts
  {
    FlatAppend(vectors, more);
    Regroup(Flat(vectors), held, Flat(more), held', pkts);
  }

  /** The flush at the end of a round. */
  method FlushVector(vec: Vector) returns (vectors: seq<seq<Packet>>)
    requires vec.Valid() && !vec.IsFull()
    modifies vec`num
    ensures vec.Valid() && vec.num == 0
    ensures vectors == if old(vec.num) == 0 then [] else [old(vec.Contents())]
  {
    vectors := [];
    if vec.HasData() {
      vectors := [vec.Contents()];
      vec.Init();
    }
  }

  /** No vector is empty, and only the last one may have room left. */
  ghost predicate Grouped(vectors: seq<seq<Packet>>) {
    && (forall i :: 0 <= i < |vectors| ==> 1 <= |vectors[i]| <= VECTOR_SIZE)
    && (forall i :: 0 <= i < |vectors| - 1 ==> |vectors[i]| == VECTOR_SIZE)
  }

  lemma LastVector(vectors: seq<seq<Packet>>, last: seq<Packet>, tail: seq<seq<Packet>>)
    requires AllFull(vectors) && |last| < VECTOR_SIZE && tail == if last == [] then [] else [last]
    ensures Grouped(vectors + tail) && Flat(vectors + tail) == Flat(vectors) + last
  {
    assert forall i :: 0 <= i < |vectors| ==> vectors[i] in vectors;
    if last == [] {
      assert vectors + tail == vectors && Flat(vectors) + last == Flat(vectors);
    } else {
      FlatSnoc(vectors, last);
    }
  }
}
