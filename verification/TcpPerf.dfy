/**
 The receive functions and packet counters of example/tcpperf/app_main.c.

 Each call polls a list of queues; `results` lists what the queues answer.
 A negative answer ends the call at once, and then the batched function leaves
 the packets of its partly filled vector undelivered.
 */
module TcpPerf {
  import opened Common
  import opened Sequences
  import opened PacketVector

  const PKT_LEN_XS: nat := 128
  const PKT_LEN_S: nat := 512
  const PKT_LEN_M: nat := 1024
  const PKT_LEN_L: nat := 1280

  type Negative = c: int | c < 0 witness -1

  datatype RxResult = RxError(code: Negative) | RxGot(pkts: seq<Packet>)

  /** The packets received before the first error. */
  function Taken(results: seq<RxResult>): seq<Packet> {
    if results == [] || results[0].RxError? then [] else results[0].pkts + Taken(results[1..])
  }

  predicate Fails(results: seq<RxResult>) {
    results != [] && (results[0].RxError? || Fails(results[1..]))
  }

  function ErrorCode(results: seq<RxResult>): Negative
    requires Fails(results)
  {
    if results[0].RxError? then results[0].code else ErrorCode(results[1..])
  }

  function ReturnValue(results: seq<RxResult>): int {
    if Fails(results) then ErrorCode(results) else |Taken(results)|
  }

  /**
   The queues give `parts` one after the other, up to the first that fails: its code is returned,
   or the number of packets if none fails.
   */
  ghost predicate Polled(results: seq<RxResult>, ret: int, taken: seq<Packet>, parts: seq<seq<Packet>>) {
    && |parts| <= |results| && (forall k :: 0 <= k < |parts| ==> results[k] == RxGot(parts[k]))
    && Flat(parts) == taken
    && if |parts| < |results| then results[|parts|].RxError? && ret == results[|parts|].code else ret == |taken|
  }

  lemma {:induction false} TakenUpToError(results: seq<RxResult>) returns (parts: seq<seq<Packet>>)
    ensures Polled(results, ReturnValue(results), Taken(results), parts)
    ensures |parts| < |results| <==> Fails(results)
  {
    if results == [] || results[0].RxError? {
      parts := [];
    } else {
      var rest := results[1..];
      var later := TakenUpToError(rest);
      parts := [results[0].pkts] + later;
      FlatHead(parts);
      assert parts[1..] == later;
      forall k | 0 <= k < |parts| ensures results[k] == RxGot(parts[k]) {
        assert k > 0 ==> results[k] == rest[k - 1];
      }
    }
  }

  /** How many of the packets taken reach the stack through the batched function. */
  function Delivered(results: seq<RxResult>): (n: nat)
    ensures n <= |Taken(results)|
  {
    var n := |Taken(results)|;
    if Fails(results) then n - n % VECTOR_SIZE else n
  }

  datatype Size = XS | S | M | L | XL

  function SizeOf(len: nat): Size {
    if len < PKT_LEN_XS then XS
    else if len < PKT_LEN_S then S
    else if len < PKT_LEN_M then M
    else if len < PKT_LEN_L then L
    else XL
  }

  function Count(pkts: seq<Packet>, size: Size): nat {
    if pkts == [] then 0
    else Count(pkts[..|pkts| - 1], size) + if SizeOf(pkts[|pkts| - 1].len) == size then 1 else 0
  }

  /** The lengths of a size class. */
  predicate InClass(len: nat, size: Size) {
    match size
    case XS => len < 128
    case S => 128 <= len < 512
    case M => 512 <= len < 1024
    case L => 1024 <= len < 1280
    case XL => 1280 <= len
  }

  /** The positions of the packets of a size class. */
  function Positions(pkts: seq<Packet>, size: Size): set<nat> {
    set i: nat | i < |pkts| && InClass(pkts[i].len, size)
  }

  lemma ClassOf(len: nat, size: Size)
    ensures InClass(len, size) <==> SizeOf(len) == size
  {
  }

  lemma PositionsSnoc(pkts: seq<Packet>, n: nat, size: Size)
    requires n == |pkts| - 1
    ensures Positions(pkts, size) == Positions(pkts[..n], size) + if InClass(pkts[n].len, size) then {n} else {}
    ensures n !in Positions(pkts[..n], size)
  {
  }

  /** The count of a size class is the number of packets whose length is in its interval. */
  lemma {:induction false} CountIs(pkts: seq<Packet>, size: Size)
    ensures Count(pkts, size) == |Positions(pkts, size)|
  {
    if pkts != [] {
      var n := |pkts| - 1;
      CountIs(pkts[..n], size);
      ClassOf(pkts[n].len, size);
      PositionsSnoc(pkts, n, size);
    }
  }

  /** Every packet falls into one size class. */
  lemma {:induction false} CountsPartition(pkts: seq<Packet>)
    ensures |pkts| == Count(pkts, XS) + Count(pkts, S) + Count(pkts, M) + Count(pkts, L) + Count(pkts, XL)
  {
    if pkts != [] {
      CountsPartition(pkts[..|pkts| - 1]);
    }
  }

  datatype Tally = Tally(total: nat, xs: nat, s: nat, m: nat, l: nat, xl: nat)

  /** The true counts after the packets `pkts`. */
  function After(t: Tally, pkts: seq<Packet>): Tally {
    Tally(t.total + |pkts|,
          t.xs + Count(pkts, XS),
          t.s + Count(pkts, S),
          t.m + Count(pkts, M),
          t.l + Count(pkts, L),
          t.xl + Count(pkts, XL))
  }

  /** Each true count goes up by the number of packets of its size class. */
  lemma AfterCounts(t: Tally, pkts: seq<Packet>)
    ensures var r := After(t, pkts);
      && r.total == t.total + |pkts|
      && r.xs == t.xs + |Positions(pkts, XS)|
      && r.s == t.s + |Positions(pkts, S)|
      && r.m == t.m + |Positions(pkts, M)|
      && r.l == t.l + |Positions(pkts, L)|
      && r.xl == t.xl + |Positions(pkts, XL)|
  {
    CountIs(pkts, XS);
    CountIs(pkts, S);
    CountIs(pkts, M);
    CountIs(pkts, L);
    CountIs(pkts, XL);
  }

  predicate Balanced(t: Tally) {
    t.total == t.xs + t.s + t.m + t.l + t.xl
  }

  /** The total is the sum of the size classes in every state reached from balanced counters. */
  lemma AfterBalanced(t: Tally, pkts: seq<Packet>)
    requires Balanced(t)
    ensures Balanced(After(t, pkts))
  {
    CountsPartition(pkts);
  }

  lemma CountSnoc(pkts: seq<Packet>, pkt: Packet, size: Size)
    ensures Count(pkts + [pkt], size) == Count(pkts, size) + if SizeOf(pkt.len) == size then 1 else 0
  {
    assert (pkts + [pkt])[..|pkts|] == pkts;
  }

  lemma {:induction false} CountAppend(a: seq<Packet>, b: seq<Packet>, size: Size)
    ensures Count(a + b, size) == Count(a, size) + Count(b, size)
  {
    if b == [] {
      assert a + b == a;
    } else {
      var b', p := b[..|b| - 1], b[|b| - 1];
      assert a + b == (a + b') + [p];
      CountAppend(a, b', size);
      CountSnoc(a + b', p, size);
    }
  }

  lemma AfterAppend(t: Tally, a: seq<Packet>, b: seq<Packet>)
    ensures After(After(t, a), b) == After(t, a + b)
  {
    CountAppend(a, b, XS);
    CountAppend(a, b, S);
    CountAppend(a, b, M);
    CountAppend(a, b, L);
    CountAppend(a, b, XL);
  }

  lemma AfterOne(t: Tally, pkt: Packet)
    ensures var size := SizeOf(pkt.len);
      After(t, [pkt]) == Tally(
        t.total + 1,
        if size == XS then t.xs + 1 else t.xs,
        if size == S then t.s + 1 else t.s,
        if size == M then t.m + 1 else t.m,
        if size == L then t.l + 1 else t.l,
        if size == XL then t.xl + 1 else t.xl)
  {
    forall size ensures Count([pkt], size) == if SizeOf(pkt.len) == size then 1 else 0 {
      CountSnoc([], pkt, size);
      assert [] + [pkt] == [pkt];
    }
  }

  /** A 64-bit counter that stands for `exact` goes up by one. */
  method Bump(counter: nat, ghost exact: nat) returns (r: nat)
    requires Stands(counter, exact)
    ensures Stands(r, exact + 1)
  {
    StandsAdd(counter, exact, 1);
    r := Add64(counter, 1);
  }

  lemma SumWraps(total: nat, sum: nat, k: int, j: int)
    requires total < WORD && sum + j * WORD == total + k * WORD
    ensures total == sum % WORD
  {
    assert sum == total + (k - j) * WORD;
  }

  /** 64-bit counters, and the true counts they stand for. */
  class Counters {
    var total: nat
    var xs: nat
    var s: nat
    var m: nat
    var l: nat
    var xl: nat
    ghost var exact: Tally

    ghost predicate Valid()
      reads this
    {
      && Stands(total, exact.total) && Stands(xs, exact.xs) && Stands(s, exact.s)
      && Stands(m, exact.m) && Stands(l, exact.l) && Stands(xl, exact.xl)
    }

    constructor ()
      ensures Valid() && exact == Tally(0, 0, 0, 0, 0, 0)
    {
      total, xs, s, m, l, xl := 0, 0, 0, 0, 0, 0;
      exact := Tally(0, 0, 0, 0, 0, 0);
      assert Turns(0);
    }

    /** Whatever has wrapped, the total is the sum of the size classes. */
    lemma TotalIsSum()
      requires Valid() && Balanced(exact)
      ensures total == (xs + s + m + l + xl) % WORD
    {
      var k1 :| Turns(k1) && exact.xs == xs + k1 * WORD;
      var k2 :| Turns(k2) && exact.s == s + k2 * WORD;
      var k3 :| Turns(k3) && exact.m == m + k3 * WORD;
      var k4 :| Turns(k4) && exact.l == l + k4 * WORD;
      var k5 :| Turns(k5) && exact.xl == xl + k5 * WORD;
      var k :| Turns(k) && exact.total == total + k * WORD;
      SumWraps(total, xs + s + m + l + xl, k, k1 + k2 + k3 + k4 + k5);
    }

    method Update(pkt: Packet)
      requires Valid()
      modifies this
      ensures Valid() && exact == After(old(exact), [pkt])
    {
      AfterOne(exact, pkt);
      total := Bump(total, exact.total);
      if pkt.len < PKT_LEN_XS {
        xs := Bump(xs, exact.xs);
      } else if pkt.len < PKT_LEN_S {
        s := Bump(s, exact.s);
      } else if pkt.len < PKT_LEN_M {
        m := Bump(m, exact.m);
      } else if pkt.len < PKT_LEN_L {
        l := Bump(l, exact.l);
      } else {
        xl := Bump(xl, exact.xl);
      }
      exact := After(exact, [pkt]);
    }
  }

  lemma {:induction false} TakenPrefix(results: seq<RxResult>, n: nat)
    requires n < |results| && !Fails(results[..n])
    ensures results[n].RxGot? ==>
      && !Fails(results[..n + 1])
      && Taken(results[..n + 1]) == Taken(results[..n]) + results[n].pkts
    ensures results[n].RxError? ==>
      Fails(results) && Taken(results) == Taken(results[..n]) && ErrorCode(results) == results[n].code
    decreases n
  {
    if n == 0 {
      assert results[..1] == [results[0]];
      assert results[..1][1..] == [];
    } else {
      var rest := results[1..];
      assert results[..n][1..] == rest[..n - 1] && results[..n + 1][1..] == rest[..n];
      assert results[..n][0] == results[0] == results[..n + 1][0];
      TakenPrefix(rest, n - 1);
      if results[n].RxGot? {
        Assoc(results[0].pkts, Taken(rest[..n - 1]), results[n].pkts);
      }
    }
  }

  method InputEach(pkts: seq<Packet>, stats: Counters) returns (delivered: seq<Packet>)
    requires stats.Valid()
    modifies stats
    ensures stats.Valid() && stats.exact == After(old(stats.exact), pkts)
    ensures delivered == pkts
  {
    delivered := [];
    ghost var start := stats.exact;
    for i := 0 to |pkts|
      invariant stats.Valid() && stats.exact == After(start, pkts[..i])
      invariant delivered == pkts[..i]
    {
      assert pkts[..i + 1] == pkts[..i] + [pkts[i]];
      AfterAppend(start, pkts[..i], [pkts[i]]);
      stats.Update(pkts[i]);
      delivered := delivered + [pkts[i]];
    }
    assert pkts[..|pkts|] == pkts;
  }

  method RxSingleApi(results: seq<RxResult>, stats: Counters) returns (ret: int, delivered: seq<Packet>)
    requires stats.Valid()
    modifies stats
    ensures stats.Valid() && stats.exact == After(old(stats.exact), Taken(results))
    ensures ret == ReturnValue(results) && (ret < 0 <==> Fails(results))
    ensures delivered == Taken(results)
    ensures exists parts :: Polled(results, ret, delivered, parts)
  {
    ghost var parts := TakenUpToError(results);
    delivered := [];
    var pktsSum := 0;
    ghost var start := stats.exact;
    for idx := 0 to |results|
      invariant !Fails(results[..idx]) && pktsSum == |Taken(results[..idx])|
      invariant stats.Valid() && stats.exact == After(start, Taken(results[..idx]))
      invariant delivered == Taken(results[..idx])
    {
      TakenPrefix(results, idx);
      if results[idx].RxError? {
        return results[idx].code, delivered;
      }
      var pkts := results[idx].pkts;
      AfterAppend(start, Taken(results[..idx]), pkts);
      var part := InputEach(pkts, stats);
      delivered := delivered + part;
      pktsSum := pktsSum + |pkts|;
    }
    assert results[..|results|] == results;
    ret := pktsSum;
  }

  method BatchEach(vec: Vector, pkts: seq<Packet>, stats: Counters) returns (vectors: seq<seq<Packet>>)
    requires stats.Valid() && vec.Valid() && !vec.IsFull()
    modifies stats, vec`num, vec.pkt
    ensures stats.Valid() && stats.exact == After(old(stats.exact), pkts)
    ensures vec.Valid() && !vec.IsFull() && AllFull(vectors)
    ensures Flat(vectors) + vec.Contents() == old(vec.Contents()) + pkts
  {
    vectors := [];
    ghost var start, held := stats.exact, vec.Contents();
    for i := 0 to |pkts|
      invariant stats.Valid() && stats.exact == After(start, pkts[..i])
      invariant vec.Valid() && !vec.IsFull() && AllFull(vectors)
      invariant Flat(vectors) + vec.Contents() == held + pkts[..i]
    {
      TakeSnoc(pkts, i);
      Assoc(held, pkts[..i], [pkts[i]]);
      AfterAppend(start, pkts[..i], [pkts[i]]);
      stats.Update(pkts[i]);
      ghost var before := vec.Contents();
      var more := BatchBurst(vec, [pkts[i]]);
      BurstStep(vectors, more, before, vec.Contents(), held + pkts[..i], [pkts[i]]);
      vectors := vectors + more;
    }
    assert pkts[..|pkts|] == pkts;
  }

  /** What one queue gave is batched behind what the earlier ones gave. */
  method BatchQueue(vec: Vector, vectors: seq<seq<Packet>>, pkts: seq<Packet>, stats: Counters,
                    ghost start: Tally, ghost taken: seq<Packet>)
    returns (vectors': seq<seq<Packet>>)
    requires stats.Valid() && stats.exact == After(start, taken)
    requires vec.Valid() && !vec.IsFull() && AllFull(vectors) && Flat(vectors) + vec.Contents() == taken
    modifies stats, vec`num, vec.pkt
    ensures stats.Valid() && stats.exact == After(start, taken + pkts)
    ensures vec.Valid() && !vec.IsFull() && AllFull(vectors') && Flat(vectors') + vec.Contents() == taken + pkts
  {
    AfterAppend(start, taken, pkts);
    ghost var held := vec.Contents();
    var more := BatchEach(vec, pkts, stats);
    BurstStep(vectors, more, held, vec.Contents(), taken, pkts);
    vectors' := vectors + more;
  }

  /** All packets taken are delivered exactly when no queue fails or the vector was empty when one did. */
  lemma SameDelivery(results: seq<RxResult>)
    ensures Taken(results)[..Delivered(results)] == Taken(results)
      <==> !Fails(results) || |Taken(results)| % VECTOR_SIZE == 0
  {
    if !Fails(results) || |Taken(results)| % VECTOR_SIZE == 0 {
      assert Taken(results)[..Delivered(results)] == Taken(results);
    } else {
      assert |Taken(results)[..Delivered(results)]| < |Taken(results)|;
    }
  }

  /** On an error the packets left in the vector, fewer than a full one, are never handed over. */
  lemma PartlyDelivered(vectors: seq<seq<Packet>>, held: seq<Packet>, results: seq<RxResult>)
    requires AllFull(vectors) && |held| < VECTOR_SIZE && Fails(results)
    requires Flat(vectors) + held == Taken(results)
    ensures Flat(vectors) == Taken(results)[..Delivered(results)]
    ensures Flat(vectors) == Taken(results) <==> |Taken(results)| % VECTOR_SIZE == 0
    ensures exists parts :: Polled(results, ReturnValue(results), Taken(results), parts)
  {
    var parts := TakenUpToError(results);
    AllFullLength(vectors);
    assert |Taken(results)| % VECTOR_SIZE == |held|;
    SameDelivery(results);
  }

  /** Without an error the flush hands over the rest. */
  lemma WholeDelivery(vectors: seq<seq<Packet>>, held: seq<Packet>, tail: seq<seq<Packet>>, results: seq<RxResult>)
    requires AllFull(vectors) && |held| < VECTOR_SIZE && tail == if held == [] then [] else [held]
    requires var all := results[..|results|]; !Fails(all) && Flat(vectors) + held == Taken(all)
    ensures !Fails(results) && Flat(vectors) + held == Taken(results) == Flat(vectors + tail)
    ensures Flat(vectors + tail) == Taken(results)[..Delivered(results)] && Grouped(vectors + tail)
    ensures exists parts :: Polled(results, ReturnValue(results), Taken(results), parts)
  {
    var parts := TakenUpToError(results);
    assert results[..|results|] == results;
    LastVector(vectors, held, tail);
    SameDelivery(results);
  }

  method RxMultiApi(results: seq<RxResult>, stats: Counters) returns (ret: int, vectors: seq<seq<Packet>>)
    requires stats.Valid()
    modifies stats
    ensures stats.Valid() && stats.exact == After(old(stats.exact), Taken(results))
    ensures ret == ReturnValue(results) && (ret < 0 <==> Fails(results))
    ensures exists parts :: Polled(results, ret, Taken(results), parts)
    ensures if ret < 0 then AllFull(vectors) else Grouped(vectors)
    ensures Flat(vectors) == Taken(results)[..Delivered(results)]
    ensures Flat(vectors) == Taken(results) <==> !Fails(results) || |Taken(results)| % VECTOR_SIZE == 0
  {
    var vec := new Vector();
    vectors := [];
    var pktsSum := 0;
    ghost var start := stats.exact;
    for idx := 0 to |results|
      invariant fresh(vec) && fresh(vec.pkt) && vec.Valid() && !vec.IsFull() && AllFull(vectors)
      invariant !Fails(results[..idx]) && pktsSum == |Taken(results[..idx])|
      invariant stats.Valid() && stats.exact == After(start, Taken(results[..idx]))
      invariant Flat(vectors) + vec.Contents() == Taken(results[..idx])
    {
      TakenPrefix(results, idx);
      if results[idx].RxError? {
        PartlyDelivered(vectors, vec.Contents(), results);
        return results[idx].code, vectors;
      }
      var pkts := results[idx].pkts;
      vectors := BatchQueue(vec, vectors, pkts, stats, start, Taken(results[..idx]));
      pktsSum := pktsSum + |pkts|;
    }
    ghost var held := vec.Contents();
    var tail := FlushVector(vec);
    WholeDelivery(vectors, held, tail, results);
    vectors := vectors + tail;
    ret := pktsSum;
  }

  /** One packet before a failing queue: the single-packet function delivers it, the batched one does not. */
  method LossyRun(p: Packet) returns (ret: int, single: seq<Packet>, vectors: seq<seq<Packet>>)
    ensures ret == -1 && single == [p] && Flat(vectors) == []
  {
    var results := [RxGot([p]), RxError(-1)];
    assert results[1..] == [RxError(-1)];
    assert results[0].pkts + Taken(results[1..]) == [p];
    assert Fails(results[1..]) && ErrorCode(results[1..]) == -1;
    var stats := new Counters();
    ret, single := RxSingleApi(results, stats);
    ret, vectors := RxMultiApi(results, stats);
  }
}
