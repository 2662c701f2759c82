/**
 Whole runs of the tail queue operations over any number of queues.

 The abstract state of a group of queues is the list of their element
 sequences. `Apply` says what each operation means there, without pointers;
 `Run` executes the pointer operations and follows `Apply` step by step.
 */
module TailQueueRuns {
  import opened Sequences
  import opened Groups
  import opened QueueRuns
  import opened TailQueue

  /** Heads and their elements as the pointer code sees them. */
  ghost function Contents(qs: seq<TailQ>): (w: World<Elem>)
    reads qs
    ensures |w| == |qs|
  {
    seq(|qs|, i requires 0 <= i < |qs| reads qs => qs[i].elems)
  }

  ghost predicate Ready(qs: seq<TailQ>, zone: set<Elem>)
    reads qs, zone
  {
    && Distinct(qs)
    && Separate(Contents(qs))
    && (forall i, e :: 0 <= i < |qs| && e in qs[i].elems ==> e in zone)
    && (forall i :: 0 <= i < |qs| ==> qs[i].Valid())
  }

  /** The queues of a group other than `q` and `q2` are sound and still hold what `w` says. */
  ghost predicate OthersKept(qs: seq<TailQ>, q: nat, q2: nat, zone: set<Elem>, w: World<Elem>)
    reads qs, zone
  {
    && |w| == |qs|
    && forall i :: 0 <= i < |qs| && i != q && i != q2 ==>
      && qs[i].elems == w[i]
      && (forall e | e in w[i] :: e in zone)
      && qs[i].Valid()
  }

  lemma PairReady(qs: seq<TailQ>, q: nat, q2: nat, zone: set<Elem>, w: World<Elem>)
    requires Distinct(qs) && q < |qs| && q2 < |qs| && OthersKept(qs, q, q2, zone, w)
    requires forall e | e in qs[q].elems + qs[q2].elems :: e in zone
    requires qs[q].Valid() && qs[q2].Valid()
    requires Separate(w[q := qs[q].elems][q2 := qs[q2].elems])
    ensures Ready(qs, zone) && Contents(qs) == w[q := qs[q].elems][q2 := qs[q2].elems]
  {
    assert Contents(qs) == w[q := qs[q].elems][q2 := qs[q2].elems];
    assert forall e | e in qs[q].elems :: e in qs[q].elems + qs[q2].elems;
    assert forall e | e in qs[q2].elems :: e in qs[q].elems + qs[q2].elems;
  }

  /** Queue `i` shares no head and no element with `q`. */
  lemma Apart(qs: seq<TailQ>, zone: set<Elem>, q: nat, i: nat)
    requires Ready(qs, zone) && q < |qs| && i < |qs| && i != q
    ensures qs[i] != qs[q] && forall e | e in qs[i].elems :: e !in qs[q].elems
  {
    DistinctAt(qs, q);
    assert Contents(qs)[i] == qs[i].elems && Contents(qs)[q] == qs[q].elems;
  }

  method DoInsert(qs: seq<TailQ>, c: Command<Elem>, ghost w: World<Elem>)
    requires Inserts(c) && w == Contents(qs) && Enabled(w, c)
    requires var (q, k) := GapOf(w, c); qs[q].Valid() && c.elm !in qs[q].elems
    modifies var (q, k) := GapOf(w, c); {qs[q], c.elm} + qs[q].Around(k)
    ensures var (q, k) := GapOf(w, c); qs[q].Valid() && qs[q].elems == InsertAt(w[q], k, c.elm)
  {
    match c {
      case InsertHead(q, elm) =>
        qs[q].InsertHead(elm);
        assert [elm] + w[q] == InsertAt(w[q], 0, elm);
      case InsertTail(q, elm) =>
        qs[q].InsertTail(elm);
        assert w[q] + [elm] == InsertAt(w[q], |w[q]|, elm);
      case InsertAfter(q, listelm, elm) =>
        qs[q].InsertAfter(listelm, elm, IndexOf(w[q], listelm));
      case InsertBefore(listelm, elm) =>
        ghost var q := OwnerOf(w, listelm);
        TailQ.InsertBefore(listelm, elm, qs[q], IndexOf(w[q], listelm));
    }
  }

  method StepInsert(qs: seq<TailQ>, c: Command<Elem>, ghost zone: set<Elem>)
    requires Ready(qs, zone) && Touched(c) <= zone
    requires Inserts(c) && Enabled(Contents(qs), c)
    modifies qs, zone
    ensures Ready(qs, zone)
    ensures Contents(qs) == Apply(old(Contents(qs)), c)
  {
    ghost var w := Contents(qs);
    ghost var (q, k) := GapOf(w, c);
    ApplyKeepsSeparate(w, c);
    assert w[q] == qs[q].elems;
    forall i | 0 <= i < |qs| && i != q
      ensures qs[i] != qs[q] && forall e | e in qs[i].elems :: e !in qs[q].elems && e != c.elm
    {
      Apart(qs, zone, q, i);
      assert w[i] == qs[i].elems;
    }
    DoInsert(qs, c, w);
    assert forall e | e in qs[q].elems :: e in w[q] || e == c.elm;
    PairReady(qs, q, q, zone, w);
  }

  method StepRemove(qs: seq<TailQ>, c: Command<Elem>, ghost zone: set<Elem>)
    requires Ready(qs, zone) && c.Remove?
    requires Enabled(Contents(qs), c)
    modifies qs, zone
    ensures Ready(qs, zone)
    ensures Contents(qs) == Apply(old(Contents(qs)), c)
  {
    ghost var w := Contents(qs);
    ApplyKeepsSeparate(w, c);
    assert w[c.q] == qs[c.q].elems;
    forall i | 0 <= i < |qs| && i != c.q
      ensures qs[i] != qs[c.q] && forall e | e in qs[i].elems :: e !in qs[c.q].elems
    {
      Apart(qs, zone, c.q, i);
    }
    qs[c.q].Remove(c.elm, IndexOf(w[c.q], c.elm));
    assert OthersKept(qs, c.q, c.q, zone, w);
    PairReady(qs, c.q, c.q, zone, w);
  }

  /** The other queues share nothing with the two that are joined or exchanged. */
  lemma PairApart(qs: seq<TailQ>, zone: set<Elem>, q: nat, q2: nat)
    requires Ready(qs, zone) && q < |qs| && q2 < |qs|
    ensures forall i :: 0 <= i < |qs| && i != q ==>
      qs[i] != qs[q] && forall e | e in qs[i].elems :: e !in qs[q].elems
    ensures forall i :: 0 <= i < |qs| && i != q2 ==>
      qs[i] != qs[q2] && forall e | e in qs[i].elems :: e !in qs[q2].elems
  {
    forall i | 0 <= i < |qs| && i != q ensures qs[i] != qs[q] && forall e | e in qs[i].elems :: e !in qs[q].elems {
      Apart(qs, zone, q, i);
    }
    forall i | 0 <= i < |qs| && i != q2 ensures qs[i] != qs[q2] && forall e | e in qs[i].elems :: e !in qs[q2].elems {
      Apart(qs, zone, q2, i);
    }
  }

  method StepConcat(qs: seq<TailQ>, q: nat, q2: nat, ghost zone: set<Elem>)
    requires Ready(qs, zone) && Enabled(Contents(qs), Concat(q, q2))
    modifies qs, zone
    ensures Ready(qs, zone)
    ensures Contents(qs) == Apply(old(Contents(qs)), Concat(q, q2))
  {
    ghost var w := Contents(qs);
    ApplyKeepsSeparate(w, Concat(q, q2));
    assert w[q] == qs[q].elems && w[q2] == qs[q2].elems;
    PairApart(qs, zone, q, q2);
    qs[q].Concat(qs[q2]);
    assert OthersKept(qs, q, q2, zone, w);
    PairReady(qs, q, q2, zone, w);
  }

  method StepSwap(qs: seq<TailQ>, q: nat, q2: nat, ghost zone: set<Elem>)
    requires Ready(qs, zone) && Enabled(Contents(qs), Swap(q, q2))
    modifies qs, zone
    ensures Ready(qs, zone)
    ensures Contents(qs) == Apply(old(Contents(qs)), Swap(q, q2))
  {
    ghost var w := Contents(qs);
    ApplyKeepsSeparate(w, Swap(q, q2));
    assert w[q] == qs[q].elems && w[q2] == qs[q2].elems;
    PairApart(qs, zone, q, q2);
    qs[q].Swap(qs[q2]);
    assert OthersKept(qs, q, q2, zone, w);
    PairReady(qs, q, q2, zone, w);
  }

  method Step(qs: seq<TailQ>, c: Command<Elem>, ghost zone: set<Elem>)
    requires Ready(qs, zone) && Touched(c) <= zone
    requires Enabled(Contents(qs), c)
    modifies qs, zone
    ensures Ready(qs, zone)
    ensures Contents(qs) == Apply(old(Contents(qs)), c)
  {
    if c.Remove? {
      StepRemove(qs, c, zone);
    } else if c.Concat? {
      StepConcat(qs, c.q, c.q2, zone);
    } else if c.Swap? {
      StepSwap(qs, c.q, c.q2, zone);
    } else {
      StepInsert(qs, c, zone);
    }
  }

  /** Any legal run of operations leaves every queue sound and holding what the run means. */
  method Run(qs: seq<TailQ>, run: seq<Command<Elem>>, ghost zone: set<Elem>)
    requires Ready(qs, zone) && forall c | c in run :: Touched(c) <= zone
    requires Legal(Contents(qs), run)
    modifies qs, zone
    ensures Ready(qs, zone)
    ensures Contents(qs) == Outcome(old(Contents(qs)), run)
  {
    ghost var w := Contents(qs);
    var n := 0;
    while n < |run|
      invariant 0 <= n <= |run| && Ready(qs, zone)
      invariant Legal(Contents(qs), run[n..])
      invariant Outcome(Contents(qs), run[n..]) == Outcome(w, run)
    {
      assert run[n..][0] == run[n] && run[n..][1..] == run[n + 1..];
      Step(qs, run[n], zone);
      n := n + 1;
    }
  }
}
