/**
 The doubly linked list of include/api/nfp_queue.h, headed by single pointers
 that may form an array of hash buckets.

 `InsertAfter`, `InsertBefore` and `Remove` take no head. The proofs name the
 owning bucket; the code never does.
 */
module BucketList {
  import opened Sequences
  import opened Groups

  datatype Cell = HeadCell(head: Bucket) | NextOf(node: Node)

  class Node {
    var next: Node?
    var prev: Cell

    constructor ()
    {
      next, prev := null, NextOf(this);
    }
  }

  ghost function BucketsOf(c: Cell): set<Bucket> {
    if c.HeadCell? then {c.head} else {}
  }

  ghost function NodesOf(c: Cell): set<Node> {
    if c.NextOf? then {c.node} else {}
  }

  function Load(c: Cell): Node?
    reads BucketsOf(c), NodesOf(c)
  {
    match c
    case HeadCell(h) => h.first
    case NextOf(e) => e.next
  }

  method Store(c: Cell, v: Node?)
    modifies BucketsOf(c)`first, NodesOf(c)`next
    ensures Load(c) == v
  {
    match c
    case HeadCell(h) => h.first := v;
    case NextOf(e) => e.next := v;
  }

  class Bucket {
    var first: Node?
    ghost var elems: seq<Node>

    ghost function CellAt(i: nat): Cell
      requires i <= |elems|
      reads this
    {
      if i == 0 then HeadCell(this) else NextOf(elems[i - 1])
    }

    /** The nodes on either side of the gap before position `k`. */
    ghost function Around(k: nat): (r: set<Node>)
      requires k <= |elems|
      reads this
      ensures forall e | e in r :: e in elems
    {
      (if k == 0 then {} else {elems[k - 1]}) + (if k == |elems| then {} else {elems[k]})
    }

    ghost function Neighbours(k: nat): (r: set<Node>)
      requires k < |elems|
      reads this
      ensures forall e | e in r :: e in elems
    {
      (if k == 0 then {} else {elems[k - 1]}) + (if k + 1 == |elems| then {} else {elems[k + 1]})
    }

    ghost predicate Valid()
      reads this, elems
    {
      && Distinct(elems)
      && (elems == [] ==> first == null)
      && (elems != [] ==>
        && first == elems[0] && elems[0].prev == HeadCell(this)
        && elems[|elems| - 1].next == null)
      && (forall i {:trigger elems[i].next} :: 0 <= i < |elems| - 1 ==> elems[i].next == elems[i + 1])
      && (forall i {:trigger elems[i].prev} :: 1 <= i < |elems| ==> elems[i].prev == NextOf(elems[i - 1]))
    }

    constructor ()
      ensures Valid() && elems == []
    {
      first, elems := null, [];
    }

    /** What an insertion has to have written: `elm` is in the gap before position `k` of `s`, all else is as it was. */
    ghost predicate Spliced(s: seq<Node>, k: nat, elm: Node)
      requires k <= |s|
      reads this, s, elm
    {
      && elm.next == (if k == |s| then null else s[k])
      && elm.prev == (if k == 0 then HeadCell(this) else NextOf(s[k - 1]))
      && first == (if k == 0 then elm else s[0])
      && (k > 0 ==> s[0].prev == HeadCell(this) && s[k - 1].next == elm)
      && (k < |s| ==> s[k].prev == NextOf(elm) && s[|s| - 1].next == null)
      && (forall i {:trigger s[i].next} :: 0 <= i < |s| - 1 && i != k - 1 ==> s[i].next == s[i + 1])
      && (forall i {:trigger s[i].prev} :: 1 <= i < |s| && i != k ==> s[i].prev == NextOf(s[i - 1]))
    }

    lemma SplicedValid(s: seq<Node>, k: nat, elm: Node)
      requires Distinct(s) && elm !in s && k <= |s| && elems == InsertAt(s, k, elm) && Spliced(s, k, elm)
      ensures Valid()
    {
      DistinctInsert(s, k, elm);
      forall i | 0 <= i < |elems| - 1 ensures elems[i].next == elems[i + 1] {
        assert i < k - 1 ==> s[i].next == s[i + 1];
        assert i > k ==> s[i - 1].next == s[i];
      }
      forall i | 1 <= i < |elems| ensures elems[i].prev == NextOf(elems[i - 1]) {
        assert i < k ==> s[i].prev == NextOf(s[i - 1]);
        assert i > k + 1 ==> s[i - 1].prev == NextOf(s[i - 2]);
      }
    }

    method InsertHead(elm: Node)
      requires Valid() && elm !in elems
      modifies this, Around(0), elm
      ensures Valid() && elems == InsertAt(old(elems), 0, elm)
    {
      DistinctInsert(elems, 0, elm);
      elm.next := first;
      if elm.next != null {
        first.prev := NextOf(elm);
      }
      first := elm;
      elm.prev := HeadCell(this);
      elems := InsertAt(elems, 0, elm);
    }

    static method InsertAfter(listelm: Node, elm: Node, ghost b: Bucket, ghost k: nat)
      requires b.Valid() && k < |b.elems| && b.elems[k] == listelm && elm !in b.elems
      modifies b, b.Around(k + 1), elm
      ensures b.Valid() && b.elems == InsertAt(old(b.elems), k + 1, elm)
    {
      ghost var s := b.elems;
      DistinctAt(s, k);
      DistinctAt(s, k + 1);
      elm.next := listelm.next;
      if elm.next != null {
        listelm.next.prev := NextOf(elm);
      }
      listelm.next := elm;
      elm.prev := NextOf(listelm);
      b.elems := InsertAt(s, k + 1, elm);
      assert b.Spliced(s, k + 1, elm);
      b.SplicedValid(s, k + 1, elm);
    }

    static method InsertBefore(listelm: Node, elm: Node, ghost b: Bucket, ghost k: nat)
      requires b.Valid() && k < |b.elems| && b.elems[k] == listelm && elm !in b.elems
      modifies b, b.Around(k), elm
      ensures b.Valid() && b.elems == InsertAt(old(b.elems), k, elm)
    {
      ghost var s := b.elems;
      DistinctAt(s, k);
      DistinctAt(s, k - 1);
      assert listelm.prev == b.CellAt(k);
      elm.prev := listelm.prev;
      elm.next := listelm;
      Store(listelm.prev, elm);
      listelm.prev := NextOf(elm);
      b.elems := InsertAt(s, k, elm);
      assert b.Spliced(s, k, elm);
      b.SplicedValid(s, k, elm);
    }

    static method Remove(elm: Node, ghost b: Bucket, ghost k: nat)
      requires b.Valid() && k < |b.elems| && b.elems[k] == elm
      modifies b, b.Neighbours(k)
      ensures b.Valid() && b.elems == RemoveAt(old(b.elems), k)
    {
      ghost var s := b.elems;
      DistinctAt(s, k);
      DistinctAt(s, k - 1);
      DistinctAt(s, k + 1);
      DistinctRemove(s, k);
      if elm.next != null {
        elm.next.prev := elm.prev;
      }
      Store(elm.prev, elm.next);
      b.elems := RemoveAt(s, k);
    }

    /** The links between the nodes of `s` are those of a list, whatever head they hang on. */
    static ghost predicate Linked(s: seq<Node>)
      reads s
    {
      && Distinct(s) && (s != [] ==> s[|s| - 1].next == null)
      && (forall i {:trigger s[i].next} :: 0 <= i < |s| - 1 ==> s[i].next == s[i + 1])
      && (forall i {:trigger s[i].prev} :: 1 <= i < |s| ==> s[i].prev == NextOf(s[i - 1]))
    }

    /** One half of an exchange: the head has got the word of a list `s`, whose first node is re-aimed at it. */
    method Reaim(ghost s: seq<Node>)
      requires Linked(s) && if s == [] then first == null else first == s[0]
      modifies this, if s == [] then {} else {s[0]}
      ensures Valid() && elems == s
      ensures unchanged(this`first) && (s != [] ==> s[0].next == old(s[0].next))
    {
      DistinctAt(s, 0);
      if first != null {
        first.prev := HeadCell(this);
      }
      elems := s;
    }

    method Swap(head2: Bucket)
      requires Valid() && head2.Valid()
      requires this != head2 ==> forall e | e in elems :: e !in head2.elems
      modifies this, head2, Around(0), head2.Around(0)
      ensures Valid() && elems == old(head2.elems)
      ensures head2.Valid() && head2.elems == old(elems)
    {
      ghost var s, t := elems, head2.elems;
      var swapTmp := first;
      first := head2.first;
      head2.first := swapTmp;
      Reaim(t);
      assert Linked(s);
      head2.Reaim(s);
    }
  }

  /** What a table of buckets holds. */
  ghost function Contents(table: seq<Bucket>): (w: seq<seq<Node>>)
    reads table
    ensures |w| == |table|
    ensures forall i :: 0 <= i < |table| ==> w[i] == table[i].elems
  {
    seq(|table|, i requires 0 <= i < |table| reads table => table[i].elems)
  }

  ghost predicate Ready(table: seq<Bucket>, zone: set<Node>)
    reads table, zone
  {
    && Distinct(table)
    && Separate(Contents(table))
    && (forall i, e :: 0 <= i < |table| && e in table[i].elems ==> e in zone)
    && (forall i :: 0 <= i < |table| ==> table[i].Valid())
  }

  lemma Apart(table: seq<Bucket>, zone: set<Node>, b: nat)
    requires Ready(table, zone) && b < |table|
    ensures forall i :: 0 <= i < |table| && i != b ==>
      table[i] != table[b] && forall e | e in table[i].elems :: e !in table[b].elems
  {
    DistinctAt(table, b);
    var w := Contents(table);
    forall i | 0 <= i < |table| && i != b
      ensures table[i] != table[b] && forall e | e in table[i].elems :: e !in table[b].elems
    {
      assert w[i] == table[i].elems && w[b] == table[b].elems;
    }
  }

  /** The state of a table in which bucket `b` alone differs from `w`. */
  lemma OnlyOwner(table: seq<Bucket>, zone: set<Node>, b: nat, w: seq<seq<Node>>)
    requires Distinct(table) && |w| == |table| && b < |table|
    requires forall i :: 0 <= i < |table| && i != b ==> table[i].elems == w[i]
    requires forall i, e :: 0 <= i < |table| && e in table[i].elems ==> e in zone
    requires forall i :: 0 <= i < |table| ==> table[i].Valid()
    requires Separate(w[b := table[b].elems])
    ensures Ready(table, zone) && Contents(table) == w[b := table[b].elems]
  {
    assert Contents(table) == w[b := table[b].elems];
  }

  ghost function RemoveFrom(w: seq<seq<Node>>, elm: Node): seq<seq<Node>>
    requires Holds(w, elm)
  {
    var b := OwnerOf(w, elm);
    w[b := RemoveAt(w[b], IndexOf(w[b], elm))]
  }

  /** `LIST_REMOVE` on an element of an unknown bucket. */
  method TableRemove(elm: Node, ghost table: seq<Bucket>, ghost zone: set<Node>)
    requires Ready(table, zone) && Holds(Contents(table), elm)
    modifies table, zone
    ensures Ready(table, zone)
    ensures Contents(table) == RemoveFrom(old(Contents(table)), elm)
    ensures !Holds(Contents(table), elm)
  {
    ghost var w := Contents(table);
    ghost var b := OwnerOf(w, elm);
    ghost var k := IndexOf(w[b], elm);
    RemoveKeepsSeparate(w, b, k);
    Apart(table, zone, b);
    Bucket.Remove(elm, table[b], k);
    OnlyOwner(table, zone, b, w);
  }

  /** `LIST_INSERT_BEFORE` on an element of an unknown bucket. */
  method TableInsertBefore(listelm: Node, elm: Node, ghost table: seq<Bucket>, ghost zone: set<Node>)
    requires Ready(table, zone) && Holds(Contents(table), listelm) && !Holds(Contents(table), elm) && elm in zone
    modifies table, zone
    ensures Ready(table, zone)
    ensures var w := old(Contents(table)); var b := OwnerOf(w, listelm);
      Contents(table) == w[b := InsertAt(w[b], IndexOf(w[b], listelm), elm)]
  {
    ghost var w := Contents(table);
    ghost var b := OwnerOf(w, listelm);
    ghost var k := IndexOf(w[b], listelm);
    InsertKeepsSeparate(w, b, k, elm);
    Apart(table, zone, b);
    assert forall i :: 0 <= i < |table| ==> elm !in w[i];
    Bucket.InsertBefore(listelm, elm, table[b], k);
    OnlyOwner(table, zone, b, w);
  }

  ghost function Members(victims: seq<Node>): set<Node> {
    set e | e in victims
  }

  lemma RemovalFilters(was: seq<seq<Node>>, now: seq<seq<Node>>, b: nat, k: nat, gone: set<Node>)
    requires Separate(now) && |now| == |was| && b < |now| && k < |now[b]|
    requires forall i :: 0 <= i < |was| ==> now[i] == Without(was[i], gone)
    ensures forall i :: 0 <= i < |was| ==> now[b := RemoveAt(now[b], k)][i] == Without(was[i], gone + {now[b][k]})
  {
    var x := now[b][k];
    forall i | 0 <= i < |was| ensures now[b := RemoveAt(now[b], k)][i] == Without(was[i], gone + {x}) {
      WithoutTwice(was[i], gone, {x});
      if i == b {
        RemoveIsWithout(now[b], k);
      } else {
        WithoutNothing(now[i], {x});
      }
    }
  }

  /** `now` is `was` with the first `n` victims gone and the other victims still held. */
  ghost predicate Pruned(was: seq<seq<Node>>, now: seq<seq<Node>>, victims: seq<Node>, n: nat) {
    && n <= |victims| && |now| == |was|
    && (forall b :: 0 <= b < |was| ==> now[b] == Without(was[b], Members(victims[..n])))
    && (forall j :: n <= j < |victims| ==> Holds(now, victims[j]))
  }

  lemma PruneStart(was: seq<seq<Node>>, victims: seq<Node>)
    requires forall e | e in victims :: Holds(was, e)
    ensures Pruned(was, was, victims, 0)
  {
    assert victims[..0] == [];
    forall b | 0 <= b < |was| ensures was[b] == Without(was[b], Members(victims[..0])) {
      WithoutNothing(was[b], Members(victims[..0]));
    }
  }

  lemma PruneStep(was: seq<seq<Node>>, now: seq<seq<Node>>, victims: seq<Node>, n: nat)
    requires Separate(now) && Distinct(victims) && Pruned(was, now, victims, n) && n < |victims|
    ensures Holds(now, victims[n]) && Pruned(was, RemoveFrom(now, victims[n]), victims, n + 1)
  {
    DistinctAt(victims, n);
    assert Holds(now, victims[n]);
    var b := OwnerOf(now, victims[n]);
    var k := IndexOf(now[b], victims[n]);
    forall j | n + 1 <= j < |victims| ensures Holds(RemoveFrom(now, victims[n]), victims[j]) {
      RemoveMembers(now, b, k, victims[j]);
    }
    RemovalFilters(was, now, b, k, Members(victims[..n]));
    assert Members(victims[..n + 1]) == Members(victims[..n]) + {victims[n]};
  }

  method RemoveVictim(victims: seq<Node>, n: nat, ghost was: seq<seq<Node>>,
                      ghost table: seq<Bucket>, ghost zone: set<Node>)
    requires Ready(table, zone) && Distinct(victims) && n < |victims| && Pruned(was, Contents(table), victims, n)
    modifies table, zone
    ensures Ready(table, zone) && Pruned(was, Contents(table), victims, n + 1)
  {
    PruneStep(was, Contents(table), victims, n);
    TableRemove(victims[n], table, zone);
  }

  /** Headless removal of any elements, whatever buckets hold them: each bucket loses exactly its victims. */
  method TableRemoveAll(victims: seq<Node>, ghost table: seq<Bucket>, ghost zone: set<Node>)
    requires Ready(table, zone) && Distinct(victims) && forall e | e in victims :: Holds(Contents(table), e)
    modifies table, zone
    ensures Ready(table, zone)
    ensures forall b :: 0 <= b < |table| ==> Contents(table)[b] == Without(old(Contents(table))[b], Members(victims))
  {
    ghost var was := Contents(table);
    PruneStart(was, victims);
    for n := 0 to |victims|
      invariant Ready(table, zone) && Pruned(was, Contents(table), victims, n)
    {
      RemoveVictim(victims, n, was, table, zone);
    }
    assert victims[..|victims|] == victims;
  }
}
