/**
 The doubly linked tail queue of include/api/nfp_queue.h.

 A C `struct type **` that holds the address of a next field is a `Cell`: the
 `tqh_first` word of some head, or the `tqe_next` word of some element.
 A head and an entry both start with such a word and keep another `Cell` in
 the word after it, so a cell cast to a head pointer has a `SecondWord`.
 */
module TailQueue {
  import opened Sequences

  datatype Cell = HeadCell(head: TailQ) | NextOf(elem: Elem)

  class Elem {
    var next: Elem?
    var prev: Cell

    constructor ()
      ensures next == null
    {
      next, prev := null, NextOf(this);
    }
  }

  ghost function HeadsOf(c: Cell): set<TailQ> {
    if c.HeadCell? then {c.head} else {}
  }

  ghost function ElemsOf(c: Cell): set<Elem> {
    if c.NextOf? then {c.elem} else {}
  }

  /** `*c` */
  function Load(c: Cell): Elem?
    reads HeadsOf(c), ElemsOf(c)
  {
    match c
    case HeadCell(h) => h.first
    case NextOf(e) => e.next
  }

  /** `*c = v` */
  method Store(c: Cell, v: Elem?)
    modifies HeadsOf(c)`first, ElemsOf(c)`next
    ensures Load(c) == v
  {
    match c
    case HeadCell(h) => h.first := v;
    case NextOf(e) => e.next := v;
  }

  /** `((struct headname *)c)->tqh_last`: the word after the next pointer at `c`. */
  function SecondWord(c: Cell): Cell
    reads HeadsOf(c), ElemsOf(c)
  {
    match c
    case HeadCell(h) => h.last
    case NextOf(e) => e.prev
  }

  class TailQ {
    var first: Elem?
    var last: Cell
    ghost var elems: seq<Elem>

    /** The address of the word that holds the `i`-th forward link. */
    ghost function CellAt(i: nat): Cell
      requires i <= |elems|
      reads this
    {
      if i == 0 then HeadCell(this) else NextOf(elems[i - 1])
    }

    ghost function At(i: nat): Elem?
      reads this
    {
      if i < |elems| then elems[i] else null
    }

    /** The elements on either side of the gap before position `k`. */
    ghost function Around(k: nat): (r: set<Elem>)
      requires k <= |elems|
      reads this
      ensures forall e | e in r :: e in elems
    {
      (if k == 0 then {} else {elems[k - 1]}) + (if k == |elems| then {} else {elems[k]})
    }

    ghost function Neighbours(k: nat): (r: set<Elem>)
      requires k < |elems|
      reads this
      ensures forall e | e in r :: e in elems
    {
      (if k == 0 then {} else {elems[k - 1]}) + (if k + 1 == |elems| then {} else {elems[k + 1]})
    }

    ghost predicate Valid()
      reads this, elems
    {
      && Distinct(elems)
      && (elems == [] ==> first == null && last == HeadCell(this))
      && (elems != [] ==>
        && first == elems[0] && elems[0].prev == HeadCell(this)
        && last == NextOf(elems[|elems| - 1]) && elems[|elems| - 1].next == null)
      && (forall i {:trigger elems[i].next} :: 0 <= i < |elems| - 1 ==> elems[i].next == elems[i + 1])
      && (forall i {:trigger elems[i].prev} :: 1 <= i < |elems| ==> elems[i].prev == NextOf(elems[i - 1]))
    }

    constructor ()
      ensures Valid() && elems == []
    {
      first, last := null, HeadCell(this);
      elems := [];
    }

    method Init()
      modifies this
      ensures Valid() && elems == []
    {
      first := null;
      last := HeadCell(this);
      elems := [];
    }

    /** What an insertion has to have written: `elm` is in the gap before position `k` of `s`, all else is as it was. */
    ghost predicate Spliced(s: seq<Elem>, k: nat, elm: Elem)
      requires k <= |s|
      reads this, s, elm
    {
      && elm.next == (if k == |s| then null else s[k])
      && elm.prev == (if k == 0 then HeadCell(this) else NextOf(s[k - 1]))
      && first == (if k == 0 then elm else s[0])
      && (k > 0 ==> s[0].prev == HeadCell(this) && s[k - 1].next == elm)
      && (k < |s| ==> s[k].prev == NextOf(elm) && s[|s| - 1].next == null)
      && last == NextOf(if k == |s| then elm else s[|s| - 1])
      && (forall i {:trigger s[i].next} :: 0 <= i < |s| - 1 && i != k - 1 ==> s[i].next == s[i + 1])
      && (forall i {:trigger s[i].prev} :: 1 <= i < |s| && i != k ==> s[i].prev == NextOf(s[i - 1]))
    }

    lemma SplicedValid(s: seq<Elem>, k: nat, elm: Elem)
      requires Distinct(s) && elm !in s && k <= |s| && elems == InsertAt(s, k, elm) && Spliced(s, k, elm)
      ensures Valid()
    {
      DistinctInsert(s, k, elm);
      forall i | 0 <= i < |elems| - 1 ensures elems[i].next == elems[i + 1] {
        assert i < k - 1 ==> s[i].next == s[i + 1];
        assert i > k ==> s[i - 1].next == s[i];
      }
      forall i | 1 <= i < |elems| ensures elems[i].prev == NextOf(elems[i - 1]) {
        assert i < k ==> s[i].prev == NextOf(s[i - 1]);
        assert i > k + 1 ==> s[i - 1].prev == NextOf(s[i - 2]);
      }
    }

    method InsertHead(elm: Elem)
      requires Valid() && elm !in elems
      modifies this, Around(0), elm
      ensures Valid() && elems == [elm] + old(elems)
    {
      elm.next := first;
      if elm.next != null {
        first.prev := NextOf(elm);
      } else {
        last := NextOf(elm);
      }
      first := elm;
      elm.prev := HeadCell(this);
      DistinctInsert(elems, 0, elm);
      elems := [elm] + elems;
      assert elems == InsertAt(old(elems), 0, elm);
    }

    method InsertTail(elm: Elem)
      requires Valid() && elm !in elems
      modifies this, Around(|elems|), elm
      ensures Valid() && elems == old(elems) + [elm]
    {
      elm.next := null;
      elm.prev := last;
      Store(last, elm);
      last := NextOf(elm);
      DistinctConcat(elems, [elm]);
      elems := elems + [elm];
    }

    method InsertAfter(listelm: Elem, elm: Elem, ghost k: nat)
      requires Valid() && k < |elems| && elems[k] == listelm && elm !in elems
      modifies this, Around(k + 1), elm
      ensures Valid() && elems == InsertAt(old(elems), k + 1, elm)
    {
      ghost var s := elems;
      DistinctAt(s, k);
      DistinctAt(s, k + 1);
      elm.next := listelm.next;
      if elm.next != null {
        elm.next.prev := NextOf(elm);
      } else {
        last := NextOf(elm);
      }
      listelm.next := elm;
      elm.prev := NextOf(listelm);
      elems := InsertAt(s, k + 1, elm);
      assert Spliced(s, k + 1, elm);
      SplicedValid(s, k + 1, elm);
    }

    /** Takes no head: the queue that holds `listelm` is known to the proof only. */
    static method InsertBefore(listelm: Elem, elm: Elem, ghost q: TailQ, ghost k: nat)
      requires q.Valid() && k < |q.elems| && q.elems[k] == listelm && elm !in q.elems
      modifies q, q.Around(k), elm
      ensures q.Valid() && q.elems == InsertAt(old(q.elems), k, elm)
    {
      ghost var s := q.elems;
      DistinctAt(s, k);
      DistinctAt(s, k - 1);
      assert listelm.prev == q.CellAt(k);
      elm.prev := listelm.prev;
      elm.next := listelm;
      Store(listelm.prev, elm);
      listelm.prev := NextOf(elm);
      q.elems := InsertAt(s, k, elm);
      assert q.Spliced(s, k, elm);
      q.SplicedValid(s, k, elm);
    }

    method Remove(elm: Elem, ghost k: nat)
      requires Valid() && k < |elems| && elems[k] == elm
      modifies this, Neighbours(k)
      ensures Valid() && elems == RemoveAt(old(elems), k)
    {
      if elm.next != null {
        elm.next.prev := elm.prev;
      } else {
        last := elm.prev;
      }
      Store(elm.prev, elm.next);
      DistinctAt(elems, k);
      DistinctAt(elems, k - 1);
      DistinctAt(elems, k + 1);
      DistinctRemove(elems, k);
      elems := RemoveAt(elems, k);
    }

    method Concat(head2: TailQ)
      requires Valid() && head2.Valid() && this != head2
      requires forall e | e in elems :: e !in head2.elems
      modifies this, head2, Around(|elems|), head2.Around(0)
      ensures Valid() && elems == old(elems + head2.elems)
      ensures head2.Valid() && head2.elems == []
    {
      ghost var s, t := elems, head2.elems;
      assert s != [] ==> s[|s| - 1] in s;
      assert s + [] == s;
      if head2.first != null {
        DistinctConcat(s, t);
        DistinctAt(s, |s| - 1);
        DistinctAt(t, 0);
        Store(last, head2.first);
        head2.first.prev := last;
        last := head2.last;
        elems := s + t;
        head2.Init();
        assert forall i {:trigger s[i].next} :: 0 <= i < |s| - 1 ==> s[i].next == s[i + 1];
        assert forall i {:trigger t[i].prev} :: 1 <= i < |t| ==> t[i].prev == NextOf(t[i - 1]);
      }
    }

    /** The links between the elements of `s` are those of a queue, whatever head they hang on. */
    static ghost predicate Linked(s: seq<Elem>)
      reads s
    {
      && Distinct(s) && (s != [] ==> s[|s| - 1].next == null)
      && (forall i {:trigger s[i].next} :: 0 <= i < |s| - 1 ==> s[i].next == s[i + 1])
      && (forall i {:trigger s[i].prev} :: 1 <= i < |s| ==> s[i].prev == NextOf(s[i - 1]))
    }

    /** One half of an exchange: the head has got the words of a queue `s`, and what points back is re-aimed at it. */
    method Reaim(ghost s: seq<Elem>)
      requires Linked(s)
      requires if s == [] then first == null else first == s[0] && last == NextOf(s[|s| - 1])
      modifies this, if s == [] then {} else {s[0]}
      ensures Valid() && elems == s
      ensures unchanged(this`first) && (s != [] ==> unchanged(this`last) && s[0].next == old(s[0].next))
    {
      DistinctAt(s, 0);
      if first != null {
        first.prev := HeadCell(this);
      } else {
        last := HeadCell(this);
      }
      elems := s;
    }

    method Swap(head2: TailQ)
      requires Valid() && head2.Valid()
      requires this != head2 ==> forall e | e in elems :: e !in head2.elems
      modifies this, head2, Around(0), head2.Around(0)
      ensures Valid() && elems == old(head2.elems)
      ensures head2.Valid() && head2.elems == old(elems)
    {
      ghost var s, t := elems, head2.elems;
      var swapFirst, swapLast := first, last;
      first := head2.first;
      last := head2.last;
      head2.first := swapFirst;
      head2.last := swapLast;
      Reaim(t);
      assert Linked(s);
      head2.Reaim(s);
    }

    function Last(): (r: Elem?)
      requires Valid()
      reads this, elems
      ensures r == if elems == [] then null else elems[|elems| - 1]
    {
      Load(SecondWord(last))
    }

    function Prev(elm: Elem, ghost k: nat): (r: Elem?)
      requires Valid() && k < |elems| && elems[k] == elm
      reads this, elems
      ensures r == if k == 0 then null else elems[k - 1]
    {
      Load(SecondWord(elm.prev))
    }

    method Foreach() returns (visited: seq<Elem>)
      requires Valid()
      ensures visited == elems
    {
      visited := [];
      var v := first;
      while v != null
        invariant |visited| <= |elems| && visited == elems[..|visited|] && v == At(|visited|)
        decreases |elems| - |visited|
      {
        visited := visited + [v];
        v := v.next;
      }
    }

    method ForeachReverse() returns (visited: seq<Elem>)
      requires Valid()
      ensures visited == Reverse(elems)
    {
      visited := [];
      var v := Last();
      ghost var i := |elems|;
      while v != null
        invariant 0 <= i <= |elems| && i + |visited| == |elems|
        invariant v == if i == 0 then null else elems[i - 1]
        invariant forall j :: 0 <= j < |visited| ==> visited[j] == elems[|elems| - 1 - j]
        decreases i
      {
        visited := visited + [v];
        i := i - 1;
        v := Prev(v, i);
      }
    }

    /** The body of a safe walk over `was` at its `k`-th element: the successor is read before `elm` may go. */
    method VisitSafe(elm: Elem, doomed: set<Elem>, ghost was: seq<Elem>, ghost k: nat)
      returns (tvar: Elem?)
      requires Valid() && k < |was| && was[k] == elm && elems == Swept(was, k, doomed)
      modifies this, was
      ensures Valid() && elems == Swept(was, k + 1, doomed)
      ensures if k + 1 == |was| then tvar == null else tvar == was[k + 1]
    {
      ghost var at := KeptBefore(was, k, doomed);
      SweptAhead(was, k, doomed, k);
      if k + 1 < |was| {
        SweptAhead(was, k, doomed, k + 1);
      }
      tvar := elm.next;
      if elm in doomed {
        SweptMembers(was, k, doomed);
        Remove(elm, at);
      }
    }

    method ForeachSafe(doomed: set<Elem>) returns (visited: seq<Elem>)
      requires Valid()
      modifies this, elems
      ensures Valid() && visited == old(elems)
      ensures elems == Without(old(elems), doomed)
      ensures forall e :: e in elems <==> e in old(elems) && e !in doomed
    {
      visited := [];
      ghost var was := elems;
      var v := first;
      while v != null
        invariant was == old(elems) && |visited| <= |was| && visited == was[..|visited|]
        invariant Valid() && elems == Swept(was, |visited|, doomed)
        invariant if |visited| == |was| then v == null else v == was[|visited|]
        decreases |was| - |visited|
      {
        var elm: Elem := v;
        v := VisitSafe(elm, doomed, was, |visited|);
        visited := visited + [elm];
      }
      SweptAll(was, doomed);
      WithoutMembers(was, doomed);
    }

    method VisitSafeBack(elm: Elem, doomed: set<Elem>, ghost was: seq<Elem>, ghost k: nat) returns (tvar: Elem?)
      requires Valid() && k < |was| && was[k] == elm && elems == SweptBack(was, k + 1, doomed)
      modifies this, was
      ensures Valid() && elems == SweptBack(was, k, doomed)
      ensures if k == 0 then tvar == null else tvar == was[k - 1]
    {
      tvar := Prev(elm, k);
      if elm in doomed {
        SweptBackMembers(was, k + 1, doomed);
        Remove(elm, k);
      }
    }

    method ForeachReverseSafe(doomed: set<Elem>) returns (visited: seq<Elem>)
      requires Valid()
      modifies this, elems
      ensures Valid() && visited == Reverse(old(elems))
      ensures elems == Without(old(elems), doomed)
    {
      visited := [];
      ghost var was, i := elems, |elems|;
      var v := Last();
      while v != null
        invariant was == old(elems) && 0 <= i <= |was| && i + |visited| == |was|
        invariant Valid() && elems == SweptBack(was, i, doomed)
        invariant if i == 0 then v == null else v == was[i - 1]
        invariant forall j :: 0 <= j < |visited| ==> visited[j] == was[|was| - 1 - j]
        decreases i
      {
        var elm: Elem := v;
        i := i - 1;
        visited := visited + [elm];
        v := VisitSafeBack(elm, doomed, was, i);
      }
      SweptBackWhole(was, doomed);
    }
  }
}
