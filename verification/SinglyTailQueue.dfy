/** The singly linked tail queue of include/api/nfp_queue.h, with removal by search, joining and exchange. */
module SinglyTailQueue {
  import opened Sequences

  datatype Cell = HeadCell(head: SinglyTailQ) | NextOf(node: Node)

  class Node {
    var next: Node?

    constructor () {
      next := null;
    }
  }

  ghost function HeadsOf(c: Cell): set<SinglyTailQ> {
    if c.HeadCell? then {c.head} else {}
  }

  ghost function NodesOf(c: Cell): set<Node> {
    if c.NextOf? then {c.node} else {}
  }

  method Store(c: Cell, v: Node?)
    modifies HeadsOf(c)`first, NodesOf(c)`next
    ensures match c case HeadCell(h) => h.first == v case NextOf(e) => e.next == v
  {
    match c
    case HeadCell(h) => h.first := v;
    case NextOf(e) => e.next := v;
  }

  class SinglyTailQ {
    var first: Node?
    var last: Cell
    ghost var elems: seq<Node>

    ghost function CellAt(i: nat): Cell
      requires i <= |elems|
      reads this
    {
      if i == 0 then HeadCell(this) else NextOf(elems[i - 1])
    }

    /** The element in front of position `k`, if there is one. */
    ghost function Preceding(k: nat): (r: set<Node>)
      requires k <= |elems|
      reads this
      ensures forall e | e in r :: e in elems
    {
      if k == 0 then {} else {elems[k - 1]}
    }

    ghost predicate Valid()
      reads this, elems
    {
      && Distinct(elems)
      && last == CellAt(|elems|)
      && (elems == [] ==> first == null)
      && (elems != [] ==> first == elems[0] && elems[|elems| - 1].next == null)
      && (forall i {:trigger elems[i].next} :: 0 <= i < |elems| - 1 ==> elems[i].next == elems[i + 1])
    }

    constructor ()
      ensures Valid() && elems == []
    {
      first, last, elems := null, HeadCell(this), [];
    }

    method Init()
      modifies this
      ensures Valid() && elems == []
    {
      first := null;
      last := HeadCell(this);
      elems := [];
    }

    method InsertHead(elm: Node)
      requires Valid() && elm !in elems
      modifies this, elm
      ensures Valid() && elems == InsertAt(old(elems), 0, elm)
    {
      DistinctInsert(elems, 0, elm);
      elm.next := first;
      if elm.next == null {
        last := NextOf(elm);
      }
      first := elm;
      elems := InsertAt(elems, 0, elm);
    }

    method InsertTail(elm: Node)
      requires Valid() && elm !in elems
      modifies this, elm, Preceding(|elems|)
      ensures Valid() && elems == InsertAt(old(elems), |old(elems)|, elm)
    {
      DistinctInsert(elems, |elems|, elm);
      DistinctAt(elems, |elems| - 1);
      elm.next := null;
      Store(last, elm);
      last := NextOf(elm);
      elems := InsertAt(elems, |elems|, elm);
    }

    method InsertAfter(tqelm: Node, elm: Node, ghost k: nat)
      requires Valid() && k < |elems| && elems[k] == tqelm && elm !in elems
      modifies this, tqelm, elm
      ensures Valid() && elems == InsertAt(old(elems), k + 1, elm)
    {
      DistinctInsert(elems, k + 1, elm);
      DistinctAt(elems, k);
      elm.next := tqelm.next;
      if elm.next == null {
        last := NextOf(elm);
      }
      tqelm.next := elm;
      elems := InsertAt(elems, k + 1, elm);
    }

    method RemoveHead()
      requires Valid() && elems != []
      modifies this
      ensures Valid() && elems == RemoveAt(old(elems), 0)
    {
      DistinctRemove(elems, 0);
      first := first.next;
      if first == null {
        last := HeadCell(this);
      }
      elems := RemoveAt(elems, 0);
    }

    method RemoveAfter(elm: Node, ghost k: nat)
      requires Valid() && k + 1 < |elems| && elems[k] == elm
      modifies this, Preceding(k + 1)
      ensures Valid() && elems == RemoveAt(old(elems), k + 1)
    {
      DistinctRemove(elems, k + 1);
      DistinctAt(elems, k);
      elm.next := elm.next.next;
      if elm.next == null {
        last := NextOf(elm);
      }
      elems := RemoveAt(elems, k + 1);
    }

    /** Removal by search from the front. */
    method Remove(elm: Node, ghost k: nat)
      requires Valid() && k < |elems| && elems[k] == elm
      modifies this, Preceding(k)
      ensures Valid() && elems == RemoveAt(old(elems), k)
    {
      DistinctAt(elems, k);
      if first == elm {
        RemoveHead();
      } else {
        var curelm := first;
        ghost var i := 0;
        while curelm.next != elm
          invariant 0 <= i < k && curelm == elems[i]
          decreases k - i
        {
          curelm := curelm.next;
          i := i + 1;
        }
        assert elems[i + 1] == elm;
        RemoveAfter(curelm, i);
      }
    }

    method Concat(head2: SinglyTailQ)
      requires Valid() && head2.Valid() && this != head2
      requires forall e | e in elems :: e !in head2.elems
      modifies this, head2, Preceding(|elems|)
      ensures Valid() && elems == old(elems + head2.elems)
      ensures head2.Valid() && head2.elems == []
    {
      ghost var s, t := elems, head2.elems;
      assert s + [] == s;
      assert s != [] ==> s[|s| - 1] in s;
      if head2.first != null {
        DistinctConcat(s, t);
        DistinctAt(s, |s| - 1);
        Store(last, head2.first);
        last := head2.last;
        elems := s + t;
        head2.Init();
        assert forall i {:trigger s[i].next} :: 0 <= i < |s| - 1 ==> s[i].next == s[i + 1];
      }
    }

    method Swap(head2: SinglyTailQ)
      requires Valid() && head2.Valid()
      modifies this, head2
      ensures Valid() && elems == old(head2.elems)
      ensures head2.Valid() && head2.elems == old(elems)
    {
      var swapFirst, swapLast := first, last;
      first := head2.first;
      last := head2.last;
      head2.first := swapFirst;
      head2.last := swapLast;
      if first == null {
        last := HeadCell(this);
      }
      if head2.first == null {
        head2.last := HeadCell(head2);
      }
      elems, head2.elems := head2.elems, elems;
    }

    /** The element that contains the last cell, found by subtracting the offset of its next field. */
    function Last(): (r: Node?)
      requires Valid()
      reads this, elems
      ensures r == if elems == [] then null else elems[|elems| - 1]
    {
      if first == null then null else last.node
    }
  }
}
