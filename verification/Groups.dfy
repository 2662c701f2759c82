/** Groups of sequences that share no element: the abstract state of several lists at once. */
module Groups {
  import opened Sequences

  ghost predicate Holds<T>(w: seq<seq<T>>, e: T) {
    exists q :: 0 <= q < |w| && e in w[q]
  }

  /** No element is held twice, in one sequence or in two. */
  ghost predicate Separate<T>(w: seq<seq<T>>) {
    && (forall q :: 0 <= q < |w| ==> Distinct(w[q]))
    && (forall q, r, e :: 0 <= q < |w| && 0 <= r < |w| && e in w[q] && e in w[r] ==> q == r)
  }

  ghost function OwnerOf<T>(w: seq<seq<T>>, e: T): (q: nat)
    requires Holds(w, e)
    ensures q < |w| && e in w[q]
  {
    var q :| 0 <= q < |w| && e in w[q];
    q
  }

  ghost function IndexOf<T>(s: seq<T>, e: T): (k: nat)
    requires e in s
    ensures k < |s| && s[k] == e
  {
    var k :| 0 <= k < |s| && s[k] == e;
    k
  }

  lemma IndexOfAt<T>(s: seq<T>, k: nat)
    requires Distinct(s) && k < |s|
    ensures s[k] in s && IndexOf(s, s[k]) == k
  {
    DistinctAt(s, k);
  }

  lemma InsertKeepsSeparate<T>(w: seq<seq<T>>, q: nat, k: nat, elm: T)
    requires Separate(w) && q < |w| && k <= |w[q]| && !Holds(w, elm)
    ensures Separate(w[q := InsertAt(w[q], k, elm)])
  {
    DistinctInsert(w[q], k, elm);
    var s := InsertAt(w[q], k, elm);
    assert forall e | e in s :: e == elm || e in w[q];
  }

  lemma RemoveKeepsSeparate<T>(w: seq<seq<T>>, q: nat, k: nat)
    requires Separate(w) && q < |w| && k < |w[q]|
    ensures Separate(w[q := RemoveAt(w[q], k)])
    ensures !Holds(w[q := RemoveAt(w[q], k)], w[q][k])
  {
    DistinctRemove(w[q], k);
    assert forall e | e in RemoveAt(w[q], k) :: e in w[q];
  }

  lemma ConcatKeepsSeparate<T>(w: seq<seq<T>>, q: nat, q2: nat)
    requires Separate(w) && q < |w| && q2 < |w| && q != q2
    ensures Separate(w[q := w[q] + w[q2]][q2 := []])
  {
    DistinctConcat(w[q], w[q2]);
  }

  lemma InsertMembers<T>(w: seq<seq<T>>, q: nat, k: nat, elm: T, e: T)
    requires q < |w| && k <= |w[q]|
    ensures Holds(w[q := InsertAt(w[q], k, elm)], e) <==> Holds(w, e) || e == elm
  {
    var w' := w[q := InsertAt(w[q], k, elm)];
    assert w'[q][k] == elm;
    assert forall i :: 0 <= i < |w[q]| ==> w[q][i] == w'[q][if i < k then i else i + 1];
    assert forall i :: 0 <= i < |w| && i != q ==> w'[i] == w[i];
  }

  lemma RemoveMembers<T>(w: seq<seq<T>>, q: nat, k: nat, e: T)
    requires Separate(w) && q < |w| && k < |w[q]|
    ensures Holds(w[q := RemoveAt(w[q], k)], e) <==> Holds(w, e) && e != w[q][k]
  {
    var w' := w[q := RemoveAt(w[q], k)];
    RemoveKeepsSeparate(w, q, k);
    assert forall i :: 0 <= i < |w[q]| && i != k ==> w[q][i] == w'[q][if i < k then i else i - 1];
    assert forall i :: 0 <= i < |w| && i != q ==> w'[i] == w[i];
  }

  /** Exchanging or joining two members of a group holds on to everything. */
  lemma PairMembers<T>(w: seq<seq<T>>, q: nat, q2: nat, e: T)
    requires q < |w| && q2 < |w|
    ensures Holds(w[q := w[q2]][q2 := w[q]], e) <==> Holds(w, e)
    ensures q != q2 ==> (Holds(w[q := w[q] + w[q2]][q2 := []], e) <==> Holds(w, e))
  {
    var v := w[q := w[q2]][q2 := w[q]];
    assert v[q] == w[q2] && v[q2] == w[q] && forall i :: 0 <= i < |w| && i != q && i != q2 ==> v[i] == w[i];
    if q != q2 {
      var u := w[q := w[q] + w[q2]][q2 := []];
      assert u[q] == w[q] + w[q2] && forall i :: 0 <= i < |w| && i != q && i != q2 ==> u[i] == w[i];
    }
  }
}
