/** Sequence vocabulary shared by the models: positions, removal, filtering and reversal. */
module Sequences {

  /** Names a pair of positions, so that facts about all pairs are used only for the pairs a proof names. */
  ghost predicate Before(i: int, j: int) {
    i < j
  }

  /** No value occurs twice. */
  ghost predicate Distinct<T>(s: seq<T>) {
    forall i, j {:trigger Before(i, j)} :: 0 <= i && Before(i, j) && j < |s| ==> s[i] != s[j]
  }

  lemma DistinctPairs<T>(s: seq<T>)
    ensures Distinct(s) <==> forall i, j :: 0 <= i < j < |s| ==> s[i] != s[j]
  {
    if Distinct(s) {
      forall i, j | 0 <= i < j < |s| ensures s[i] != s[j] {
        assert Before(i, j);
      }
    }
  }

  /** The value at `k`, if there is a position `k`, is found nowhere else. */
  lemma DistinctAt<T>(s: seq<T>, k: int)
    requires Distinct(s)
    ensures 0 <= k < |s| ==> forall i :: 0 <= i < |s| && i != k ==> s[i] != s[k]
  {
    if 0 <= k < |s| {
      forall i | 0 <= i < |s| && i != k ensures s[i] != s[k] {
        assert Before(i, k) || Before(k, i);
      }
    }
  }

  function InsertAt<T>(s: seq<T>, k: nat, x: T): (r: seq<T>)
    requires k <= |s|
    ensures |r| == |s| + 1 && r[k] == x
    ensures forall i :: 0 <= i < k ==> r[i] == s[i]
    ensures forall i :: k < i < |r| ==> r[i] == s[i - 1]
  {
    seq(|s| + 1, i requires 0 <= i <= |s| => if i < k then s[i] else if i == k then x else s[i - 1])
  }

  function RemoveAt<T>(s: seq<T>, k: nat): (r: seq<T>)
    requires k < |s|
    ensures |r| == |s| - 1
    ensures forall i :: 0 <= i < k ==> r[i] == s[i]
    ensures forall i :: k <= i < |r| ==> r[i] == s[i + 1]
  {
    seq(|s| - 1, i requires 0 <= i < |s| - 1 => if i < k then s[i] else s[i + 1])
  }

  lemma DistinctInsert<T>(s: seq<T>, k: nat, x: T)
    requires Distinct(s) && k <= |s| && x !in s
    ensures Distinct(InsertAt(s, k, x))
  {
    var r := InsertAt(s, k, x);
    forall i, j | 0 <= i && Before(i, j) && j < |r| ensures r[i] != r[j] {
      var i', j' := if i < k then i else i - 1, if j < k then j else j - 1;
      assert i != k && j != k ==> Before(i', j') && r[i] == s[i'] && r[j] == s[j'];
      assert i != k ==> r[i] == s[i'] && s[i'] in s;
      assert j != k ==> r[j] == s[j'] && s[j'] in s;
    }
  }

  lemma DistinctRemove<T>(s: seq<T>, k: nat)
    requires Distinct(s) && k < |s|
    ensures Distinct(RemoveAt(s, k)) && s[k] !in RemoveAt(s, k)
  {
    var r := RemoveAt(s, k);
    forall i, j | 0 <= i && Before(i, j) && j < |r| ensures r[i] != r[j] {
      assert Before(if i < k then i else i + 1, if j < k then j else j + 1);
    }
    DistinctAt(s, k);
  }

  lemma DistinctConcat<T>(s: seq<T>, t: seq<T>)
    requires Distinct(s) && Distinct(t) && forall x | x in s :: x !in t
    ensures Distinct(s + t)
  {
    forall i, j | 0 <= i && Before(i, j) && j < |s + t| ensures (s + t)[i] != (s + t)[j] {
      assert i < |s| ==> (s + t)[i] == s[i] && s[i] in s;
      assert j >= |s| ==> (s + t)[j] == t[j - |s|] && t[j - |s|] in t;
      assert i >= |s| ==> Before(i - |s|, j - |s|);
    }
  }

  /** The elements of `s` outside `doomed`, in order. */
  function Without<T(==)>(s: seq<T>, doomed: set<T>): (r: seq<T>)
  {
    if s == [] then []
    else
      var r := Without(s[..|s| - 1], doomed);
      if s[|s| - 1] in doomed then r else r + [s[|s| - 1]]
  }

  lemma {:induction false} WithoutMembers<T>(s: seq<T>, doomed: set<T>)
    ensures forall x :: x in Without(s, doomed) <==> x in s && x !in doomed
  {
    if s != [] {
      var s', x := s[..|s| - 1], s[|s| - 1];
      assert s == s' + [x];
      WithoutMembers(s', doomed);
    }
  }

  function Reverse<T>(s: seq<T>): (r: seq<T>)
    ensures |r| == |s|
    ensures forall i :: 0 <= i < |s| ==> r[i] == s[|s| - 1 - i]
  {
    if s == [] then [] else [s[|s| - 1]] + Reverse(s[..|s| - 1])
  }

  lemma {:induction false} WithoutAppend<T>(a: seq<T>, b: seq<T>, doomed: set<T>)
    ensures Without(a + b, doomed) == Without(a, doomed) + Without(b, doomed)
  {
    if b == [] {
      assert a + b == a;
    } else {
      var b' := b[..|b| - 1];
      assert (a + b)[..|a + b| - 1] == a + b';
      WithoutAppend(a, b', doomed);
    }
  }

  /** How many of the first `k` elements a sweep that drops the doomed ones leaves in place. */
  ghost function KeptBefore<T>(s: seq<T>, k: nat, doomed: set<T>): (n: nat)
    requires k <= |s|
    ensures n <= k
  {
    if k == 0 then 0 else KeptBefore(s, k - 1, doomed) + if s[k - 1] in doomed then 0 else 1
  }

  /** `s` after the sweep has passed its first `k` elements, removing one element at a time. */
  ghost function Swept<T>(s: seq<T>, k: nat, doomed: set<T>): (r: seq<T>)
    requires k <= |s|
    ensures |r| == |s| - k + KeptBefore(s, k, doomed)
  {
    if k == 0 then s
    else
      var r := Swept(s, k - 1, doomed);
      if s[k - 1] in doomed then RemoveAt(r, KeptBefore(s, k - 1, doomed)) else r
  }

  lemma {:induction false} SweptMembers<T>(s: seq<T>, k: nat, doomed: set<T>)
    requires k <= |s|
    ensures forall i :: 0 <= i < |Swept(s, k, doomed)| ==> Swept(s, k, doomed)[i] in s
  {
    if k != 0 {
      SweptMembers(s, k - 1, doomed);
    }
  }

  /** What is in front of the sweep is still what was there. */
  lemma {:induction false} SweptAhead<T>(s: seq<T>, k: nat, doomed: set<T>, j: nat)
    requires k <= j < |s|
    ensures Swept(s, k, doomed)[KeptBefore(s, k, doomed) + (j - k)] == s[j]
  {
    if k != 0 {
      SweptAhead(s, k - 1, doomed, j);
      var r, p := Swept(s, k - 1, doomed), KeptBefore(s, k - 1, doomed);
      assert r[p + (j - k + 1)] == s[j];
      if s[k - 1] in doomed {
        assert RemoveAt(r, p)[p + (j - k)] == r[p + (j - k) + 1];
      }
    }
  }

  lemma {:induction false} SweptBehind<T>(s: seq<T>, k: nat, doomed: set<T>)
    requires k <= |s|
    ensures Swept(s, k, doomed)[..KeptBefore(s, k, doomed)] == Without(s[..k], doomed)
  {
    if k != 0 {
      SweptBehind(s, k - 1, doomed);
      SweptAhead(s, k - 1, doomed, k - 1);
      assert s[..k][..k - 1] == s[..k - 1];
    }
  }

  lemma SweptAll<T>(s: seq<T>, doomed: set<T>)
    ensures Swept(s, |s|, doomed) == Without(s, doomed)
  {
    SweptBehind(s, |s|, doomed);
    assert s[..|s|] == s;
  }

  /** `s` after a backward sweep has come down to position `k`. */
  ghost function SweptBack<T>(s: seq<T>, k: nat, doomed: set<T>): (r: seq<T>)
    requires k <= |s|
    ensures |r| >= k && forall i :: 0 <= i < k ==> r[i] == s[i]
    decreases |s| - k
  {
    if k == |s| then s
    else
      var r := SweptBack(s, k + 1, doomed);
      if s[k] in doomed then RemoveAt(r, k) else r
  }

  lemma {:induction false} SweptBackMembers<T>(s: seq<T>, k: nat, doomed: set<T>)
    requires k <= |s|
    ensures forall i :: 0 <= i < |SweptBack(s, k, doomed)| ==> SweptBack(s, k, doomed)[i] in s
    decreases |s| - k
  {
    if k != |s| {
      SweptBackMembers(s, k + 1, doomed);
    }
  }

  lemma {:induction false} SweptBackAll<T>(s: seq<T>, k: nat, doomed: set<T>)
    requires k <= |s|
    ensures SweptBack(s, k, doomed)[k..] == Without(s[k..], doomed)
    decreases |s| - k
  {
    if k != |s| {
      var r := SweptBack(s, k + 1, doomed);
      SweptBackAll(s, k + 1, doomed);
      assert s[k..] == [s[k]] + s[k + 1..];
      WithoutAppend([s[k]], s[k + 1..], doomed);
      if s[k] in doomed {
        assert RemoveAt(r, k)[k..] == r[k + 1..];
        assert Without([s[k]], doomed) == [];
      } else {
        assert r[k..] == [s[k]] + r[k + 1..];
        assert Without([s[k]], doomed) == [s[k]];
      }
    }
  }

  lemma SweptBackWhole<T>(s: seq<T>, doomed: set<T>)
    ensures SweptBack(s, 0, doomed) == Without(s, doomed)
  {
    SweptBackAll(s, 0, doomed);
    assert s[0..] == s && SweptBack(s, 0, doomed)[0..] == SweptBack(s, 0, doomed);
  }

  lemma {:induction false} WithoutTwice<T>(s: seq<T>, a: set<T>, b: set<T>)
    ensures Without(Without(s, a), b) == Without(s, a + b)
  {
    if s != [] {
      var s', x := s[..|s| - 1], s[|s| - 1];
      WithoutTwice(s', a, b);
      if x !in a {
        WithoutAppend(Without(s', a), [x], b);
      }
    }
  }

  lemma {:induction false} WithoutNothing<T>(s: seq<T>, doomed: set<T>)
    requires forall x | x in s :: x !in doomed
    ensures Without(s, doomed) == s
  {
    if s != [] {
      WithoutNothing(s[..|s| - 1], doomed);
      assert s == s[..|s| - 1] + [s[|s| - 1]];
    }
  }

  lemma WithoutMiddle<T>(a: seq<T>, x: T, b: seq<T>)
    requires x !in a && x !in b
    ensures Without(a + [x] + b, {x}) == a + b
  {
    WithoutAppend(a + [x], b, {x});
    WithoutAppend(a, [x], {x});
    WithoutNothing(a, {x});
    WithoutNothing(b, {x});
    assert Without([x], {x}) == [];
    assert a + [] == a;
  }

  lemma SplitAround<T>(s: seq<T>, k: nat)
    requires k < |s|
    ensures s == s[..k] + [s[k]] + s[k + 1..] && RemoveAt(s, k) == s[..k] + s[k + 1..]
  {
  }

  /** Removing a position of a sequence without repetition is filtering out one value. */
  lemma RemoveIsWithout<T>(s: seq<T>, k: nat)
    requires Distinct(s) && k < |s|
    ensures RemoveAt(s, k) == Without(s, {s[k]})
  {
    DistinctAt(s, k);
    SplitAround(s, k);
    WithoutMiddle(s[..k], s[k], s[k + 1..]);
  }

  lemma Assoc<T>(a: seq<T>, b: seq<T>, c: seq<T>)
    ensures a + (b + c) == (a + b) + c
  {
  }

  lemma PrefixTrans<T>(a: seq<T>, b: seq<T>, c: seq<T>)
    requires a <= b <= c
    ensures a <= c
  {
  }

  lemma HeadTail<T>(s: seq<T>)
    requires s != []
    ensures s == [s[0]] + s[1..]
  {
  }

  lemma TakeSnoc<T>(s: seq<T>, i: nat)
    requires i < |s|
    ensures s[..i + 1] == s[..i] + [s[i]]
  {
  }

  lemma TakeTake<T>(s: seq<T>, i: nat, j: nat)
    requires i <= j <= |s|
    ensures s[..j][..i] == s[..i]
  {
  }

  /** The concatenation of a sequence of sequences. */
  function Flat<T>(ss: seq<seq<T>>): seq<T> {
    if ss == [] then [] else Flat(ss[..|ss| - 1]) + ss[|ss| - 1]
  }

  lemma FlatSnoc<T>(ss: seq<seq<T>>, s: seq<T>)
    ensures Flat(ss + [s]) == Flat(ss) + s
  {
    assert (ss + [s])[..|ss|] == ss;
  }

  lemma {:induction false} FlatAppend<T>(a: seq<seq<T>>, b: seq<seq<T>>)
    ensures Flat(a + b) == Flat(a) + Flat(b)
  {
    if b == [] {
      assert a + b == a;
    } else {
      var b', s := b[..|b| - 1], b[|b| - 1];
      assert a + b == (a + b') + [s];
      FlatAppend(a, b');
      FlatSnoc(a + b', s);
    }
  }

  lemma FlatOne<T>(s: seq<T>)
    ensures Flat([s]) == s
  {
    assert [s][..0] == [];
    assert [] + s == s;
  }

  lemma FlatHead<T>(ss: seq<seq<T>>)
    requires ss != []
    ensures Flat(ss) == ss[0] + Flat(ss[1..])
  {
    HeadTail(ss);
    FlatAppend([ss[0]], ss[1..]);
    FlatOne(ss[0]);
  }
}
