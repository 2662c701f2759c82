/**
 What runs of list operations mean, without pointers.

 The abstract state of a group of lists is the list of their element
 sequences. `Apply` says what each operation does to it; tail queues, bucket
 lists and singly linked tail queues are run against it.
 */
module QueueRuns {
  import opened Sequences
  import opened Groups

  type World<T> = seq<seq<T>>

  datatype Command<T> =
    | InsertHead(q: nat, elm: T)
    | InsertTail(q: nat, elm: T)
    | InsertAfter(q: nat, listelm: T, elm: T)
    | InsertBefore(listelm: T, elm: T)
    | Remove(q: nat, elm: T)
    | Concat(q: nat, q2: nat)
    | Swap(q: nat, q2: nat)

  /** What the caller of each macro has to provide. */
  ghost predicate Enabled<T>(w: World<T>, c: Command<T>) {
    match c
    case InsertHead(q, elm) => q < |w| && !Holds(w, elm)
    case InsertTail(q, elm) => q < |w| && !Holds(w, elm)
    case InsertAfter(q, listelm, elm) => q < |w| && listelm in w[q] && !Holds(w, elm)
    case InsertBefore(listelm, elm) => Holds(w, listelm) && !Holds(w, elm)
    case Remove(q, elm) => q < |w| && elm in w[q]
    case Concat(q, q2) => q < |w| && q2 < |w| && q != q2
    case Swap(q, q2) => q < |w| && q2 < |w|
  }

  ghost function Apply<T>(w: World<T>, c: Command<T>): (w': World<T>)
    requires Enabled(w, c)
    ensures |w'| == |w|
  {
    match c
    case InsertHead(q, elm) => w[q := [elm] + w[q]]
    case InsertTail(q, elm) => w[q := w[q] + [elm]]
    case InsertAfter(q, listelm, elm) => w[q := InsertAt(w[q], IndexOf(w[q], listelm) + 1, elm)]
    case InsertBefore(listelm, elm) =>
      var q := OwnerOf(w, listelm);
      w[q := InsertAt(w[q], IndexOf(w[q], listelm), elm)]
    case Remove(q, elm) => w[q := RemoveAt(w[q], IndexOf(w[q], elm))]
    case Concat(q, q2) => w[q := w[q] + w[q2]][q2 := []]
    case Swap(q, q2) => w[q := w[q2]][q2 := w[q]]
  }

  ghost predicate Legal<T>(w: World<T>, run: seq<Command<T>>)
    decreases |run|
  {
    run == [] || (Enabled(w, run[0]) && Legal(Apply(w, run[0]), run[1..]))
  }

  ghost function Outcome<T>(w: World<T>, run: seq<Command<T>>): World<T>
    requires Legal(w, run)
    decreases |run|
  {
    if run == [] then w else Outcome(Apply(w, run[0]), run[1..])
  }

  /** Every operation keeps the queues separate, whatever the queues hold. */
  lemma ApplyKeepsSeparate<T>(w: World<T>, c: Command<T>)
    requires Separate(w) && Enabled(w, c)
    ensures Separate(Apply(w, c))
  {
    match c
    case InsertHead(q, elm) =>
      InsertKeepsSeparate(w, q, 0, elm);
      assert [elm] + w[q] == InsertAt(w[q], 0, elm);
    case InsertTail(q, elm) =>
      InsertKeepsSeparate(w, q, |w[q]|, elm);
      assert w[q] + [elm] == InsertAt(w[q], |w[q]|, elm);
    case InsertAfter(q, listelm, elm) =>
      InsertKeepsSeparate(w, q, IndexOf(w[q], listelm) + 1, elm);
    case InsertBefore(listelm, elm) =>
      var q := OwnerOf(w, listelm);
      InsertKeepsSeparate(w, q, IndexOf(w[q], listelm), elm);
    case Remove(q, elm) =>
      RemoveKeepsSeparate(w, q, IndexOf(w[q], elm));
    case Concat(q, q2) =>
      ConcatKeepsSeparate(w, q, q2);
    case Swap(q, q2) =>
  }

  ghost function Touched<T>(c: Command<T>): set<T> {
    match c
    case InsertHead(_, elm) => {elm}
    case InsertTail(_, elm) => {elm}
    case InsertAfter(_, _, elm) => {elm}
    case InsertBefore(_, elm) => {elm}
    case Remove(_, _) => {}
    case Concat(_, _) => {}
    case Swap(_, _) => {}
  }

  ghost predicate Inserts<T>(c: Command<T>) {
    c.InsertHead? || c.InsertTail? || c.InsertAfter? || c.InsertBefore?
  }

  /** Where an inserting command puts its element: the queue and the gap in it. */
  ghost function GapOf<T>(w: World<T>, c: Command<T>): (g: (nat, nat))
    requires Inserts(c) && Enabled(w, c)
    ensures g.0 < |w| && g.1 <= |w[g.0]|
    ensures Apply(w, c) == w[g.0 := InsertAt(w[g.0], g.1, c.elm)]
  {
    match c
    case InsertHead(q, elm) => assert [elm] + w[q] == InsertAt(w[q], 0, elm); (q, 0)
    case InsertTail(q, elm) => assert w[q] + [elm] == InsertAt(w[q], |w[q]|, elm); (q, |w[q]|)
    case InsertAfter(q, listelm, _) => (q, IndexOf(w[q], listelm) + 1)
    case InsertBefore(listelm, _) =>
      var q := OwnerOf(w, listelm);
      (q, IndexOf(w[q], listelm))
  }

  /** `b` comes right after `a`. */
  ghost predicate NextTo<T>(s: seq<T>, a: T, b: T) {
    exists k :: 0 <= k < |s| - 1 && s[k] == a && s[k + 1] == b
  }

  ghost predicate SameBut<T>(w: World<T>, w': World<T>, doomed: set<int>) {
    |w'| == |w| && forall i :: 0 <= i < |w| && i !in doomed ==> w'[i] == w[i]
  }

  /** `s'` is `s` with `b` right after `a` and nothing else new. */
  ghost predicate Joined<T>(s: seq<T>, s': seq<T>, a: T, b: T, elm: T) {
    NextTo(s', a, b) && Without(s', {elm}) == s
  }

  ghost predicate JoinsBefore<T>(w: World<T>, w': World<T>, q: int, listelm: T, elm: T) {
    0 <= q < |w| && listelm in w[q] && SameBut(w, w', {q}) && Joined(w[q], w'[q], elm, listelm, elm)
  }

  /** What each command promises, by neighbours and by what stays in order. */
  ghost predicate Places<T>(w: World<T>, c: Command<T>, w': World<T>)
    requires Enabled(w, c)
  {
    match c
    case InsertHead(q, elm) => SameBut(w, w', {q}) && w'[q] == [elm] + w[q]
    case InsertTail(q, elm) => SameBut(w, w', {q}) && w'[q] == w[q] + [elm]
    case InsertAfter(q, listelm, elm) => SameBut(w, w', {q}) && Joined(w[q], w'[q], listelm, elm, elm)
    case InsertBefore(listelm, elm) => exists q :: JoinsBefore(w, w', q, listelm, elm)
    case Remove(q, elm) => SameBut(w, w', {q}) && w'[q] == Without(w[q], {elm})
    case Concat(q, q2) => SameBut(w, w', {q, q2}) && w'[q] == w[q] + w[q2] && w'[q2] == []
    case Swap(q, q2) => SameBut(w, w', {q, q2}) && w'[q] == w[q2] && w'[q2] == w[q]
  }

  lemma InsertJoins<T>(s: seq<T>, k: nat, elm: T)
    requires k <= |s| && elm !in s
    ensures Without(InsertAt(s, k, elm), {elm}) == s
    ensures k > 0 ==> NextTo(InsertAt(s, k, elm), s[k - 1], elm)
    ensures k < |s| ==> NextTo(InsertAt(s, k, elm), elm, s[k])
  {
    var r := InsertAt(s, k, elm);
    assert r == s[..k] + [elm] + s[k..] && s[..k] + s[k..] == s;
    WithoutMiddle(s[..k], elm, s[k..]);
    assert k > 0 ==> r[k - 1] == s[k - 1] && r[k - 1 + 1] == elm;
    assert k < |s| ==> r[k + 1] == s[k];
  }

  lemma AfterPlaces<T>(w: World<T>, q: nat, listelm: T, elm: T)
    requires Enabled(w, InsertAfter(q, listelm, elm))
    ensures Joined(w[q], Apply(w, InsertAfter(q, listelm, elm))[q], listelm, elm, elm)
  {
    InsertJoins(w[q], IndexOf(w[q], listelm) + 1, elm);
  }

  lemma BeforePlaces<T>(w: World<T>, listelm: T, elm: T)
    requires Enabled(w, InsertBefore(listelm, elm))
    ensures JoinsBefore(w, Apply(w, InsertBefore(listelm, elm)), OwnerOf(w, listelm), listelm, elm)
  {
    var q := OwnerOf(w, listelm);
    InsertJoins(w[q], IndexOf(w[q], listelm), elm);
  }

  /** Every operation puts its element where the macro's name says and leaves the order of all others alone. */
  lemma ApplyPlaces<T>(w: World<T>, c: Command<T>)
    requires Separate(w) && Enabled(w, c)
    ensures Places(w, c, Apply(w, c))
  {
    match c
    case InsertHead(_, _) =>
    case InsertTail(_, _) =>
    case InsertAfter(q, listelm, elm) =>
      AfterPlaces(w, q, listelm, elm);
    case InsertBefore(listelm, elm) =>
      BeforePlaces(w, listelm, elm);
    case Remove(q, elm) =>
      RemoveIsWithout(w[q], IndexOf(w[q], elm));
    case Concat(_, _) =>
    case Swap(_, _) =>
  }

  /** Whether `e` is linked after `run`, from the commands that name it alone. */
  ghost predicate LinkedAfter<T>(run: seq<Command<T>>, e: T, linked: bool)
    decreases |run|
  {
    if run == [] then linked
    else LinkedAfter(run[1..], e, if run[0].Remove? then linked && run[0].elm != e else linked || e in Touched(run[0]))
  }

  lemma ApplyMembers<T>(w: World<T>, c: Command<T>, e: T)
    requires Separate(w) && Enabled(w, c)
    ensures Holds(Apply(w, c), e) <==> if c.Remove? then Holds(w, e) && c.elm != e else Holds(w, e) || e in Touched(c)
  {
    if Inserts(c) {
      var (q, k) := GapOf(w, c);
      InsertMembers(w, q, k, c.elm, e);
    } else if c.Remove? {
      RemoveMembers(w, c.q, IndexOf(w[c.q], c.elm), e);
    } else {
      PairMembers(w, c.q, c.q2, e);
    }
  }

  /** Conservation: a run neither loses nor invents elements. */
  lemma {:induction false} RunMembers<T>(w: World<T>, run: seq<Command<T>>, e: T)
    requires Separate(w) && Legal(w, run)
    ensures Holds(Outcome(w, run), e) <==> LinkedAfter(run, e, Holds(w, e))
    decreases |run|
  {
    if run != [] {
      ApplyKeepsSeparate(w, run[0]);
      ApplyMembers(w, run[0], e);
      RunMembers(Apply(w, run[0]), run[1..], e);
    }
  }
}
