/** Whole runs of the singly linked tail queue operations over any number of queues. */
module SinglyRuns {
  import opened Sequences
  import opened Groups
  import opened QueueRuns
  import opened SinglyTailQueue

  /** A macro call: removal also comes without naming what is removed. Nothing is inserted before an element. */
  datatype Macro = Plain(command: Command<Node>) | RemoveHead(q: nat) | RemoveAfter(q: nat, elm: Node)

  /** What the caller of each macro has to provide. */
  ghost predicate Usable(w: World<Node>, m: Macro) {
    match m
    case Plain(c) => Enabled(w, c) && !c.InsertBefore?
    case RemoveHead(q) => q < |w| && w[q] != []
    case RemoveAfter(q, elm) => q < |w| && elm in w[q] && IndexOf(w[q], elm) + 1 < |w[q]|
  }

  /** The command a macro call amounts to. */
  ghost function Meaning(w: World<Node>, m: Macro): (c: Command<Node>)
    requires Usable(w, m)
    ensures Enabled(w, c)
  {
    match m
    case Plain(c) => c
    case RemoveHead(q) => Command<Node>.Remove(q, w[q][0])
    case RemoveAfter(q, elm) => Command<Node>.Remove(q, w[q][IndexOf(w[q], elm) + 1])
  }

  ghost predicate LegalMacros(w: World<Node>, run: seq<Macro>)
    decreases |run|
  {
    run == [] || (Usable(w, run[0]) && LegalMacros(Apply(w, Meaning(w, run[0])), run[1..]))
  }

  /** The commands a run of macro calls amounts to. */
  ghost function Commands(w: World<Node>, run: seq<Macro>): (r: seq<Command<Node>>)
    requires LegalMacros(w, run)
    ensures Legal(w, r)
    decreases |run|
  {
    if run == [] then []
    else
      var c := Meaning(w, run[0]);
      var rest := Commands(Apply(w, c), run[1..]);
      assert ([c] + rest)[1..] == rest;
      [c] + rest
  }

  lemma CommandsHead(w: World<Node>, run: seq<Macro>)
    requires LegalMacros(w, run) && run != []
    ensures var w' := Apply(w, Meaning(w, run[0]));
      Outcome(w, Commands(w, run)) == Outcome(w', Commands(w', run[1..]))
  {
    var c := Meaning(w, run[0]);
    var rest := Commands(Apply(w, c), run[1..]);
    assert ([c] + rest)[0] == c && ([c] + rest)[1..] == rest;
  }

  ghost function Contents(qs: seq<SinglyTailQ>): (w: World<Node>)
    reads qs
    ensures |w| == |qs|
    ensures forall i :: 0 <= i < |qs| ==> w[i] == qs[i].elems
  {
    seq(|qs|, i requires 0 <= i < |qs| reads qs => qs[i].elems)
  }

  ghost predicate Ready(qs: seq<SinglyTailQ>, zone: set<Node>)
    reads qs, zone
  {
    && Distinct(qs)
    && Separate(Contents(qs))
    && (forall i, e :: 0 <= i < |qs| && e in qs[i].elems ==> e in zone)
    && (forall i :: 0 <= i < |qs| ==> qs[i].Valid())
  }

  lemma Apart(qs: seq<SinglyTailQ>, zone: set<Node>, q: nat)
    requires Ready(qs, zone) && q < |qs|
    ensures forall i :: 0 <= i < |qs| && i != q ==> qs[i] != qs[q] && forall e | e in qs[i].elems :: e !in qs[q].elems
  {
    DistinctAt(qs, q);
    var w := Contents(qs);
    forall i | 0 <= i < |qs| && i != q
      ensures qs[i] != qs[q] && forall e | e in qs[i].elems :: e !in qs[q].elems
    {
      assert w[i] == qs[i].elems && w[q] == qs[q].elems;
    }
  }

  /** The queues of a group other than `q` and `q2` are sound and still hold what `w` says. */
  ghost predicate OthersKept(qs: seq<SinglyTailQ>, q: nat, q2: nat, zone: set<Node>, w: World<Node>)
    reads qs, zone
  {
    && |w| == |qs|
    && forall i :: 0 <= i < |qs| && i != q && i != q2 ==>
      && qs[i].elems == w[i]
      && (forall e | e in w[i] :: e in zone)
      && qs[i].Valid()
  }

  /** The state of a group in which `q` and `q2` alone differ from `w`. */
  lemma PairReady(qs: seq<SinglyTailQ>, zone: set<Node>, q: nat, q2: nat, w: World<Node>)
    requires Distinct(qs) && q < |qs| && q2 < |qs| && OthersKept(qs, q, q2, zone, w)
    requires forall e | e in qs[q].elems + qs[q2].elems :: e in zone
    requires qs[q].Valid() && qs[q2].Valid()
    requires Separate(w[q := qs[q].elems][q2 := qs[q2].elems])
    ensures Ready(qs, zone) && Contents(qs) == w[q := qs[q].elems][q2 := qs[q2].elems]
  {
    assert Contents(qs) == w[q := qs[q].elems][q2 := qs[q2].elems];
    assert forall e | e in qs[q].elems :: e in qs[q].elems + qs[q2].elems;
    assert forall e | e in qs[q2].elems :: e in qs[q].elems + qs[q2].elems;
  }

  lemma RemovedReady(qs: seq<SinglyTailQ>, zone: set<Node>, q: nat, k: nat, w: World<Node>)
    requires Distinct(qs) && q < |qs| && OthersKept(qs, q, q, zone, w) && Separate(w)
    requires k < |w[q]| && (forall e | e in w[q] :: e in zone)
    requires qs[q].Valid() && qs[q].elems == RemoveAt(w[q], k)
    ensures Ready(qs, zone) && Contents(qs) == w[q := RemoveAt(w[q], k)]
  {
    RemoveKeepsSeparate(w, q, k);
    assert forall e | e in qs[q].elems :: e in w[q];
    PairReady(qs, zone, q, q, w);
  }

  lemma InsertedReady(qs: seq<SinglyTailQ>, zone: set<Node>, q: nat, k: nat, elm: Node, w: World<Node>)
    requires Distinct(qs) && q < |qs| && OthersKept(qs, q, q, zone, w) && Separate(w)
    requires k <= |w[q]| && (forall e | e in w[q] :: e in zone) && elm in zone && !Holds(w, elm)
    requires qs[q].Valid() && qs[q].elems == InsertAt(w[q], k, elm)
    ensures Ready(qs, zone) && Contents(qs) == w[q := InsertAt(w[q], k, elm)]
  {
    InsertKeepsSeparate(w, q, k, elm);
    assert forall e | e in qs[q].elems :: e in w[q] || e == elm;
    PairReady(qs, zone, q, q, w);
  }

  method DoInsert(qs: seq<SinglyTailQ>, c: Command<Node>, ghost w: World<Node>)
    requires Inserts(c) && !c.InsertBefore? && w == Contents(qs) && Enabled(w, c)
    requires var (q, k) := GapOf(w, c); qs[q].Valid() && c.elm !in qs[q].elems
    modifies var (q, k) := GapOf(w, c); {qs[q], c.elm} + qs[q].Preceding(k)
    ensures var (q, k) := GapOf(w, c); qs[q].Valid() && qs[q].elems == InsertAt(w[q], k, c.elm)
  {
    match c {
      case InsertHead(q, elm) =>
        qs[q].InsertHead(elm);
      case InsertTail(q, elm) =>
        qs[q].InsertTail(elm);
      case InsertAfter(q, listelm, elm) =>
        qs[q].InsertAfter(listelm, elm, IndexOf(w[q], listelm));
    }
  }

  method StepInsert(qs: seq<SinglyTailQ>, c: Command<Node>, ghost zone: set<Node>)
    requires Ready(qs, zone) && Touched(c) <= zone
    requires Inserts(c) && !c.InsertBefore? && Enabled(Contents(qs), c)
    modifies qs, zone
    ensures Ready(qs, zone)
    ensures Contents(qs) == Apply(old(Contents(qs)), c)
  {
    ghost var w := Contents(qs);
    ghost var (q, k) := GapOf(w, c);
    assert w[q] == qs[q].elems;
    Apart(qs, zone, q);
    forall i | 0 <= i < |qs| && i != q ensures forall e | e in qs[i].elems :: e != c.elm {
      assert w[i] == qs[i].elems;
    }
    DoInsert(qs, c, w);
    assert OthersKept(qs, q, q, zone, w);
    InsertedReady(qs, zone, q, k, c.elm, w);
  }

  method StepRemove(qs: seq<SinglyTailQ>, c: Command<Node>, ghost zone: set<Node>)
    requires Ready(qs, zone) && c.Remove? && Enabled(Contents(qs), c)
    modifies qs, zone
    ensures Ready(qs, zone)
    ensures Contents(qs) == Apply(old(Contents(qs)), c)
  {
    ghost var w := Contents(qs);
    assert w[c.q] == qs[c.q].elems;
    Apart(qs, zone, c.q);
    qs[c.q].Remove(c.elm, IndexOf(w[c.q], c.elm));
    assert OthersKept(qs, c.q, c.q, zone, w);
    RemovedReady(qs, zone, c.q, IndexOf(w[c.q], c.elm), w);
  }

  method StepRemoveHead(qs: seq<SinglyTailQ>, q: nat, ghost zone: set<Node>)
    requires Ready(qs, zone) && Usable(Contents(qs), RemoveHead(q))
    modifies qs, zone
    ensures Ready(qs, zone)
    ensures Contents(qs) == Apply(old(Contents(qs)), Meaning(old(Contents(qs)), RemoveHead(q)))
  {
    ghost var w := Contents(qs);
    assert w[q] == qs[q].elems;
    Apart(qs, zone, q);
    qs[q].RemoveHead();
    assert OthersKept(qs, q, q, zone, w);
    RemovedReady(qs, zone, q, 0, w);
    IndexOfAt(w[q], 0);
  }

  lemma AfterMeans(w: World<Node>, q: nat, elm: Node) returns (k: nat)
    requires Separate(w) && Usable(w, RemoveAfter(q, elm))
    ensures q < |w| && k + 1 < |w[q]| && w[q][k] == elm
    ensures Apply(w, Meaning(w, RemoveAfter(q, elm))) == w[q := RemoveAt(w[q], k + 1)]
  {
    k := IndexOf(w[q], elm);
    IndexOfAt(w[q], k + 1);
  }

  method RemoveBehind(qs: seq<SinglyTailQ>, q: nat, elm: Node, ghost k: nat, ghost zone: set<Node>)
    requires Ready(qs, zone) && q < |qs| && k + 1 < |qs[q].elems| && qs[q].elems[k] == elm
    modifies qs, zone
    ensures Ready(qs, zone)
    ensures var w := old(Contents(qs)); Contents(qs) == w[q := RemoveAt(w[q], k + 1)]
  {
    ghost var w := Contents(qs);
    assert w[q] == qs[q].elems && elm in qs[q].elems;
    Apart(qs, zone, q);
    qs[q].RemoveAfter(elm, k);
    assert OthersKept(qs, q, q, zone, w);
    RemovedReady(qs, zone, q, k + 1, w);
  }

  method StepRemoveAfter(qs: seq<SinglyTailQ>, q: nat, elm: Node, ghost zone: set<Node>)
    requires Ready(qs, zone) && Usable(Contents(qs), RemoveAfter(q, elm))
    modifies qs, zone
    ensures Ready(qs, zone)
    ensures Contents(qs) == Apply(old(Contents(qs)), Meaning(old(Contents(qs)), RemoveAfter(q, elm)))
  {
    ghost var w := Contents(qs);
    ghost var k := AfterMeans(w, q, elm);
    assert w[q] == qs[q].elems;
    RemoveBehind(qs, q, elm, k, zone);
  }

  method StepConcat(qs: seq<SinglyTailQ>, q: nat, q2: nat, ghost zone: set<Node>)
    requires Ready(qs, zone) && Enabled(Contents(qs), Concat(q, q2))
    modifies qs, zone
    ensures Ready(qs, zone)
    ensures Contents(qs) == Apply(old(Contents(qs)), Concat(q, q2))
  {
    ghost var w := Contents(qs);
    ApplyKeepsSeparate(w, Concat(q, q2));
    Apart(qs, zone, q);
    Apart(qs, zone, q2);
    assert w[q] == qs[q].elems && w[q2] == qs[q2].elems;
    qs[q].Concat(qs[q2]);
    assert OthersKept(qs, q, q2, zone, w);
    PairReady(qs, zone, q, q2, w);
  }

  method StepSwap(qs: seq<SinglyTailQ>, q: nat, q2: nat, ghost zone: set<Node>)
    requires Ready(qs, zone) && Enabled(Contents(qs), Swap(q, q2))
    modifies qs, zone
    ensures Ready(qs, zone)
    ensures Contents(qs) == Apply(old(Contents(qs)), Swap(q, q2))
  {
    ghost var w := Contents(qs);
    ApplyKeepsSeparate(w, Swap(q, q2));
    Apart(qs, zone, q);
    Apart(qs, zone, q2);
    qs[q].Swap(qs[q2]);
    assert OthersKept(qs, q, q2, zone, w);
    PairReady(qs, zone, q, q2, w);
  }

  method StepPlain(qs: seq<SinglyTailQ>, c: Command<Node>, ghost zone: set<Node>)
    requires Ready(qs, zone) && Touched(c) <= zone && !c.InsertBefore?
    requires Enabled(Contents(qs), c)
    modifies qs, zone
    ensures Ready(qs, zone)
    ensures Contents(qs) == Apply(old(Contents(qs)), c)
  {
    if c.Remove? {
      StepRemove(qs, c, zone);
    } else if c.Concat? {
      StepConcat(qs, c.q, c.q2, zone);
    } else if c.Swap? {
      StepSwap(qs, c.q, c.q2, zone);
    } else {
      StepInsert(qs, c, zone);
    }
  }

  method Step(qs: seq<SinglyTailQ>, m: Macro, ghost zone: set<Node>)
    requires Ready(qs, zone) && (m.Plain? ==> Touched(m.command) <= zone)
    requires Usable(Contents(qs), m)
    modifies qs, zone
    ensures Ready(qs, zone)
    ensures Contents(qs) == Apply(old(Contents(qs)), Meaning(old(Contents(qs)), m))
  {
    match m
    case Plain(c) => StepPlain(qs, c, zone);
    case RemoveHead(q) => StepRemoveHead(qs, q, zone);
    case RemoveAfter(q, elm) => StepRemoveAfter(qs, q, elm, zone);
  }

  /** Any legal run of macro calls leaves every queue sound and holding what its commands mean. */
  method Run(qs: seq<SinglyTailQ>, run: seq<Macro>, ghost zone: set<Node>)
    requires Ready(qs, zone) && forall m | m in run :: m.Plain? ==> Touched(m.command) <= zone
    requires LegalMacros(Contents(qs), run)
    modifies qs, zone
    ensures Ready(qs, zone)
    ensures Contents(qs) == Outcome(old(Contents(qs)), Commands(old(Contents(qs)), run))
  {
    ghost var w := Contents(qs);
    var n := 0;
    while n < |run|
      invariant 0 <= n <= |run| && Ready(qs, zone)
      invariant LegalMacros(Contents(qs), run[n..])
      invariant Outcome(Contents(qs), Commands(Contents(qs), run[n..])) == Outcome(w, Commands(w, run))
    {
      assert run[n..][0] == run[n] && run[n..][1..] == run[n + 1..];
      CommandsHead(Contents(qs), run[n..]);
      Step(qs, run[n], zone);
      n := n + 1;
    }
  }
}
