/**
 Whole runs of the list operations over a table of buckets. Insertion after or
 before an element and removal are given no head: `Run` finds what `Apply` says
 although only the proof knows the bucket that is changed.
 */
module BucketRuns {
  import opened Sequences
  import opened Groups
  import opened QueueRuns
  import opened BucketList

  /** Lists have no tail pointer: nothing is inserted at the end, and no two are joined. */
  predicate ListCommand(c: Command<Node>) {
    !c.InsertTail? && !c.Concat?
  }

  method DoInsert(table: seq<Bucket>, c: Command<Node>, ghost w: World<Node>)
    requires Inserts(c) && ListCommand(c) && w == Contents(table) && Enabled(w, c)
    requires var (b, k) := GapOf(w, c); table[b].Valid() && c.elm !in table[b].elems
    modifies var (b, k) := GapOf(w, c); {table[b], c.elm} + table[b].Around(k)
    ensures var (b, k) := GapOf(w, c); table[b].Valid() && table[b].elems == InsertAt(w[b], k, c.elm)
  {
    match c {
      case InsertHead(b, elm) =>
        table[b].InsertHead(elm);
      case InsertAfter(b, listelm, elm) =>
        Bucket.InsertAfter(listelm, elm, table[b], IndexOf(w[b], listelm));
      case InsertBefore(listelm, elm) =>
        ghost var b := OwnerOf(w, listelm);
        Bucket.InsertBefore(listelm, elm, table[b], IndexOf(w[b], listelm));
    }
  }

  method StepInsert(table: seq<Bucket>, c: Command<Node>, ghost zone: set<Node>)
    requires Ready(table, zone) && Touched(c) <= zone
    requires Inserts(c) && ListCommand(c) && Enabled(Contents(table), c)
    modifies table, zone
    ensures Ready(table, zone)
    ensures Contents(table) == Apply(old(Contents(table)), c)
  {
    ghost var w := Contents(table);
    ghost var (b, k) := GapOf(w, c);
    ApplyKeepsSeparate(w, c);
    Apart(table, zone, b);
    assert w[b] == table[b].elems;
    forall i | 0 <= i < |table| && i != b ensures forall e | e in table[i].elems :: e != c.elm {
      assert w[i] == table[i].elems;
    }
    DoInsert(table, c, w);
    assert forall e | e in table[b].elems :: e in w[b] || e == c.elm;
    OnlyOwner(table, zone, b, w);
  }

  method StepRemove(table: seq<Bucket>, c: Command<Node>, ghost zone: set<Node>)
    requires Ready(table, zone) && c.Remove? && Enabled(Contents(table), c)
    modifies table, zone
    ensures Ready(table, zone)
    ensures Contents(table) == Apply(old(Contents(table)), c)
  {
    ghost var w := Contents(table);
    assert Holds(w, c.elm) && OwnerOf(w, c.elm) == c.q;
    TableRemove(c.elm, table, zone);
  }

  /** The state of a table after two buckets were exchanged. */
  lemma PairReady(table: seq<Bucket>, zone: set<Node>, b: nat, b2: nat, w: World<Node>)
    requires Distinct(table) && |w| == |table| && b < |table| && b2 < |table|
    requires forall i :: 0 <= i < |table| && i != b && i != b2 ==> table[i].elems == w[i]
    requires table[b].elems == w[b2] && table[b2].elems == w[b] && Separate(w[b := w[b2]][b2 := w[b]])
    requires forall i, e :: 0 <= i < |table| && e in w[i] ==> e in zone
    requires forall i :: 0 <= i < |table| ==> table[i].Valid()
    ensures Ready(table, zone) && Contents(table) == w[b := w[b2]][b2 := w[b]]
  {
    assert Contents(table) == w[b := w[b2]][b2 := w[b]];
  }

  method StepSwap(table: seq<Bucket>, b: nat, b2: nat, ghost zone: set<Node>)
    requires Ready(table, zone) && Enabled(Contents(table), Swap(b, b2))
    modifies table, zone
    ensures Ready(table, zone)
    ensures Contents(table) == Apply(old(Contents(table)), Swap(b, b2))
  {
    ghost var w := Contents(table);
    ApplyKeepsSeparate(w, Swap(b, b2));
    Apart(table, zone, b);
    Apart(table, zone, b2);
    table[b].Swap(table[b2]);
    PairReady(table, zone, b, b2, w);
  }

  method Step(table: seq<Bucket>, c: Command<Node>, ghost zone: set<Node>)
    requires Ready(table, zone) && Touched(c) <= zone && ListCommand(c)
    requires Enabled(Contents(table), c)
    modifies table, zone
    ensures Ready(table, zone)
    ensures Contents(table) == Apply(old(Contents(table)), c)
  {
    if c.Remove? {
      StepRemove(table, c, zone);
    } else if c.Swap? {
      StepSwap(table, c.q, c.q2, zone);
    } else {
      StepInsert(table, c, zone);
    }
  }

  /** Any legal run of operations leaves every bucket sound and holding what the run means. */
  method Run(table: seq<Bucket>, run: seq<Command<Node>>, ghost zone: set<Node>)
    requires Ready(table, zone) && forall c | c in run :: Touched(c) <= zone && ListCommand(c)
    requires Legal(Contents(table), run)
    modifies table, zone
    ensures Ready(table, zone)
    ensures Contents(table) == Outcome(old(Contents(table)), run)
  {
    ghost var w := Contents(table);
    var n := 0;
    while n < |run|
      invariant 0 <= n <= |run| && Ready(table, zone)
      invariant Legal(Contents(table), run[n..])
      invariant Outcome(Contents(table), run[n..]) == Outcome(w, run)
    {
      assert run[n..][0] == run[n] && run[n..][1..] == run[n + 1..];
      Step(table, run[n], zone);
      n := n + 1;
    }
  }
}
