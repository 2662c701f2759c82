/**
 `nfpexpl_parse_interfaces` and its cleanup, example/common/cli_arg_parse.c:
 a counting pass, a filling pass that cuts a copy of the argument in place, and
 the ownership of every block the parser allocates.
 */
module InterfaceParser {
  import opened InterfaceSyntax
  import opened Sequences

  // ----- allocation

  datatype MemOp = Alloc(id: nat) | Free(id: nat) | Denied

  /** Blocks allocated and not yet freed. */
  function Live(log: seq<MemOp>): set<nat> {
    if log == [] then {}
    else
      var before := Live(log[..|log| - 1]);
      match log[|log| - 1]
      case Alloc(id) => before + {id}
      case Free(id) => before - {id}
      case Denied => before
  }

  /** How many allocations were denied. */
  function Denials(log: seq<MemOp>): nat {
    if log == [] then 0 else Denials(log[..|log| - 1]) + if log[|log| - 1] == Denied then 1 else 0
  }

  /** Blocks are named by the moment of their allocation, and only live blocks are freed. */
  ghost predicate SafeLog(log: seq<MemOp>) {
    log == [] ||
    (SafeLog(log[..|log| - 1]) &&
     match log[|log| - 1]
     case Alloc(id) => id == |log| - 1
     case Free(id) => id in Live(log[..|log| - 1])
     case Denied => true)
  }

  lemma LogSnoc(log: seq<MemOp>, op: MemOp)
    requires SafeLog(log)
    requires if op.Alloc? then op.id == |log| else op.Free? ==> op.id in Live(log)
    ensures SafeLog(log + [op]) && Denials(log + [op]) == Denials(log) + if op == Denied then 1 else 0
    ensures Live(log + [op]) ==
      if op.Alloc? then Live(log) + {op.id} else if op.Free? then Live(log) - {op.id} else Live(log)
  {
    assert (log + [op])[..|log|] == log;
  }

  lemma {:induction false} LiveBelow(log: seq<MemOp>)
    requires SafeLog(log)
    ensures forall id | id in Live(log) :: id < |log|
  {
    if log != [] {
      LiveBelow(log[..|log| - 1]);
    }
  }

  function Frees(log: seq<MemOp>, id: nat): nat {
    if log == [] then 0 else Frees(log[..|log| - 1], id) + if log[|log| - 1] == Free(id) then 1 else 0
  }

  /** In a safe log a block that was allocated has been freed once if it is no longer live, and never if it is. */
  lemma {:induction false} FreedOnce(log: seq<MemOp>, id: nat)
    requires SafeLog(log)
    ensures id < |log| && log[id] == Alloc(id) ==> Frees(log, id) == if id in Live(log) then 0 else 1
    ensures id >= |log| || log[id] != Alloc(id) ==> Frees(log, id) == 0 && id !in Live(log)
  {
    if log != [] {
      FreedOnce(log[..|log| - 1], id);
    }
  }

  /** Every block allocated from call `from` on has been freed, once. */
  ghost predicate AllFreedOnce(log: seq<MemOp>, from: nat) {
    forall id: nat :: from <= id < |log| && log[id] == Alloc(id) ==> Frees(log, id) == 1
  }

  lemma NoneLeft(log: seq<MemOp>, from: nat)
    requires SafeLog(log) && forall id | id in Live(log) :: id < from
    ensures AllFreedOnce(log, from)
  {
    forall id: nat | from <= id < |log| && log[id] == Alloc(id) ensures Frees(log, id) == 1 {
      FreedOnce(log, id);
    }
  }

  datatype Env = Env(allocOk: nat -> bool)

  /** No allocation is ever denied. */
  ghost predicate Generous(env: Env) {
    forall n: nat :: env.allocOk(n)
  }

  /** An attempt that makes `after - before` denied calls succeeds exactly when the text is right and none is denied. */
  ghost predicate Tried(env: Env, before: nat, after: nat, right: bool, ok: bool) {
    before <= after && (ok <==> right && after == before) && (Generous(env) ==> after == before)
  }

  class Heap {
    var log: seq<MemOp>

    ghost predicate Valid()
      reads this
    {
      SafeLog(log)
    }

    constructor ()
      ensures Valid() && log == []
    {
      log := [];
    }

    /** A block, or a refusal. */
    method New(env: Env) returns (id: int)
      requires Valid()
      modifies this
      ensures Valid()
      ensures env.allocOk(|old(log)|) <==> id >= 0
      ensures id >= 0 ==>
        && id == |old(log)| && log == old(log) + [Alloc(id)]
        && id !in old(Live(log)) && Live(log) == old(Live(log)) + {id as nat}
        && Denials(log) == old(Denials(log))
      ensures id < 0 ==>
        log == old(log) + [Denied] && Live(log) == old(Live(log)) && Denials(log) == old(Denials(log)) + 1
    {
      if env.allocOk(|log|) {
        id := |log|;
        LiveBelow(log);
        LogSnoc(log, Alloc(id));
        log := log + [Alloc(id)];
      } else {
        id := -1;
        LogSnoc(log, Denied);
        log := log + [Denied];
      }
    }

    method Delete(id: nat)
      requires Valid() && id in Live(log)
      modifies this
      ensures Valid() && log == old(log) + [Free(id)] && Live(log) == old(Live(log)) - {id}
      ensures Denials(log) == old(Denials(log))
    {
      LogSnoc(log, Free(id));
      log := log + [Free(id)];
    }
  }

  // ----- C strings in a buffer

  /** Names a position of a text, so that what is known of all positions is used only for those a proof names. */
  ghost predicate Here(k: int) {
    0 <= k
  }

  /** `buf` holds the C string `text` at `from`. */
  ghost predicate HoldsText(buf: seq<char>, from: int, text: string) {
    && 0 <= from && from + |text| < |buf|
    && (forall k {:trigger Here(k)} :: Here(k) && k < |text| ==> buf[from + k] == text[k] && text[k] != '\0')
    && buf[from + |text|] == '\0'
  }

  method StrChr(buf: array<char>, from: nat, c: char, ghost text: string) returns (r: int)
    requires HoldsText(buf[..], from, text) && c != '\0'
    ensures r == if Find(text, c) == |text| then -1 else from + Find(text, c)
  {
    var i := from;
    assert Here(0);
    while buf[i] != '\0' && buf[i] != c
      invariant from <= i <= from + |text| && Here(i - from) && forall k :: 0 <= k < i - from ==> text[k] != c
      decreases from + |text| - i
    {
      i := i + 1;
    }
    FindUnique(text, c, i - from);
    r := if buf[i] == c then i else -1;
  }

  /** The bytes `strdup` copies and `atoi` reads. */
  method Text(buf: array<char>, from: nat, ghost text: string) returns (r: string)
    requires HoldsText(buf[..], from, text)
    ensures r == text
  {
    var i := from;
    r := "";
    assert Here(0);
    while buf[i] != '\0'
      invariant from <= i <= from + |text| && Here(i - from) && r == text[..i - from]
      decreases from + |text| - i
    {
      r := r + [buf[i]];
      i := i + 1;
    }
    assert text[..|text|] == text;
  }

  lemma SuffixText(buf: seq<char>, from: nat, text: string, n: nat)
    requires HoldsText(buf, from, text) && n <= |text|
    ensures HoldsText(buf, from + n, text[n..])
  {
    forall k | Here(k) && k < |text[n..]| ensures buf[from + n + k] == text[n..][k] && text[n..][k] != '\0' {
      assert Here(n + k);
    }
  }

  /** Writes before a text leave it alone. */
  lemma KeepText(buf: seq<char>, buf': seq<char>, from: nat, text: string)
    requires HoldsText(buf, from, text) && |buf'| == |buf| && forall k :: from <= k < |buf| ==> buf'[k] == buf[k]
    ensures HoldsText(buf', from, text)
  {
  }

  /** Writing a terminator inside a text cuts it in two. */
  lemma CutText(buf: seq<char>, from: nat, text: string, i: nat)
    requires HoldsText(buf, from, text) && i < |text|
    ensures var cut := buf[from + i := '\0'];
      HoldsText(cut, from, text[..i]) && HoldsText(cut, from + i + 1, text[i + 1..])
  {
    SuffixText(buf, from, text, i + 1);
    KeepText(buf, buf[from + i := '\0'], from + i + 1, text[i + 1..]);
  }

  // ----- entries and their blocks

  datatype Str = Null | Block(id: nat, text: string)

  datatype IfArg = IfArg(name: Str, address: Str, masklen: int)

  const ZERO := IfArg(Null, Null, 0)

  function StrId(s: Str): seq<nat> {
    if s.Null? then [] else [s.id]
  }

  /** The blocks an entry owns, in the order cleanup frees them. */
  function ArgIds(arg: IfArg): seq<nat> {
    StrId(arg.name) + StrId(arg.address)
  }

  function IdLists(args: seq<IfArg>): (r: seq<seq<nat>>)
    ensures |r| == |args| && forall i :: 0 <= i < |args| ==> r[i] == ArgIds(args[i])
  {
    seq(|args|, i requires 0 <= i < |args| => ArgIds(args[i]))
  }

  function AllIds(args: seq<IfArg>): seq<nat> {
    Flat(IdLists(args))
  }

  /** An entry of the array holds what the text says. */
  predicate Matches(arg: IfArg, e: Entry) {
    && arg.name.Block? && arg.name.text == e.name
    && match e.address
       case None => arg.address == Null && arg.masklen == 0
       case Some(a) => arg.address.Block? && arg.address.text == a.text && arg.masklen == a.masklen
  }

  ghost function SetOf(ids: seq<nat>): set<nat> {
    set x | x in ids
  }

  /** The heap holds the blocks in `base` and, once each, those in `ids`. */
  ghost predicate Holds(log: seq<MemOp>, base: set<nat>, ids: seq<nat>) {
    Distinct(ids) && (forall x | x in ids :: x !in base) && Live(log) == base + SetOf(ids)
  }

  lemma HoldsMore(log: seq<MemOp>, log': seq<MemOp>, base: set<nat>, ids: seq<nat>, id: nat)
    requires Holds(log, base, ids) && id !in Live(log) && Live(log') == Live(log) + {id}
    ensures Holds(log', base, ids + [id])
  {
    DistinctConcat(ids, [id]);
  }

  lemma HoldsLess(log: seq<MemOp>, log': seq<MemOp>, base: set<nat>, id: nat, ids: seq<nat>)
    requires Holds(log, base, [id] + ids) && Live(log') == Live(log) - {id}
    ensures id in Live(log) && Holds(log', base, ids)
  {
    DistinctPairs([id] + ids);
    DistinctPairs(ids);
    assert ([id] + ids)[0] == id;
    assert forall i :: 0 <= i < |ids| ==> ids[i] == ([id] + ids)[i + 1];
    assert id in [id] + ids;
    assert forall x | x in ids :: x in [id] + ids;
  }

  /** What one pass of the filling loop finds: the text up to the next comma. */
  function FirstSegment(rest: string): string {
    rest[..Find(rest, ',')]
  }

  /** The segments of `rest` start with its first one. */
  lemma NextSegment(rest: string)
    ensures Find(rest, ',') == |rest| ==> Segments(rest) == [FirstSegment(rest)]
    ensures Find(rest, ',') < |rest| ==> Segments(rest) == [FirstSegment(rest)] + Segments(rest[Find(rest, ',') + 1..])
  {
    assert rest[..|rest|] == rest;
  }

  /**
   Find `c` in the text at `from` and put a terminator in its place. The result is the position
   behind it, or -1. A text further on, at `next`, stays as it is.
   */
  method CutAt(buf: array<char>, from: nat, c: char, ghost text: string, ghost next: int, ghost later: string)
    returns (r: int)
    requires HoldsText(buf[..], from, text) && c != '\0'
    requires next >= 0 ==> next > from + |text| && HoldsText(buf[..], next, later)
    modifies buf
    ensures next >= 0 ==> HoldsText(buf[..], next, later)
    ensures HoldsText(buf[..], from, text[..Find(text, c)])
    ensures Find(text, c) == |text| ==> r == -1
    ensures Find(text, c) < |text| ==> r == from + Find(text, c) + 1 && HoldsText(buf[..], r, text[Find(text, c) + 1..])
  {
    ghost var before := buf[..];
    r := StrChr(buf, from, c, text);
    if r >= 0 {
      CutText(before, from, text, Find(text, c));
      buf[r] := '\0';
      r := r + 1;
      assert buf[..] == before[from + Find(text, c) := '\0'];
      if next >= 0 {
        KeepText(before, buf[..], next, later);
      }
    } else {
      assert text[..|text|] == text;
    }
  }

  /** `strdup` of the text at `from`. */
  method StrDup(env: Env, heap: Heap, buf: array<char>, from: nat, ghost text: string,
                ghost base: set<nat>, ghost ids: seq<nat>)
    returns (s: Str)
    requires heap.Valid() && HoldsText(buf[..], from, text) && Holds(heap.log, base, ids)
    modifies heap
    ensures heap.Valid() && Holds(heap.log, base, ids + StrId(s)) && old(heap.log) <= heap.log
    ensures s.Block? ==> s.text == text
    ensures Tried(env, old(Denials(heap.log)), Denials(heap.log), true, s.Block?)
  {
    ghost var was := heap.log;
    var id := heap.New(env);
    if id < 0 {
      assert ids + [] == ids;
      return Null;
    }
    HoldsMore(was, heap.log, base, ids, id);
    var t := Text(buf, from, text);
    s := Block(id, t);
  }

  /** The strings cut out of a segment are the parts of the entry it means, which it has unless its mask is missing. */
  lemma PartsMatch(seg: string, arg: IfArg)
    ensures var at := Find(seg, '@');
      && (at == |seg| ==> ParseEntry(seg).Some?)
      && (at == |seg| && arg.name.Block? && arg.name.text == seg[..at] && arg.address == Null && arg.masklen == 0 ==>
        Matches(arg, ParseEntry(seg).value))
    ensures var at := Find(seg, '@'); at < |seg| ==>
      var text := seg[at + 1..];
      var slash := Find(text, '/');
      && (ParseEntry(seg).Some? <==> slash < |text|)
      && (slash < |text| && arg.name.Block? && arg.name.text == seg[..at] && arg.address.Block?
          && arg.address.text == text[..slash] && arg.masklen == Atoi(text[slash + 1..]) ==>
        Matches(arg, ParseEntry(seg).value))
  {
    assert seg[..|seg|] == seg;
  }

  /** The part of a token behind its '@': cut off the mask, duplicate the address. */
  method ParseAddress(env: Env, heap: Heap, buf: array<char>, addr: nat, ghost text: string, ghost base: set<nat>,
                      ghost ids: seq<nat>, ghost next: int, ghost later: string)
    returns (ok: bool, address: Str, masklen: int)
    requires heap.Valid() && HoldsText(buf[..], addr, text) && Holds(heap.log, base, ids)
    requires next >= 0 ==> next > addr + |text| && HoldsText(buf[..], next, later)
    modifies heap, buf
    ensures heap.Valid() && Holds(heap.log, base, ids + StrId(address)) && old(heap.log) <= heap.log
    ensures next >= 0 ==> HoldsText(buf[..], next, later)
    ensures ok ==> var slash := Find(text, '/');
      slash < |text| && address.Block? && address.text == text[..slash] && masklen == Atoi(text[slash + 1..])
    ensures Tried(env, old(Denials(heap.log)), Denials(heap.log), Find(text, '/') < |text|, ok)
  {
    ok, address, masklen := false, Null, 0;
    ghost var slash := Find(text, '/');
    var mask := CutAt(buf, addr, '/', text, next, later);
    if mask < 0 {
      assert ids + [] == ids;
      return;
    }
    address := StrDup(env, heap, buf, addr, text[..slash], base, ids);
    if address.Null? {
      return;
    }
    var digits := Text(buf, mask, text[slash + 1..]);
    ok, masklen := true, Atoi(digits);
  }

  method ParseSegment(env: Env, heap: Heap, buf: array<char>, p: nat, ghost seg: string, ghost base: set<nat>,
                      ghost ids: seq<nat>, ghost next: int, ghost later: string)
    returns (ok: bool, arg: IfArg)
    requires heap.Valid() && HoldsText(buf[..], p, seg) && Holds(heap.log, base, ids)
    requires next >= 0 ==> next > p + |seg| && HoldsText(buf[..], next, later)
    modifies heap, buf
    ensures heap.Valid() && Holds(heap.log, base, ids + ArgIds(arg)) && old(heap.log) <= heap.log
    ensures next >= 0 ==> HoldsText(buf[..], next, later)
    ensures ok ==> ParseEntry(seg).Some? && Matches(arg, ParseEntry(seg).value)
    ensures Tried(env, old(Denials(heap.log)), Denials(heap.log), ParseEntry(seg).Some?, ok)
  {
    ghost var at := Find(seg, '@');
    var addr := CutAt(buf, p, '@', seg, next, later);
    var name := StrDup(env, heap, buf, p, seg[..at], base, ids);
    ok, arg := name.Block?, IfArg(name, Null, 0);
    assert StrId(name) + [] == StrId(name);
    if name.Block? && addr >= 0 {
      var address, masklen;
      ok, address, masklen := ParseAddress(env, heap, buf, addr, seg[at + 1..], base, ids + StrId(name), next, later);
      arg := IfArg(name, address, masklen);
      Assoc(ids, StrId(name), StrId(address));
    }
    PartsMatch(seg, arg);
  }

  /**
   One pass of the filling loop over the token at `p`: cut it out of the buffer, duplicate its
   parts. `arg` is what the pass leaves in the array entry, complete or not.
   */
  method ParseToken(env: Env, heap: Heap, buf: array<char>, p: nat, ghost rest: string,
                    ghost base: set<nat>, ghost ids: seq<nat>)
    returns (ok: bool, arg: IfArg, next: int)
    requires heap.Valid() && HoldsText(buf[..], p, rest) && Holds(heap.log, base, ids)
    modifies heap, buf
    ensures heap.Valid() && Holds(heap.log, base, ids + ArgIds(arg)) && old(heap.log) <= heap.log
    ensures ok ==> ParseEntry(FirstSegment(rest)).Some? && Matches(arg, ParseEntry(FirstSegment(rest)).value)
    ensures Tried(env, old(Denials(heap.log)), Denials(heap.log), ParseEntry(FirstSegment(rest)).Some?, ok)
    ensures Find(rest, ',') == |rest| ==> next == -1
    ensures Find(rest, ',') < |rest| ==>
      next == p + Find(rest, ',') + 1 && HoldsText(buf[..], next, rest[Find(rest, ',') + 1..])
  {
    ghost var seg, comma := FirstSegment(rest), Find(rest, ',');
    ghost var later := if comma < |rest| then rest[comma + 1..] else "";
    next := CutAt(buf, p, ',', rest, -1, "");
    ok, arg := ParseSegment(env, heap, buf, p, seg, base, ids, next, later);
  }

  // ----- the two passes and the cleanup

  lemma AllIdsSnoc(a: seq<IfArg>, x: IfArg)
    ensures AllIds(a + [x]) == AllIds(a) + ArgIds(x)
  {
    assert IdLists(a + [x]) == IdLists(a) + [ArgIds(x)];
    FlatSnoc(IdLists(a), ArgIds(x));
  }

  lemma AllIdsHead(args: seq<IfArg>)
    requires args != []
    ensures AllIds(args) == ArgIds(args[0]) + AllIds(args[1..])
  {
    assert IdLists(args)[1..] == IdLists(args[1..]);
    FlatHead(IdLists(args));
  }

  /** Entries the filling pass has not reached own nothing. */
  lemma {:induction false} AllIdsZero(args: seq<IfArg>, n: nat)
    requires n <= |args| && forall k :: n <= k < |args| ==> args[k] == ZERO
    ensures AllIds(args) == AllIds(args[..n])
  {
    if |args| == n {
      assert args[..n] == args;
    } else {
      var init := args[..|args| - 1];
      AllIdsZero(init, n);
      assert args == init + [ZERO] && init[..n] == args[..n];
      AllIdsSnoc(init, ZERO);
    }
  }

  /** Filling in an entry that owned nothing adds its blocks, and they come last. */
  lemma SetZero(args: seq<IfArg>, n: nat, arg: IfArg)
    requires n < |args| && forall k :: n <= k < |args| ==> args[k] == ZERO
    ensures AllIds(args[n := arg]) == AllIds(args) + ArgIds(arg)
  {
    var args' := args[n := arg];
    AllIdsZero(args, n);
    AllIdsZero(args', n + 1);
    assert args'[..n + 1] == args[..n] + [arg];
    AllIdsSnoc(args[..n], arg);
  }

  /** A C string with its terminator. */
  method CString(text: string) returns (buf: array<char>)
    requires '\0' !in text
    ensures fresh(buf) && HoldsText(buf[..], 0, text)
  {
    buf := new char[|text| + 1](i requires 0 <= i <= |text| => if i < |text| then text[i] else '\0');
    assert forall k :: 0 <= k < |text| ==> text[k] in text;
  }

  /** The counting pass. */
  method CountTokens(buf: array<char>, ghost text: string) returns (count: nat)
    requires HoldsText(buf[..], 0, text)
    ensures count == |Segments(text)|
  {
    count := 0;
    var tkn := 0;
    ghost var rest := text;
    while tkn >= 0
      invariant tkn >= 0 ==> HoldsText(buf[..], tkn, rest) && |Segments(text)| == count + |Segments(rest)|
      invariant tkn < 0 ==> |Segments(text)| == count
      decreases tkn >= 0, |rest|
    {
      var tknEnd := StrChr(buf, tkn, ',', rest);
      count := count + 1;
      if tknEnd >= 0 {
        ghost var i := Find(rest, ',');
        SuffixText(buf[..], tkn, rest, i + 1);
        rest := rest[i + 1..];
        tkn := tknEnd + 1;
      } else {
        tkn := -1;
      }
    }
  }

  /** The entries filled so far are those of the segments passed so far. */
  ghost predicate FilledBy(entries: seq<IfArg>, done: seq<string>) {
    && |done| <= |entries| && ParseSegments(done).Some? && |ParseSegments(done).value| == |done|
    && (forall k :: 0 <= k < |done| ==> Matches(entries[k], ParseSegments(done).value[k]))
    && (forall k :: |done| <= k < |entries| ==> entries[k] == ZERO)
  }

  /** A zeroed array holds no entry and owns no block. */
  lemma NothingFilled(entries: seq<IfArg>)
    requires forall k :: 0 <= k < |entries| ==> entries[k] == ZERO
    ensures FilledBy(entries, []) && AllIds(entries) == []
  {
    AllIdsZero(entries, 0);
    assert entries[..0] == [] && IdLists([]) == [];
  }

  lemma FilledStep(entries: seq<IfArg>, done: seq<string>, seg: string, arg: IfArg)
    requires FilledBy(entries, done) && |done| < |entries|
    requires ParseEntry(seg).Some? && Matches(arg, ParseEntry(seg).value)
    ensures FilledBy(entries[|done| := arg], done + [seg])
  {
    assert (done + [seg])[..|done|] == done;
  }

  lemma BadSegment(segments: seq<string>, done: seq<string>, rest: string)
    requires segments == done + Segments(rest) && ParseEntry(FirstSegment(rest)).None?
    ensures ParseSegments(segments).None?
  {
    SegmentsOkParse(segments);
    EntryOkParses(FirstSegment(rest));
    NextSegment(rest);
    assert segments[|done|] == FirstSegment(rest);
  }

  /** Passing one segment: what was passed grows by it, what is in front shrinks by it. */
  lemma PassSegment(segments: seq<string>, done: seq<string>, rest: string)
    requires segments == done + Segments(rest)
    ensures |done| < |segments|
    ensures Find(rest, ',') == |rest| ==> segments == done + [FirstSegment(rest)]
    ensures Find(rest, ',') < |rest| ==>
      segments == (done + [FirstSegment(rest)]) + Segments(rest[Find(rest, ',') + 1..])
  {
    NextSegment(rest);
    if Find(rest, ',') < |rest| {
      Assoc(done, [FirstSegment(rest)], Segments(rest[Find(rest, ',') + 1..]));
    }
  }

  datatype Argument = NotGiven | Given(text: string)

  /** Free the copy of the argument: the array and the strings stay. */
  method DropCopy(heap: Heap, ghost base: set<nat>, ghost table: nat, copy: nat, ghost ids: seq<nat>)
    requires heap.Valid() && table !in base && copy !in base && table != copy
    requires Holds(heap.log, base + {table, copy}, ids)
    modifies heap
    ensures heap.Valid() && old(heap.log) <= heap.log && Holds(heap.log, base + {table}, ids)
    ensures Denials(heap.log) == old(Denials(heap.log))
  {
    assert copy in Live(heap.log);
    heap.Delete(copy);
  }

  method FreeStr(heap: Heap, s: Str, ghost base: set<nat>, ghost later: seq<nat>)
    requires heap.Valid() && Holds(heap.log, base, StrId(s) + later)
    modifies heap
    ensures heap.Valid() && Holds(heap.log, base, later) && old(heap.log) <= heap.log
    ensures Denials(heap.log) == old(Denials(heap.log))
  {
    if s.Block? {
      ghost var was := heap.log;
      assert s.id in StrId(s) + later by { assert (StrId(s) + later)[0] == s.id; }
      heap.Delete(s.id);
      HoldsLess(was, heap.log, base, s.id, later);
    } else {
      assert StrId(s) + later == later;
    }
  }

  method FreeArg(heap: Heap, arg: IfArg, ghost base: set<nat>, ghost later: seq<nat>)
    requires heap.Valid() && Holds(heap.log, base, ArgIds(arg) + later)
    modifies heap
    ensures heap.Valid() && Holds(heap.log, base, later) && old(heap.log) <= heap.log
    ensures Denials(heap.log) == old(Denials(heap.log))
  {
    assert ArgIds(arg) + later == StrId(arg.name) + (StrId(arg.address) + later);
    FreeStr(heap, arg.name, base, StrId(arg.address) + later);
    FreeStr(heap, arg.address, base, later);
  }

  method FreeAll(heap: Heap, entries: seq<IfArg>, ghost base: set<nat>)
    requires heap.Valid() && Holds(heap.log, base, AllIds(entries))
    modifies heap
    ensures heap.Valid() && Live(heap.log) == base && old(heap.log) <= heap.log
    ensures Denials(heap.log) == old(Denials(heap.log))
  {
    assert entries[0..] == entries;
    for i := 0 to |entries|
      invariant heap.Valid() && old(heap.log) <= heap.log && Denials(heap.log) == old(Denials(heap.log))
      invariant Holds(heap.log, base, AllIds(entries[i..]))
    {
      AllIdsHead(entries[i..]);
      assert entries[i..][1..] == entries[i + 1..];
      FreeArg(heap, entries[i], base, AllIds(entries[i + 1..]));
    }
    assert entries[|entries|..] == [];
  }

  datatype Outcome = Parsed | Refused | NullDereference

  class Params {
    var ifCount: nat
    var ifArray: int
    var entries: seq<IfArg>

    /** The blocks reachable from here are live, once each, on top of `base`. */
    ghost predicate Owns(log: seq<MemOp>, base: set<nat>)
      reads this
    {
      && ifCount == |entries| && ifArray >= 0 && ifArray !in base
      && Holds(log, base + {ifArray as nat}, AllIds(entries))
    }

    /** Free every string, then the array; a second call finds nothing to do. */
    method Cleanup(heap: Heap, ghost base: set<nat>) returns (r: Outcome)
      requires heap.Valid() && (ifCount > 0 && ifArray >= 0 ==> Owns(heap.log, base))
      modifies this, heap
      ensures heap.Valid() && old(heap.log) <= heap.log && Denials(heap.log) == old(Denials(heap.log))
      ensures old(ifCount) == 0 ==> r == Parsed && heap.log == old(heap.log) && ifCount == 0
      ensures old(ifCount) > 0 && old(ifArray) < 0 ==> r == NullDereference
      ensures old(ifCount) > 0 && old(ifArray) >= 0 ==> r == Parsed && ifCount == 0 && Live(heap.log) == base
    {
      if ifCount == 0 {
        return Parsed;
      }
      if ifArray < 0 {
        return NullDereference;
      }
      FreeAll(heap, entries, base + {ifArray as nat});
      heap.Delete(ifArray);
      ifCount := 0;
      r := Parsed;
    }

    /** Where the filling loop is: `done` segments are passed and `rest` is the text at `tkn`, if there is one. */
    ghost predicate Filling(buf: seq<char>, text: string, done: seq<string>, tkn: int, rest: string)
      reads this
    {
      && |entries| == |Segments(text)| && FilledBy(entries, done)
      && if tkn >= 0 then HoldsText(buf, tkn, rest) && Segments(text) == done + Segments(rest)
         else Segments(text) == done
    }

    /** One pass of the filling loop: entry `idx` takes what the token at `tkn` says. */
    method FillEntry(env: Env, heap: Heap, buf: array<char>, tkn: nat, idx: nat,
                     ghost text: string, ghost done: seq<string>, ghost rest: string, ghost low: set<nat>)
      returns (ok: bool, next: int, ghost done': seq<string>, ghost rest': string)
      requires heap.Valid() && Holds(heap.log, low, AllIds(entries))
      requires Filling(buf[..], text, done, tkn, rest) && |done| == idx
      modifies this`entries, heap, buf
      ensures heap.Valid() && old(heap.log) <= heap.log && Holds(heap.log, low, AllIds(entries))
      ensures |entries| == |Segments(text)|
      ensures ok ==> |done'| == idx + 1 && Filling(buf[..], text, done', next, rest')
      ensures Denials(heap.log) >= old(Denials(heap.log))
      ensures ok || Generous(env) ==> Denials(heap.log) == old(Denials(heap.log))
      ensures !ok ==> ParseSegments(Segments(text)).None? || Denials(heap.log) > old(Denials(heap.log))
      ensures next >= 0 ==> |rest'| < |rest|
    {
      done' := done + [FirstSegment(rest)];
      rest' := if Find(rest, ',') < |rest| then rest[Find(rest, ',') + 1..] else "";
      PassSegment(Segments(text), done, rest);
      ghost var was := entries;
      var arg;
      ok, arg, next := ParseToken(env, heap, buf, tkn, rest, low, AllIds(entries));
      entries := entries[idx := arg];
      SetZero(was, idx, arg);
      if ok {
        FilledStep(was, done, FirstSegment(rest), arg);
      } else if ParseEntry(FirstSegment(rest)).None? {
        BadSegment(Segments(text), done, rest);
      }
    }

    /** The filling pass over the copy `buf` of the argument. */
    method Fill(env: Env, heap: Heap, buf: array<char>, ghost text: string, ghost low: set<nat>) returns (ok: bool)
      requires heap.Valid() && HoldsText(buf[..], 0, text)
      requires |entries| == |Segments(text)| && (forall k :: 0 <= k < |entries| ==> entries[k] == ZERO)
      requires Live(heap.log) == low
      modifies this`entries, heap, buf
      ensures heap.Valid() && old(heap.log) <= heap.log && Holds(heap.log, low, AllIds(entries))
      ensures |entries| == |Segments(text)|
      ensures ok ==> FilledBy(entries, Segments(text))
      ensures Tried(env, old(Denials(heap.log)), Denials(heap.log), ParseSegments(Segments(text)).Some?, ok)
    {
      var tkn, idx := 0, 0;
      ghost var rest, done: seq<string> := text, [];
      NothingFilled(entries);
      assert done + Segments(text) == Segments(text);
      while tkn >= 0
        invariant heap.Valid() && old(heap.log) <= heap.log && Holds(heap.log, low, AllIds(entries))
        invariant Filling(buf[..], text, done, tkn, rest) && |done| == idx
        invariant Denials(heap.log) == old(Denials(heap.log))
        decreases tkn >= 0, |rest|
      {
        ghost var was := heap.log;
        ok, tkn, done, rest := FillEntry(env, heap, buf, tkn, idx, text, done, rest, low);
        PrefixTrans(old(heap.log), was, heap.log);
        if !ok {
          return;
        }
        idx := idx + 1;
      }
      ok := true;
    }

    /** From the allocated array on: copy the argument, fill the array from the copy, free the copy. */
    method FillFromCopy(env: Env, heap: Heap, text: string, ghost base: set<nat>) returns (ok: bool)
      requires heap.Valid() && ifArray >= 0 && ifArray !in base && Live(heap.log) == base + {ifArray as nat}
      requires '\0' !in text
      requires ifCount == |entries| == |Segments(text)| && (forall k :: 0 <= k < |entries| ==> entries[k] == ZERO)
      modifies this`entries, heap
      ensures heap.Valid() && old(heap.log) <= heap.log && Owns(heap.log, base)
      ensures ok ==> FilledBy(entries, Segments(text))
      ensures Tried(env, old(Denials(heap.log)), Denials(heap.log), ParseSegments(Segments(text)).Some?, ok)
    {
      var copy := heap.New(env);
      if copy < 0 {
        NothingFilled(entries);
        return false;
      }
      var buf := CString(text);
      ok := Fill(env, heap, buf, text, base + {ifArray as nat, copy as nat});
      DropCopy(heap, base, ifArray, copy, AllIds(entries));
    }

    /**
     The whole function. A list is parsed into entries that match it, or refused with every block
     freed; when the array itself cannot be allocated, cleanup reads through a null pointer.
     */
    method ParseInterfaces(env: Env, heap: Heap, argv: Argument) returns (r: Outcome)
      requires heap.Valid() && (argv.Given? ==> '\0' !in argv.text)
      modifies this, heap
      ensures heap.Valid() && old(heap.log) <= heap.log
      ensures r == NullDereference <==> argv.Given? && argv.text != "" && !env.allocOk(|old(heap.log)|)
      ensures r == Parsed ==>
        && argv.Given? && argv.text != "" && ifCount == |entries| == |Segments(argv.text)|
        && FilledBy(entries, Segments(argv.text)) && Owns(heap.log, old(Live(heap.log)))
      ensures r == Refused ==> Live(heap.log) == old(Live(heap.log))
      ensures argv.NotGiven? || argv.text == "" ==> r == Refused && unchanged(this) && heap.log == old(heap.log)
      ensures r == Refused && argv.Given? && argv.text != "" ==> ifCount == 0
      ensures Tried(env, old(Denials(heap.log)), Denials(heap.log), argv.Given? && Parse(argv.text).Some?, r == Parsed)
    {
      if argv.NotGiven? || argv.text == "" {
        return Refused;
      }
      ghost var base := Live(heap.log);
      var arg := CString(argv.text);
      ifCount := CountTokens(arg, argv.text);
      ifArray, entries := -1, [];
      var table := heap.New(env);
      if table < 0 {
        r := Cleanup(heap, base);
        return;
      }
      ifArray, entries := table, seq(ifCount, _ => ZERO);
      var ok := FillFromCopy(env, heap, argv.text, base);
      if ok {
        return Parsed;
      }
      var _ := Cleanup(heap, base);
      r := Refused;
    }

    /** Parsing the text of a printed list fills the array with the list. */
    method ParsePrinted(env: Env, heap: Heap, list: seq<Entry>) returns (r: Outcome)
      requires heap.Valid() && Generous(env)
      requires list != [] && (forall e | e in list :: Printable(e)) && Print(list) != "" && '\0' !in Print(list)
      modifies this, heap
      ensures r == Parsed && ifCount == |entries| == |list|
      ensures forall k :: 0 <= k < |list| ==> Matches(entries[k], list[k])
    {
      RoundTrip(list);
      SegmentsOkParse(Segments(Print(list)));
      r := ParseInterfaces(env, heap, Given(Print(list)));
    }

    /**
     A parse and any number of cleanups: every block the parse allocated is freed exactly once. A
     list these parameters owned before is freed by the first cleanup exactly when the argument is
     missing or empty; otherwise the parse forgets it and its blocks stay allocated.
     */
    method ParseThenCleanup(env: Env, heap: Heap, argv: Argument, cleanups: nat, ghost base: set<nat>)
      returns (r: Outcome)
      requires heap.Valid() && (argv.Given? ==> '\0' !in argv.text)
      requires ifCount == 0 || Owns(heap.log, base) || (argv.Given? && argv.text != "")
      modifies this, heap
      ensures heap.Valid() && old(heap.log) <= heap.log
      ensures r == NullDereference <==> argv.Given? && argv.text != "" && !env.allocOk(|old(heap.log)|)
      ensures r == Refused || (r == Parsed && cleanups > 0) ==> AllFreedOnce(heap.log, |old(heap.log)|)
      ensures r != NullDereference && cleanups > 0 ==>
        Live(heap.log) == if old(ifCount) == 0 || (argv.Given? && argv.text != "") then old(Live(heap.log)) else base
      ensures Tried(env, old(Denials(heap.log)), Denials(heap.log), argv.Given? && Parse(argv.text).Some?, r == Parsed)
    {
      ghost var given := argv.Given? && argv.text != "";
      ghost var left := if ifCount == 0 || given then Live(heap.log) else base;
      LiveBelow(heap.log);
      r := ParseInterfaces(env, heap, argv);
      ghost var denials := Denials(heap.log);
      if r == NullDereference {
        return;
      }
      for i := 0 to cleanups
        invariant heap.Valid() && old(heap.log) <= heap.log
        invariant Denials(heap.log) == denials
        invariant ifCount == 0 ==> Live(heap.log) == left
        invariant ifCount > 0 ==> i == 0 && Owns(heap.log, left) && (r == Parsed || heap.log == old(heap.log))
      {
        var _ := Cleanup(heap, left);
      }
      if r == Refused || cleanups > 0 {
        NoneLeft(heap.log, |old(heap.log)|);
      }
    }
  }

  /** Two lists one after the other into the same parameters: blocks of the first are never freed. */
  method RepeatedOption(one: string, two: string, cleanups: nat) returns (first: Outcome, second: Outcome, heap: Heap)
    requires Parse(one).Some? && Parse(two).Some? && '\0' !in one && '\0' !in two && cleanups > 0
    ensures first == Parsed && second == Parsed && Live(heap.log) != {}
  {
    var params := new Params;
    heap := new Heap();
    var env := Env(n => true);
    first := params.ParseInterfaces(env, heap, Given(one));
    assert params.ifArray as nat in Live(heap.log);
    second := params.ParseThenCleanup(env, heap, Given(two), cleanups, {});
  }

  /** One interface name and no memory for the array: cleanup reads through the null pointer. */
  method RefusedArray() returns (r: Outcome)
    ensures r == NullDereference
  {
    var params := new Params;
    var heap := new Heap();
    r := params.ParseInterfaces(Env(n => false), heap, Given("eth0"));
  }
}
