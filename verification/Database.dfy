/** Several trees over one cache and one file, and what a client can tell about them. */
module Databases {
  import opened Bytes
  import opened Options
  import opened LeafPage
  import FreeList
  import Allocator
  import opened PageCounts
  import opened Paging
  import opened Caching
  import opened Trees

  // ----- The specification: independent lists of pairs -----

  datatype Op =
    | CreateTree
    | Insert(tree: nat, key: nat, value: Bytes)
    | Lookup(tree: nat, key: nat)
    | ListAll(tree: nat)
    | Flush
    | FlushPage(id: nat)
    | EvictPage(id: nat)

  datatype Answer =
    | Done
    | Refused
    | Found(value: Option<Bytes>)
    | Listing(pairs: seq<Pair>)

  type State = seq<seq<Pair>>

  function LookupIn(s: seq<Pair>, key: nat): Option<Bytes> {
    var i := Position(s, key);
    if i < |s| then Some(s[i].value) else None
  }

  /** Keys are 64 bits wide and a cell's size fits its 16-bit field. */
  predicate InRange(op: Op) {
    op.Insert? ==> op.key < U64_LIMIT && SLOT + CELL_OVERHEAD + |op.value| < U16_LIMIT
  }

  ghost predicate Accepts(s: seq<Pair>, key: nat, value: Bytes) {
    HasKey(s, key) || Fits(s, value)
  }

  /** The specified effect of an operation; one on a tree that does not exist is refused. */
  ghost function Exec(s: State, op: Op): (State, Answer) {
    match op
    case CreateTree => (s + [[]], Done)
    case Insert(t, key, value) =>
      if t < |s| && Accepts(s[t], key, value) then (s[t := Inserted(s[t], key, value)], Done) else (s, Refused)
    case Lookup(t, key) => (s, if t < |s| then Found(LookupIn(s[t], key)) else Refused)
    case ListAll(t) => (s, if t < |s| then Listing(s[t]) else Refused)
    case _ => (s, Done)
  }

  /** One step of the system: the specified step, or on a failing device a refusal that changes
      nothing. */
  ghost predicate OpStep(reliable: bool, s: State, op: Op, s': State, answer: Answer) {
    (s', answer) == Exec(s, op) || (!reliable && s' == s && answer == Refused)
  }

  /** A whole run, with the states it passes through. */
  ghost predicate OpRun(reliable: bool, states: seq<State>, ops: seq<Op>, answers: seq<Answer>) {
    && |states| == |ops| + 1 && |answers| == |ops|
    && forall i {:trigger ops[i]} :: 0 <= i < |ops| ==>
         OpStep(reliable, states[i], ops[i], states[i + 1], answers[i])
  }

  // ----- What the pages of a file hold -----

  /** Each root is a different live page holding a well-formed leaf. */
  ghost predicate Leaves(contents: map<nat, Bytes>, roots: seq<nat>) {
    && (forall i :: 0 <= i < |roots| ==> roots[i] in contents && WellFormed(contents[roots[i]]))
    && (forall i, j :: 0 <= i < j < |roots| ==> roots[i] != roots[j])
  }

  ghost function Abstraction(contents: map<nat, Bytes>, roots: seq<nat>): (s: State)
    requires Leaves(contents, roots)
    ensures |s| == |roots|
  {
    seq(|roots|, i requires 0 <= i < |roots| => Pairs(contents[roots[i]]))
  }

  lemma LeavesUpdate(was: map<nat, Bytes>, now: map<nat, Bytes>, roots: seq<nat>, t: nat)
    requires Leaves(was, roots) && t < |roots|
    requires roots[t] in now && WellFormed(now[roots[t]]) && now == was[roots[t] := now[roots[t]]]
    ensures Leaves(now, roots)
    ensures Abstraction(now, roots) == Abstraction(was, roots)[t := Pairs(now[roots[t]])]
  {
  }

  lemma LeavesCreate(was: map<nat, Bytes>, now: map<nat, Bytes>, roots: seq<nat>, root: nat)
    requires Leaves(was, roots) && root !in was && root in now && WellFormed(now[root])
    requires SameOn(was.Keys, was, now)
    ensures Leaves(now, roots) && Abstraction(now, roots) == Abstraction(was, roots)
    ensures Leaves(now, roots + [root])
    ensures Abstraction(now, roots + [root]) == Abstraction(was, roots) + [Pairs(now[root])]
  {
  }

  lemma LeavesGrow(was: map<nat, Bytes>, now: map<nat, Bytes>, roots: seq<nat>)
    requires Leaves(was, roots) && SameOn(was.Keys, was, now)
    ensures Leaves(now, roots) && Abstraction(now, roots) == Abstraction(was, roots)
  {
  }

  // ----- The system -----

  ghost function RootsOf(trees: seq<BTree>): (roots: seq<nat>)
    ensures |roots| == |trees| && forall i :: 0 <= i < |trees| ==> roots[i] == trees[i].rootPage
  {
    seq(|trees|, i requires 0 <= i < |trees| => trees[i].rootPage)
  }

  class Database {
    const cache: PageCache
    var trees: seq<BTree>

    constructor (cache: PageCache)
      requires cache.Valid() && cache.pager.Valid() && forall id :: cache.Pins(id) == 0
      ensures this.cache == cache && Valid() && Abstract() == []
    {
      hide PageCache.Linked, ByRecency, Buffered, PageCache.Coherent, PageCache.Views, Represents, HeaderTracks;
      this.cache, trees := cache, [];
    }

    ghost predicate Valid()
      reads this, cache, cache.table, cache.pager, cache.pages, (set p | p in cache.pages :: p.data)
    {
      && cache.Valid() && cache.pager.Valid()
      && (forall id :: cache.Pins(id) == 0)
      && (forall t :: t in trees ==> t.cache == cache && t.pager == cache.pager)
      && Leaves(cache.Contents(), RootsOf(trees))
    }

    /** What the trees hold, tree by tree. */
    ghost function Abstract(): State
      requires Valid()
      reads this, cache, cache.table, cache.pager, cache.pages, (set p | p in cache.pages :: p.data)
    {
      Abstraction(cache.Contents(), RootsOf(trees))
    }

    lemma Reopenable()
      requires Valid()
      ensures HEADER_SIZE <= |cache.pager.file|
      ensures !cache.pager.torn ==> HeaderCovers(cache.pager.file, cache.pager.State())
      ensures !cache.pager.torn ==> cache.pager.stored <= cache.pager.pageCount
    {
    }

    lemma TreeReady(t: nat)
      requires Valid() && t < |trees|
      ensures trees[t].cache == cache && trees[t].pager == cache.pager && trees[t].rootPage == RootsOf(trees)[t]
      ensures trees[t].Ready() && trees[t].Data() == Abstract()[t]
      ensures cache.pager.reliable ==> cache.Idle()
    {
      hide WellFormed, Pairs, PageCache.Linked, ByRecency, Buffered, PageCache.Coherent, Represents;
      assert trees[t] in trees && RootsOf(trees)[t] == trees[t].rootPage;
    }

    method DoInsert(t: nat, key: nat, value: Bytes) returns (answer: Answer)
      requires Valid() && t < |trees| && InRange(Insert(t, key, value))
      modifies cache.Repr(), cache.pager`file
      ensures Valid() && fresh(cache.Repr() - old(cache.Repr()))
      ensures OpStep(cache.pager.reliable, old(Abstract()), Insert(t, key, value), Abstract(), answer)
    {
      hide WellFormed, Pairs, Fits, HasKey, PageCache.Linked, ByRecency, Buffered, PageCache.Coherent, PageCache.Views;
      hide Represents, HeaderTracks, HeaderCovers, Pager.Valid;
      ghost var was := cache.Contents();
      TreeReady(t);
      var ok := trees[t].Insert(key, value);
      LeavesUpdate(was, cache.Contents(), RootsOf(trees), t);
      answer := if ok then Done else Refused;
    }

    method DoLookup(t: nat, key: nat) returns (answer: Answer)
      requires Valid() && t < |trees|
      modifies cache.Repr(), cache.pager`file
      ensures Valid() && fresh(cache.Repr() - old(cache.Repr()))
      ensures OpStep(cache.pager.reliable, old(Abstract()), Lookup(t, key), Abstract(), answer)
    {
      hide WellFormed, Pairs, Fits, HasKey, PageCache.Linked, ByRecency, Buffered, PageCache.Coherent, PageCache.Views;
      hide Represents, HeaderTracks, HeaderCovers, Pager.Valid;
      TreeReady(t);
      answer := Refused;
      var cursor := trees[t].Find(key);
      if cursor == null {
        return;
      }
      if cursor.isEnd {
        answer := Found(None);
        return;
      }
      TreeReady(t);
      var ok, _, value := trees[t].Get(cursor);
      if ok {
        answer := Found(Some(value));
      }
    }

    method DoListAll(t: nat) returns (answer: Answer)
      requires Valid() && t < |trees|
      modifies cache.Repr(), cache.pager`file
      ensures Valid() && fresh(cache.Repr() - old(cache.Repr()))
      ensures OpStep(cache.pager.reliable, old(Abstract()), ListAll(t), Abstract(), answer)
    {
      hide WellFormed, Pairs, PageCache.Linked, ByRecency, Buffered, PageCache.Coherent, PageCache.Views;
      hide Represents, HeaderTracks, HeaderCovers, Pager.Valid;
      TreeReady(t);
      var ok, pairs := trees[t].Scan();
      answer := if ok then Listing(pairs) else Refused;
    }

    method DoCreate() returns (answer: Answer)
      requires Valid() && cache.pager.pageCount + 1 < U32_LIMIT
      modifies this`trees, cache.Repr(), cache.pager
      ensures Valid() && fresh(cache.Repr() - old(cache.Repr()))
      ensures OpStep(cache.pager.reliable, old(Abstract()), CreateTree, Abstract(), answer)
      ensures CountKept(old(cache.pager.Counts()), cache.pager.Counts())
      ensures cache.pager.torn && !old(cache.pager.torn) ==> answer == Refused
      ensures cache.pager.pageCount <= old(cache.pager.pageCount) + 1
    {
      hide WellFormed, Pairs, PageCache.Linked, ByRecency, Buffered, PageCache.Coherent;
      hide Represents, HeaderTracks, HeaderCovers, Pager.Valid;
      ghost var was, roots := cache.Contents(), RootsOf(trees);
      answer := Refused;
      var tree := Trees.CreateTree(cache);
      LeavesGrow(was, cache.Contents(), roots);
      if tree != null {
        answer := Done;
        LeavesCreate(was, cache.Contents(), roots, tree.rootPage);
        trees := trees + [tree];
        assert RootsOf(trees) == roots + [tree.rootPage];
      }
    }

    method DoMaintenance(op: Op) returns (answer: Answer)
      requires Valid() && (op.Flush? || op.FlushPage? || op.EvictPage?)
      modifies cache.Repr(), cache.pager`file
      ensures Valid() && fresh(cache.Repr() - old(cache.Repr()))
      ensures OpStep(cache.pager.reliable, old(Abstract()), op, Abstract(), answer)
    {
      hide WellFormed, Pairs, PageCache.Linked, ByRecency, Buffered, PageCache.Coherent, PageCache.Views;
      hide Represents, HeaderTracks, HeaderCovers, Pager.Valid, PageCache.Dirty;
      answer := Done;
      if op.Flush? {
        var _ := cache.Flush();
      } else if op.FlushPage? {
        var _ := cache.FlushPage(op.id);
      } else {
        var _ := cache.Evict(op.id);
      }
    }

    method Do(op: Op) returns (answer: Answer)
      requires Valid() && InRange(op) && cache.pager.pageCount + 1 < U32_LIMIT
      modifies this`trees, cache.Repr(), cache.pager
      ensures Valid() && fresh(cache.Repr() - old(cache.Repr()))
      ensures OpStep(cache.pager.reliable, old(Abstract()), op, Abstract(), answer)
      ensures CountKept(old(cache.pager.Counts()), cache.pager.Counts())
      ensures cache.pager.torn && !old(cache.pager.torn) ==> op.CreateTree? && answer == Refused
      ensures cache.pager.pageCount <= old(cache.pager.pageCount) + 1
    {
      hide Leaves, Abstraction, Accepts, PageCache.Valid, Pager.Valid, PageCache.Contents;
      match op
      case CreateTree =>
        answer := DoCreate();
      case Insert(t, key, value) =>
        if t < |trees| { answer := DoInsert(t, key, value); } else { answer := Refused; }
      case Lookup(t, key) =>
        if t < |trees| { answer := DoLookup(t, key); } else { answer := Refused; }
      case ListAll(t) =>
        if t < |trees| { answer := DoListAll(t); } else { answer := Refused; }
      case _ =>
        answer := DoMaintenance(op);
    }

    /** Any run of operations behaves as the specification, wherever evictions and write-backs fall. */
    method Run(ops: seq<Op>) returns (answers: seq<Answer>, ghost states: seq<State>)
      requires Valid() && cache.pager.pageCount + |ops| < U32_LIMIT
      requires forall i :: 0 <= i < |ops| ==> InRange(ops[i])
      modifies this`trees, cache.Repr(), cache.pager
      ensures Valid() && fresh(cache.Repr() - old(cache.Repr()))
      ensures OpRun(cache.pager.reliable, states, ops, answers)
      ensures states[0] == old(Abstract()) && states[|ops|] == Abstract()
      // the header finds every page again unless a write of the page count was torn, and that takes a
      // refused creation and counts that do not share their upper three bytes
      ensures !cache.pager.torn ==> HeaderCovers(cache.pager.file, cache.pager.State())
      ensures cache.pager.torn && !old(cache.pager.torn) ==>
        exists i :: 0 <= i < |ops| && ops[i].CreateTree? && answers[i] == Refused
      ensures cache.pager.torn && !old(cache.pager.torn) ==> old(cache.pager.stored) / 256 < cache.pager.pageCount / 256
      ensures cache.pager.pageCount <= old(cache.pager.pageCount) + |ops|
    {
      hide Leaves, Abstraction, OpStep, PageCache.Valid, Pager.Valid, PageCache.Contents;
      answers, states := [], [Abstract()];
      Reopenable();
      for n := 0 to |ops|
        invariant Valid() && fresh(cache.Repr() - old(cache.Repr()))
        invariant cache.pager.pageCount + |ops| - n < U32_LIMIT
        invariant OpRun(cache.pager.reliable, states, ops[..n], answers)
        invariant states[0] == old(Abstract()) && states[n] == Abstract()
        invariant cache.pager.torn && !old(cache.pager.torn) ==>
          exists i :: 0 <= i < n && ops[i].CreateTree? && answers[i] == Refused
        invariant !old(cache.pager.torn) ==> CountSafe(old(cache.pager.stored), cache.pager.Counts())
        invariant cache.pager.pageCount <= old(cache.pager.pageCount) + n
      {
        ghost var was := cache.pager.Counts();
        Reopenable();
        var answer := Do(ops[n]);
        if !old(cache.pager.torn) {
          StaysSafe(old(cache.pager.stored), was, cache.pager.Counts());
        }
        OpRunExtend(cache.pager.reliable, states, ops, n, answers, Abstract(), answer);
        answers, states := answers + [answer], states + [Abstract()];
      }
      assert ops[..|ops|] == ops;
      Reopenable();
    }
  }

  lemma OpRunExtend(reliable: bool, states: seq<State>, ops: seq<Op>, n: nat, answers: seq<Answer>,
                    s: State, answer: Answer)
    requires n < |ops| && OpRun(reliable, states, ops[..n], answers)
    requires OpStep(reliable, states[n], ops[n], s, answer)
    ensures OpRun(reliable, states + [s], ops[..n + 1], answers + [answer])
  {
  }

  // ----- Closing and reopening -----

  /** A fresh cache over the file as a reopened pager reads it, once every write of a flush has
      succeeded: the same pages, even if the last extensions failed before the header was written.
      The free list comes back too unless pages were taken off it since one was last freed. */
  method ReopenCache(cache: PageCache, requested: int, defaultSize: nat, reliable: bool) returns (again: PageCache?)
    requires cache.Valid() && cache.pager.Valid() && cache.Dirty() == {} && 1 <= defaultSize
    requires LiveCovered(cache.pager.file, cache.pager.State())
    ensures again != null ==> fresh(again) && fresh(again.pager) && fresh(again.table)
    ensures again != null ==> again.Valid() && again.Contents() == cache.Contents()
    ensures again != null ==>
      again.pager.State() == cache.pager.State().(next := ReadLE32(cache.pager.file, PAGE_COUNT_AT), pops := 0)
    ensures again != null && cache.pager.reliable && cache.pager.pops == 0 ==> again.pager.Valid()
    ensures reliable ==> again != null
  {
    hide PageCache.Linked, ByRecency, Buffered, PageCache.Coherent, Allocator.Inv, FreeList.IsChain, ReadLE32;
    cache.CleanMeansOnDisk();
    if cache.pager.reliable {
      ReopenIff(cache.pager.file, cache.pager.State(), cache.pager.firstFreePage);
    }
    var pager := Pager.Open(cache.pager.file, reliable, cache.pager.State());
    again := null;
    if pager != null {
      again := new PageCache(requested, defaultSize, pager);
    }
  }

  /** btree_open on each root of the given trees. */
  method OpenTrees(cache: PageCache, trees: seq<BTree>) returns (reopened: seq<BTree>)
    requires cache.Valid() && Leaves(cache.Contents(), RootsOf(trees))
    ensures RootsOf(reopened) == RootsOf(trees)
    ensures forall t :: t in reopened ==> t.cache == cache && t.pager == cache.pager
    ensures forall i :: 0 <= i < |reopened| ==>
      reopened[i].Ready() && reopened[i].Data() == Abstraction(cache.Contents(), RootsOf(trees))[i]
  {
    hide PageCache.Linked, ByRecency, Buffered, PageCache.Coherent, WellFormed, Pairs;
    reopened := [];
    for i := 0 to |trees|
      invariant |reopened| == i
      invariant forall j :: 0 <= j < i ==> reopened[j].rootPage == trees[j].rootPage
      invariant forall j :: 0 <= j < i ==> reopened[j].cache == cache && reopened[j].pager == cache.pager
    {
      var tree := new BTree(cache, trees[i].rootPage);
      reopened := reopened + [tree];
    }
    forall i | 0 <= i < |reopened|
      ensures reopened[i].Ready() && reopened[i].Data() == Abstraction(cache.Contents(), RootsOf(trees))[i]
    {
      assert RootsOf(trees)[i] in cache.Contents();
    }
  }

  /** Reopening a flushed database presents the same trees, whatever went wrong before, as long as the
      page count in the header reaches the live pages. */
  method Reopen(db: Database, requested: int, defaultSize: nat, reliable: bool) returns (ok: bool, reopened: seq<BTree>)
    requires db.Valid() && db.cache.Dirty() == {} && 1 <= defaultSize
    requires LiveCovered(db.cache.pager.file, db.cache.pager.State())
    ensures ok ==> |reopened| == |db.trees|
    ensures ok ==> forall i :: 0 <= i < |reopened| ==>
      && fresh(reopened[i].cache) && fresh(reopened[i].pager)
      && reopened[i].Ready() && reopened[i].Data() == db.Abstract()[i]
    ensures reliable ==> ok
  {
    hide PageCache.Linked, ByRecency, Buffered, PageCache.Coherent, PageCache.Views, Leaves, Abstraction;
    hide Represents, HeaderTracks, HeaderCovers, PageCache.Dirty;
    var again := ReopenCache(db.cache, requested, defaultSize, reliable);
    ok, reopened := again != null, [];
    if ok {
      reopened := OpenTrees(again, db.trees);
      assert |RootsOf(reopened)| == |RootsOf(db.trees)|;
      assert forall i :: 0 <= i < |reopened| ==> reopened[i] in reopened;
    }
  }

  // ----- What a client can conclude from the answers alone -----

  /** The value bound to a key after an operation, given the value before it. */
  function Rebind(was: Option<Bytes>, op: Op, answer: Answer, t: nat, key: nat): Option<Bytes> {
    if was.None? && op.Insert? && op.tree == t && op.key == key && answer == Done then Some(op.value) else was
  }

  /** The value of the first insert under this key in this tree that was answered Done. */
  function FirstDone(ops: seq<Op>, answers: seq<Answer>, t: nat, key: nat): Option<Bytes>
    requires |ops| == |answers|
    decreases |ops|
  {
    if ops == [] then None
    else
      var n := |ops| - 1;
      Rebind(FirstDone(ops[..n], answers[..n], t, key), ops[n], answers[n], t, key)
  }

  lemma OpRunPrefix(reliable: bool, states: seq<State>, ops: seq<Op>, answers: seq<Answer>, n: nat)
    requires OpRun(reliable, states, ops, answers) && n <= |ops|
    ensures OpRun(reliable, states[..n + 1], ops[..n], answers[..n])
  {
  }

  /** The effect of one step on what a key is bound to. */
  lemma StepLookup(reliable: bool, s: State, op: Op, s': State, answer: Answer, t: nat, key: nat)
    requires OpStep(reliable, s, op, s', answer)
    ensures |s| <= |s'|
    ensures t < |s| ==> LookupIn(s'[t], key) == Rebind(LookupIn(s[t], key), op, answer, t, key)
    ensures |s| <= t < |s'| ==> LookupIn(s'[t], key) == None
    ensures t >= |s| && op.Insert? && op.tree == t ==> answer == Refused
  {
    if t < |s| && op.Insert? && op.tree == t && s'[t] != s[t] {
      InsertedLookup(s[t], op.key, op.value, key);
    }
  }

  lemma InsertedLookup(s: seq<Pair>, key: nat, value: Bytes, k: nat)
    requires Position(s, key) == |s|
    ensures LookupIn(s + [Pair(key, value)], k) == if k == key then Some(value) else LookupIn(s, k)
  {
    var r := s + [Pair(key, value)];
    var i := Position(s, k);
    assert forall j :: 0 <= j < |s| ==> r[j] == s[j];
    PositionIs(r, k, if i < |s| then i else if k == key then |s| else |s| + 1);
  }

  /** On a database that starts empty, whatever the device does, what a key of a tree is bound to
      after a run is the value of the first insert answered Done for it: trees do not affect each
      other, the first write wins, and a refused operation leaves no trace. */
  lemma {:induction false} TraceDetermines(reliable: bool, states: seq<State>, ops: seq<Op>, answers: seq<Answer>,
                                           t: nat, key: nat)
    requires OpRun(reliable, states, ops, answers) && states[0] == []
    ensures t < |states[|ops|]| ==> LookupIn(states[|ops|][t], key) == FirstDone(ops, answers, t, key)
    ensures t >= |states[|ops|]| ==> FirstDone(ops, answers, t, key) == None
    decreases |ops|
  {
    hide LookupIn, OpStep, Exec;
    if ops != [] {
      var n := |ops| - 1;
      OpRunPrefix(reliable, states, ops, answers, n);
      TraceDetermines(reliable, states[..n + 1], ops[..n], answers[..n], t, key);
      assert states[..n + 1][n] == states[n];
      assert OpStep(reliable, states[n], ops[n], states[n + 1], answers[n]);
      StepLookup(reliable, states[n], ops[n], states[n + 1], answers[n], t, key);
    }
  }

  /** Hence every lookup that is answered reports the first accepted value for its key. */
  lemma LookupsAreFirstWrites(reliable: bool, states: seq<State>, ops: seq<Op>, answers: seq<Answer>, n: nat)
    requires OpRun(reliable, states, ops, answers) && states[0] == []
    requires n < |ops| && ops[n].Lookup? && answers[n] != Refused
    ensures answers[n] == Found(FirstDone(ops[..n], answers[..n], ops[n].tree, ops[n].key))
  {
    OpRunPrefix(reliable, states, ops, answers, n);
    TraceDetermines(reliable, states[..n + 1], ops[..n], answers[..n], ops[n].tree, ops[n].key);
    assert OpStep(reliable, states[n], ops[n], states[n + 1], answers[n]);
  }
}
