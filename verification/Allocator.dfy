/** The page allocator as a machine over sets: which pages are live, which are free and in what
    order, and how many pages the file has.  The pager refines it. */
module Allocator {
  import opened Sequences

  datatype AllocOp = Allocate | Free(page: nat)

  /** `lost` holds pages whose extension failed half way: counted by the pager, never handed out.
      `pops` counts pages taken off the free list since the last page was put on it. */
  datatype Allocator = Allocator(live: set<nat>, free: seq<nat>, lost: set<nat>, next: nat, pops: nat)

  ghost predicate Inv(a: Allocator) {
    && 1 <= a.next
    && (forall p :: p in a.live || p in a.lost || p in a.free ==> 1 <= p < a.next)
    && (forall p :: 1 <= p < a.next ==> p in a.live || p in a.lost || p in a.free)
    && NoRepeats(a.free)
    && a.live !! a.lost
    && (forall p :: p in a.free ==> p !in a.live && p !in a.lost)
  }

  function Granted(a: Allocator): (p: nat) {
    if a.free != [] then a.free[0] else a.next
  }

  function Step(a: Allocator, op: AllocOp): Allocator {
    match op
    case Allocate =>
      if a.free != [] then
        a.(live := a.live + {a.free[0]}, free := a.free[1..], pops := a.pops + 1)
      else
        a.(live := a.live + {a.next}, next := a.next + 1)
    case Free(p) =>
      if p == 0 then a
      else a.(live := a.live - {p}, free := [p] + a.free, pops := 0)
  }

  /** Only the header page, which is refused, and live pages are freed. */
  ghost predicate Legal(a: Allocator, op: AllocOp) {
    op.Free? ==> op.page == 0 || op.page in a.live
  }

  function Run(a: Allocator, ops: seq<AllocOp>): Allocator
    decreases |ops|
  {
    if ops == [] then a else Run(Step(a, ops[0]), ops[1..])
  }

  ghost predicate LegalRun(a: Allocator, ops: seq<AllocOp>)
    decreases |ops|
  {
    ops == [] || (Legal(a, ops[0]) && LegalRun(Step(a, ops[0]), ops[1..]))
  }

  /** The pages a run hands out, in order. */
  function Grants(a: Allocator, ops: seq<AllocOp>): seq<nat>
    decreases |ops|
  {
    if ops == [] then []
    else (if ops[0].Allocate? then [Granted(a)] else []) + Grants(Step(a, ops[0]), ops[1..])
  }

  function Allocations(ops: seq<AllocOp>): nat {
    if ops == [] then 0 else Allocations(ops[..|ops| - 1]) + if ops[|ops| - 1] == Allocate then 1 else 0
  }

  lemma {:induction false} RunSnoc(a: Allocator, ops: seq<AllocOp>, op: AllocOp)
    ensures Run(a, ops + [op]) == Step(Run(a, ops), op)
    ensures Grants(a, ops + [op]) == Grants(a, ops) + Grants(Run(a, ops), [op])
    decreases |ops|
  {
    if ops == [] {
      assert ops + [op] == [op];
    } else {
      assert (ops + [op])[1..] == ops[1..] + [op];
      RunSnoc(Step(a, ops[0]), ops[1..], op);
    }
  }

  /** Every allocation of a run, and nothing else, hands out a page: the one granted in the state before it. */
  lemma {:induction false} GrantsAreAllocations(a: Allocator, ops: seq<AllocOp>, i: nat)
    ensures |Grants(a, ops)| == Allocations(ops)
    ensures i < |ops| && ops[i] == Allocate ==>
      && Allocations(ops[..i]) < |Grants(a, ops)|
      && Grants(a, ops)[Allocations(ops[..i])] == Granted(Run(a, ops[..i]))
    decreases |ops|
  {
    if ops != [] {
      var n := |ops| - 1;
      assert ops == ops[..n] + [ops[n]];
      RunSnoc(a, ops[..n], ops[n]);
      GrantsAreAllocations(a, ops[..n], i);
      if i < n {
        assert ops[..n][..i] == ops[..i];
      }
    }
  }

  lemma StepKeepsInv(a: Allocator, op: AllocOp)
    requires Inv(a) && Legal(a, op)
    ensures Inv(Step(a, op))
  {
    var b := Step(a, op);
    if op.Allocate? && a.free != [] {
      assert a.free == [a.free[0]] + b.free;
      assert forall p :: p in a.free <==> p == a.free[0] || p in b.free;
    }
  }

  /** What every run of allocations and frees keeps: live, free and lost pages partition
      1 .. next - 1, and no page is on the free list twice. */
  lemma {:induction false} RunKeepsInv(a: Allocator, ops: seq<AllocOp>)
    requires Inv(a) && LegalRun(a, ops)
    ensures Inv(Run(a, ops))
    ensures Run(a, ops).lost == a.lost
    decreases |ops|
  {
    if ops != [] {
      StepKeepsInv(a, ops[0]);
      RunKeepsInv(Step(a, ops[0]), ops[1..]);
    }
  }

  function Elements(s: seq<nat>): set<nat> {
    set p | p in s
  }

  lemma {:induction false} DistinctSize(s: seq<nat>)
    requires NoRepeats(s)
    ensures |Elements(s)| == |s|
    decreases |s|
  {
    if s != [] {
      DistinctSize(s[1..]);
      assert Elements(s) == {s[0]} + Elements(s[1..]);
      assert s[0] !in s[1..];
    }
  }

  function Upto(n: nat): (s: set<nat>)
    ensures forall p :: p in s <==> 1 <= p < n
    ensures n >= 1 ==> |s| == n - 1
  {
    if n <= 1 then {} else Upto(n - 1) + {n - 1}
  }

  /** No page is created or dropped: every page but the header is live, free or lost, once. */
  lemma Conservation(a: Allocator)
    requires Inv(a)
    ensures |a.live| + |a.free| + |a.lost| == a.next - 1
  {
    DistinctSize(a.free);
    var e := Elements(a.free);
    assert Upto(a.next) == a.live + e + a.lost;
    assert |a.live + e| == |a.live| + |e|;
    assert (a.live + e) !! a.lost;
    assert |a.live + e + a.lost| == |a.live + e| + |a.lost|;
  }

  lemma GrantIsFresh(a: Allocator)
    requires Inv(a)
    ensures Granted(a) != 0 && Granted(a) !in a.live && Granted(a) !in a.lost
    ensures Step(a, Allocate).next != a.next <==> a.free == []
  {
  }

  /** A page handed out is not handed out again before it is freed. */
  lemma {:induction false} NoDoubleGrant(a: Allocator, ops: seq<AllocOp>, p: nat, k: nat)
    requires Inv(a) && LegalRun(a, ops) && p in a.live && Free(p) !in ops
    requires k < |ops| && ops[k] == Allocate
    ensures Granted(Run(a, ops[..k])) != p
    decreases |ops|
  {
    assert Inv(a);
    if k == 0 {
      assert ops[..0] == [];
      GrantIsFresh(a);
    } else {
      StepKeepsInv(a, ops[0]);
      assert ops[0] in ops;
      NoDoubleGrant(Step(a, ops[0]), ops[1..], p, k - 1);
      assert ops[..k][1..] == ops[1..][..k - 1];
    }
  }

  /** With nothing freed, n allocations hand out the free list in order and then fresh pages. */
  lemma {:induction false} ReuseBeforeExtend(a: Allocator, ops: seq<AllocOp>)
    requires forall i :: 0 <= i < |ops| ==> ops[i] == Allocate
    ensures |ops| <= |a.free| ==> Run(a, ops).next == a.next && Run(a, ops).free == a.free[|ops|..]
    ensures |ops| > |a.free| ==> Run(a, ops).next == a.next + |ops| - |a.free| && Run(a, ops).free == []
    decreases |ops|
  {
    if ops != [] {
      ReuseBeforeExtend(Step(a, ops[0]), ops[1..]);
    }
  }
}
