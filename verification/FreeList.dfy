/** The on-disk chain of free pages and the page allocator it implements. */
module FreeList {
  import opened Bytes
  import opened Sequences

  /** The first four bytes of a free page name the next free page; 0 ends the chain. */
  function NextFree(f: Bytes, p: nat): (next: nat)
    requires InFile(f, p)
    ensures next < U32_LIMIT
    ensures next == ReadLE32(PageAt(f, p), 0)
  {
    ReadLE32(f, p * PAGE_SIZE)
  }

  /** Following next pointers on disk from page `first` visits exactly `chain` and stops at 0. */
  ghost predicate IsChain(f: Bytes, first: nat, chain: seq<nat>)
    decreases |chain|
  {
    if chain == [] then
      first == 0
    else
      first != 0 && first == chain[0] && InFile(f, first) && IsChain(f, NextFree(f, first), chain[1..])
  }

  lemma EmptyChain(f: Bytes, chain: seq<nat>)
    requires IsChain(f, 0, chain)
    ensures chain == []
  {
  }

  ghost predicate Terminates(f: Bytes, first: nat) {
    exists chain :: IsChain(f, first, chain)
  }

  lemma {:induction false} ChainUnique(f: Bytes, first: nat, c: seq<nat>, d: seq<nat>)
    requires IsChain(f, first, c) && IsChain(f, first, d)
    ensures c == d
    decreases |c|
  {
    if c != [] {
      ChainUnique(f, NextFree(f, first), c[1..], d[1..]);
      assert c == [c[0]] + c[1..] && d == [d[0]] + d[1..];
    }
  }

  lemma {:induction false} ChainSuffix(f: Bytes, first: nat, c: seq<nat>, k: nat)
    requires IsChain(f, first, c) && k < |c|
    ensures IsChain(f, c[k], c[k..])
    decreases k
  {
    if k == 0 {
      assert c[0..] == c;
    } else {
      ChainSuffix(f, NextFree(f, first), c[1..], k - 1);
      assert c[1..][k - 1..] == c[k..];
    }
  }

  /** A chain that ends never visits a page twice. */
  lemma ChainAcyclic(f: Bytes, first: nat, c: seq<nat>)
    requires IsChain(f, first, c)
    ensures NoRepeats(c)
  {
    forall i, j | 0 <= i < j < |c|
      ensures c[i] != c[j]
    {
      ChainSuffix(f, first, c, i);
      ChainSuffix(f, first, c, j);
      if c[i] == c[j] {
        ChainUnique(f, c[i], c[i..], c[j..]);
      }
    }
  }

  lemma {:induction false} ChainFrame(f: Bytes, g: Bytes, first: nat, c: seq<nat>)
    requires IsChain(f, first, c)
    requires forall p :: p in c && InFile(f, p) ==> InFile(g, p) && PageAt(g, p) == PageAt(f, p)
    ensures IsChain(g, first, c)
    decreases |c|
  {
    if c != [] {
      assert c[0] in c;
      assert PageAt(g, first) == PageAt(f, first);
      ChainFrame(f, g, NextFree(f, first), c[1..]);
    }
  }

  /** The page image pager_free_page writes: the old head, then zeros. */
  function FreeImage(first: nat): (d: Bytes)
    requires first < U32_LIMIT
    ensures |d| == PAGE_SIZE && ReadLE32(d, 0) == first && forall i :: 4 <= i < PAGE_SIZE ==> d[i] == 0
  {
    var d := LE32(first) + Zeros(PAGE_SIZE - 4);
    assert d[..4] == LE32(first);
    d
  }

  lemma PushIsChain(f: Bytes, first: nat, c: seq<nat>, p: nat)
    requires IsChain(f, first, c) && first < U32_LIMIT && p != 0 && p !in c
    ensures IsChain(WriteAt(f, p * PAGE_SIZE, FreeImage(first)), p, [p] + c)
  {
    var g := WriteAt(f, p * PAGE_SIZE, FreeImage(first));
    WriteSetsPage(f, p, FreeImage(first));
    forall q | q in c && InFile(f, q)
      ensures InFile(g, q) && PageAt(g, q) == PageAt(f, q)
    {
      WriteKeepsOthers(f, p, FreeImage(first), q);
    }
    ChainFrame(f, g, first, c);
    assert ([p] + c)[1..] == c;
  }

  /** Freeing a page keeps a terminating free chain exactly when the page was not free already:
      a double free closes the chain into a cycle. */
  lemma PushIffNotFree(f: Bytes, first: nat, c: seq<nat>, p: nat)
    requires IsChain(f, first, c) && first < U32_LIMIT && p != 0
    ensures Terminates(WriteAt(f, p * PAGE_SIZE, FreeImage(first)), p) <==> p !in c
  {
    var g := WriteAt(f, p * PAGE_SIZE, FreeImage(first));
    if p !in c {
      PushIsChain(f, first, c, p);
      var d: seq<nat> := [p] + c;
      assert IsChain(g, p, d);
    } else {
      forall d | IsChain(g, p, d)
        ensures false
      {
        DoubleFreeLoops(f, first, c, p, d);
      }
    }
  }

  lemma DoubleFreeLoops(f: Bytes, first: nat, c: seq<nat>, p: nat, d: seq<nat>)
    requires IsChain(f, first, c) && first < U32_LIMIT && p != 0 && p in c
    ensures !IsChain(WriteAt(f, p * PAGE_SIZE, FreeImage(first)), p, d)
  {
    var g := WriteAt(f, p * PAGE_SIZE, FreeImage(first));
    if IsChain(g, p, d) {
      WriteSetsPage(f, p, FreeImage(first));
      assert NextFree(g, p) == first;
      FirstIndex(c, p);
      var k :| 0 <= k < |c| && c[k] == p && p !in c[..k];
      forall q | q != p && InFile(f, q)
        ensures InFile(g, q) && PageAt(g, q) == PageAt(f, q)
      {
        WriteKeepsOthers(f, p, FreeImage(first), q);
      }
      var e := WalkReachesFreed(f, g, first, c, k, d[1..]);
      ChainUnique(g, p, d, e);
    }
  }

  lemma {:induction false} FirstIndex(c: seq<nat>, p: nat)
    requires p in c
    ensures exists k :: 0 <= k < |c| && c[k] == p && p !in c[..k]
    decreases |c|
  {
    if c[0] == p {
      assert p !in c[..0];
    } else {
      FirstIndex(c[1..], p);
      var k :| 0 <= k < |c[1..]| && c[1..][k] == p && p !in c[1..][..k];
      assert c[..k + 1] == [c[0]] + c[1..][..k];
      assert c[k + 1] == p;
    }
  }

  // After the double free the walk from the old head comes back to the freed page, so a walk
  // that started there would contain a strictly shorter copy of itself.
  lemma {:induction false} WalkReachesFreed(f: Bytes, g: Bytes, first: nat, c: seq<nat>, k: nat, d: seq<nat>)
    returns (e: seq<nat>)
    requires IsChain(f, first, c) && IsChain(g, first, d)
    requires k < |c| && c[k] !in c[..k]
    requires forall q :: q != c[k] && InFile(f, q) ==> InFile(g, q) && PageAt(g, q) == PageAt(f, q)
    ensures IsChain(g, c[k], e) && |e| <= |d|
    decreases k
  {
    if k == 0 {
      e := d;
    } else {
      assert c[0] == c[..k][0];
      assert PageAt(g, first) == PageAt(f, first);
      assert c[..k] == [c[0]] + c[1..][..k - 1];
      e := WalkReachesFreed(f, g, NextFree(f, first), c[1..], k - 1, d[1..]);
    }
  }
}
