/** The pager: page reads and writes on the database file, and page allocation. */
module Paging {
  import opened Bytes
  import opened Sequences
  import opened FreeList
  import opened Allocator
  import opened PageCounts

  const HEADER_SIZE := 48
  const PAGER_MAGIC := 0x54494E59
  const FORMAT_VERSION := 1

  // ----- The header at the start of page 0 -----

  const PAGE_COUNT_AT := 16
  const FIRST_FREE_AT := 20
  const FREE_COUNT_AT := 24

  /** init_header: magic, versions, one page, empty free list, database size one. */
  function InitHeader(): (h: Bytes)
    ensures |h| == HEADER_SIZE
    ensures ReadLE32(h, 0) == PAGER_MAGIC && ReadLE32(h, PAGE_COUNT_AT) == 1
    ensures ReadLE32(h, FIRST_FREE_AT) == 0 && ReadLE32(h, FREE_COUNT_AT) == 0
  {
    var h := LE32(PAGER_MAGIC) + LE32(1) + LE32(FORMAT_VERSION) + LE32(0) + LE32(1) + Zeros(24) + LE32(1);
    assert h[..4] == LE32(PAGER_MAGIC);
    assert h[16..20] == LE32(1);
    h
  }

  /** Byte by byte: magic number, version, format version, one page, and a size of one. */
  lemma InitHeaderBytes()
    ensures InitHeader() ==
      [0x59, 0x4E, 0x49, 0x54, 1, 0, 0, 0, 1, 0, 0, 0, 0, 0, 0, 0, 1, 0, 0, 0] + Zeros(24) + [1, 0, 0, 0]
  {
    assert LE32(1) == [1, 0, 0, 0] && LE32(0) == [0, 0, 0, 0] && LE32(PAGER_MAGIC) == [0x59, 0x4E, 0x49, 0x54];
  }

  /** The header with its page count replaced, as pager_allocate_page rewrites it. */
  function WithPageCount(h: Bytes, n: nat): (r: Bytes)
    requires |h| == HEADER_SIZE && n < U32_LIMIT
    ensures |r| == 48 && ReadLE32(r, 16) == n
    ensures forall i :: 0 <= i < HEADER_SIZE && !(PAGE_COUNT_AT <= i < FIRST_FREE_AT) ==> r[i] == h[i]
  {
    var r := Splice(h, PAGE_COUNT_AT, LE32(n));
    assert r[PAGE_COUNT_AT..PAGE_COUNT_AT + 4] == LE32(n);
    r
  }

  /** The header with its free list replaced, as pager_free_page rewrites it. */
  function WithFreeList(h: Bytes, first: nat, count: nat): (r: Bytes)
    requires |h| == HEADER_SIZE && first < U32_LIMIT && count < U32_LIMIT
    ensures |r| == HEADER_SIZE
    ensures ReadLE32(r, 20) == first && ReadLE32(r, 24) == count
    ensures forall i :: 0 <= i < HEADER_SIZE && !(FIRST_FREE_AT <= i < FREE_COUNT_AT + 4) ==> r[i] == h[i]
  {
    var r := Splice(Splice(h, FIRST_FREE_AT, LE32(first)), FREE_COUNT_AT, LE32(count));
    assert r[FIRST_FREE_AT..FIRST_FREE_AT + 4] == LE32(first);
    assert r[FREE_COUNT_AT..FREE_COUNT_AT + 4] == LE32(count);
    r
  }

  /** A write that may have been cut short after some prefix. */
  ghost predicate PartlyWritten(f: Bytes, g: Bytes, o: nat, t: Bytes) {
    exists n :: 0 <= n <= |t| && g == WriteAt(f, o, t[..n])
  }

  /** Pages other than p, and the header unless p is 0, read the same in g as in f. */
  ghost predicate SameButPage(f: Bytes, g: Bytes, p: nat) {
    && |f| <= |g|
    && (forall q {:trigger PageAt(g, q)} {:trigger PageAt(f, q)} ::
          q != p && InFile(f, q) ==> InFile(g, q) && PageAt(g, q) == PageAt(f, q))
    && (p != 0 && HEADER_SIZE <= |f| ==> g[..HEADER_SIZE] == f[..HEADER_SIZE])
  }

  lemma PartialWriteKeepsOthers(f: Bytes, g: Bytes, p: nat, t: Bytes)
    requires |t| <= PAGE_SIZE && PartlyWritten(f, g, p * PAGE_SIZE, t)
    ensures SameButPage(f, g, p)
  {
    var n :| 0 <= n <= |t| && g == WriteAt(f, p * PAGE_SIZE, t[..n]);
    forall q | q != p && InFile(f, q)
      ensures InFile(g, q) && PageAt(g, q) == PageAt(f, q)
    {
      WriteKeepsOthers(f, p, t[..n], q);
    }
  }

  /** What the page cache relies on: live pages lie in the file, past the header page. */
  ghost predicate SaneImage(f: Bytes, a: Allocator) {
    && 1 <= a.next < U32_LIMIT
    && HEADER_SIZE <= |f| <= a.next * PAGE_SIZE
    && ReadLE32(f, 0) == PAGER_MAGIC
    && (forall p :: p in a.live ==> 1 <= p < a.next && InFile(f, p))
  }

  /** The header holds the page count, and the free list as it was when a page was last put on it. */
  ghost predicate HeaderTracks(f: Bytes, a: Allocator, first: nat)
    requires HEADER_SIZE <= |f|
  {
    && ReadLE32(f, PAGE_COUNT_AT) == a.next
    && ReadLE32(f, FREE_COUNT_AT) == |a.free| + a.pops
    && (a.pops == 0 ==> ReadLE32(f, FIRST_FREE_AT) == first)
    && (a.pops > 0 ==> ReadLE32(f, FIRST_FREE_AT) in a.live)
  }

  /** A page count of c reaches past the file and every page in use. */
  ghost predicate CountCovers(c: nat, f: Bytes, a: Allocator) {
    |f| <= c * PAGE_SIZE && forall p :: p in a.live || p in a.free ==> p < c
  }

  /** The page count in the header does, if perhaps it is behind the pager's own. */
  ghost predicate HeaderCovers(f: Bytes, a: Allocator)
    requires HEADER_SIZE <= |f|
  {
    CountCovers(ReadLE32(f, PAGE_COUNT_AT), f, a)
  }

  /** What a pager that reads the header needs: the page count reaches past every live page. */
  ghost predicate LiveCovered(f: Bytes, a: Allocator)
    requires HEADER_SIZE <= |f|
  {
    var n := ReadLE32(f, PAGE_COUNT_AT);
    |f| <= n * PAGE_SIZE && forall p :: p in a.live ==> p < n
  }

  /** A pager opened on the file can serve every live page exactly when the count covers them. */
  lemma ReopenServesIff(f: Bytes, a: Allocator)
    requires SaneImage(f, a)
    ensures SaneImage(f, a.(next := ReadLE32(f, PAGE_COUNT_AT), pops := 0)) <==> LiveCovered(f, a)
    ensures HeaderCovers(f, a) ==> LiveCovered(f, a)
  {
  }

  lemma CoversFree(f: Bytes, a: Allocator, p: nat)
    requires HEADER_SIZE <= |f| && p in a.live
    ensures HeaderCovers(f, a) ==> HeaderCovers(f, Step(a, Free(p)))
  {
  }

  lemma CoversFrame(f: Bytes, g: Bytes, a: Allocator)
    requires HEADER_SIZE <= |f| == |g| && ReadLE32(g, PAGE_COUNT_AT) == ReadLE32(f, PAGE_COUNT_AT)
    ensures HeaderCovers(g, a) <==> HeaderCovers(f, a)
  {
  }

  /** The file f represents allocator a with the free chain starting at page `first`. */
  ghost predicate Represents(f: Bytes, a: Allocator, first: nat, count: nat) {
    && SaneImage(f, a)
    && Inv(a)
    && IsChain(f, first, a.free)
    && count == |a.free|
  }

  lemma SameRead(f: Bytes, g: Bytes, o: nat)
    requires o + 4 <= |f| && o + 4 <= |g|
    requires f[o] == g[o] && f[o + 1] == g[o + 1] && f[o + 2] == g[o + 2] && f[o + 3] == g[o + 3]
    ensures ReadLE32(f, o) == ReadLE32(g, o)
  {
  }

  lemma HeaderReads(f: Bytes, g: Bytes)
    requires HEADER_SIZE <= |f| && HEADER_SIZE <= |g| && g[..HEADER_SIZE] == f[..HEADER_SIZE]
    ensures forall o :: 0 <= o && o + 4 <= HEADER_SIZE ==> ReadLE32(g, o) == ReadLE32(f, o)
  {
  }

  /** Overwriting a live page, wholly or in part, disturbs neither the header nor the free chain. */
  lemma LiveWriteFrame(f: Bytes, g: Bytes, a: Allocator, p: nat, t: Bytes)
    requires SaneImage(f, a) && p in a.live && |t| == PAGE_SIZE
    requires PartlyWritten(f, g, p * PAGE_SIZE, t)
    ensures |g| == |f| && SaneImage(g, a) && SameButPage(f, g, p)
    ensures forall first :: HeaderTracks(f, a, first) ==> HeaderTracks(g, a, first)
    ensures forall first, count :: Represents(f, a, first, count) ==> Represents(g, a, first, count)
    ensures HeaderCovers(g, a) <==> HeaderCovers(f, a)
    ensures ReadLE32(g, PAGE_COUNT_AT) == ReadLE32(f, PAGE_COUNT_AT)
  {
    PartialWriteKeepsOthers(f, g, p, t);
    HeaderReads(f, g);
    CoversFrame(f, g, a);
    forall first, count | Represents(f, a, first, count)
      ensures Represents(g, a, first, count)
    {
      ChainFrame(f, g, first, a.free);
    }
  }

  /** Rewriting the header, wholly or in part, touches nothing past it. */
  lemma HeaderWriteFrame(f: Bytes, g: Bytes, h: Bytes)
    requires HEADER_SIZE <= |f| && |h| == HEADER_SIZE && PartlyWritten(f, g, 0, h)
    ensures |g| == |f| && SameButPage(f, g, 0)
    ensures forall i :: 0 <= i < HEADER_SIZE ==> g[i] == f[i] || g[i] == h[i]
  {
    assert 0 == 0 * PAGE_SIZE;
    PartialWriteKeepsOthers(f, g, 0, h);
  }

  /** Rewriting the page count keeps the magic number at every stage of the write, and once it
      is complete the other header fields are as before. */
  lemma PageCountWritten(f: Bytes, g: Bytes, n: nat)
    requires HEADER_SIZE <= |f| && n < U32_LIMIT
    requires PartlyWritten(f, g, 0, WithPageCount(f[..HEADER_SIZE], n))
    ensures |g| == |f| && SameButPage(f, g, 0) && ReadLE32(g, 0) == ReadLE32(f, 0)
    ensures g == WriteAt(f, 0, WithPageCount(f[..HEADER_SIZE], n)) ==>
      && ReadLE32(g, PAGE_COUNT_AT) == n
      && ReadLE32(g, FIRST_FREE_AT) == ReadLE32(f, FIRST_FREE_AT)
      && ReadLE32(g, FREE_COUNT_AT) == ReadLE32(f, FREE_COUNT_AT)
  {
    var h := WithPageCount(f[..HEADER_SIZE], n);
    HeaderWriteFrame(f, g, h);
    SameRead(f, g, 0);
    if g == WriteAt(f, 0, h) {
      SameRead(g, h, PAGE_COUNT_AT);
      SameRead(g, h, FIRST_FREE_AT);
      SameRead(g, h, FREE_COUNT_AT);
      SameRead(f, h, FIRST_FREE_AT);
      SameRead(f, h, FREE_COUNT_AT);
    }
  }

  lemma FreeListWritten(f: Bytes, g: Bytes, first: nat, count: nat)
    requires HEADER_SIZE <= |f| && first < U32_LIMIT && count < U32_LIMIT
    requires PartlyWritten(f, g, 0, WithFreeList(f[..HEADER_SIZE], first, count))
    ensures |g| == |f| && SameButPage(f, g, 0) && ReadLE32(g, 0) == ReadLE32(f, 0)
    ensures ReadLE32(g, PAGE_COUNT_AT) == ReadLE32(f, PAGE_COUNT_AT)
    ensures g == WriteAt(f, 0, WithFreeList(f[..HEADER_SIZE], first, count)) ==>
      && ReadLE32(g, FIRST_FREE_AT) == first
      && ReadLE32(g, FREE_COUNT_AT) == count
  {
    var h := WithFreeList(f[..HEADER_SIZE], first, count);
    HeaderWriteFrame(f, g, h);
    SameRead(f, g, 0);
    SameRead(f, g, PAGE_COUNT_AT);
    if g == WriteAt(f, 0, h) {
      SameRead(g, h, FIRST_FREE_AT);
      SameRead(g, h, FREE_COUNT_AT);
    }
  }

  /** Growing the file keeps every page it had. */
  lemma TruncateFrame(f: Bytes, n: nat)
    requires |f| <= n
    ensures SameButPage(f, Truncate(f, n), 0)
    ensures HEADER_SIZE <= |f| ==> Truncate(f, n)[..HEADER_SIZE] == f[..HEADER_SIZE]
  {
    var g := Truncate(f, n);
    forall q | InFile(f, q)
      ensures InFile(g, q) && PageAt(g, q) == PageAt(f, q)
    {
      assert g[..|f|] == f;
    }
  }

  lemma SameButPageTrans(f: Bytes, g: Bytes, h: Bytes)
    requires SameButPage(f, g, 0) && SameButPage(g, h, 0)
    ensures SameButPage(f, h, 0)
  {
    forall q | q != 0 && InFile(f, q)
      ensures InFile(h, q) && PageAt(h, q) == PageAt(f, q)
    {
      assert PageAt(g, q) == PageAt(f, q);
    }
  }

  /** Anything that leaves pages 1.. and the magic number alone keeps the free chain. */
  lemma ChainOutsideHeader(f: Bytes, g: Bytes, a: Allocator, first: nat)
    requires Represents(f, a, first, |a.free|) && SameButPage(f, g, 0)
    requires HEADER_SIZE <= |g| <= a.next * PAGE_SIZE && ReadLE32(g, 0) == PAGER_MAGIC
    ensures Represents(g, a, first, |a.free|)
  {
    assert forall p :: p in a.free ==> p != 0;
    ChainFrame(f, g, first, a.free);
  }

  lemma NotEmpty(f: Bytes, a: Allocator, first: nat, count: nat)
    requires Represents(f, a, first, count)
    ensures HEADER_SIZE <= |f| && count == |a.free| && (first != 0 <==> a.free != [])
  {
  }

  lemma CoversPop(f: Bytes, a: Allocator)
    requires HEADER_SIZE <= |f| && a.free != []
    ensures HeaderCovers(f, a) ==> HeaderCovers(f, Step(a, Allocate))
  {
    var b := Step(a, Allocate);
    assert a.free == [a.free[0]] + a.free[1..];
    assert forall p :: p in b.live || p in b.free ==> p in a.live || p in a.free;
  }

  lemma PopRepresents(f: Bytes, a: Allocator, first: nat)
    requires Represents(f, a, first, |a.free|) && a.free != []
    ensures first == a.free[0] && InFile(f, first)
    ensures Represents(f, Step(a, Allocate), NextFree(f, first), |a.free| - 1)
  {
    StepKeepsInv(a, Allocate);
  }

  /** An extension that failed after the page count was raised. */
  function Lose(a: Allocator): Allocator {
    a.(lost := a.lost + {a.next}, next := a.next + 1)
  }

  lemma LosePage(f: Bytes, a: Allocator, first: nat)
    requires Represents(f, a, first, |a.free|) && a.next + 1 < U32_LIMIT
    ensures Represents(f, Lose(a), first, |a.free|)
  {
  }

  lemma GainPage(f: Bytes, a: Allocator, first: nat)
    requires Represents(f, a, first, |a.free|) && a.next + 1 < U32_LIMIT && a.free == []
    ensures var g := Truncate(f, (a.next + 1) * PAGE_SIZE);
      && Represents(g, Step(a, Allocate), first, 0)
      && SameButPage(f, g, 0)
      && forall o :: 0 <= o && o + 4 <= HEADER_SIZE ==> ReadLE32(g, o) == ReadLE32(f, o)
  {
    var g := Truncate(f, (a.next + 1) * PAGE_SIZE);
    TruncateFrame(f, (a.next + 1) * PAGE_SIZE);
    HeaderReads(f, g);
    StepKeepsInv(a, Allocate);
    forall p | p in Step(a, Allocate).live
      ensures 1 <= p < a.next + 1 && InFile(g, p)
    {
      if p != a.next {
        assert PageAt(g, p) == PageAt(f, p);
      }
    }
  }

  lemma PushRepresents(f: Bytes, a: Allocator, first: nat, p: nat)
    requires Represents(f, a, first, |a.free|) && p in a.live && first < U32_LIMIT
    ensures Represents(WriteAt(f, p * PAGE_SIZE, FreeImage(first)), Step(a, Free(p)), p, |a.free| + 1)
  {
    var g := WriteAt(f, p * PAGE_SIZE, FreeImage(first));
    var t := FreeImage(first);
    assert t[..|t|] == t;
    LiveWriteFrame(f, g, a, p, t);
    PushIsChain(f, first, a.free, p);
    StepKeepsInv(a, Free(p));
  }

  /** However far the header write of an extension got, the page is at worst lost. */
  lemma ExtendFailed(f: Bytes, g: Bytes, a: Allocator, first: nat)
    requires Represents(f, a, first, |a.free|) && a.next + 1 < U32_LIMIT
    requires g == f || PartlyWritten(f, g, 0, WithPageCount(f[..HEADER_SIZE], a.next + 1))
    ensures Represents(g, Lose(a), first, |a.free|) && SameButPage(f, g, 0)
    // the header still covers every page unless the write stopped inside the page count
    ensures HeaderCovers(f, a) && ReadLE32(g, PAGE_COUNT_AT) == ReadLE32(f, PAGE_COUNT_AT) ==> HeaderCovers(g, Lose(a))
    ensures ReadLE32(g, PAGE_COUNT_AT) == a.next + 1 ==> HeaderCovers(g, Lose(a))
  {
    if g != f {
      PageCountWritten(f, g, a.next + 1);
      ChainOutsideHeader(f, g, a, first);
    }
    LosePage(g, a, first);
  }

  /** The file after a complete extension. */
  function Extended(f: Bytes, n: nat): Bytes
    requires HEADER_SIZE <= |f| && n + 1 < U32_LIMIT
  {
    Truncate(WriteAt(f, 0, WithPageCount(f[..HEADER_SIZE], n + 1)), (n + 1) * PAGE_SIZE)
  }

  lemma ExtendSucceeded(f: Bytes, a: Allocator, first: nat)
    requires Represents(f, a, first, |a.free|) && a.next + 1 < U32_LIMIT && a.free == []
    ensures var g := Extended(f, a.next);
      && Represents(g, Step(a, Allocate), first, 0)
      && SameButPage(f, g, 0)
      && ReadLE32(g, PAGE_COUNT_AT) == a.next + 1 && HeaderCovers(g, Step(a, Allocate))
      && (HeaderTracks(f, a, first) ==> HeaderTracks(g, Step(a, Allocate), first))
  {
    var h := WithPageCount(f[..HEADER_SIZE], a.next + 1);
    var g := WriteAt(f, 0, h);
    assert h[..|h|] == h;
    PageCountWritten(f, g, a.next + 1);
    ChainOutsideHeader(f, g, a, first);
    GainPage(g, a, first);
    SameButPageTrans(f, g, Extended(f, a.next));
  }

  /** Freeing a live page: the complete page write, then however much of the header write. */
  lemma PushHeader(f: Bytes, g: Bytes, a: Allocator, p: nat)
    requires Represents(f, a, p, |a.free|) && p < U32_LIMIT && |a.free| < U32_LIMIT
    requires g == f || PartlyWritten(f, g, 0, WithFreeList(f[..HEADER_SIZE], p, |a.free|))
    ensures Represents(g, a, p, |a.free|) && SameButPage(f, g, 0)
    ensures HeaderCovers(g, a) <==> HeaderCovers(f, a)
    ensures ReadLE32(g, PAGE_COUNT_AT) == ReadLE32(f, PAGE_COUNT_AT)
  {
    if g != f {
      FreeListWritten(f, g, p, |a.free|);
      ChainOutsideHeader(f, g, a, p);
    }
  }

  lemma FreeFits(f: Bytes, a: Allocator, first: nat, count: nat)
    requires Represents(f, a, first, count)
    ensures SaneImage(f, a) && first < U32_LIMIT && count == |a.free| < a.next
  {
    Conservation(a);
    if a.free != [] {
      assert a.free[0] in a.free;
    }
  }

  /** The page image of a free puts the page at the head of the chain on disk. */
  lemma Pushed(f: Bytes, a: Allocator, first: nat, count: nat, p: nat)
    requires Represents(f, a, first, count) && first < U32_LIMIT && p != 0
    ensures var g := WriteAt(f, p * PAGE_SIZE, FreeImage(first));
      HEADER_SIZE <= |g| && (Terminates(g, p) <==> p !in a.free)
  {
    hide Inv, IsChain, Terminates;
    PushIffNotFree(f, first, a.free, p);
  }

  /** Rewriting the free list in the header leaves the chain itself alone. */
  lemma HeaderRewritten(f: Bytes, g: Bytes, p: nat, count: nat)
    requires HEADER_SIZE <= |f| && p < U32_LIMIT && count < U32_LIMIT
    requires g == f || PartlyWritten(f, g, 0, WithFreeList(f[..HEADER_SIZE], p, count))
    ensures SameButPage(f, g, 0) && (Terminates(g, p) <==> Terminates(f, p))
  {
    hide IsChain;
    if g != f {
      FreeListWritten(f, g, p, count);
      if Terminates(f, p) {
        var c :| IsChain(f, p, c);
        ChainElsewhere(f, g, p, c);
      }
      if Terminates(g, p) {
        var c :| IsChain(g, p, c);
        ChainElsewhere(g, f, p, c);
      }
    }
  }

  lemma {:induction false} ChainElsewhere(f: Bytes, g: Bytes, first: nat, c: seq<nat>)
    requires IsChain(f, first, c) && |f| == |g|
    requires forall q {:trigger PageAt(g, q)} {:trigger PageAt(f, q)} ::
      q != 0 && InFile(f, q) ==> PageAt(g, q) == PageAt(f, q)
    ensures IsChain(g, first, c)
    decreases |c|
  {
    if c != [] {
      assert PageAt(g, first) == PageAt(f, first);
      ChainElsewhere(f, g, NextFree(f, first), c[1..]);
    }
  }

  /** Freeing a live page: the page image, then however much of the header. */
  lemma FreedLive(f: Bytes, g: Bytes, a: Allocator, first: nat, p: nat, complete: bool)
    requires Represents(f, a, first, |a.free|) && p in a.live
    requires first < U32_LIMIT && p < U32_LIMIT && |a.free| + 1 < U32_LIMIT
    requires HEADER_SIZE <= |WriteAt(f, p * PAGE_SIZE, FreeImage(first))|
    requires var pushed := WriteAt(f, p * PAGE_SIZE, FreeImage(first));
      var header := WithFreeList(pushed[..HEADER_SIZE], p, |a.free| + 1);
      if complete then g == WriteAt(pushed, 0, header) else g == pushed || PartlyWritten(pushed, g, 0, header)
    ensures Represents(g, Step(a, Free(p)), p, |a.free| + 1)
    ensures HeaderCovers(f, a) ==> HeaderCovers(g, Step(a, Free(p)))
    ensures ReadLE32(g, PAGE_COUNT_AT) == ReadLE32(f, PAGE_COUNT_AT)
    ensures complete && HeaderTracks(f, a, first) ==> HeaderTracks(g, Step(a, Free(p)), p)
  {
    hide Inv, IsChain, WriteAt, FreeImage, WithFreeList, HeaderCovers;
    var t := FreeImage(first);
    var pushed, b := WriteAt(f, p * PAGE_SIZE, t), Step(a, Free(p));
    assert t[..|t|] == t;
    LiveWriteFrame(f, pushed, a, p, t);
    PushRepresents(f, a, first, p);
    CoversFree(pushed, a, p);
    var header := WithFreeList(pushed[..HEADER_SIZE], p, |a.free| + 1);
    assert header[..|header|] == header;
    PushHeader(pushed, g, b, p);
    if complete {
      FreeListWritten(pushed, g, p, |a.free| + 1);
    }
  }

  lemma FreshGrant(f: Bytes, a: Allocator, first: nat, count: nat)
    requires Represents(f, a, first, count)
    ensures Granted(a) != 0 && Granted(a) !in a.live && Granted(a) !in a.lost
  {
    GrantIsFresh(a);
  }

  // ----- A page count that was written in part -----

  /** The file after k bytes of the header with a new page count. */
  function Cut(f: Bytes, n: nat, k: nat): (g: Bytes)
    requires HEADER_SIZE <= |f| && n < U32_LIMIT && k <= HEADER_SIZE
    ensures |g| == |f|
  {
    WriteAt(f, 0, WithPageCount(f[..HEADER_SIZE], n)[..k])
  }

  /** How many bytes of the page count a cut lets through. */
  function CountBytes(k: nat): (j: nat)
    ensures j <= 4
  {
    if k <= PAGE_COUNT_AT then 0 else if k >= PAGE_COUNT_AT + 4 then 4 else k - PAGE_COUNT_AT
  }

  lemma StoredBytes(f: Bytes)
    requires HEADER_SIZE <= |f|
    ensures f[PAGE_COUNT_AT..PAGE_COUNT_AT + 4] == LE32(ReadLE32(f, PAGE_COUNT_AT))
  {
    hide LE32;
    var s, o := f[PAGE_COUNT_AT..PAGE_COUNT_AT + 4], PAGE_COUNT_AT;
    assert s[0] == f[o] && s[1] == f[o + 1] && s[2] == f[o + 2] && s[3] == f[o + 3];
    FourInjective(s, LE32(ReadLE32(f, o)));
  }

  /** After any cut the page count reads as the mixture of the two counts. */
  lemma CutReads(f: Bytes, n: nat, k: nat)
    requires HEADER_SIZE <= |f| && n < U32_LIMIT && k <= HEADER_SIZE
    ensures ReadLE32(Cut(f, n, k), PAGE_COUNT_AT) == Mixed(ReadLE32(f, PAGE_COUNT_AT), n, CountBytes(k))
  {
    hide LE32, WriteAt;
    var h, g, o, j := WithPageCount(f[..HEADER_SIZE], n), Cut(f, n, k), PAGE_COUNT_AT, CountBytes(k);
    StoredBytes(f);
    StoredBytes(h);
    var s := LE32(n)[..j] + LE32(ReadLE32(f, o))[j..];
    forall i | 0 <= i < 4
      ensures g[o + i] == s[i]
    {
      assert h[o..o + 4][i] == h[o + i] && f[o..o + 4][i] == f[o + i];
      CutByte(f, h, k, o + i);
    }
    SameFour(g, o, s);
  }

  lemma CutByte(f: Bytes, h: Bytes, k: nat, i: nat)
    requires k <= |h| <= |f| && i < |h|
    ensures WriteAt(f, 0, h[..k])[i] == if i < k then h[i] else f[i]
  {
  }

  lemma SameFour(g: Bytes, o: nat, s: Bytes)
    requires o + 4 <= |g| && |s| == 4 && forall i :: 0 <= i < 4 ==> g[o + i] == s[i]
    ensures ReadLE32(g, o) == ReadLE32(s, 0)
  {
    assert g[o + 0] == s[0] && g[o + 1] == s[1] && g[o + 2] == s[2] && g[o + 3] == s[3];
  }

  /** A write of the page count can be torn exactly when the stored count and the new one differ in
      more than one byte. */
  lemma CountTornIff(f: Bytes, n: nat)
    requires HEADER_SIZE <= |f| && n < U32_LIMIT
    ensures (exists k :: 0 <= k <= HEADER_SIZE && CountTorn(f, Cut(f, n, k), n)) <==>
      Tearable(ReadLE32(f, PAGE_COUNT_AT), n)
  {
    hide Cut, Mixed, Tearable;
    var m := ReadLE32(f, PAGE_COUNT_AT);
    TornIff(m, n);
    if j :| 0 <= j <= 4 && Mixed(m, n, j) != m && Mixed(m, n, j) != n {
      var k := PAGE_COUNT_AT + j;
      CutReads(f, n, k);
      assert CountTorn(f, Cut(f, n, k), n);
    }
    if k :| 0 <= k <= HEADER_SIZE && CountTorn(f, Cut(f, n, k), n) {
      CutReads(f, n, k);
      assert Mixed(m, n, CountBytes(k)) != m && Mixed(m, n, CountBytes(k)) != n;
    }
  }

  lemma TornNeedsTearable(f: Bytes, g: Bytes, n: nat)
    requires HEADER_SIZE <= |f| && n < U32_LIMIT && CountTorn(f, g, n)
    requires g == f || PartlyWritten(f, g, 0, WithPageCount(f[..HEADER_SIZE], n))
    ensures Tearable(ReadLE32(f, PAGE_COUNT_AT), n)
  {
    hide WriteAt, WithPageCount, Tearable;
    var h := WithPageCount(f[..HEADER_SIZE], n);
    var k :| 0 <= k <= |h| && g == WriteAt(f, 0, h[..k]);
    assert CountTorn(f, Cut(f, n, k), n);
    CountTornIff(f, n);
  }

  /** However a failing extension is cut, the header covers every page in use exactly when every
      mixture of the stored count and the new one does. */
  lemma CoveredIff(f: Bytes, a: Allocator)
    requires HEADER_SIZE <= |f| && a.next + 1 < U32_LIMIT
    ensures var m, n := ReadLE32(f, PAGE_COUNT_AT), a.next + 1;
      (forall k :: 0 <= k <= HEADER_SIZE ==> HeaderCovers(Cut(f, n, k), Lose(a))) <==>
      (forall j :: 0 <= j <= 4 ==> CountCovers(Mixed(m, n, j), f, a))
  {
    hide Cut, Mixed;
    var m, n := ReadLE32(f, PAGE_COUNT_AT), a.next + 1;
    forall k | 0 <= k <= HEADER_SIZE
      ensures HeaderCovers(Cut(f, n, k), Lose(a)) <==> CountCovers(Mixed(m, n, CountBytes(k)), f, a)
    {
      CutReads(f, n, k);
    }
    forall j | 0 <= j <= 4
      ensures CountCovers(Mixed(m, n, j), f, a) <==> HeaderCovers(Cut(f, n, PAGE_COUNT_AT + j), Lose(a))
    {
      CutReads(f, n, PAGE_COUNT_AT + j);
    }
  }

  /** With the header up to date, every 256th extension can hide pages: if the last page is in use, a
      write that stops after the first byte of the count makes it 255 too small. */
  lemma TornHidesPage(f: Bytes, a: Allocator)
    requires HEADER_SIZE <= |f| && ReadLE32(f, PAGE_COUNT_AT) == a.next && a.next + 1 < U32_LIMIT
    requires a.next % 256 == 255 && a.next - 1 in a.live
    ensures var g := Cut(f, a.next + 1, PAGE_COUNT_AT + 1);
      && ReadLE32(g, PAGE_COUNT_AT) == a.next - 255 <= a.next - 1
      && CountTorn(f, g, a.next + 1) && !HeaderCovers(g, Lose(a))
  {
    hide Cut, Mixed, ReadLE32;
    CutReads(f, a.next + 1, PAGE_COUNT_AT + 1);
    MixedAtCarry(a.next);
  }

  /** The page count reads neither as before nor as the given one. */
  ghost predicate CountTorn(f: Bytes, g: Bytes, n: nat) {
    && HEADER_SIZE <= |f| && HEADER_SIZE <= |g|
    && ReadLE32(g, PAGE_COUNT_AT) != ReadLE32(f, PAGE_COUNT_AT) && ReadLE32(g, PAGE_COUNT_AT) != n
  }

  /** What a reopened pager would take from the header: page count, free list head and length. */
  function HeaderState(f: Bytes): (nat, nat, nat)
    requires HEADER_SIZE <= |f|
  {
    (ReadLE32(f, PAGE_COUNT_AT), ReadLE32(f, FIRST_FREE_AT), ReadLE32(f, FREE_COUNT_AT))
  }

  /** Reopening restores the allocator exactly when no page was taken off the free list since
      one was last put on it.  Otherwise the reopened free list starts at a live page, which the
      next allocation would hand out a second time.  The page count is restored either way. */
  lemma ReopenIff(f: Bytes, a: Allocator, first: nat)
    requires Represents(f, a, first, |a.free|) && HeaderTracks(f, a, first)
    ensures HeaderState(f) == (a.next, first, |a.free|) <==> a.pops == 0
    ensures a.pops > 0 ==> HeaderState(f).1 in a.live
    ensures HeaderState(f).0 == a.next
    ensures a.pops == 0 ==> var h := HeaderState(f); Represents(f, a.(next := h.0), h.1, h.2)
  {
  }

  /** What every state of the pager has on disk: a chain of free pages that ends, visits no page
      twice and meets neither a live page nor the header, with every page accounted for. */
  lemma FreeChainOnDisk(f: Bytes, a: Allocator, first: nat, count: nat)
    requires Represents(f, a, first, count)
    ensures IsChain(f, first, a.free) && |a.free| == count && NoRepeats(a.free)
    ensures forall p :: p in a.free ==> p != 0 && p !in a.live
    ensures |a.live| + count + |a.lost| == a.next - 1
  {
    ChainAcyclic(f, first, a.free);
    Conservation(a);
  }

  class Pager {
    /** The bytes of the database file. */
    var file: Bytes
    var pageCount: nat
    var firstFreePage: nat
    var freePageCount: nat
    /** Whether every system call succeeds. */
    const reliable: bool

    ghost var live: set<nat>
    ghost var free: seq<nat>
    ghost var lost: set<nat>
    ghost var pops: nat
    /** The page count in the header is neither the old nor the new one: the last write of it failed
        after one, two or three of its four bytes. */
    ghost var torn: bool
    /** The page count the header holds. */
    ghost var stored: nat

    ghost function State(): Allocator
      reads this
    {
      Allocator(live, free, lost, pageCount, pops)
    }

    ghost function Counts(): Counts
      reads this
    {
      PageCounts.Counts.Counts(pageCount, stored, torn)
    }

    ghost predicate Sane()
      reads this
    {
      SaneImage(file, State())
    }

    ghost predicate Valid()
      reads this
    {
      && Represents(file, State(), firstFreePage, freePageCount)
      && (reliable ==> HeaderTracks(file, State(), firstFreePage) && !torn)
      && stored == ReadLE32(file, PAGE_COUNT_AT)
      && (!torn ==> HeaderCovers(file, State()) && stored <= pageCount)
    }

    /** pager_create: the new file holds only the 48 header bytes. */
    constructor Create(reliable: bool)
      ensures Valid() && fresh(this)
      ensures this.reliable == reliable && State() == Allocator({}, [], {}, 1, 0)
      ensures file == InitHeader()
    {
      file := InitHeader();
      pageCount, firstFreePage, freePageCount := 1, 0, 0;
      this.reliable := reliable;
      live, free, lost, pops, torn, stored := {}, [], {}, 0, false, 1;
    }

    /** pager_create: nothing if the file cannot be opened, written or synced. */
    static method CreateFile(reliable: bool) returns (pager: Pager?)
      ensures pager != null ==> fresh(pager) && pager.Valid() && pager.reliable == reliable
      ensures pager != null ==> pager.State() == Allocator({}, [], {}, 1, 0) && pager.file == InitHeader()
      ensures reliable ==> pager != null
    {
      var ok := *;
      pager := null;
      if ok || reliable {
        pager := new Pager.Create(reliable);
      }
    }

    /** pager_open on the file's bytes: refuses a short file, a wrong magic number and a file that
        cannot be opened or read, and otherwise trusts the header.  `was` is the allocator the file
        is believed to represent. */
    static method Open(file: Bytes, reliable: bool, ghost was: Allocator) returns (pager: Pager?)
      ensures pager != null ==> HEADER_SIZE <= |file| && ReadLE32(file, 0) == PAGER_MAGIC
      ensures reliable && HEADER_SIZE <= |file| && ReadLE32(file, 0) == PAGER_MAGIC ==> pager != null
      ensures pager != null ==> fresh(pager) && pager.file == file && pager.reliable == reliable
      ensures pager != null ==>
        && (pager.pageCount, pager.firstFreePage, pager.freePageCount) == HeaderState(file)
        && pager.State() == was.(next := pager.pageCount, pops := 0) && !pager.torn && pager.stored == pager.pageCount
    {
      var ok := *;
      pager := null;
      if (ok || reliable) && HEADER_SIZE <= |file| && ReadLE32(file, 0) == PAGER_MAGIC {
        pager := new Pager.FromHeader(file, reliable, was);
      }
    }

    constructor FromHeader(file: Bytes, reliable: bool, ghost was: Allocator)
      requires HEADER_SIZE <= |file|
      ensures this.file == file && this.reliable == reliable
      ensures (pageCount, firstFreePage, freePageCount) == HeaderState(file)
      ensures State() == was.(next := pageCount, pops := 0) && !torn && stored == pageCount
    {
      this.file, this.reliable := file, reliable;
      pageCount := ReadLE32(file, PAGE_COUNT_AT);
      firstFreePage := ReadLE32(file, FIRST_FREE_AT);
      freePageCount := ReadLE32(file, FREE_COUNT_AT);
      live, free, lost, pops, torn, stored := was.live, was.free, was.lost, 0, false, pageCount;
    }

    /** lseek and write_exact: on failure some prefix of the bytes may have reached the file. */
    method RawWrite(o: nat, t: Bytes) returns (ok: bool)
      modifies this`file
      ensures ok ==> file == WriteAt(old(file), o, t)
      ensures PartlyWritten(old(file), file, o, t)
      ensures reliable ==> ok
    {
      ok := *;
      ok := ok || reliable;
      var n :| 0 <= n <= |t|;
      n := if ok then |t| else n;
      assert t[..|t|] == t;
      file := WriteAt(file, o, t[..n]);
    }

    /** lseek and read_exact into a buffer: fails at the end of the file or on an error. */
    method RawRead(o: nat, count: nat) returns (ok: bool, data: Bytes)
      ensures ok ==> o + count <= |file| && data == file[o..o + count]
      ensures reliable && o + count <= |file| ==> ok
    {
      ok := *;
      ok := (ok || reliable) && o + count <= |file|;
      data := if ok then file[o..o + count] else [];
    }

    method ReadPage(p: nat, buf: array<Byte>) returns (ok: bool)
      requires buf.Length == PAGE_SIZE
      modifies buf
      ensures ok ==> (p < pageCount || p == 0) && InFile(file, p) && buf[..] == PageAt(file, p)
      ensures reliable && (p < pageCount || p == 0) && InFile(file, p) ==> ok
    {
      if p >= pageCount && p != 0 {
        return false;
      }
      var data;
      ok, data := RawRead(p * PAGE_SIZE, PAGE_SIZE);
      if ok {
        forall i | 0 <= i < PAGE_SIZE { buf[i] := data[i]; }
      }
    }

    /** pager_write_page, which writes any page; writing a live one keeps the allocator. */
    method WritePage(p: nat, buf: array<Byte>) returns (ok: bool)
      requires buf.Length == PAGE_SIZE
      modifies this`file
      ensures ok ==> InFile(file, p) && PageAt(file, p) == buf[..]
      ensures SameButPage(old(file), file, p)
      ensures old(Sane()) && p in live ==> Sane() && (old(Valid()) ==> Valid())
      ensures reliable ==> ok
    {
      hide WriteAt, Represents, HeaderTracks, HeaderCovers, SameButPage;
      ok := RawWrite(p * PAGE_SIZE, buf[..]);
      if ok {
        WriteSetsPage(old(file), p, buf[..]);
      }
      PartialWriteKeepsOthers(old(file), file, p, buf[..]);
      if old(Sane()) && p in live {
        LiveWriteFrame(old(file), file, State(), p, buf[..]);
      }
    }

    /** pager_allocate_page. */
    method AllocatePage() returns (ok: bool, p: nat)
      requires Valid() && pageCount + 1 < U32_LIMIT
      modifies this
      ensures Valid()
      ensures SameButPage(old(file), file, 0)
      // success refines one allocator step
      ensures ok ==> p == Granted(old(State())) && State() == Step(old(State()), Allocate)
      // the file grows only when the free chain is empty, and then the header has the new count
      ensures old(free) != [] ==> file == old(file) && pageCount == old(pageCount)
      ensures ok && old(free) == [] ==>
        |file| == pageCount * PAGE_SIZE && ReadLE32(file, PAGE_COUNT_AT) == pageCount
      // failure leaves the free list alone and at worst loses the number of one new page
      ensures !ok ==> State() == old(State()) || State() == Lose(old(State()))
      // the count in the header stays or becomes the new one, unless it is torn, and then the two
      // differed in more than one byte
      ensures !torn ==> stored == pageCount || (!old(torn) && stored == old(stored))
      ensures torn && !old(torn) ==> !ok && CountTorn(old(file), file, pageCount) && pageCount == old(pageCount) + 1
      ensures torn && !old(torn) ==> Tearable(old(stored), old(pageCount) + 1)
      ensures ok && old(free) == [] ==> !torn
      ensures reliable ==> ok
    {
      if firstFreePage != 0 {
        ok, p := PopFreePage();
      } else {
        ok, p := ExtendFile();
      }
    }

    method PopFreePage() returns (ok: bool, p: nat)
      requires Valid() && firstFreePage != 0
      modifies this
      ensures Valid() && old(free) != [] && file == old(file) && torn == old(torn) && stored == old(stored)
      ensures ok ==> p == Granted(old(State())) && State() == Step(old(State()), Allocate)
      ensures !ok ==> State() == old(State())
      ensures reliable ==> ok
    {
      hide Represents, HeaderCovers, ReadLE32;
      NotEmpty(file, State(), firstFreePage, freePageCount);
      PopRepresents(file, State(), firstFreePage);
      CoversPop(file, State());
      var data;
      ok, data := RawRead(firstFreePage * PAGE_SIZE, PAGE_SIZE);
      if !ok {
        return false, 0;
      }
      p := firstFreePage;
      firstFreePage := ReadLE32(data, 0);
      freePageCount := freePageCount - 1;
      live, free, pops := live + {p}, free[1..], pops + 1;
    }

    method ExtendFile() returns (ok: bool, p: nat)
      requires Valid() && firstFreePage == 0 && pageCount + 1 < U32_LIMIT
      modifies this
      ensures Valid() && old(free) == []
      ensures SameButPage(old(file), file, 0)
      ensures ok ==> p == Granted(old(State())) && State() == Step(old(State()), Allocate)
      ensures ok ==> |file| == pageCount * PAGE_SIZE && ReadLE32(file, PAGE_COUNT_AT) == pageCount
      ensures !ok ==> State() == Lose(old(State()))
      // the count in the header stays or becomes the new one, unless it is torn, and then the two
      // differed in more than one byte
      ensures !torn ==> stored == pageCount || (!old(torn) && stored == old(stored))
      ensures torn && !old(torn) ==> !ok && CountTorn(old(file), file, pageCount) && pageCount == old(pageCount) + 1
      ensures torn && !old(torn) ==> Tearable(old(stored), old(pageCount) + 1)
      ensures ok ==> !torn
      ensures reliable ==> ok
    {
      hide Inv, IsChain, WriteAt, Truncate, WithPageCount, HeaderCovers, Tearable;
      ghost var was := State();
      EmptyChain(file, free);
      p := pageCount;
      pageCount := pageCount + 1;
      ok := GrowFile();
      if ok {
        live, torn, stored := live + {p}, false, pageCount;
        assert State() == Step(was, Allocate);
        ExtendSucceeded(old(file), was, firstFreePage);
      } else {
        lost := lost + {p};
        assert State() == Lose(was);
        ExtendFailed(old(file), file, was, firstFreePage);
        if CountTorn(old(file), file, pageCount) {
          TornNeedsTearable(old(file), file, pageCount);
        }
        stored := ReadLE32(file, PAGE_COUNT_AT);
        torn := stored != pageCount && (torn || CountTorn(old(file), file, pageCount));
      }
    }

    /** Rewrite the header with the page count already raised, then extend the file to match. */
    method GrowFile() returns (ok: bool)
      requires HEADER_SIZE <= |file| && 1 <= pageCount < U32_LIMIT
      modifies this`file
      ensures ok ==> file == Extended(old(file), pageCount - 1)
      ensures !ok ==>
        || file == old(file)
        || PartlyWritten(old(file), file, 0, WithPageCount(old(file)[..HEADER_SIZE], pageCount))
      ensures reliable ==> ok
    {
      var header;
      ok, header := RawRead(0, HEADER_SIZE);
      if !ok {
        return;
      }
      assert header == file[..HEADER_SIZE];
      ok := RawWrite(0, WithPageCount(header, pageCount));
      if !ok {
        return;
      }
      ok := *;
      ok := ok || reliable;
      if ok {
        file := Truncate(file, pageCount * PAGE_SIZE);
      }
    }

    /** pager_free_page.  The header page is refused and any other number is taken.  A failure may come
        before or after the page has joined the free list. */
    method FreePage(p: nat) returns (ok: bool)
      requires Valid() && p < U32_LIMIT
      modifies this
      ensures p == 0 ==> !ok && file == old(file)
      // no other page changes
      ensures forall q :: q != p && q != 0 && InFile(old(file), q) ==>
        InFile(file, q) && PageAt(file, q) == PageAt(old(file), q)
      ensures torn == old(torn) && stored == old(stored) && (reliable && p != 0 ==> ok)
      // freeing a live page refines one step
      ensures Legal(old(State()), Free(p)) ==> Valid()
      ensures Legal(old(State()), Free(p)) && ok ==> State() == Step(old(State()), Free(p))
      ensures Legal(old(State()), Free(p)) && !ok ==> State() == old(State()) || State() == Step(old(State()), Free(p))
      // whatever is freed heads the chain on disk, which still ends unless the page was free already
      ensures ok ==> firstFreePage == p && (Terminates(file, p) <==> p !in old(free))
    {
      hide Represents, WriteAt, FreeImage, WithFreeList, HeaderCovers, HeaderTracks, Terminates, PartlyWritten;
      hide ReadLE32;
      if p == 0 {
        return false;
      }
      ghost var was := State();
      FreeFits(file, was, firstFreePage, freePageCount);
      var image := FreeImage(firstFreePage);
      ok := RawWrite(p * PAGE_SIZE, image);
      PartialWriteKeepsOthers(old(file), file, p, image);
      if !ok {
        if p in live {
          LiveWriteFrame(old(file), file, was, p, image);
        }
        return;
      }
      Pushed(old(file), was, firstFreePage, freePageCount, p);
      ghost var pushed, first := file, firstFreePage;
      firstFreePage := p;
      freePageCount := freePageCount + 1;
      ok := RewriteFreeList();
      HeaderRewritten(pushed, file, p, freePageCount);
      if p in live {
        FreedLive(old(file), file, was, first, p, ok);
        live, free, pops := live - {p}, [p] + free, 0;
        assert State() == Step(was, Free(p));
      }
    }

    /** Store the free list head and length in the header. */
    method RewriteFreeList() returns (ok: bool)
      requires HEADER_SIZE <= |file| && firstFreePage < U32_LIMIT && freePageCount < U32_LIMIT
      modifies this`file
      ensures var header := WithFreeList(old(file)[..HEADER_SIZE], firstFreePage, freePageCount);
        && (file == old(file) || PartlyWritten(old(file), file, 0, header))
        && (ok ==> file == WriteAt(old(file), 0, header))
      ensures reliable ==> ok
    {
      hide WriteAt, WithFreeList, PartlyWritten;
      var header;
      ok, header := RawRead(0, HEADER_SIZE);
      if ok {
        assert header == file[..HEADER_SIZE];
        ok := RawWrite(0, WithFreeList(header, firstFreePage, freePageCount));
      }
    }

    /** Any run of allocations and frees on a reliable device. */
    method RunOps(ops: seq<AllocOp>) returns (granted: seq<nat>)
      requires Valid() && reliable && LegalRun(State(), ops) && pageCount + |ops| < U32_LIMIT
      modifies this
      ensures Valid() && State() == Run(old(State()), ops)
      ensures granted == Grants(old(State()), ops)
    {
      hide Represents, HeaderTracks, HeaderCovers, SameButPage, Tearable, CountTorn, Terminates, ReadLE32;
      granted := [];
      ghost var was := State();
      for i := 0 to |ops|
        invariant Valid() && LegalRun(State(), ops[i..]) && pageCount + |ops| - i < U32_LIMIT
        invariant Run(was, ops) == Run(State(), ops[i..])
        invariant Grants(was, ops) == granted + Grants(State(), ops[i..])
      {
        assert ops[i..][0] == ops[i] && ops[i..][1..] == ops[i + 1..];
        match ops[i]
        case Allocate =>
          var _, p := AllocatePage();
          granted := granted + [p];
        case Free(q) =>
          FreeFits(file, State(), firstFreePage, freePageCount);
          var _ := FreePage(q);
      }
    }
  }

  /** One page allocated, freed and allocated again is live, and a pager opened on the file would
      hand it out once more. */
  /** Reading a page through a pager opened on the file: found exactly if the count in the header
      reaches it and its bytes are there. */
  method ReadReopened(f: Bytes, p: nat) returns (found: bool)
    requires HEADER_SIZE <= |f| && ReadLE32(f, 0) == PAGER_MAGIC
    ensures found <==> (p < ReadLE32(f, PAGE_COUNT_AT) || p == 0) && InFile(f, p)
  {
    var pager := Pager.Open(f, true, Allocator({}, [], {}, 1, 0));
    var buf := new Byte[PAGE_SIZE];
    found := pager.ReadPage(p, buf);
  }

  method ReopenCounterexample() returns (pager: Pager, again: Pager)
    ensures pager.Valid() && pager.live == {1} && pager.free == []
    ensures again.file == pager.file && again.firstFreePage == 1 && again.freePageCount == 1
  {
    hide Represents, HeaderCovers;
    pager := new Pager.Create(true);
    AllocateFreeAllocate();
    var _ := pager.RunOps([Allocate, Free(1), Allocate]);
    FreeFits(pager.file, pager.State(), pager.firstFreePage, pager.freePageCount);
    var reopened := Pager.Open(pager.file, true, pager.State());
    again := reopened;
  }

  lemma AllocateFreeAllocate()
    ensures var ops := [Allocate, Free(1), Allocate]; var a := Allocator({}, [], {}, 1, 0);
      LegalRun(a, ops) && Run(a, ops).live == {1} && Run(a, ops).free == [] && Run(a, ops).pops == 1
  {
  }
}
