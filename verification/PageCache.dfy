/** The write-back page cache: hash chains to find a page, a doubly linked list in order of use to
    choose a victim, pins that protect pages in use. */
module Caching {
  import opened Bytes
  import opened Bits
  import opened Paging

  /** A cached page.  Its links are fields of the page itself, as in the source. */
  class Page {
    const id: nat
    const data: array<Byte>
    var refcount: nat
    var isDirty: bool
    var lruNext: Page?
    var lruPrev: Page?
    var hashNext: Page?
    var hashPrev: Page?
    /** When the page was last obtained, in calls of PageCache.Get. */
    ghost var stamp: nat

    /** page_alloc. */
    constructor (id: nat)
      ensures this.id == id && fresh(data) && data.Length == PAGE_SIZE
      ensures refcount == 0 && !isDirty
      ensures lruNext == null && lruPrev == null && hashNext == null && hashPrev == null
    {
      this.id := id;
      data := new Byte[PAGE_SIZE](_ => 0);
      refcount, isDirty := 0, false;
      lruNext, lruPrev, hashNext, hashPrev := null, null, null, null;
      stamp := 0;
    }

    /** page_unpin. */
    method Unpin()
      modifies this`refcount
      ensures refcount == if old(refcount) > 0 then old(refcount) - 1 else 0
    {
      if refcount > 0 {
        refcount := refcount - 1;
      }
    }

    /** page_mark_dirty. */
    method MarkDirty()
      modifies this`isDirty
      ensures isDirty
    {
      isDirty := true;
    }
  }

  // ----- Sequences of pages -----

  ghost function At(s: seq<Page>, i: int): Page? {
    if 0 <= i < |s| then s[i] else null
  }

  ghost predicate NoRepeats(s: seq<Page>) {
    forall i, j :: 0 <= i < j < |s| ==> s[i] != s[j]
  }

  ghost function IndexOf(s: seq<Page>, p: Page): (k: nat)
    requires p in s
    ensures k < |s| && s[k] == p
  {
    if s[0] == p then 0 else 1 + IndexOf(s[1..], p)
  }

  ghost function Without(s: seq<Page>, p: Page): (r: seq<Page>)
    requires p in s
    ensures |r| == |s| - 1
    ensures var k := IndexOf(s, p); forall i :: 0 <= i < |r| ==> r[i] == s[if i < k then i else i + 1]
  {
    var k := IndexOf(s, p);
    s[..k] + s[k + 1..]
  }

  lemma WithoutMembers(s: seq<Page>, p: Page)
    requires p in s && NoRepeats(s)
    ensures NoRepeats(Without(s, p)) && p !in Without(s, p)
    ensures forall q :: q in Without(s, p) <==> q in s && q != p
  {
  }

  /** The neighbours of a page once p has been taken out of s. */
  lemma WithoutNeighbours(s: seq<Page>, p: Page, i: nat)
    requires p in s && NoRepeats(s) && i < |s| - 1
    ensures var k: int, r := IndexOf(s, p), Without(s, p); var j := if i < k then i else i + 1;
      && r[i] == s[j] && j != k && s[j] != p
      && At(r, i + 1) == (if j == k - 1 then At(s, k + 1) else At(s, j + 1))
      && At(r, i - 1) == (if j == k + 1 then At(s, k - 1) else At(s, j - 1))
  {
  }

  /** Neighbours in s point at each other through the lru fields. */
  ghost predicate LruLinks(s: seq<Page>)
    reads s`lruNext, s`lruPrev
  {
    && NoRepeats(s)
    && (forall i {:trigger s[i].lruNext} :: 0 <= i < |s| ==> s[i].lruNext == At(s, i + 1))
    && (forall i {:trigger s[i].lruPrev} :: 0 <= i < |s| ==> s[i].lruPrev == At(s, i - 1))
  }

  /** s, head and tail form a doubly linked list. */
  ghost predicate LruLinked(s: seq<Page>, head: Page?, tail: Page?)
    reads s`lruNext, s`lruPrev
  {
    LruLinks(s) && head == At(s, 0) && tail == At(s, |s| - 1)
  }

  /** s is the chain through the hash fields that starts at head. */
  ghost predicate HashLinked(s: seq<Page>, head: Page?)
    reads s`hashNext, s`hashPrev
  {
    && NoRepeats(s)
    && head == At(s, 0)
    && (forall i {:trigger s[i].hashNext} :: 0 <= i < |s| ==> s[i].hashNext == At(s, i + 1))
    && (forall i {:trigger s[i].hashPrev} :: 0 <= i < |s| ==> s[i].hashPrev == At(s, i - 1))
  }

  const PAGER_MAX_PAGES := 65536

  /** The clamping page_cache_create applies to the requested number of pages. */
  function Capacity(requested: int, defaultSize: nat): (n: nat)
    requires 1 <= defaultSize
    ensures 1 <= n <= PAGER_MAX_PAGES
    ensures 1 <= requested <= PAGER_MAX_PAGES ==> n == requested
    ensures requested > PAGER_MAX_PAGES ==> n == PAGER_MAX_PAGES
    ensures requested <= 0 && defaultSize <= PAGER_MAX_PAGES ==> n == defaultSize
  {
    var n := if requested <= 0 then defaultSize else requested;
    if n > PAGER_MAX_PAGES then PAGER_MAX_PAGES else n
  }

  /** The bucket of a page: its 32-bit product with 31, modulo the table size. */
  function Hash(id: nat, tableSize: nat): (b: nat)
    requires tableSize > 0
    ensures b < tableSize
  {
    id * 31 % U32_LIMIT % tableSize
  }

  /** hash_page_id as written, with a mask. */
  function HashPageId(id: nat, tableSize: nat): (b: nat)
    requires PowerOfTwo(tableSize)
    ensures b == Hash(id, tableSize)
  {
    assert Pow2(8) == 256 && Pow2(16) == 0x1_0000 && Pow2(24) == 0x100_0000 && Pow2(32) == U32_LIMIT;
    ghost var k: nat :| IsPow2(tableSize, k);
    MaskIsRemainder(id * 31 % U32_LIMIT, k, 32);
    BitAnd(id * 31 % U32_LIMIT, tableSize - 1, 32)
  }

  /** Each chain holds cached pages of its own bucket only. */
  ghost predicate Buckets(pages: set<Page>, chains: seq<seq<Page>>) {
    && |chains| > 0
    && (forall b :: 0 <= b < |chains| ==> NoRepeats(chains[b]))
    && forall b, i {:trigger chains[b][i]} :: 0 <= b < |chains| && 0 <= i < |chains[b]| ==>
         chains[b][i] in pages && Hash(chains[b][i].id, |chains|) == b
  }

  lemma BucketsApart(pages: set<Page>, chains: seq<seq<Page>>, b: nat, c: nat)
    requires Buckets(pages, chains) && b < |chains| && c < |chains| && b != c
    ensures forall i :: 0 <= i < |chains[c]| ==> chains[c][i] !in chains[b]
  {
  }

  lemma BucketsLeave(pages: set<Page>, chains: seq<seq<Page>>, page: Page)
    requires Buckets(pages, chains)
    requires page in chains[Hash(page.id, |chains|)]
    ensures var b := Hash(page.id, |chains|); Buckets(pages - {page}, chains[b := Without(chains[b], page)])
    ensures var s := chains[Hash(page.id, |chains|)]; forall i :: 0 <= i < |s| ==> s[i] in pages
  {
  }

  /** The index, the list in order of use and the hash chains hold the same pages, each id once
      and in its own bucket. */
  ghost predicate Directory(pages: set<Page>, index: map<nat, Page>, lru: seq<Page>, chains: seq<seq<Page>>) {
    && |chains| > 0
    && NoRepeats(lru)
    && (forall p {:trigger p in pages} :: p in pages ==> p.id in index && index[p.id] == p)
    && (forall id :: id in index ==> index[id] in pages && index[id].id == id)
    && (forall i :: 0 <= i < |lru| ==> lru[i] in pages)
    && (forall p {:trigger p in pages} :: p in pages ==> p in lru)
    && (forall p {:trigger p in pages} :: p in pages ==> p in chains[Hash(p.id, |chains|)])
    && Buckets(pages, chains)
  }

  lemma DirectoryFacts(pages: set<Page>, index: map<nat, Page>, lru: seq<Page>, chains: seq<seq<Page>>, page: Page)
    requires Directory(pages, index, lru, chains)
    ensures page in lru <==> page in pages
    ensures page in chains[Hash(page.id, |chains|)] <==> page in pages
    ensures Buckets(pages, chains)
  {
  }

  lemma DirectoryTouch(pages: set<Page>, index: map<nat, Page>, lru: seq<Page>, chains: seq<seq<Page>>, page: Page)
    requires Directory(pages, index, lru, chains) && page in pages
    ensures page in lru && page !in Without(lru, page)
    ensures Directory(pages, index, [page] + Without(lru, page), chains)
    ensures forall i :: 0 <= i < |lru| - 1 ==> Without(lru, page)[i] in pages
  {
  }

  lemma DirectoryIds(pages: set<Page>, index: map<nat, Page>, lru: seq<Page>, chains: seq<seq<Page>>)
    requires Directory(pages, index, lru, chains)
    ensures forall p {:trigger p in pages} :: p in pages ==> p.id in index && index[p.id] == p
    ensures forall id {:trigger id in index} :: id in index ==> index[id] in pages && index[id].id == id
  {
  }

  lemma DirectoryLookup(pages: set<Page>, index: map<nat, Page>, lru: seq<Page>, chains: seq<seq<Page>>, id: nat)
    requires Directory(pages, index, lru, chains)
    ensures var s := chains[Hash(id, |chains|)];
      && (id in index ==> index[id] in s && index[id].id == id)
      && forall i :: 0 <= i < |s| && s[i].id == id ==> id in index && index[id] == s[i]
  {
  }

  lemma DirectoryEnter(pages: set<Page>, index: map<nat, Page>, lru: seq<Page>, chains: seq<seq<Page>>, page: Page)
    requires Directory(pages, index, lru, chains) && page !in pages && page.id !in index
    ensures var b := Hash(page.id, |chains|); Directory(
      pages + {page}, index[page.id := page], [page] + lru, chains[b := [page] + chains[b]])
  {
  }

  lemma DirectoryLeave(pages: set<Page>, index: map<nat, Page>, lru: seq<Page>, chains: seq<seq<Page>>, page: Page)
    requires Directory(pages, index, lru, chains) && page in pages
    ensures var b := Hash(page.id, |chains|); Directory(
      pages - {page}, index - {page.id}, Without(lru, page), chains[b := Without(chains[b], page)])
    ensures forall i :: 0 <= i < |lru| - 1 ==> Without(lru, page)[i] in pages - {page}
  {
    var b := Hash(page.id, |chains|);
    WithoutMembers(lru, page);
    WithoutMembers(chains[b], page);
  }

  /** The list runs from the most to the least recently obtained page. */
  ghost predicate ByRecency(lru: seq<Page>, clock: nat)
    reads lru`stamp
  {
    && (forall i :: 0 <= i < |lru| ==> lru[i].stamp <= clock)
    && (forall i, j :: 0 <= i < j < |lru| ==> lru[i].stamp > lru[j].stamp)
  }

  lemma RecencyWithout(lru: seq<Page>, clock: nat, page: Page)
    requires ByRecency(lru, clock) && page in lru
    ensures ByRecency(Without(lru, page), clock)
  {
  }

  lemma RecencyFront(lru: seq<Page>, clock: nat, page: Page)
    requires ByRecency(lru, clock) && page.stamp == clock + 1
    ensures ByRecency([page] + lru, clock + 1)
    ensures forall p :: p in lru ==> p.stamp < page.stamp
  {
  }

  /** Every page has a buffer of its own. */
  ghost predicate Buffered(pages: set<Page>) {
    && (forall p :: p in pages ==> p.data.Length == PAGE_SIZE)
    && (forall p, q :: p in pages && q in pages && p.data == q.data ==> p == q)
  }

  lemma BufferedEnter(pages: set<Page>, page: Page)
    requires Buffered(pages) && page.data.Length == PAGE_SIZE
    requires forall p :: p in pages ==> p.data != page.data
    ensures Buffered(pages + {page})
  {
  }

  class PageCache {
    const table: array<Page?>
    const maxPages: nat
    const pager: Pager
    var lruHead: Page?
    var lruTail: Page?
    var count: nat
    var hitCount: nat
    var missCount: nat
    var pinCount: nat
    var evictCount: nat

    ghost var pages: set<Page>
    ghost var index: map<nat, Page>
    ghost var lru: seq<Page>
    ghost var chains: seq<seq<Page>>
    ghost var clock: nat

    /** page_cache_create.  The default size is a build constant of the source. */
    constructor (requested: int, defaultSize: nat, pager: Pager)
      requires pager.Sane() && 1 <= defaultSize
      ensures maxPages == Capacity(requested, defaultSize) && this.pager == pager
      ensures fresh(table) && Valid() && table.Length >= 16 && table.Length >= 2 * maxPages
      ensures pages == {} && index == map[]
      ensures hitCount == missCount == pinCount == evictCount == 0
    {
      var size := 16;
      assert IsPow2(16, 4);
      while size < Capacity(requested, defaultSize) * 2
        invariant PowerOfTwo(size) && size >= 16
        decreases Capacity(requested, defaultSize) * 2 - size
      {
        DoubledPower(size);
        size := size * 2;
      }
      table := new Page?[size](_ => null);
      maxPages := Capacity(requested, defaultSize);
      this.pager := pager;
      lruHead, lruTail, count := null, null, 0;
      hitCount, missCount, pinCount, evictCount := 0, 0, 0, 0;
      pages, index, lru, chains, clock := {}, map[], [], seq(size, _ => []), 0;
    }

    /** Every bucket's chain is linked, and holds pages of that bucket only. */
    ghost predicate ChainsLinked()
      reads this`chains, this`pages, table, pages`hashNext, pages`hashPrev
    {
      && |chains| == table.Length > 0 && PowerOfTwo(table.Length)
      && Buckets(pages, chains)
      && (forall b :: 0 <= b < |chains| ==> HashLinked(chains[b], table[b]))
    }

    /** The index, the list and the chains describe the same pages, and the links realise them. */
    ghost predicate Linked()
      reads this`chains, this`pages, this`index, this`lru, this`lruHead, this`lruTail, this`count
      reads table, pages`lruNext, pages`lruPrev, pages`hashNext, pages`hashPrev
    {
      && ChainsLinked() && |chains| == table.Length
      && Directory(pages, index, lru, chains)
      && count == |lru|
      && (forall i :: 0 <= i < |lru| ==> lru[i] in pages)
      && LruLinked(lru, lruHead, lruTail)
    }

    /** The given pages are live, and one not marked dirty agrees with the disk. */
    ghost predicate Coherent(ps: set<Page>)
      requires pager.Sane()
      reads pager, ps`isDirty, (set p | p in ps :: p.data)
    {
      forall p {:trigger p in ps} :: p in ps ==>
        p.id in pager.live && (!p.isDirty ==> p.data[..] == PageAt(pager.file, p.id))
    }

    ghost predicate Valid()
      reads this, table, pager, pages, (set p | p in pages :: p.data)
    {
      && pager.Sane()
      && Linked()
      && Buffered(pages)
      && Coherent(pages)
      && ByRecency(lru, clock)
      && count <= maxPages && 1 <= maxPages
    }

    /** What a client sees of page id: the cached bytes if there are any, else the disk's. */
    ghost function View(idx: map<nat, Page>, id: nat): Bytes
      requires pager.Sane() && id in pager.live
      reads pager, (set p | p in idx.Values :: p.data)
    {
      if id in idx then idx[id].data[..] else PageAt(pager.file, id)
    }

    ghost function Views(idx: map<nat, Page>): map<nat, Bytes>
      requires pager.Sane()
      reads pager, (set p | p in idx.Values :: p.data)
    {
      map id | id in pager.live :: View(idx, id)
    }

    /** The live pages with their contents: all that a client can observe. */
    ghost function Contents(): map<nat, Bytes>
      requires pager.Sane()
      reads this`index, pager, (set p | p in index.Values :: p.data)
    {
      Views(index)
    }

    ghost function Pins(id: nat): nat
      reads this`index, index.Values`refcount
    {
      if id in index then index[id].refcount else 0
    }

    /** Everything an operation on the cache may change apart from the database file. */
    ghost function Repr(): set<object>
      reads this`pages
    {
      {this, table} + (set p | p in pages) + (set p | p in pages :: p.data)
    }

    /** No call can fail: the device is reliable and nothing is pinned. */
    ghost predicate Idle()
      reads this`index, index.Values`refcount
    {
      pager.reliable && forall id :: Pins(id) == 0
    }

    lemma IdleHasVictim()
      requires Valid() && Idle() && count == maxPages
      ensures exists p :: p in pages && p.refcount == 0
    {
      Ids();
      var p := lru[0];
      assert p in pages && Pins(p.id) == p.refcount;
    }

    /** A page that agrees with the disk may enter or leave the cache unseen. */
    lemma SameViews(idx: map<nat, Page>, page: Page)
      requires pager.Sane() && page.id !in idx && page.id in pager.live
      requires page.data[..] == PageAt(pager.file, page.id)
      ensures Views(idx[page.id := page]) == Views(idx)
    {
    }

    /** So whichever page leaves, however it is linked, a client sees no difference. */
    lemma LeaveUnseen(idx: map<nat, Page>, page: Page)
      requires pager.Sane() && page.id in idx && idx[page.id] == page && page.id in pager.live
      requires page.data[..] == PageAt(pager.file, page.id)
      ensures Views(idx - {page.id}) == Views(idx)
    {
    }

    lemma CoherentEnter(ps: set<Page>, page: Page)
      requires pager.Sane() && Coherent(ps) && page.id in pager.live
      requires page.data[..] == PageAt(pager.file, page.id)
      ensures Coherent(ps + {page})
    {
    }

    /** lru_remove as written: unlinks the page but looks at neither end of the list. */
    method LruRemove(page: Page)
      requires page in lru && LruLinks(lru)
      modifies lru`lruNext, lru`lruPrev
      ensures page.lruNext == null && page.lruPrev == null
      ensures LruLinks(Without(lru, page))
    {
      ghost var k: int, r := IndexOf(lru, page), Without(lru, page);
      WithoutMembers(lru, page);
      assert page.lruPrev == At(lru, k - 1) && page.lruNext == At(lru, k + 1);
      if page.lruPrev != null {
        page.lruPrev.lruNext := page.lruNext;
      }
      if page.lruNext != null {
        page.lruNext.lruPrev := page.lruPrev;
      }
      page.lruPrev := null;
      page.lruNext := null;
      forall i | 0 <= i < |r|
        ensures r[i].lruNext == At(r, i + 1) && r[i].lruPrev == At(r, i - 1)
      {
        WithoutNeighbours(lru, page, i);
      }
    }

    /** lru_remove with the labelled repair: the ends of the list follow the page out. */
    method LruUnlink(page: Page)
      requires page in lru && LruLinked(lru, lruHead, lruTail)
      modifies this`lruHead, this`lruTail, this`lru, lru`lruNext, lru`lruPrev
      ensures lru == Without(old(lru), page)
      ensures LruLinked(lru, lruHead, lruTail)
    {
      ghost var k: int := IndexOf(lru, page);
      assert page.lruPrev == At(lru, k - 1) && page.lruNext == At(lru, k + 1);
      if lruHead == page {
        lruHead := page.lruNext;
      }
      if lruTail == page {
        lruTail := page.lruPrev;
      }
      LruRemove(page);
      lru := Without(lru, page);
    }

    method LruAddFront(page: Page)
      requires page !in lru && LruLinked(lru, lruHead, lruTail)
      modifies this`lruHead, this`lruTail, this`lru, lru`lruPrev, page`lruNext, page`lruPrev
      ensures lru == [page] + old(lru)
      ensures LruLinked(lru, lruHead, lruTail)
    {
      ghost var s := lru;
      page.lruNext := lruHead;
      page.lruPrev := null;
      if lruHead != null {
        lruHead.lruPrev := page;
      }
      lruHead := page;
      if lruTail == null {
        lruTail := page;
      }
      lru := [page] + lru;
      forall i | 0 <= i < |lru|
        ensures lru[i].lruNext == At(lru, i + 1) && lru[i].lruPrev == At(lru, i - 1)
      {
        if i > 0 {
          assert lru[i] == s[i - 1];
          assert s[i - 1].lruNext == At(s, i);
        }
      }
    }

    method HashInsert(page: Page)
      requires ChainsLinked() && page !in pages
      modifies this`chains, this`pages, table, page`hashNext, page`hashPrev, pages`hashPrev
      ensures ChainsLinked() && |chains| == table.Length && pages == old(pages) + {page}
      ensures var b := Hash(page.id, |chains|); chains == old(chains)[b := [page] + old(chains)[b]]
    {
      var b := HashPageId(page.id, table.Length);
      HashPush(page, b, chains[b]);
      forall c | 0 <= c < |chains| && c != b
        ensures HashLinked(chains[c], table[c])
      {
        assert old(HashLinked(chains[c], table[c]));
        assert forall p :: p in chains[c] ==> p != page && p !in chains[b];
      }
      chains := chains[b := [page] + chains[b]];
      pages := pages + {page};
    }

    /** The pointer updates of hash_insert on bucket b, whose chain is s. */
    method HashPush(page: Page, b: nat, ghost s: seq<Page>)
      requires b < table.Length && page !in s && HashLinked(s, table[b])
      modifies table, page`hashNext, page`hashPrev, s`hashPrev
      ensures HashLinked([page] + s, table[b])
      ensures forall c :: 0 <= c < table.Length && c != b ==> table[c] == old(table[c])
    {
      page.hashNext := table[b];
      page.hashPrev := null;
      if table[b] != null {
        table[b].hashPrev := page;
      }
      table[b] := page;
      ghost var r := [page] + s;
      forall i | 0 <= i < |r|
        ensures r[i].hashNext == At(r, i + 1) && r[i].hashPrev == At(r, i - 1)
      {
        if i > 0 {
          assert r[i] == s[i - 1];
          assert s[i - 1].hashNext == At(s, i);
        }
      }
    }

    method HashRemove(page: Page)
      requires ChainsLinked() && |chains| > 0 && page in chains[Hash(page.id, |chains|)]
      modifies this`chains, this`pages, table, pages`hashNext, pages`hashPrev
      ensures ChainsLinked() && |chains| == table.Length && pages == old(pages) - {page}
      ensures var b := Hash(page.id, |chains|); chains == old(chains)[b := Without(old(chains)[b], page)]
      ensures page.hashNext == null && page.hashPrev == null
    {
      hide HashLinked, Buckets, Without;
      var b := HashPageId(page.id, table.Length);
      BucketsLeave(pages, chains, page);
      HashCut(page, b, chains[b]);
      forall c | 0 <= c < |chains| && c != b
        ensures HashLinked(chains[c], table[c])
      {
        assert old(HashLinked(chains[c], table[c]));
        BucketsApart(pages, chains, b, c);
      }
      chains := chains[b := Without(chains[b], page)];
      pages := pages - {page};
    }

    /** The pointer updates of hash_remove on bucket b, whose chain is s. */
    method HashCut(page: Page, b: nat, ghost s: seq<Page>)
      requires b < table.Length && page in s && HashLinked(s, table[b])
      modifies table, s`hashNext, s`hashPrev
      ensures HashLinked(Without(s, page), table[b]) && page.hashNext == null && page.hashPrev == null
      ensures forall c :: 0 <= c < table.Length && c != b ==> table[c] == old(table[c])
    {
      ghost var k: int, r := IndexOf(s, page), Without(s, page);
      WithoutMembers(s, page);
      assert page.hashPrev == At(s, k - 1) && page.hashNext == At(s, k + 1);
      if page.hashPrev != null {
        page.hashPrev.hashNext := page.hashNext;
      } else {
        table[b] := page.hashNext;
      }
      if page.hashNext != null {
        page.hashNext.hashPrev := page.hashPrev;
      }
      page.hashNext := null;
      page.hashPrev := null;
      forall i | 0 <= i < |r|
        ensures r[i].hashNext == At(r, i + 1) && r[i].hashPrev == At(r, i - 1)
      {
        WithoutNeighbours(s, page, i);
      }
    }

    method HashFind(id: nat) returns (page: Page?)
      requires Linked()
      ensures page == if id in index then index[id] else null
    {
      DirectoryLookup(pages, index, lru, chains, id);
      var b := HashPageId(id, table.Length);
      page := ChainFind(table[b], id, chains[b]);
    }

    /** The loop of hash_find along the chain s. */
    static method ChainFind(head: Page?, id: nat, ghost s: seq<Page>) returns (page: Page?)
      requires HashLinked(s, head)
      ensures page != null ==> page in s && page.id == id
      ensures page == null ==> forall p :: p in s ==> p.id != id
    {
      page := head;
      ghost var i := 0;
      while page != null
        invariant 0 <= i <= |s| && page == At(s, i)
        invariant forall j :: 0 <= j < i ==> s[j].id != id
        decreases |s| - i
      {
        if page.id == id {
          return;
        }
        page := page.hashNext;
        i := i + 1;
      }
    }

    /** Insert a page just read: into its hash chain and at the front of the list. */
    method Enter(page: Page)
      requires Linked() && page !in pages && page.id !in index
      modifies this`lruHead, this`lruTail, this`lru, this`chains, this`count, this`pages, this`index
      modifies table, pages`lruPrev, pages`hashPrev
      modifies page`lruNext, page`lruPrev, page`hashNext, page`hashPrev
      ensures Linked()
      ensures pages == old(pages) + {page} && index == old(index)[page.id := page]
      ensures lru == [page] + old(lru) && count == old(count) + 1
    {
      hide Directory, LruLinks, ChainsLinked;
      DirectoryFacts(pages, index, lru, chains, page);
      DirectoryEnter(pages, index, lru, chains, page);
      HashInsert(page);
      LruAddFront(page);
      index := index[page.id := page];
      count := count + 1;
    }

    /** Take a page out of the list and out of its hash chain. */
    method Leave(page: Page)
      requires Linked() && page in pages
      modifies this`lruHead, this`lruTail, this`lru, this`chains, this`count, this`evictCount
      modifies this`pages, this`index, table
      modifies pages`lruNext, pages`lruPrev, pages`hashNext, pages`hashPrev
      ensures Linked()
      ensures pages == old(pages) - {page} && index == old(index) - {page.id}
      ensures lru == Without(old(lru), page) && count == old(count) - 1
      ensures evictCount == old(evictCount) + 1
    {
      hide Directory, LruLinked, LruLinks, Without, ChainsLinked, Buckets, Hash;
      DirectoryFacts(pages, index, lru, chains, page);
      DirectoryLeave(pages, index, lru, chains, page);
      LruUnlink(page);
      HashRemove(page);
      index := index - {page.id};
      count := count - 1;
      evictCount := evictCount + 1;
    }

    /** lru_mru, with the repair: move a page to the front of the list. */
    method LruTouch(page: Page)
      requires Linked() && page in pages
      modifies this`lruHead, this`lruTail, this`lru, pages`lruNext, pages`lruPrev
      ensures Linked()
      ensures page in old(lru) && lru == [page] + Without(old(lru), page)
    {
      hide Directory, LruLinked, Without, ChainsLinked;
      DirectoryTouch(pages, index, lru, chains, page);
      LruUnlink(page);
      LruAddFront(page);
      assert ChainsLinked();
    }

    /** Write a page out if it is dirty.  A failed write may leave any mixture on the disk, which
        no client sees because the page stays cached and dirty. */
    method WriteBack(page: Page) returns (ok: bool)
      requires Valid() && page in pages
      modifies pager`file
      ensures Valid() && (old(pager.Valid()) ==> pager.Valid())
      ensures Contents() == old(Contents())
      ensures page.id in pager.live && (ok ==> PageAt(pager.file, page.id) == page.data[..])
      ensures pager.reliable ==> ok
    {
      hide Directory, LruLinked, ChainsLinked, ByRecency;
      DirectoryIds(pages, index, lru, chains);
      ok := true;
      if page.isDirty {
        ok := pager.WritePage(page.id, page.data);
      }
    }

    lemma Ids()
      requires Linked()
      ensures forall p {:trigger p in pages} :: p in pages ==> p.id in index && index[p.id] == p
      ensures forall id {:trigger id in index} :: id in index ==> index[id] in pages && index[id].id == id
      ensures count == |lru| && forall p {:trigger p in pages} :: p in pages <==> p in lru
      ensures table.Length == |chains| > 0
    {
      DirectoryIds(pages, index, lru, chains);
    }

    /** Evict one unpinned page, whichever it is: write it back, then unlink it.  The bodies of
        evict_lru_page and page_cache_evict agree from here on. */
    method Drop(page: Page) returns (ok: bool)
      requires Valid() && page in pages && page.refcount == 0
      modifies this`lruHead, this`lruTail, this`lru, this`chains, this`count, this`evictCount
      modifies this`pages, this`index, table, pager`file
      modifies pages`lruNext, pages`lruPrev, pages`hashNext, pages`hashPrev
      ensures Valid() && (old(pager.Valid()) ==> pager.Valid())
      ensures Contents() == old(Contents()) && forall id :: Pins(id) == old(Pins(id))
      ensures ok ==> pages == old(pages) - {page} && count == old(count) - 1
      ensures !ok ==> pages == old(pages) && count == old(count)
      ensures pager.reliable ==> ok
      ensures evictCount == old(evictCount) + if ok then 1 else 0
    {
      hide Linked, Coherent, ByRecency, Views, Buffered;
      ok := WriteBack(page);
      if ok {
        Forget(page);
      }
    }

    /** Unlink an unpinned page whose bytes are on the disk. */
    method Forget(page: Page)
      requires Valid() && page in pages && page.refcount == 0
      requires page.id in pager.live && page.data[..] == PageAt(pager.file, page.id)
      modifies this`lruHead, this`lruTail, this`lru, this`chains, this`count, this`evictCount
      modifies this`pages, this`index, table
      modifies pages`lruNext, pages`lruPrev, pages`hashNext, pages`hashPrev
      ensures Valid()
      ensures Contents() == old(Contents()) && forall id :: Pins(id) == old(Pins(id))
      ensures pages == old(pages) - {page} && count == old(count) - 1
      ensures evictCount == old(evictCount) + 1
    {
      hide Linked, Without, ByRecency, Views;
      Ids();
      ghost var was := lru;
      LeaveUnseen(index, page);
      Leave(page);
      RecencyWithout(was, clock, page);
    }

    /** evict_lru_page: the victim is the least recently obtained of the unpinned pages. */
    method EvictLru() returns (ok: bool, ghost victim: Page?)
      requires Valid()
      modifies this`lruHead, this`lruTail, this`lru, this`chains, this`count, this`evictCount
      modifies this`pages, this`index, table, pager`file
      modifies pages`lruNext, pages`lruPrev, pages`hashNext, pages`hashPrev
      ensures Valid() && (old(pager.Valid()) ==> pager.Valid())
      ensures Contents() == old(Contents()) && forall id :: Pins(id) == old(Pins(id))
      ensures ok ==> victim != null && victim in old(pages) && pages == old(pages) - {victim}
      ensures !ok ==> pages == old(pages)
      ensures count == old(count) - if ok then 1 else 0
      // never a pinned page, and the one whose last use lies furthest back
      ensures victim != null ==> victim in old(pages) && old(victim.refcount) == 0
      ensures victim != null ==>
        forall p :: p in old(pages) && old(p.refcount) == 0 && p != victim ==> victim.stamp < p.stamp
      // fails only if everything is pinned or the write failed
      ensures victim == null ==> forall p :: p in pages ==> p.refcount > 0
      ensures !ok && pager.reliable ==> victim == null
      ensures evictCount == old(evictCount) + if ok then 1 else 0
    {
      hide Linked, Coherent, Views, Buffered;
      var candidate := FindVictim();
      victim := candidate;
      if candidate == null {
        return false, null;
      }
      ok := Drop(candidate);
    }

    /** The search of evict_lru_page from the tail of the list. */
    method FindVictim() returns (victim: Page?)
      requires Linked() && ByRecency(lru, clock)
      ensures victim == null ==> forall p :: p in pages ==> p.refcount > 0
      ensures victim != null ==> victim in pages && victim.refcount == 0
      ensures victim != null ==>
        forall p :: p in pages && p.refcount == 0 && p != victim ==> victim.stamp < p.stamp
    {
      hide Directory, ChainsLinked;
      Ids();
      victim := lruTail;
      ghost var i := |lru| - 1;
      while victim != null
        invariant -1 <= i < |lru| && victim == At(lru, i)
        invariant forall j :: i < j < |lru| ==> lru[j].refcount > 0
        decreases i
      {
        if victim.refcount == 0 {
          break;
        }
        victim := victim.lruPrev;
        i := i - 1;
      }
      if victim != null {
        forall p | p in pages && p.refcount == 0 && p != victim
          ensures victim.stamp < p.stamp
        {
          var j :| 0 <= j < |lru| && lru[j] == p;
        }
      }
    }

    /** page_cache_get and page_pin.  With one thread the second look-up of the source cannot
        succeed and is not repeated. */
    method Get(id: nat) returns (page: Page?)
      requires Valid() && id != 0 && (id in pager.live || pager.pageCount <= id)
      modifies this, table, pager`file
      modifies pages`lruNext, pages`lruPrev, pages`hashNext, pages`hashPrev, pages`refcount, pages`stamp
      ensures Valid() && (old(pager.Valid()) ==> pager.Valid())
      ensures Contents() == old(Contents())
      ensures forall i :: Pins(i) == old(Pins(i)) + if page != null && i == id then 1 else 0
      ensures page != null ==> page in pages && page.id == id && id in pager.live
      ensures page != null ==> forall p :: p in pages && p != page ==> p.stamp < page.stamp
      ensures forall p :: p in pages && p !in old(pages) ==> fresh(p) && fresh(p.data)
      // the only failure without an input/output error is a cache full of pinned pages
      ensures page == null && pager.reliable && id in pager.live ==>
        old(id !in index && count == maxPages && forall p :: p in pages ==> p.refcount > 0)
      ensures hitCount == old(hitCount) + (if old(id in index) then 1 else 0)
      ensures missCount == old(missCount) + (if old(id in index) then 0 else 1)
      ensures pinCount == old(pinCount) + if page != null then 1 else 0
    {
      hide Linked, Coherent, Views, Buffered, ByRecency;
      Ids();
      page := HashFind(id);
      if page != null {
        Hit(page);
      } else {
        page := Miss(id);
      }
    }

    method Hit(page: Page)
      requires Valid() && page in pages
      modifies this`lruHead, this`lruTail, this`lru, this`clock, this`hitCount, this`pinCount
      modifies pages`lruNext, pages`lruPrev, page`refcount, page`stamp
      ensures Valid()
      ensures Contents() == old(Contents())
      ensures forall i :: Pins(i) == old(Pins(i)) + if i == page.id then 1 else 0
      ensures page.id in pager.live
      ensures forall p :: p in pages && p != page ==> p.stamp < page.stamp
      ensures hitCount == old(hitCount) + 1 && pinCount == old(pinCount) + 1
    {
      hide Linked, ByRecency, Buffered, Views, Coherent, Contents;
      Ids();
      hitCount := hitCount + 1;
      Refresh(page);
      Pin(page);
    }

    /** Moving a cached page to the front is invisible to clients. */
    method Refresh(page: Page)
      requires Valid() && page in pages
      modifies this`lruHead, this`lruTail, this`lru, this`clock, pages`lruNext, pages`lruPrev, page`stamp
      ensures Valid() && page.id in pager.live
      ensures Contents() == old(Contents()) && forall i :: Pins(i) == old(Pins(i))
      ensures forall p :: p in pages && p != page ==> p.stamp < page.stamp
    {
      hide Linked, ByRecency, Buffered, Views;
      Ids();
      Use(page);
    }

    method Pin(page: Page)
      requires Valid() && page in pages
      modifies page`refcount, this`pinCount
      ensures Valid() && Contents() == old(Contents())
      ensures forall i :: Pins(i) == old(Pins(i)) + if i == page.id then 1 else 0
      ensures pinCount == old(pinCount) + 1
    {
      hide Linked, ByRecency, Buffered, Views, Coherent;
      Ids();
      page.refcount := page.refcount + 1;
      pinCount := pinCount + 1;
    }

    lemma TouchFacts(page: Page)
      requires Linked() && ByRecency(lru, clock) && page in pages
      ensures page in lru && page !in Without(lru, page) && ByRecency(Without(lru, page), clock)
      ensures forall p :: p in pages && p != page ==> p in Without(lru, page)
    {
      hide LruLinked, ChainsLinked;
      Ids();
      WithoutMembers(lru, page);
      RecencyWithout(lru, clock, page);
    }

    /** Make a page the most recently used one. */
    method Use(page: Page)
      requires Linked() && ByRecency(lru, clock) && page in pages
      modifies this`lruHead, this`lruTail, this`lru, this`clock, pages`lruNext, pages`lruPrev, page`stamp
      ensures Linked() && ByRecency(lru, clock) && |lru| == |old(lru)|
      ensures forall p :: p in pages && p != page ==> p.stamp < page.stamp
    {
      hide Linked, Without, ByRecency;
      TouchFacts(page);
      ghost var others := Without(lru, page);
      LruTouch(page);
      page.stamp := clock + 1;
      RecencyFront(others, clock, page);
      clock := clock + 1;
    }

    method Miss(id: nat) returns (page: Page?)
      requires Valid() && id !in index && id != 0 && (id in pager.live || pager.pageCount <= id)
      modifies this, table, pager`file
      modifies pages`lruNext, pages`lruPrev, pages`hashNext, pages`hashPrev
      ensures Valid() && (old(pager.Valid()) ==> pager.Valid())
      ensures Contents() == old(Contents())
      ensures forall i :: Pins(i) == old(Pins(i)) + if page != null && i == id then 1 else 0
      ensures page != null ==> page in pages && page.id == id && id in pager.live
      ensures page != null ==> forall p :: p in pages && p != page ==> p.stamp < page.stamp
      ensures forall p :: p in pages && p !in old(pages) ==> fresh(p) && fresh(p.data)
      ensures page == null && pager.reliable && id in pager.live ==>
        old(count == maxPages && forall p :: p in pages ==> p.refcount > 0)
      ensures hitCount == old(hitCount) && missCount == old(missCount) + 1
      ensures pinCount == old(pinCount) + if page != null then 1 else 0
    {
      hide Linked, Coherent, Views, Buffered, ByRecency;
      Ids();
      missCount := missCount + 1;
      var room := MakeRoom();
      if !room {
        return null;
      }
      Ids();
      page := Load(id);
    }

    /** Evict until a frame is free. */
    method MakeRoom() returns (ok: bool)
      requires Valid()
      modifies this`lruHead, this`lruTail, this`lru, this`chains, this`count, this`evictCount
      modifies this`pages, this`index, table, pager`file
      modifies pages`lruNext, pages`lruPrev, pages`hashNext, pages`hashPrev
      ensures Valid() && (old(pager.Valid()) ==> pager.Valid())
      ensures Contents() == old(Contents()) && forall id :: Pins(id) == old(Pins(id))
      ensures pages <= old(pages)
      ensures ok ==> count < maxPages
      ensures !ok && pager.reliable ==> old(count == maxPages && forall p :: p in pages ==> p.refcount > 0)
    {
      hide Linked, Coherent, Views, Buffered, ByRecency, Pager.Valid, Pins;
      while count >= maxPages
        invariant Valid() && (old(pager.Valid()) ==> pager.Valid())
        invariant Contents() == old(Contents()) && forall id :: Pins(id) == old(Pins(id))
        invariant pages <= old(pages)
        invariant count == maxPages ==> pages == old(pages) && count == old(count)
        decreases count
      {
        ghost var victim;
        ok, victim := EvictLru();
        if !ok {
          return;
        }
      }
      ok := true;
    }

    /** Read a page from the disk into a free frame. */
    method Load(id: nat) returns (page: Page?)
      requires Valid() && id !in index && id != 0 && (id in pager.live || pager.pageCount <= id)
      requires count < maxPages
      modifies this, table, pages`lruPrev, pages`hashPrev
      ensures Valid() && Contents() == old(Contents())
      ensures forall i :: Pins(i) == old(Pins(i)) + if page != null && i == id then 1 else 0
      ensures page != null ==> page in pages && page.id == id && id in pager.live
      ensures page != null ==> forall p :: p in pages && p != page ==> p.stamp < page.stamp
      ensures forall p :: p in pages && p !in old(pages) ==> fresh(p) && fresh(p.data)
      ensures pager.reliable && id in pager.live ==> page != null
      ensures unchanged(`hitCount, `missCount) && pinCount == old(pinCount) + if page != null then 1 else 0
    {
      hide Linked, Views, ByRecency;
      Ids();
      page := new Page(id);
      var ok := pager.ReadPage(id, page.data);
      if !ok {
        return null;
      }
      Admit(page);
    }

    /** Take a page just read into the cache, pinned once. */
    method Admit(page: Page)
      requires Valid() && page !in pages && page.id !in index && page.id in pager.live && count < maxPages
      requires !page.isDirty && page.data.Length == PAGE_SIZE && page.data[..] == PageAt(pager.file, page.id)
      requires forall p :: p in pages ==> p.data != page.data
      modifies this`lruHead, this`lruTail, this`lru, this`chains, this`count, this`pages, this`index
      modifies this`clock, this`pinCount, table, pages`lruPrev, pages`hashPrev
      modifies page`lruNext, page`lruPrev, page`hashNext, page`hashPrev, page`refcount, page`stamp
      ensures Valid() && Contents() == old(Contents())
      ensures forall i :: Pins(i) == old(Pins(i)) + if i == page.id then 1 else 0
      ensures pages == old(pages) + {page}
      ensures forall p :: p in pages && p != page ==> p.stamp < page.stamp
      ensures pinCount == old(pinCount) + 1
    {
      hide Linked, ByRecency, Buffered, Coherent, Views;
      Ids();
      BufferedEnter(pages, page);
      CoherentEnter(pages, page);
      SameViews(index, page);
      clock, pinCount := clock + 1, pinCount + 1;
      page.stamp, page.refcount := clock, 1;
      RecencyFront(lru, clock - 1, page);
      Enter(page);
      assert Linked() && Buffered(pages);
      assert Coherent(pages);
    }

    // ----- Access to a pinned page -----

    /** Valid, except that the bytes of one page may have changed since it was last marked. */
    ghost predicate ValidBut(page: Page)
      reads this, table, pager, pages, (set p | p in pages && p != page :: p.data)
    {
      && pager.Sane()
      && Linked()
      && Buffered(pages)
      && Coherent(pages - {page})
      && ByRecency(lru, clock)
      && count <= maxPages && 1 <= maxPages
      && page in pages && page.id in pager.live
    }

    /** The contents of the live pages other than the given one. */
    ghost function Others(page: Page): map<nat, Bytes>
      requires ValidBut(page)
      reads this, table, pager, pages, (set p | p in pages && p != page :: p.data)
    {
      Ids();
      map id | id in pager.live && id != page.id ::
        if id in index then index[id].data[..] else PageAt(pager.file, id)
    }

    /** A pinned page may be written freely: nothing but its own contents changes. */
    lemma Writable(page: Page)
      requires Valid() && page in pages
      ensures ValidBut(page) && page.data.Length == PAGE_SIZE
      ensures forall p :: p in pages && p != page ==> p.data != page.data
      ensures Contents() == Others(page)[page.id := page.data[..]]
    {
      hide LruLinked, ChainsLinked, ByRecency;
      Ids();
    }

    /** Marking a page dirty after writing it makes the cache valid again, with that page's new
        contents and all others as before. */
    method MarkDirty(page: Page)
      requires ValidBut(page)
      modifies page`isDirty
      ensures Valid()
      ensures Contents() == old(Others(page))[page.id := page.data[..]]
      ensures forall id :: Pins(id) == old(Pins(id))
    {
      hide Linked, ByRecency;
      Ids();
      page.MarkDirty();
      forall p | p in pages
        ensures p.id in pager.live && (!p.isDirty ==> p.data[..] == PageAt(pager.file, p.id))
      {
        assert p != page ==> p in pages - {page};
      }
    }

    /** page_cache_release. */
    method Release(page: Page)
      requires Valid() && page in pages
      modifies page`refcount
      ensures Valid() && Contents() == old(Contents())
      ensures forall id :: Pins(id) == old(Pins(id)) - if id == page.id && old(Pins(id)) > 0 then 1 else 0
    {
      hide Linked, ByRecency, Coherent, Views, Buffered;
      Ids();
      page.Unpin();
    }

    // ----- Flushing and explicit eviction -----

    ghost function Dirty(): set<nat>
      reads this`pages, pages`isDirty
    {
      set p | p in pages && p.isDirty :: p.id
    }

    /** Write a page out if it is dirty and, if that succeeded, mark it clean. */
    method CleanPage(page: Page) returns (ok: bool)
      requires Valid() && page in pages
      modifies pager`file, page`isDirty
      ensures Valid() && (old(pager.Valid()) ==> pager.Valid())
      ensures Contents() == old(Contents())
      ensures ok ==> !page.isDirty && Dirty() == old(Dirty()) - {page.id}
      ensures !ok ==> page.isDirty == old(page.isDirty) && Dirty() == old(Dirty())
      ensures pager.reliable ==> ok
    {
      hide Linked, ByRecency, Buffered, Views;
      Ids();
      ok := WriteBack(page);
      if ok {
        page.isDirty := false;
      }
    }

    /** page_cache_flush_page. */
    method FlushPage(id: nat) returns (ok: bool)
      requires Valid()
      modifies pager`file, pages`isDirty
      ensures Valid() && (old(pager.Valid()) ==> pager.Valid())
      ensures Contents() == old(Contents()) && forall i :: Pins(i) == old(Pins(i))
      ensures Dirty() == old(Dirty()) - if ok then {id} else {}
      ensures ok ==> id in index
      ensures pager.reliable ==> (ok <==> id in index)
    {
      hide Linked, ByRecency, Buffered, Views, Coherent;
      Ids();
      var page := HashFind(id);
      if page == null {
        return false;
      }
      ok := CleanPage(page);
    }

    /** page_cache_evict: refuses a page that is absent or pinned. */
    method Evict(id: nat) returns (ok: bool)
      requires Valid()
      modifies this, table, pager`file
      modifies pages`lruNext, pages`lruPrev, pages`hashNext, pages`hashPrev
      ensures Valid() && (old(pager.Valid()) ==> pager.Valid())
      ensures Contents() == old(Contents()) && forall i :: Pins(i) == old(Pins(i))
      ensures ok ==> old(id in index && Pins(id) == 0) && id !in index
      ensures pages == if ok then old(pages) - {old(index[id])} else old(pages)
      ensures pager.reliable ==> (ok <==> old(id in index && Pins(id) == 0))
      ensures evictCount == old(evictCount) + if ok then 1 else 0
    {
      hide Linked, ByRecency, Buffered, Views, Coherent;
      Ids();
      var page := HashFind(id);
      if page == null || page.refcount > 0 {
        return false;
      }
      ok := Drop(page);
      Ids();
    }

    /** page_cache_flush: the number of pages written; pages whose write failed stay dirty. */
    method Flush() returns (flushed: nat)
      requires Valid()
      modifies pager`file, pages`isDirty
      ensures Valid() && (old(pager.Valid()) ==> pager.Valid())
      ensures Contents() == old(Contents()) && forall i :: Pins(i) == old(Pins(i))
      ensures Dirty() <= old(Dirty()) && flushed == |old(Dirty())| - |Dirty()|
      ensures pager.reliable ==> Dirty() == {}
    {
      hide Linked, ByRecency, Buffered, Views, Coherent, Dirty;
      Ids();
      flushed := 0;
      for b := 0 to table.Length
        invariant Valid() && (old(pager.Valid()) ==> pager.Valid())
        invariant Contents() == old(Contents())
        invariant Dirty() <= old(Dirty()) && flushed == |old(Dirty())| - |Dirty()|
        invariant pager.reliable ==> forall id :: id in Dirty() ==> b <= Hash(id, table.Length)
      {
        var n := FlushChain(b);
        flushed := flushed + n;
      }
    }

    /** The inner loop of page_cache_flush, along the chain of bucket b. */
    method FlushChain(b: nat) returns (flushed: nat)
      requires Valid() && b < table.Length
      modifies pager`file, pages`isDirty
      ensures Valid() && (old(pager.Valid()) ==> pager.Valid())
      ensures Contents() == old(Contents())
      ensures Dirty() <= old(Dirty()) && flushed == |old(Dirty())| - |Dirty()|
      ensures pager.reliable ==> forall id :: id in Dirty() ==> Hash(id, table.Length) != b
    {
      hide Linked, ByRecency, Buffered, Views, Coherent, Dirty;
      Ids();
      ghost var s := chains[b];
      ChainHolds(b);
      flushed := 0;
      var page := table[b];
      ghost var i := 0;
      while page != null
        invariant 0 <= i <= |s| && page == At(s, i)
        invariant Valid() && (old(pager.Valid()) ==> pager.Valid())
        invariant Contents() == old(Contents())
        invariant Dirty() <= old(Dirty()) && flushed == |old(Dirty())| - |Dirty()|
        invariant pager.reliable ==> forall j :: 0 <= j < i ==> s[j].id !in Dirty()
        decreases |s| - i
      {
        var n := FlushOne(page);
        flushed := flushed + n;
        page := page.hashNext;
        i := i + 1;
      }
      ChainHolds(b);
    }

    method FlushOne(page: Page) returns (n: nat)
      requires Valid() && page in pages
      modifies pager`file, page`isDirty
      ensures Valid() && (old(pager.Valid()) ==> pager.Valid())
      ensures Contents() == old(Contents())
      ensures Dirty() <= old(Dirty()) && n == |old(Dirty())| - |Dirty()|
      ensures pager.reliable ==> page.id !in Dirty()
    {
      hide Linked, ByRecency, Buffered, Views, Coherent;
      Ids();
      n := 0;
      if page.isDirty {
        assert page.id in Dirty();
        var ok := CleanPage(page);
        if ok {
          n := 1;
        }
      }
    }

    lemma ChainHolds(b: nat)
      requires Linked() && b < table.Length == |chains|
      ensures HashLinked(chains[b], table[b])
      ensures forall i :: 0 <= i < |chains[b]| ==> chains[b][i] in pages
      ensures forall id :: id in Dirty() && Hash(id, table.Length) == b ==>
        exists i :: 0 <= i < |chains[b]| && chains[b][i].id == id
    {
      Ids();
      forall id | id in Dirty() && Hash(id, table.Length) == b
        ensures exists i :: 0 <= i < |chains[b]| && chains[b][i].id == id
      {
        assert index[id] in chains[b];
      }
    }

    /** With no page dirty, the disk alone holds everything a client sees. */
    lemma CleanMeansOnDisk()
      requires Valid() && Dirty() == {}
      ensures Contents() == map id | id in pager.live :: PageAt(pager.file, id)
    {
      hide LruLinked, ChainsLinked, ByRecency;
      Ids();
      assert forall p :: p in pages && p.isDirty ==> p.id in Dirty();
    }
  }
}
