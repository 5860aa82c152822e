/** The B+tree as the source builds it: a single leaf page reached through the page cache. */
module Trees {
  import opened Bytes
  import opened LeafPage
  import opened FreeList
  import opened Allocator
  import opened PageCounts
  import opened Paging
  import opened Caching

  /** What inserting does to the list of pairs: the first value written under a key stays. */
  function Inserted(s: seq<Pair>, key: nat, value: Bytes): seq<Pair> {
    if Position(s, key) < |s| then s else s + [Pair(key, value)]
  }

  /** A scan has read the first n pairs. */
  ghost predicate Taken(pairs: seq<Pair>, all: seq<Pair>, n: nat) {
    n <= |all| && pairs == all[..n]
  }

  lemma TakenNone(all: seq<Pair>)
    ensures Taken([], all, 0)
  {
  }

  lemma TakenMore(pairs: seq<Pair>, all: seq<Pair>, n: nat)
    requires Taken(pairs, all, n)
    ensures n <= |all| && (n < |all| ==> Taken(pairs + [all[n]], all, n + 1)) && (n == |all| ==> pairs == all)
  {
  }

  lemma NoPageHolds(s: seq<Pair>, key: nat, value: Bytes)
    ensures !Fits(s, value) ==> forall r :: WellFormed(r) ==> Pairs(r) != s + [Pair(key, value)]
  {
    hide Fits, CellOk, DistinctKeys, Pairs;
    forall r | WellFormed(r) && Pairs(r) == s + [Pair(key, value)]
      ensures Fits(s, value)
    {
      FitsIfHeld(r, s, Pair(key, value));
    }
  }

  /** A position in a tree. */
  class Cursor {
    var cell: nat
    var isEnd: bool

    constructor (cell: nat, isEnd: bool)
      ensures this.cell == cell && this.isEnd == isEnd
    {
      this.cell, this.isEnd := cell, isEnd;
    }
  }

  class BTree {
    const pager: Pager
    const cache: PageCache
    const rootPage: nat

    /** btree_open. */
    constructor (cache: PageCache, rootPage: nat)
      ensures this.cache == cache && this.pager == cache.pager && this.rootPage == rootPage
    {
      this.cache, this.pager, this.rootPage := cache, cache.pager, rootPage;
    }

    ghost predicate Ready()
      reads this, cache, cache.table, pager, cache.pages, (set p | p in cache.pages :: p.data)
    {
      && pager == cache.pager
      && cache.Valid()
      && rootPage in pager.live
      && WellFormed(cache.Contents()[rootPage])
    }

    /** The pairs in the tree, in the order in which their keys were first inserted. */
    ghost function Data(): seq<Pair>
      requires Ready()
      reads this, cache, cache.table, pager, cache.pages, (set p | p in cache.pages :: p.data)
    {
      Pairs(cache.Contents()[rootPage])
    }

    /** What a client sees of all pages. */
    ghost function View(): map<nat, Bytes>
      requires Ready()
      reads this, cache, cache.table, pager, cache.pages, (set p | p in cache.pages :: p.data)
    {
      cache.Contents()
    }

    lemma RootUpdate()
      requires Ready()
      ensures cache.Contents()[rootPage := cache.Contents()[rootPage]] == cache.Contents()
    {
    }

    /** page_pin of the root. */
    method PinRoot() returns (page: Page?)
      requires Ready()
      modifies cache.Repr(), pager`file
      ensures Ready() && (old(pager.Valid()) ==> pager.Valid())
      ensures cache.Contents() == old(cache.Contents())
      ensures forall i :: cache.Pins(i) == old(cache.Pins(i)) + if page != null && i == rootPage then 1 else 0
      ensures fresh(cache.Repr() - old(cache.Repr()))
      ensures page != null ==> page in cache.pages && page.id == rootPage && page.data.Length == PAGE_SIZE
      ensures page != null ==> page.data[..] == cache.Contents()[rootPage]
      ensures old(cache.Idle()) ==> page != null
    {
      hide WellFormed, PageCache.Linked, ByRecency, Buffered, PageCache.Coherent, PageCache.Views;
      if cache.Idle() && cache.count == cache.maxPages {
        cache.IdleHasVictim();
      }
      page := cache.Get(rootPage);
      if page != null {
        cache.Writable(page);
      }
    }

    /** btree_find on a leaf root. */
    method Find(key: nat) returns (cursor: Cursor?)
      requires Ready()
      modifies cache.Repr(), pager`file
      ensures Ready() && (old(pager.Valid()) ==> pager.Valid())
      ensures cache.Contents() == old(cache.Contents()) && forall i :: cache.Pins(i) == old(cache.Pins(i))
      ensures fresh(cache.Repr() - old(cache.Repr()))
      ensures cursor != null ==> fresh(cursor)
      ensures cursor != null ==> cursor.cell == Position(Data(), key) && cursor.isEnd == (cursor.cell == |Data()|)
      ensures old(cache.Idle()) ==> cursor != null
    {
      hide Pager.Valid, Represents, PageCache.Contents, PageCache.Valid;
      hide CellOk, Position, PageCache.Linked, ByRecency, Buffered, PageCache.Coherent, PageCache.Views;
      var page := PinRoot();
      if page == null {
        return null;
      }
      var cell := FindCell(page.data, key);
      var count := U16At(page.data, 1);
      cache.Release(page);
      cursor := new Cursor(cell, cell == count);
    }

    /** btree_get: fails at the end, past the last cell and when the page cannot be pinned. */
    method Get(cursor: Cursor) returns (ok: bool, key: nat, value: Bytes)
      requires Ready() && cursor !in cache.Repr()
      modifies cache.Repr(), pager`file
      ensures Ready() && (old(pager.Valid()) ==> pager.Valid())
      ensures cache.Contents() == old(cache.Contents()) && forall i :: cache.Pins(i) == old(cache.Pins(i))
      ensures fresh(cache.Repr() - old(cache.Repr()))
      ensures ok ==> !cursor.isEnd && cursor.cell < |Data()| && Data()[cursor.cell] == Pair(key, value)
      ensures old(cache.Idle()) && !cursor.isEnd && cursor.cell < |Data()| ==> ok
    {
      hide Pager.Valid, Represents, PageCache.Contents, PageCache.Valid;
      hide CellOk, Position, PageCache.Linked, ByRecency, Buffered, PageCache.Coherent, PageCache.Views;
      ok, key, value := false, 0, [];
      if cursor.isEnd {
        return;
      }
      var page := PinRoot();
      if page == null {
        return;
      }
      ok := cursor.cell < U16At(page.data, 1);
      if ok {
        key, value := ReadCell(page.data, cursor.cell);
      }
      cache.Release(page);
    }

    /** btree_first on a leaf root. */
    method First() returns (cursor: Cursor?)
      requires Ready()
      modifies cache.Repr(), pager`file
      ensures Ready() && (old(pager.Valid()) ==> pager.Valid())
      ensures View() == old(View()) && Data() == old(Data()) && forall i :: cache.Pins(i) == old(cache.Pins(i))
      ensures fresh(cache.Repr() - old(cache.Repr()))
      ensures cursor != null ==> fresh(cursor) && cursor.cell == 0 && cursor.isEnd == (Data() == [])
      ensures old(cache.Idle()) ==> cursor != null && cache.Idle()
    {
      hide Pager.Valid, Represents, PageCache.Contents, PageCache.Valid;
      hide CellOk, Position, PageCache.Linked, ByRecency, Buffered, PageCache.Coherent, PageCache.Views;
      var page := PinRoot();
      if page == null {
        return null;
      }
      var count := U16At(page.data, 1);
      cache.Release(page);
      cursor := new Cursor(0, count == 0);
    }

    /** btree_cursor_next: does nothing at the end or when the page cannot be pinned. */
    method Next(cursor: Cursor)
      requires Ready() && cursor !in cache.Repr()
      modifies cursor
      modifies cache.Repr(), pager`file
      ensures Ready() && (old(pager.Valid()) ==> pager.Valid())
      ensures cache.Contents() == old(cache.Contents()) && forall i :: cache.Pins(i) == old(cache.Pins(i))
      ensures fresh(cache.Repr() - old(cache.Repr()))
      ensures old(cursor.isEnd) ==> cursor.isEnd && cursor.cell == old(cursor.cell)
      ensures !old(cursor.isEnd) ==>
        || (!cursor.isEnd && cursor.cell == old(cursor.cell) && !old(cache.Idle()))
        || (cursor.isEnd == (old(cursor.cell) + 1 >= |Data()|)
            && cursor.cell == if cursor.isEnd then |Data()| else old(cursor.cell) + 1)
    {
      hide Pager.Valid, Represents, PageCache.Contents, PageCache.Valid;
      hide CellOk, Position, PageCache.Linked, ByRecency, Buffered, PageCache.Coherent, PageCache.Views;
      if cursor.isEnd {
        return;
      }
      var page := PinRoot();
      if page == null {
        return;
      }
      var count := U16At(page.data, 1);
      cache.Release(page);
      cursor.cell := cursor.cell + 1;
      if cursor.cell >= count {
        cursor.isEnd := true;
        cursor.cell := count;
      }
    }

    /** A scan from btree_first yields each pair once, in first-insertion order.  It gives up when a
        page cannot be obtained, which shows in a failed read or a cursor that does not move. */
    method Scan() returns (ok: bool, pairs: seq<Pair>)
      requires Ready()
      modifies cache.Repr(), pager`file
      ensures Ready() && (old(pager.Valid()) ==> pager.Valid())
      ensures View() == old(View()) && Data() == old(Data()) && forall i :: cache.Pins(i) == old(cache.Pins(i))
      ensures fresh(cache.Repr() - old(cache.Repr()))
      ensures ok ==> pairs == Data()
      ensures old(cache.Idle()) ==> ok
    {
      hide Pager.Valid, PageCache.Pins, PageCache.Idle, PageCache.Valid, Ready, Data, View, Taken;
      ok, pairs := false, [];
      ghost var all := Data();
      var first := First();
      if first == null {
        return;
      }
      var cursor: Cursor := first;
      ok := true;
      TakenNone(all);
      while ok && !cursor.isEnd
        invariant Ready() && (old(pager.Valid()) ==> pager.Valid()) && (old(cache.Idle()) ==> ok && cache.Idle())
        invariant View() == old(View()) && Data() == all && forall i :: cache.Pins(i) == old(cache.Pins(i))
        invariant fresh(cache.Repr() - old(cache.Repr())) && fresh(cursor) && cursor !in cache.Repr()
        invariant ok ==> cursor.cell <= |all| && cursor.isEnd == (cursor.cell == |all|)
        invariant ok ==> Taken(pairs, all, cursor.cell)
        decreases if ok then |all| - cursor.cell else 0, ok
      {
        TakenMore(pairs, all, cursor.cell);
        var pair;
        ok, pair := Visit(cursor);
        pairs := pairs + [pair];
      }
      if ok {
        TakenMore(pairs, all, cursor.cell);
      }
    }

    /** One round of a scan: read the current pair and move on. */
    method Visit(cursor: Cursor) returns (ok: bool, pair: Pair)
      requires Ready() && cursor !in cache.Repr()
      requires !cursor.isEnd && cursor.cell < |Data()|
      modifies cursor
      modifies cache.Repr(), pager`file
      ensures Ready() && (old(pager.Valid()) ==> pager.Valid())
      ensures View() == old(View()) && Data() == old(Data()) && forall i :: cache.Pins(i) == old(cache.Pins(i))
      ensures fresh(cache.Repr() - old(cache.Repr())) && cursor !in cache.Repr()
      ensures ok ==> pair == Data()[old(cursor.cell)]
      ensures ok ==> cursor.cell == old(cursor.cell) + 1 && cursor.isEnd == (cursor.cell == |Data()|)
      ensures old(cache.Idle()) ==> ok && cache.Idle()
    {
      hide Pager.Valid, Represents, PageCache.Contents, PageCache.Valid;
      hide WellFormed, Pairs, PageCache.Linked, ByRecency, Buffered, PageCache.Coherent, PageCache.Views;
      var cell := cursor.cell;
      var key, value;
      ok, key, value := Get(cursor);
      pair := Pair(key, value);
      if ok {
        Next(cursor);
        ok := cursor.isEnd || cursor.cell != cell;
      }
    }

    /** btree_insert.  The value must be shorter than the sixteen-bit cell size can express. */
    method Insert(key: nat, value: Bytes) returns (ok: bool)
      requires Ready() && key < U64_LIMIT && SLOT + CELL_OVERHEAD + |value| < U16_LIMIT
      modifies cache.Repr(), pager`file
      ensures Ready() && (old(pager.Valid()) ==> pager.Valid())
      ensures forall i :: cache.Pins(i) == old(cache.Pins(i))
      ensures fresh(cache.Repr() - old(cache.Repr()))
      // success keeps the first value under a key; a refused insert changes nothing
      ensures ok ==> Data() == Inserted(old(Data()), key, value)
      ensures !ok ==> cache.Contents() == old(cache.Contents()) && Data() == old(Data())
      // no other page changes
      ensures cache.Contents() == old(cache.Contents())[rootPage := cache.Contents()[rootPage]]
      ensures ok ==> HasKey(old(Data()), key) || Fits(old(Data()), value)
      ensures old(cache.Idle()) && (HasKey(old(Data()), key) || Fits(old(Data()), value)) ==> ok
      // a new key is refused on an idle cache only if no page holds the old pairs and the new one
      ensures old(cache.Idle()) && !ok ==> !HasKey(old(Data()), key)
      ensures old(cache.Idle()) && !ok ==> forall r :: WellFormed(r) ==> Pairs(r) != old(Data()) + [Pair(key, value)]
    {
      hide Position, HasKey, Pager.Valid, Represents, PageCache.Contents, PageCache.Valid;
      hide WellFormed, Pairs, Fits, PageCache.Linked, ByRecency, Buffered, PageCache.Coherent, PageCache.Views;
      RootUpdate();
      var cursor := Find(key);
      if cursor == null {
        ok := false;
      } else if !cursor.isEnd {
        TouchRoot();
        ok := true;
      } else {
        NoPageHolds(Data(), key, value);
        ok := InsertNew(key, value);
      }
    }

    /** page_unpin(page_pin(root)). */
    method TouchRoot()
      requires Ready()
      modifies cache.Repr(), pager`file
      ensures Ready() && (old(pager.Valid()) ==> pager.Valid())
      ensures cache.Contents() == old(cache.Contents()) && forall i :: cache.Pins(i) == old(cache.Pins(i))
      ensures fresh(cache.Repr() - old(cache.Repr()))
    {
      hide Pager.Valid, Represents, PageCache.Contents, PageCache.Valid;
      hide WellFormed, Pairs, PageCache.Linked, ByRecency, Buffered, PageCache.Coherent, PageCache.Views;
      var page := PinRoot();
      if page != null {
        cache.Release(page);
      }
    }

    /** The part of btree_insert after the key was not found. */
    method InsertNew(key: nat, value: Bytes) returns (ok: bool)
      requires Ready() && key < U64_LIMIT && SLOT + CELL_OVERHEAD + |value| < U16_LIMIT
      requires !HasKey(Data(), key)
      modifies cache.Repr(), pager`file
      ensures Ready() && (old(pager.Valid()) ==> pager.Valid())
      ensures forall i :: cache.Pins(i) == old(cache.Pins(i))
      ensures fresh(cache.Repr() - old(cache.Repr()))
      ensures ok ==> Data() == old(Data()) + [Pair(key, value)] && Fits(old(Data()), value)
      ensures !ok ==> cache.Contents() == old(cache.Contents())
      ensures cache.Contents() == old(cache.Contents())[rootPage := cache.Contents()[rootPage]]
      ensures old(cache.Idle()) && Fits(old(Data()), value) ==> ok
    {
      hide Pager.Valid, Represents, PageCache.Contents, PageCache.Valid;
      hide WellFormed, Pairs, Fits, PageCache.Linked, ByRecency, Buffered, PageCache.Coherent, PageCache.Views;
      RootUpdate();
      var page := PinRoot();
      if page == null {
        ok := false;
      } else {
        ok := Append(page, key, value);
        cache.Release(page);
      }
    }

    /** The space check and the writes of btree_insert on the pinned leaf. */
    method Append(page: Page, key: nat, value: Bytes) returns (ok: bool)
      requires Ready() && key < U64_LIMIT && SLOT + CELL_OVERHEAD + |value| < U16_LIMIT
      requires page in cache.pages && page.id == rootPage && page.data.Length == PAGE_SIZE
      requires page.data[..] == cache.Contents()[rootPage] && !HasKey(Data(), key)
      modifies page.data, page`isDirty
      ensures Ready() && forall i :: cache.Pins(i) == old(cache.Pins(i))
      ensures ok <==> Fits(old(Data()), value)
      ensures ok ==> Data() == old(Data()) + [Pair(key, value)]
      ensures !ok ==> cache.Contents() == old(cache.Contents())
      ensures cache.Contents() == old(cache.Contents())[rootPage := cache.Contents()[rootPage]]
    {
      hide CellOk, Used, Pairs, PageCache.Linked, ByRecency, Buffered, PageCache.Coherent, PageCache.Views;
      RootUpdate();
      SpaceLeft(page.data[..]);
      var count, start := U16At(page.data, 1), U16At(page.data, 3);
      var cellSize := (SLOT + CELL_OVERHEAD + |value|) % U16_LIMIT;
      ok := cellSize <= start - (HEADER + SLOT * count);
      if ok {
        AddCell(page, key, value);
      }
    }

    method AddCell(page: Page, key: nat, value: Bytes)
      requires Ready() && key < U64_LIMIT
      requires page in cache.pages && page.id == rootPage && page.data.Length == PAGE_SIZE
      requires page.data[..] == cache.Contents()[rootPage] && !HasKey(Data(), key) && Fits(Data(), value)
      modifies page.data, page`isDirty
      ensures Ready() && forall i :: cache.Pins(i) == old(cache.Pins(i))
      ensures Data() == old(Data()) + [Pair(key, value)]
      ensures cache.Contents() == old(cache.Contents())[rootPage := cache.Contents()[rootPage]]
    {
      hide CellOk, Pairs, Fits, HasKey, InsertImage, DistinctKeys;
      hide PageCache.Linked, ByRecency, Buffered, PageCache.Coherent, PageCache.Views, PageCache.Others;
      InsertAppends(page.data[..], key, value);
      cache.Writable(page);
      WriteCell(page.data, key, value);
      cache.MarkDirty(page);
    }
  }

  /** Allocating a page is invisible through the cache: every live page keeps its contents. */
  method AllocateBehind(cache: PageCache) returns (ok: bool, id: nat)
    requires cache.Valid() && cache.pager.Valid() && cache.pager.pageCount + 1 < U32_LIMIT
    modifies cache.pager
    ensures cache.Valid() && cache.pager.Valid()
    ensures ok ==> id == Granted(old(cache.pager.State()))
    ensures ok ==> cache.pager.State() == Step(old(cache.pager.State()), Allocate)
    ensures ok ==> id != 0 && id !in old(cache.pager.live) && id in cache.pager.live
    ensures old(cache.pager.live) <= cache.pager.live && cache.pager.pageCount <= old(cache.pager.pageCount) + 1
    ensures SameOn(old(cache.pager.live), old(cache.Contents()), cache.Contents())
    ensures CountKept(old(cache.pager.Counts()), cache.pager.Counts())
    ensures cache.pager.torn && !old(cache.pager.torn) ==> !ok
    ensures cache.pager.reliable ==> ok
  {
    hide PageCache.Linked, ByRecency, Buffered, Represents, HeaderTracks, HeaderCovers, Tearable;
    FreshGrant(cache.pager.file, cache.pager.State(), cache.pager.firstFreePage, cache.pager.freePageCount);
    ok, id := cache.pager.AllocatePage();
    FreeFits(cache.pager.file, cache.pager.State(), cache.pager.firstFreePage, cache.pager.freePageCount);
  }

  /** Two views agree on the given pages. */
  ghost predicate SameOn(ids: set<nat>, was: map<nat, Bytes>, now: map<nat, Bytes>) {
    forall id {:trigger id in ids} :: id in ids ==> id in was && id in now && now[id] == was[id]
  }

  /** btree_create: a new empty tree on a page of its own, or nothing. */
  method CreateTree(cache: PageCache) returns (tree: BTree?)
    requires cache.Valid() && cache.pager.Valid() && cache.pager.pageCount + 1 < U32_LIMIT
    modifies cache.Repr(), cache.pager
    ensures cache.Valid() && cache.pager.Valid()
    ensures forall i :: cache.Pins(i) == old(cache.Pins(i))
    ensures fresh(cache.Repr() - old(cache.Repr()))
    ensures SameOn(old(cache.pager.live), old(cache.Contents()), cache.Contents())
    ensures old(cache.pager.live) <= cache.pager.live && cache.pager.pageCount <= old(cache.pager.pageCount) + 1
    ensures tree != null ==> fresh(tree) && tree.cache == cache && tree.Ready() && tree.Data() == []
    ensures tree != null ==> tree.rootPage !in old(cache.pager.live)
    ensures CountKept(old(cache.pager.Counts()), cache.pager.Counts())
    ensures cache.pager.torn && !old(cache.pager.torn) ==> tree == null
    ensures old(cache.Idle()) ==> tree != null
  {
    hide Pager.Valid, Represents, PageCache.Contents, PageCache.Valid;
    hide PageCache.Linked, ByRecency, Buffered, PageCache.Coherent, PageCache.Views, EmptyImage;
    var ok, root := AllocateBehind(cache);
    tree := null;
    if ok {
      ok := InitRoot(cache, root);
      if ok {
        tree := new BTree(cache, root);
      }
    }
  }

  /** Pin the new root, make it an empty leaf, mark it dirty and unpin it. */
  method InitRoot(cache: PageCache, root: nat) returns (ok: bool)
    requires cache.Valid() && cache.pager.Valid() && root in cache.pager.live
    modifies cache.Repr(), cache.pager`file
    ensures cache.Valid() && cache.pager.Valid()
    ensures forall i :: cache.Pins(i) == old(cache.Pins(i))
    ensures fresh(cache.Repr() - old(cache.Repr()))
    ensures cache.Contents() == if ok then old(cache.Contents())[root := EmptyImage()] else old(cache.Contents())
    ensures old(cache.Idle()) ==> ok
  {
    hide PageCache.Linked, ByRecency, Buffered, PageCache.Coherent, PageCache.Views, EmptyImage;
    if cache.Idle() && cache.count == cache.maxPages {
      cache.IdleHasVictim();
    }
    var page := cache.Get(root);
    ok := page != null;
    if ok {
      InitPage(cache, page);
      cache.Release(page);
    }
  }

  method InitPage(cache: PageCache, page: Page)
    requires cache.Valid() && page in cache.pages
    modifies page.data, page`isDirty
    ensures cache.Valid()
    ensures forall i :: cache.Pins(i) == old(cache.Pins(i))
    ensures cache.Contents() == old(cache.Contents())[page.id := EmptyImage()]
  {
    hide PageCache.Linked, ByRecency, Buffered, PageCache.Coherent, PageCache.Views, PageCache.Others, EmptyImage;
    cache.Writable(page);
    Initialise(page.data);
    cache.MarkDirty(page);
  }
}
