# A verified model of tinydb

This project models the storage stack, the expression parser, the write-ahead log, the wire protocol, the
SQL string literal, the catalogue, the schema codec and DISTINCT of tinydb, a small SQL database in C, and
proves what they keep over every input, every run and every reachable state.

Check it with `dafny verify dfyconfig.toml`.

## How it is organised

| file | what it holds |
|---|---|
| `Bytes.dfy`, `Bits.dfy`, `Sequences.dfy`, `Options.dfy` | bytes, fixed-width integers, a file as a byte string; bitwise operators; missing values |
| `FreeList.dfy`, `Allocator.dfy`, `PageCounts.dfy`, `Pager.dfy` | the on-disk chain of free pages, the allocator as a machine over sets, page counts written in part, the pager that refines the allocator |
| `PageCache.dfy`, `LruLinks.dfy` | the write-back cache over linked page objects; the list operations exactly as written, on addresses |
| `LeafPage.dfy`, `BTree.dfy`, `Database.dfy` | the slotted leaf page byte by byte, a tree on one leaf, and any run over several trees sharing one cache and one file |
| `Checksum.dfy`, `Wal.dfy` | the log's checksum, its entries, and the recovery scan of a log cut at any byte |
| `Parser.dfy`, `Grammar.dfy`, `ParserFacts.dfy`, `ParserMachine.dfy`, `Keywords.dfy` | the expression parser as functions, the language it accepts, what follows from it, the mutable parser that refines it, and the lexer's keyword search |
| `Framing.dfy`, `Escape.dfy`, `SqlString.dfy` | request lines, escaping on the wire, quoted strings in SQL |
| `Records.dfy`, `Schema.dfy`, `Catalog.dfy` | zero-padded fields, stored schemas, the catalogue on its tree |
| `Values.dfy` | the order of SQL values and removal of duplicate rows |

The layers meet in five results. A run of operations over several trees (`Database.Run`, `TraceDetermines`)
behaves as independent first-write-wins maps wherever evictions, write-backs and device failures fall.
Reopening a flushed database (`Reopen`) shows the same trees. A log cut at any byte recovers the last
committed transaction (`CrashRecovery`). A catalogue after any run of inserts finds exactly the first entry of
each class (`LookupIsFirstOfClass`). The expression parser, error flag and all, accepts exactly the language
that `Grammar.dfy` defines apart from it (`AcceptedIff`, `RefusedIff`).

## Where the code differs from its intent

The code is modelled as it is. Each place below has a lemma that says exactly when the intended property holds.

- `lru_remove` updates neither end of the list (src/storage/page_cache.c:29-38). `LruLinks` models the list
  operations verbatim: a removal or a hit keeps the list intact if and only if the page is at neither end.
  The cache in `PageCache.dfy` uses a labelled repair, `LruUnlink`, which calls the verbatim `LruRemove` and
  then lets the ends follow the page out. That a page leaves unseen does not depend on the list (`LeaveUnseen`);
  the contracts of the cache do, since their invariant includes it.
- Taking a page off the free list does not rewrite the header (src/storage/pager.c:327-332). Reopening restores
  the allocator if and only if no page was taken off since one was last put on (`ReopenIff`).
- Freeing a page twice closes the chain into a cycle; the chain still ends if and only if the page was not free
  (`PushIffNotFree`, `FreePage`).
- The size a cell needs is kept in 16 bits (src/storage/btree.c:585). The space check is right if and only if the
  true size fits or is refused anyway (`SpaceCheckIff`).
- The log's file header takes 40 bytes, but entries are looked for from byte 32 (src/storage/wal.c:20-31, 140,
  339). The start of the scan is a parameter. From byte 32 the scan
  reads halves of entries; after any run of fewer than 65536 transactions it reports none, so it is right if and
  only if no commit came while a transaction was open (`ShippedRecoveryIff`).
- The parser ignores its precedence argument (src/sql/parser.c:332). A chain without parentheses is parsed as the
  precedence table says if and only if its operators bind strictly tighter from left to right
  (`PrecedenceHonouredIff`), and BETWEEN is accepted if and only if its AND reaches the parser as an identifier,
  which the lexer never produces (`BetweenAcceptedIff`, `IdentifiersAreNotWords`).
- The last two words of the keyword table are out of order (src/sql/lexer.c:80-81), so the binary search finds a
  word if and only if it is neither INTEGER nor BLOB (`RecognisedIff`).
- A failed write of the page count can leave a number that is neither the old nor the new one, and a pager that
  reads it misses pages (`TornHidesPage`, `ReadReopened`). That can happen if and only if the stored and the new
  count differ in more than one byte (`CountTornIff`), for an up-to-date header at every 256th page
  (`NextTearableIff`); which pages stay covered is said by `CoveredIff`. A run whose page counts share their upper
  three bytes is safe (`Database.Run`).
- The catalogue's key stands for uniqueness, but an insert of a class that is taken is answered as a success and
  dropped: an accepted entry is found if and only if it was the first of its class or repeats it
  (`AcceptedIsFoundIff`).
- IS has no precedence, so the branch for IS NULL is never reached (`StopsBeforeIs`).
- A line that does not fit the caller's buffer corrupts the bytes kept after it; the framing is as specified if and
  only if the line fits (`ReadRequest`).
- A doubled double quote becomes a single quote (src/sql/lexer.c:384-448), so a double-quoted literal yields its
  text if and only if the text holds no double quote.
- Serialised schemas fit the promised 8192-byte buffer if and only if they have at most 24 columns, although 64
  are allowed; a restored schema compares equal to the original if and only if the compared flags were 0 or 1.

Comments in the source disagree with the code in two more places, and the code is followed: the log's entry header
takes 16 bytes, not 12, and inserting an existing key changes nothing although the comment speaks of an update.

## Modelling decisions

- System calls succeed or fail by choice; a failed write may leave any prefix of its bytes on disk. The constant
  `reliable` of a pager says that no call fails, and the clauses that promise success depend on it.
- Page numbers stay below 2^32: allocating requires room for one more page.
- A missing pager, tree or buffer (a null argument) and failing memory allocation are not modelled.
- The cache is asked only for live pages and for pages past the end, never for the header page, a free page or one
  whose extension failed half way. Its default capacity is a parameter, because the repository does not define
  `DEFAULT_CACHE_SIZE`.
- With one thread the second look-up of `page_cache_get` cannot find anything and is not repeated.
- In `btree_insert` a new key always goes after the last cell, so the loop that shifts cell pointers does nothing
  and is not written out.
- Floats are reals without NaN; `memcmp` is used for its sign only.
- Transaction numbers stay below 2^64. The magic number of the log is the one of include/types.h, which comes before
  the other definition.
- Tokens carry their values; a qualified column keeps only its column name, as in the source.
- The statement text of the catalogue's own entry is a parameter.

## Model

| member | source | states |
|---|---|---|
| Bytes.LE32 | src/storage/pager.c:80-91 | a 32-bit number written little-endian reads back as itself |
| Bytes.BE16 | src/storage/btree.c:34-44 | a 16-bit number written big-endian reads back as itself |
| Bytes.BE32 | src/storage/btree.c:47-62 | a 32-bit number written big-endian reads back as itself |
| Bytes.ByteOrder | src/storage/btree.c:34-62 | the most significant byte is the first of a big-endian number and the last of a little-endian one |
| Bytes.WriteAt | src/storage/pager.c:66-77 | after a seek and a write every byte is the written one, the old one, or zero in a gap |
| Bytes.WriteKeepsOthers | src/storage/pager.c:276-300 | a write of up to a page at page p leaves every other page of the file unchanged |
| FreeList.ChainUnique | src/storage/pager.c:302-334 | the chain that starts at a page is unique |
| FreeList.ChainAcyclic | src/storage/pager.c:302-404 | a chain of free pages that ends never visits a page twice |
| FreeList.PushIsChain | src/storage/pager.c:364-404 | writing the old head into a page that is not free makes a chain with that page in front |
| FreeList.PushIffNotFree | src/storage/pager.c:364-404 | after a free the chain still ends if and only if the page was not free already |
| FreeList.DoubleFreeLoops | src/storage/pager.c:364-404 | after a double free no finite list of pages is the chain |
| Allocator.StepKeepsInv | src/storage/pager.c:302-404 | one allocation or free keeps live, free and lost pages a partition of all pages but the header |
| Allocator.RunKeepsInv | src/storage/pager.c:302-404 | so does any legal run, and a run of completed operations loses no page |
| Allocator.Conservation | src/storage/pager.c:302-404 | live, free and lost pages together number page_count - 1 |
| Allocator.GrantIsFresh | src/storage/pager.c:302-362 | the page handed out is neither the header nor live, and the file grows exactly when nothing is free |
| Allocator.GrantsAreAllocations | src/storage/pager.c:302-362 | the pages a run hands out are, one for each allocation and in order, those granted in the states before |
| Allocator.NoDoubleGrant | src/storage/pager.c:302-404 | in any legal run a live page is not handed out again before it is freed |
| Allocator.ReuseBeforeExtend | src/storage/pager.c:319-362 | allocations use up the free list in order before the file grows |
| Paging.InitHeader | src/storage/pager.c:94-107 | a new header reads back the magic number, one page and an empty free list |
| Paging.InitHeaderBytes | src/storage/pager.c:94-107 | the 48 bytes of a new header, one by one |
| Paging.WithPageCount | src/storage/pager.c:335-350 | replacing the page count sets the four header bytes from 16 on and no other |
| Paging.WithFreeList | src/storage/pager.c:384-398 | replacing the free list sets the eight header bytes from 20 on and no other |
| Paging.PartialWriteKeepsOthers | src/storage/pager.c:276-300 | a write cut short anywhere leaves every other page and the header unchanged |
| Paging.PopRepresents | src/storage/pager.c:319-333 | the head of the chain and its stored successor are the allocator's next grant and remaining list |
| Paging.PushRepresents | src/storage/pager.c:364-383 | the page image written by a free represents the allocator with that page in front |
| Paging.ExtendFailed | src/storage/pager.c:335-362 | however far a failed extension got, the file still represents the old free list with at most one page number lost, and its header covers every page in use unless the write stopped inside the page count |
| Paging.ExtendSucceeded | src/storage/pager.c:335-362 | a completed extension represents one more live page and the header holds the new page count |
| PageCounts.TornIff | src/storage/pager.c:87-91 | some cut of the four bytes leaves neither the old nor the new count if and only if the two differ in more than one byte |
| PageCounts.NextTearableIff | src/storage/pager.c:335-350 | counting one page more can be torn if and only if the old count ends in byte 255 |
| Paging.CutReads | src/storage/pager.c:66-91 | after any cut of the header write the page count reads as the mixture of the stored and the new one |
| Paging.CountTornIff | src/storage/pager.c:335-350 | a write of the page count can be torn if and only if the stored count and the new one differ in more than one byte |
| Paging.CoveredIff | src/storage/pager.c:335-362 | after a failing extension the header covers every page in use, wherever the write stopped, if and only if every mixture of the two counts does |
| Paging.TornHidesPage | src/storage/pager.c:335-362 | with the header up to date, a count ending in byte 255 and the last page live, the write that stops after one byte of the count makes it 255 too small and hides that page |
| Paging.ReopenServesIff | src/storage/pager.c:113-168 | a pager opened on the file can serve every live page if and only if the count in the header reaches them |
| Paging.ReadReopened | src/storage/pager.c:255-274 | through a pager opened on the file a page is found if and only if the count in the header reaches it and its bytes are there |
| PageCounts.StaysSafe | src/storage/pager.c:335-362 | over any run the count is torn only after the upper three bytes of the page count have changed |
| Paging.FreeChainOnDisk | src/storage/pager.c:302-404 | in every state the chain on disk ends, has free_page_count pages, visits none twice, meets no live page and not the header, and every page is accounted for |
| Paging.ReopenIff | src/storage/pager.c:113-168 | reopening restores page count and free list if and only if nothing was popped since the last free; the page count always |
| Paging.ReopenCounterexample | src/storage/pager.c:319-333 | after allocate, free, allocate on a new file the page is live, and a pager opened on that file has it at the head of its free list |
| Paging.Pager.Create | src/storage/pager.c:170-216 | a new file is the 48-byte header and represents an empty allocator |
| Paging.Pager.CreateFile | src/storage/pager.c:170-216 | creating a file gives that or nothing, and never nothing on a reliable device |
| Paging.Pager.Open | src/storage/pager.c:113-168 | a pager comes only from a file that holds a header with the magic number, takes its state from it, and on a reliable device comes from every such file |
| Paging.Pager.ReadPage | src/storage/pager.c:255-274 | a successful read returns exactly that page of the file, and succeeds on any page in the file of a reliable device |
| Paging.Pager.WritePage | src/storage/pager.c:276-300 | a successful write sets exactly that page; even a failed one touches no other page, and on a live page no allocator state |
| Paging.Pager.AllocatePage | src/storage/pager.c:302-362 | success refines one allocator step, the file grows only on an empty chain, every page keeps its bytes, failure at worst loses one new page number, and the page count in the header is torn only by a failed write of a count that differs from it in more than one byte |
| Paging.Pager.FreePage | src/storage/pager.c:364-404 | refuses page 0, changes no other page, and puts any other number at the head of a chain that still ends if and only if the page was not free; freeing a live page refines one step, and a failure leaves the old or the new free list |
| Paging.HeaderRewritten | src/storage/pager.c:384-398 | rewriting the free list in the header, wholly or in part, leaves the chain itself alone |
| Paging.Pager.RunOps | src/storage/pager.c:302-404 | any legal run on a reliable device ends in the specified allocator and hands out exactly the specified pages |
| Caching.Capacity | src/storage/page_cache.c:192-199 | the capacity is the requested one when in range, the default when none was asked for, and never more than 65536 |
| Caching.HashPageId | src/storage/page_cache.c:20-23 | masking with the table size less one gives the remainder, so every page number has a bucket in the table |
| Bits.MaskIsRemainder | src/storage/page_cache.c:20-23 | masking with any power of two less one is the remainder |
| Caching.DirectoryTouch | src/storage/page_cache.c:65-68 | moving a page to the front keeps index, list and chains describing the same pages |
| Caching.DirectoryLeave | src/storage/page_cache.c:176-180 | taking a page out of list and chain takes it out of the described set and nothing else |
| Caching.Page.Unpin | src/storage/page_cache.c:344-351 | lowers the pin count by one, and not below zero |
| Caching.PageCache.constructor | src/storage/page_cache.c:192-231 | a new cache is valid, empty, counts nothing yet, shows exactly the pages on disk, and has a table at least twice its capacity |
| Caching.PageCache.LruRemove | src/storage/page_cache.c:29-38 | the other pages stay linked to each other in order and the page's own links are cleared |
| Caching.PageCache.LruUnlink | src/storage/page_cache.c:29-38 | with head and tail maintained, the list is the old list without the page |
| Caching.PageCache.LruAddFront | src/storage/page_cache.c:40-50 | the list is the page followed by the old list, linked both ways with both ends right |
| Caching.PageCache.HashInsert | src/storage/page_cache.c:81-89 | the page is put in front of its own bucket's chain and all other chains stay linked |
| Caching.PageCache.HashRemove | src/storage/page_cache.c:91-103 | the page's chain is the old chain without it, all chains linked, and the page's own links are cleared |
| Caching.PageCache.HashFind | src/storage/page_cache.c:105-115 | finds the page with the number if it is cached, and nothing otherwise |
| Caching.PageCache.LruTouch | src/storage/page_cache.c:65-68 | the page moves to the front and the others keep their order |
| Caching.PageCache.FindVictim | src/storage/page_cache.c:153-168 | the victim is unpinned and every other unpinned page was obtained later; none only if all are pinned |
| Caching.PageCache.WriteBack | src/storage/page_cache.c:170-175 | no client sees the write, even a failed one, because the page stays cached and dirty |
| Caching.PageCache.LeaveUnseen | src/storage/page_cache.c:176-186 | a page whose bytes are on disk can leave the index unseen, whatever the lists look like |
| Caching.PageCache.Drop | src/storage/page_cache.c:170-186 | dropping any unpinned page changes no page's visible contents and no pin; on failure nothing leaves the cache |
| Caching.PageCache.EvictLru | src/storage/page_cache.c:153-186 | evicts the least recently obtained unpinned page, never a pinned one, changes no visible contents, and fails only if all are pinned or a write failed |
| Caching.PageCache.Get | src/storage/page_cache.c:259-332 | returns the page pinned once more and most recent, changes no visible contents and no other pin, counts one hit or one miss, and without device errors fails only when the cache is full of pinned pages |
| Caching.PageCache.Writable | src/storage/page_cache.c:353-356 | a client writing a pinned page's buffer can change that page's visible contents and no other's |
| Caching.PageCache.MarkDirty | src/storage/page_cache.c:353-356 | marking after writing makes the cache valid again with exactly that page's contents replaced |
| Caching.PageCache.Release | src/storage/page_cache.c:358-361 | gives one pin back and changes no contents |
| Caching.PageCache.FlushPage | src/storage/page_cache.c:390-414 | on success that page and no other stops being dirty; contents and pins stay; succeeds on a reliable device if and only if the page is cached |
| Caching.PageCache.Evict | src/storage/page_cache.c:416-449 | succeeds on a reliable device if and only if the page is cached and unpinned; contents and pins stay |
| Caching.PageCache.Flush | src/storage/page_cache.c:367-388 | returns how many dirty pages became clean, leaves none dirty on a reliable device, and changes no contents and no pin |
| Caching.PageCache.CleanMeansOnDisk | src/storage/page_cache.c:367-388 | with no dirty page the disk alone holds all visible contents |
| LruLinks.AddFrontKeepsList | src/storage/page_cache.c:40-50 | adding a page that is not listed gives the list with it in front |
| LruLinks.RemoveIff | src/storage/page_cache.c:29-38 | removal as written moves neither end and clears the page's links; it leaves the list of the other pages if and only if the page is at neither end |
| LruLinks.HitIff | src/storage/page_cache.c:65-68 | a hit moves its page to the front of a proper list if and only if the page is at neither end |
| LruLinks.HitAtEndBreaks | src/storage/page_cache.c:65-68 | after a hit at either end the links describe no list at all |
| LruLinks.EvictedTailDangles | src/storage/page_cache.c:176-184 | after evicting the last page the tail still names it |
| LruLinks.SecondHitSelfLinks | src/storage/page_cache.c:65-68 | a second hit on the only page makes it its own neighbour |
| LeafPage.CellsApart | src/storage/btree.c:83-104 | cells overlap neither each other nor the pointer array |
| LeafPage.SpaceLeft | src/storage/btree.c:588-590 | the free gap is the page minus the header and what the stored pairs occupy |
| LeafPage.FitsIffGap | src/storage/btree.c:583-596 | a value fits if and only if eighteen bytes more than it fit between the cell pointers and the cells |
| LeafPage.FitsIffSomePage | src/storage/btree.c:583-596 | and if and only if some well-formed page holds the old pairs and the new one |
| LeafPage.PairBytes | src/storage/btree.c:83-104 | where pointer, sizes, key and value of every pair are, byte by byte |
| LeafPage.EmptyImage | src/storage/btree.c:147-175 | the initial page is the leaf type, no cells, content from 4096 and zeros; it is well formed and holds no pair |
| LeafPage.CellImage | src/storage/btree.c:604-612 | size, key size, key and value read back from a new cell |
| LeafPage.InsertHeader | src/storage/btree.c:602-617 | an insert keeps every earlier cell pointer and adds one to the new cell, where the content now starts |
| LeafPage.InsertCells | src/storage/btree.c:602-612 | the new cell's bytes are in place and the earlier cells are kept byte for byte |
| LeafPage.InsertAppends | src/storage/btree.c:558-623 | inserting a new key that fits appends exactly that pair and keeps the page well formed |
| LeafPage.Position | src/storage/btree.c:260-294 | the first index with the key, or the number of pairs if and only if the key is absent |
| LeafPage.FindCell | src/storage/btree.c:260-294 | the search over page bytes finds the key's position in the list of pairs |
| LeafPage.ReadCell | src/storage/btree.c:517-548 | the bytes of a cell give the key and value stored there |
| LeafPage.WriteCell | src/storage/btree.c:599-617 | the writes of an insert produce the specified page image |
| LeafPage.SpaceCheckIff | src/storage/btree.c:583-596 | the 16-bit check agrees with the true space check if and only if the size does not wrap into the free space |
| LeafPage.SpaceCheckCounterexample | src/storage/btree.c:583-596 | a value that does not fit but passes the wrapped check |
| Trees.BTree.Find | src/storage/btree.c:237-294 | the cursor is at the key's pair, or at the end if and only if the key is absent; no contents or pins change |
| Trees.BTree.Get | src/storage/btree.c:517-548 | returns exactly the pair under the cursor, and on an idle cache succeeds for every valid position |
| Trees.BTree.First | src/storage/btree.c:341-373 | starts at the first pair, at the end if and only if the tree is empty |
| Trees.BTree.Next | src/storage/btree.c:464-485 | moves to the next pair and reports the end exactly after the last; if the page cannot be obtained the cursor stays, which an idle cache rules out |
| Trees.BTree.Scan | src/storage/btree.c:464-485 | a scan yields each pair once, in order of first insertion, or gives up, which an idle cache rules out |
| Trees.BTree.Insert | src/storage/btree.c:558-623 | first write wins; a refused insert changes nothing; no other page and no pin changes; on an idle cache it is refused only if the key is new and no well-formed page holds the old pairs and the new one |
| Trees.CreateTree | src/storage/btree.c:147-175 | a new empty tree on a page no one else uses; all other pages and all pins unchanged; never fails on an idle cache |
| Databases.LeavesUpdate | src/storage/btree.c:558-623 | changing one tree's page changes that tree's pairs and no other tree's |
| Databases.Database.DoInsert | src/storage/btree.c:558-623 | an insert is one specified step on the list of trees, or on a failing device a refusal without effect |
| Databases.Database.DoCreate | src/storage/btree.c:147-175 | creating a tree adds an empty one and leaves the others' pairs alone |
| Databases.Database.Do | src/storage/btree.c:147-623 | every operation, flushes and evictions included, is one specified step and gives all pins back |
| Databases.Database.Run | src/storage/btree.c:237-623 | any run over several trees sharing cache and file answers as the specification, with one frame or many, and leaves a header that covers every page in use unless a creation was refused and the page count has outgrown its lowest byte |
| Databases.TraceDetermines | src/storage/btree.c:558-623 | what a key is bound to after any run is the value of the first insert answered as done for it, whatever the device did |
| Databases.LookupsAreFirstWrites | src/storage/btree.c:237-294 | every answered lookup in a run reports the first accepted value for its key in its tree |
| Databases.ReopenCache | src/storage/pager.c:113-168 | with nothing left to write and a page count in the header that reaches the live pages, a fresh cache over the reopened file shows the same pages, also after extensions that failed |
| Databases.Reopen | src/storage/btree.c:131-189 | and the trees opened on their roots hold the same pairs |
| Checksum.WalChecksum | src/storage/wal.c:67-74 | the 32-bit shift-and-add loop computes the sum |
| Checksum.SumConcat | src/storage/wal.c:67-74 | sum(a + b) = sum(a) * 33^length(b) + sum(b) modulo 2^32 |
| Checksum.SumIsPolynomial | src/storage/wal.c:67-74 | the sum is the polynomial with the bytes as coefficients at 33, modulo 2^32 |
| Checksum.MixInjective | src/storage/wal.c:67-74 | one round never merges two sums |
| Checksum.SingleByteDetected | src/storage/wal.c:67-74 | changing any one byte of data of any length changes the sum |
| Bits.XorLaws | src/storage/wal.c:242 | exclusive or with nothing changes nothing, and everything cancels itself |
| Wal.StoredChecksum | src/storage/wal.c:229-249 | an entry verifies against the checksum it carries, with those four bytes taken as zero |
| Wal.ByteDetected | src/storage/wal.c:238-243 | changing any one byte of header or payload changes the checksum over both, with or without a payload |
| Wal.EntryByteDetected | src/storage/wal.c:238-243 | so changing the kind, flags, size, transaction number or payload of an entry in one byte changes the checksum stored with it |
| Wal.RecoveryInfo | src/storage/wal.c:332-388 | the scan loop computes the specified bookkeeping over the headers it meets, from any start; `CrashRecovery` and `CrashCheckpoint` say what it then reports |
| Wal.ScanOfPrefix | src/storage/wal.c:332-388 | in a log cut at any byte the scan sees exactly the entries whose headers are whole, on their boundaries |
| Wal.OpenTxIff | src/storage/wal.c:354-378 | a transaction is open if and only if it was begun with no begin or rollback since |
| Wal.ReplayFindsLastCommitted | src/storage/wal.c:354-378 | the bookkeeping reports the last commit of an open transaction, never one left open or rolled back |
| Wal.CrashRecovery | src/storage/wal.c:332-388 | for every log and every cut the scan from the first entry reports exactly the last transaction committed among the whole headers |
| Wal.ReplayFindsCheckpoint | src/storage/wal.c:374-376 | the bookkeeping reports a checkpoint if and only if there is one, and then where the last one starts |
| Wal.CrashCheckpoint | src/storage/wal.c:332-388 | for every log and every cut the scan from the first entry reports a checkpoint if and only if one of the whole headers is one, with the offset of the last, and 0 without one |
| Wal.RunCheckpoint | src/storage/wal.c:447-450 | after any run on a new log that scan reports a checkpoint if and only if one was asked for |
| Wal.RunKinds | src/storage/wal.c:272-286 | every operation leaves an entry of its own kind, as the format numbers them |
| Wal.VisitsAreBoundaries | src/storage/wal.c:332-388 | a scan that starts at the first entry visits exactly the entry boundaries |
| Wal.ShippedScanIff | src/storage/wal.c:339-346 | a scan from the declared header size stays on entry boundaries if and only if there are no entries |
| Wal.ShippedScanReports | src/storage/wal.c:339-378 | for every log of entries without payload that scan reports the last commit among the halves of entries it takes for entries |
| Wal.ShippedScanIs | src/storage/wal.c:339-378 | for such a log that scan is a replay of halves of entries |
| Wal.ShippedCheckpointIff | src/storage/wal.c:339-378 | it reports a checkpoint if and only if the transaction number of an entry before the last ends in byte 5 |
| Wal.NoMisreadCommit | src/storage/wal.c:339-378 | if no transaction number ends in the byte of a commit, it is right if and only if nothing was committed |
| Wal.RunCommits | src/storage/wal.c:272-286 | a run commits something if and only if some commit comes while a transaction is open |
| Wal.ShippedRecoveryIff | src/storage/wal.c:332-388 | after any run of fewer than 65536 transactions on a new log the shipped scan reports none, so it is right if and only if no commit came while a transaction was open |
| Wal.ShippedScanMissesCommit | src/storage/wal.c:339-346 | a log with one committed transaction of which that scan reports none |
| Wal.Log.constructor | src/storage/wal.c:126-160 | a new log holds the file header and no entry |
| Wal.Log.CreateFile | src/storage/wal.c:101-150 | creating a log gives that or nothing, and never nothing on a reliable device |
| Wal.Log.Append | src/storage/wal.c:224-270 | the file is extended by exactly the encoding of one entry, or on failure by a part of it with offset and entries as before |
| Wal.TornAppend | src/storage/wal.c:245-257 | after an append cut short anywhere the scan reports the last commit without it, or with it once its header is whole |
| Wal.FailedThenScanned | src/storage/wal.c:245-257 | so recovery after a failed operation reports the state before it or after it |
| Wal.Log.Do | src/storage/wal.c:272-286 | begin takes the next transaction number, the others use the current one; one entry each, of the kind `RunKinds` says |
| Wal.Log.Run | src/storage/wal.c:224-286 | any run leaves the file header followed by the encodings of the entries it stands for |
| Parsing.Literal | src/sql/parser.c:188-281 | terminates; a returned tree consumed tokens; a pending error never sits on an infix operator; no tree only with an error; `Grammar.AcceptedIff` says which tokens it takes |
| Parsing.UnaryNot | src/sql/parser.c:283-294 | the same for NOT |
| Parsing.SpellsIff | src/sql/parser.c:133-148 | a name is taken for AND or NOT if and only if it has those three letters, in capitals or not |
| Parsing.Expression | src/sql/parser.c:331-480 | terminates on every token stream, and the token after a returned tree is no infix operator, LIKE, IN or BETWEEN |
| Parsing.Operators | src/sql/parser.c:336-473 | the operator loop ends, in error or on a token that is no operator |
| Parsing.Operator | src/sql/parser.c:341-473 | each round consumes a token, and fails only with an error |
| Parsing.Membership | src/sql/parser.c:354-402 | the same for what follows IN, with or without a list |
| Parsing.PrintParses | src/sql/parser.c:188-281 | the parenthesised form of an expression parses as one operand, whatever follows but a dot |
| Parsing.RoundTrip | src/sql/parser.c:331-480 | parsing the parenthesised form followed by a token that is no operator gives back the tree and consumes exactly its tokens |
| Parsing.ListParses | src/sql/parser.c:366-389 | the elements of an IN list parse back in order up to the closing parenthesis |
| Grammar.AcceptedIff | src/sql/parser.c:188-480 | the parser returns a tree, without an error and before given tokens, if and only if what precedes them is one of the token forms of that tree |
| Grammar.RefusedIff | src/sql/parser.c:188-480 | it returns nothing or sets an error if and only if no beginning of the tokens is a form of any tree |
| Grammar.Unambiguous | src/sql/parser.c:188-480 | no tokens can be read as forms of two trees, or of two lengths |
| Grammar.QualifiedColumn | src/sql/parser.c:219-246 | a table, a dot and a column are the column |
| Grammar.ExpressionSound | src/sql/parser.c:331-480 | whatever is accepted is a form: a first operand, then an operator with all that follows it, bounds, lists, or a dropped IN |
| Grammar.LiteralSound | src/sql/parser.c:188-281 | every accepted operand is a literal, a name, a qualified name, a closed pair of parentheses around a form, or a signed operand |
| Grammar.FormParses | src/sql/parser.c:331-480 | every form, followed by what cannot belong to it, is accepted as its tree |
| ParserFacts.BetweenNeverAccepted | src/sql/parser.c:403-428 | no tree with BETWEEN is returned for tokens in which AND is a keyword |
| ParserFacts.BetweenAcceptedIff | src/sql/parser.c:403-428 | for all operands BETWEEN is accepted if the word between its bounds comes as an identifier and is an error if it comes as the keyword AND |
| ParserFacts.StopsBeforeIs | src/sql/parser.c:429-452 | every expression ends where IS begins, so the branch for IS NULL is never reached |
| Keywords.InOrder | src/sql/lexer.c:32-83 | the first forty-three words of the table are in strictly ascending order |
| Keywords.LookupKeyword | src/sql/lexer.c:167-196 | the binary search finds a text if and only if it is one of those forty-three, whatever its capitals |
| Keywords.RecognisedIff | src/sql/lexer.c:167-196 | so of the forty-five words INTEGER and BLOB, and only they, are taken for identifiers |
| Keywords.IdentifiersAreNotWords | src/sql/lexer.c:261-291 | no identifier from the lexer spells AND or NOT |
| ParserFacts.ChainParses | src/sql/parser.c:331-476 | every chain of operators without parentheses nests to the right |
| ParserFacts.PrecedenceLevels | src/sql/parser.c:303-324 | which tokens share a level of the table, the order of the levels, and that all other tokens have none |
| ParserFacts.NestIff | src/sql/parser.c:303-324 | right nesting is the tree of the precedence table if and only if the operators bind strictly tighter from left to right |
| ParserFacts.PrecedenceHonouredIff | src/sql/parser.c:331-476 | so that is exactly when a chain is parsed as the precedence table says |
| ParserMachine.Parser.Advance | src/sql/parser.c:155-159 | moves on by one token, and not at all once an error is pending |
| ParserMachine.Parser.Expect | src/sql/parser.c:161-167 | consumes the token or sets the error |
| ParserMachine.Parser.ParseLiteral | src/sql/parser.c:188-281 | the mutable parser returns the specified tree and leaves the specified tokens and error flag |
| ParserMachine.Parser.ParseUnaryNot | src/sql/parser.c:283-294 | the same for NOT |
| ParserMachine.Parser.ParseBinaryExpr | src/sql/parser.c:331-476 | the same for the operator loop, whose termination rests on the token after an error |
| ParserMachine.Parser.ParseMembership | src/sql/parser.c:354-402 | the same for the list loop after IN |
| Framing.Protocol.ReadRequest | src/server/protocol.c:42-83 | a missing buffer, a failed read and the end of the stream change nothing and are told apart; otherwise one read delivers the first complete line and keeps exactly the bytes after it, or keeps all, or reports a full buffer, if and only if the line fits the caller's buffer; if not, a part of the line, and a NUL and stale bytes behind the bytes kept |
| Framing.Serve | src/server/protocol.c:42-83 | any sequence of reads on the real buffer delivers the specified lines and remainder |
| Framing.SessionConserves | src/server/protocol.c:42-83 | however the stream is cut into reads, lines with their newlines and then the remainder are exactly the bytes read, if and only if there is room behind the delivered lines at every read that completes none |
| Framing.DeliverCases | src/server/protocol.c:59-82 | a read delivers the first line if there is one, and without one keeps everything if and only if one more byte has room, and drops everything otherwise |
| Framing.RoomyIfAllFits | src/server/protocol.c:59-82 | there is always room if all that is ever read is shorter than the buffer by two |
| Framing.SessionLines | src/server/protocol.c:42-83 | no delivered line contains a newline |
| Framing.LinesLeftWaiting | src/server/protocol.c:59-74 | while there is room, the remainder still holds a complete line if and only if the reads brought lines faster than one each |
| Framing.TwoLinesOneRead | src/server/protocol.c:59-74 | two lines in one read: the second is left waiting |
| Escape.EscapeString | src/server/protocol.c:145-177 | for every buffer size the output is the escape of a whole-character prefix, terminated, and nothing after the terminator is touched |
| Escape.UnescapeString | src/server/protocol.c:179-212 | the output is the unescaped text cut to the buffer, terminated, and nothing after it is touched |
| Escape.EscapedIsClean | src/server/protocol.c:145-177 | escaped text holds no raw tab, newline or NUL |
| Escape.UnescapeEscaped | src/server/protocol.c:179-212 | unescaping undoes escaping |
| Escape.UnescapeTable | src/server/protocol.c:188-206 | t, n and 0 after a backslash name a tab, a newline and a NUL, anything else itself, and a backslash at the end itself |
| Escape.ConsumedAllIff | src/server/protocol.c:150-172 | the whole string is escaped if and only if two bytes and the terminator fit after all but its last character |
| Escape.WireRoundTrip | src/server/protocol.c:145-212 | through both loops and any two buffer sizes a prefix comes back, and the whole string if and only if both buffers are large enough |
| SqlString.EscapeString | src/security/security.c:72-92 | the output is the text with its quotes doubled, terminated, within the allocated size |
| SqlString.Lexer.Advance | src/sql/lexer.c:125-135 | moves on by one character, counting lines and columns, and stops at the end |
| SqlString.NewlinesAreLineFeeds | src/sql/lexer.c:125-135 | the lines counted between two positions are the line feeds between them |
| SqlString.Lexer.ScanString | src/sql/lexer.c:384-448 | the loop yields the specified content and stops after the closing quote, or reports an unterminated string; lines passed are counted and the column is put back |
| SqlString.ScanDoubled | src/sql/lexer.c:384-448 | scanning text with its quotes doubled consumes exactly it and yields the text with each quote as a single quote |
| SqlString.ScanEscaped | src/sql/lexer.c:384-448 | scanning the escape of any NUL-free string and a closing quote no quote follows yields the string and consumes exactly that text |
| SqlString.AcceptedIsEscaped | src/sql/lexer.c:384-448 | conversely every accepted single-quoted literal is the quoted escape of its content |
| SqlString.UnterminatedPasses | src/sql/lexer.c:384-448 | an unterminated literal was passed up to the first NUL or the end |
| SqlString.DoubleQuotedIff | src/sql/lexer.c:384-448 | a double-quoted literal yields its text if and only if the text holds no double quote |
| Records.FieldText | src/sql/schema.c:184-187 | what is read from a field is its bytes before the first NUL, at most one less than its width |
| Records.FieldRoundTrip | src/sql/schema.c:114-116 | a field gives back the string, cut to one less than the width |
| Schemas.Serialize | src/sql/schema.c:99-163 | the buffer starts with the stored form, its size is 84 + 336 n, and nothing after it is touched |
| Schemas.Deserialize | src/sql/schema.c:165-248 | the reading loop computes the specified schema or refuses; `AcceptedIff` says what it refuses |
| Schemas.AcceptedIff | src/sql/schema.c:165-210 | a buffer is accepted if and only if it has 148 bytes, starts with the bytes of magic number and version, and tells of 1 to 64 columns |
| Schemas.DecodedIsNormal | src/sql/schema.c:99-248 | a schema read from any buffer is written and read back as itself |
| Schemas.RoundTrip | src/sql/schema.c:99-248 | a stored schema is read back if and only if it has 1 to 64 columns, and then with name, counter and every column, flags as 0 or 1 and no root page |
| Schemas.ColumnRoundTrip | src/sql/schema.c:212-238 | every field of a column is read back from its place, flags as 0 or 1 |
| Schemas.ColumnLayout | src/sql/schema.c:129-160 | where the fields of a stored column are, with flags as 0 or 1 |
| Schemas.PromisedBufferIff | src/sql/schema.h:51-55 | the promised buffer size suffices if and only if there are at most 24 columns |
| Schemas.CompareSchemas | src/sql/schema.c:293-307 | the loop answers true if and only if the schemas agree in all but root page, counter, open flag, defaults and auto-increment flags |
| Schemas.EqualIff | src/sql/schema.c:293-307 | comparing table name and every column's name, type and two flags is being identical once the rest is blanked |
| Schemas.RestoredEqualIff | src/sql/schema.c:293-307 | a restored schema compares equal to the original if and only if the compared flags were 0 or 1 |
| Catalogs.Serialize | src/sql/catalog.c:16-53 | the buffer holds the 652-byte stored form |
| Catalogs.EntryLayout | src/sql/catalog.c:16-53 | where the fields of a stored entry are |
| Catalogs.EntryRoundTrip | src/sql/catalog.c:16-87 | every field of an entry is read back, the validity flag as 0 or 1 |
| Catalogs.KeysCollideIff | src/sql/catalog.c:154-163 | two names share a key if and only if both or neither name a table and their lengths agree; tables have keys from 1 to 64, all others from 2^31 on, and key 0 belongs to no name |
| Catalogs.SixFit | src/storage/btree.c:583-596 | a leaf has room for another entry if and only if it holds fewer than six |
| Catalogs.RunUnder | src/sql/catalog.c:154-169 | after any run a key holds the first entry offered under it, provided fewer than six keys came before |
| Catalogs.LookupIsFirstMatch | src/sql/catalog.c:126-210 | after any run lookup returns the entry of the first operation that took effect and has this type and name, or nothing |
| Catalogs.LookupIsFirstOfClass | src/sql/catalog.c:154-210 | after any run lookup finds the first entry offered in its class if it has this type and name and fewer than six classes came before, and nothing otherwise |
| Catalogs.AcceptedIff | src/sql/catalog.c:154-169 | an insert is accepted if and only if fewer than six classes came before the first of its own |
| Catalogs.AcceptedIsFoundIff | src/sql/catalog.c:154-210 | an accepted insert is found by lookup if and only if it was the first of its class or repeats the entry that was |
| Catalogs.SecondTableLost | src/sql/catalog.c:154-210 | of two tables with different names of one length both inserts succeed and the second is not found |
| Catalogs.MasterFound | src/sql/catalog.c:126-148 | a catalogue initialised first always finds its own entry |
| Catalogs.Catalog.constructor | src/sql/catalog.c:93-113 | a catalogue on a new tree is empty |
| Catalogs.Catalog.Store | src/storage/btree.c:558-623 | storing an entry adds it if its key is new and there is room; a refusal changes nothing; on an idle cache it is refused only for lack of room |
| Catalogs.Catalog.Do | src/sql/catalog.c:126-169 | catalog_init and catalog_insert add the entry under its key as specified or change nothing, and on an idle cache succeed if and only if the key is present or there is room |
| Catalogs.Catalog.Run | src/sql/catalog.c:126-169 | any run on a fresh catalogue stores what the specification says and reports each success |
| Catalogs.Catalog.Find | src/sql/catalog.c:179-210 | the cursor loop returns the first stored entry with the type and name, or nothing |
| Values.CompareIsOrder | src/sql/expression.c:83-135 | negative, zero and positive mean before, equal and after in the order NULL, integers, floats, text, blobs, each in its own order |
| Bytes.CompareBytesIsOrder | src/sql/expression.c:114-129 | text and blobs compare in dictionary order, zero only for equal bytes |
| Values.CompareTransitive | src/sql/expression.c:83-135 | the comparison is transitive |
| Values.SameRows | src/sql/executor.c:402-430 | exactly the original rows are kept, no other and none missing |
| Values.KeptInOrder | src/sql/executor.c:402-430 | kept rows stand in the order of their first occurrences |
| Values.KeptOnce | src/sql/executor.c:402-430 | no row is kept twice |
| Values.Idempotent | src/sql/executor.c:402-430 | a second pass changes nothing |
| Values.ResultSet.Same | src/sql/executor.c:411-418 | the column loop decides whether two rows are equal |
| Values.ResultSet.ApplyDistinct | src/sql/executor.c:402-430 | in place, the rows become the first occurrences in order, and rows past the old count are untouched |

## Left out

- Internal pages of the B+tree, `btree_last`, `btree_cursor_prev` and ranges: no code builds internal pages.
- `btree_delete`, `btree_verify`, `wal_replay`, `wal_checkpoint_full`, `catalog_delete`, ORDER BY, and update, delete and drop in the executor: stubs.
- `wal_write_page`, `wal_truncate` and appending after a scan, a failure or a reopen: raw page frames have no entry header and the file position is not restored.
- Matching LIKE patterns: the loop does not step past a percent sign, so it does not end on such patterns.
- Statement-level parsing: after an error the token does not advance and some loops have no bound.
- The evaluator and the row encoding of the executor: they test other operator codes than the parser stores.
- `page_cache_clear`, `page_cache_destroy`, and the second list end operations `lru_add_back` and `lru_lru`: the first two repeat the flush and the unlinking, the others are not used.
- Reference counts of syntax trees and column positions, and the texts of error messages.
- Command line, server, signals, logging, permissions, locks and failing memory allocation.
- Reading and resetting the statistics: only the hit, miss, pin and eviction counters themselves are specified.
- Catalogue listings (`catalog_get_tables`, `catalog_get_indexes`): the same cursor loop as the lookup.
- Frame count, start and end offset of the recovery information: copied from fields of the log.
- Wal.ShippedRecoveryIff: for runs of the transaction operations with fewer than 65536 transactions; longer ones put other bytes of the transaction number where the scan looks for a size, and payloads are arbitrary bytes.
- Caching.PageCache.LruUnlink: is the repair of lru_remove described above; `LruLinks.RemoveIff` says when the code as written does the same.
- Caching.PageCache.LruTouch: uses that repair; `LruLinks.HitIff` says when the code as written does the same.
- Caching.PageCache.FindVictim: holds of a proper list, which the code as written keeps only between hits and removals at its ends.
- Caching.PageCache.EvictLru: the same.
- Caching.PageCache.Get: requires a live page or one past the end; free pages and the header page are never asked for.
- Trees.BTree.Insert: requires the cell size to fit its 16-bit field; `SpaceCheckIff` says what happens otherwise.
- Databases.Database.DoInsert: the same.
- Databases.Database.Do: the same.
- Databases.Database.Run: the same.
- Databases.Reopen: requires that the count in the header reaches the live pages; `ReopenServesIff` says that nothing less will do.
- Databases.ReopenCache: the same.
- Paging.Pager.RunOps: on a reliable device and freeing live pages; `AllocatePage` and `FreePage` say what a single call does otherwise.
- Wal.Log.Run: on a reliable device; `Append` and `TornAppend` say what a failure leaves.
- Wal.ShippedScanReports: for entries without payload and transaction numbers below 65536, as `ShippedRecoveryIff`.
- Wal.NoMisreadCommit: the same.
- Wal.ShippedScanIs: the same.
- Wal.ShippedCheckpointIff: the same.
- Wal.RunCheckpoint: for runs of the transaction operations and checkpoints; `CrashCheckpoint` covers appended entries.
- Wal.RunCommits: for runs of the transaction operations alone; appended entries may have any kind and number.
- Framing.Protocol.ReadRequest: requires NUL-free input, and for a line that does not fit that the copy stays in the buffer.
- Framing.LinesLeftWaiting: requires room for every read, told from the bytes; `SessionConserves` says that bytes are lost otherwise.
- Framing.Serve: a session in which every line fits the caller's buffer, since the buffer holds stale bytes after one that does not.
- Escape.EscapeString: the source is a C string, so its text is NUL-free.
- Schemas.Deserialize: requires that the bytes the source reads are there, since it does not compare the column count with the size.
- Schemas.Serialize: requires a buffer large enough for the columns; `PromisedBufferIff` says when the promised one is.
- Catalogs.LookupIsFirstOfClass: says nothing about the name of the catalogue's own table after `catalog_init`, which has a second key; `LookupIsFirstMatch` covers it.
- Catalogs.Catalog.Run: on a reliable device with nothing pinned; `Do` says what a single operation does otherwise.
- Catalogs.Catalog.Find: on a reliable device with nothing pinned, where every page can be obtained.
