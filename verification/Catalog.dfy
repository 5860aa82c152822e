/** The catalogue: a tree of 652-byte entries keyed by kind and name length (src/sql/catalog.c). */
module Catalogs {

  import opened Bytes
  import opened Options
  import opened Records
  import opened LeafPage
  import opened Paging
  import opened Caching
  import opened Trees

  const TABLE_TYPE := 1
  const INDEX_TYPE := 2
  const NAME_WIDTH := 64
  const SQL_WIDTH := 512
  const ENTRY_SIZE := 652
  const INDEX_BASE := 0x8000_0000

  datatype Entry = Entry(entryType: nat, name: Bytes, tableName: Bytes, sql: Bytes, rootPage: nat, isValid: int)

  /** What the members of the C structure can hold. */
  predicate EntryOk(e: Entry) {
    && e.entryType < U32_LIMIT && CString(e.name, NAME_WIDTH) && CString(e.tableName, NAME_WIDTH)
    && CString(e.sql, SQL_WIDTH) && e.rootPage < U32_LIMIT
  }

  // ----- Stored entries -----

  function Image(e: Entry): (b: Bytes)
    requires EntryOk(e)
    ensures |b| == ENTRY_SIZE
  {
    LE32(e.entryType) + Field(e.name, NAME_WIDTH) + Field(e.tableName, NAME_WIDTH) + Field(e.sql, SQL_WIDTH)
    + LE32(e.rootPage) + LE32(Flag(e.isValid))
  }

  /** serialize_entry. */
  method Serialize(e: Entry, buf: array<Byte>)
    requires EntryOk(e) && buf.Length == ENTRY_SIZE
    modifies buf
    ensures buf[..] == Image(e)
  {
    hide Field, LE32;
    var offset := Put(buf, 0, LE32(e.entryType));
    offset := Put(buf, offset, Field(e.name, NAME_WIDTH));
    offset := Put(buf, offset, Field(e.tableName, NAME_WIDTH));
    offset := Put(buf, offset, Field(e.sql, SQL_WIDTH));
    offset := Put(buf, offset, LE32(e.rootPage));
    offset := Put(buf, offset, LE32(Flag(e.isValid)));
  }

  /** serialize_entry into a local buffer. */
  method Buffer(e: Entry) returns (b: Bytes)
    requires EntryOk(e)
    ensures b == Image(e)
  {
    var buf := new Byte[ENTRY_SIZE];
    Serialize(e, buf);
    b := buf[..];
  }

  /** deserialize_entry. */
  function Decoded(b: Bytes): (e: Entry)
    requires |b| == ENTRY_SIZE
    ensures EntryOk(e) && 0 <= e.isValid <= 1
  {
    Entry(ReadLE32(b, 0), FieldText(b[4..68]), FieldText(b[68..132]), FieldText(b[132..644]),
          ReadLE32(b, 644), Flag(ReadLE32(b, 648)))
  }

  /** An entry as it comes back: the validity flag is zero or one. */
  function Restored(e: Entry): Entry {
    e.(isValid := Flag(e.isValid))
  }

  lemma EntryRoundTrip(e: Entry)
    requires EntryOk(e)
    ensures Decoded(Image(e)) == Restored(e)
  {
    hide Image, FieldText, ReadLE32;
    EntryLayout(e);
  }

  /** Where the fields of an entry are. */
  lemma EntryLayout(e: Entry)
    requires EntryOk(e)
    ensures var b := Image(e);
      && |b| == 652 && ReadLE32(b, 0) == e.entryType && FieldText(b[4..68]) == e.name
      && FieldText(b[68..132]) == e.tableName && FieldText(b[132..644]) == e.sql
      && ReadLE32(b, 644) == e.rootPage && ReadLE32(b, 648) == (if e.isValid != 0 then 1 else 0)
  {
    hide Field, FieldText, LE32, ReadLE32;
    var b := Image(e);
    StoredWord(b, 0, e.entryType);
    StoredWord(b, 644, e.rootPage);
    StoredWord(b, 648, Flag(e.isValid));
    assert b[4..68] == Field(e.name, NAME_WIDTH);
    assert b[68..132] == Field(e.tableName, NAME_WIDTH);
    assert b[132..644] == Field(e.sql, SQL_WIDTH);
    FieldRoundTrip(e.name, NAME_WIDTH);
    FieldRoundTrip(e.tableName, NAME_WIDTH);
    FieldRoundTrip(e.sql, SQL_WIDTH);
  }

  // ----- Keys -----

  function KeyOf(entryType: nat, name: Bytes): nat {
    if entryType == TABLE_TYPE then 1 + |name| else INDEX_BASE + |name|
  }

  /** Two names share a key exactly when both or neither name a table and their lengths agree; key 0,
      where catalog_init stores the master entry, is no one's. */
  lemma KeysCollideIff(t: nat, a: Bytes, u: nat, b: Bytes)
    requires CString(a, NAME_WIDTH) && CString(b, NAME_WIDTH)
    ensures KeyOf(t, a) == KeyOf(u, b) <==> (t == TABLE_TYPE <==> u == TABLE_TYPE) && |a| == |b|
    ensures if t == TABLE_TYPE then 1 <= KeyOf(t, a) <= 64 else 0x8000_0000 <= KeyOf(t, a) < 0x8000_0040
  {
  }

  // ----- The catalogue as a list -----

  const CAPACITY := 6

  /** catalog_init, or catalog_insert of an entry. */
  datatype Op = Init | Insert(entry: Entry)

  /** An entry with the key it is stored under. */
  datatype Stored = Stored(key: nat, entry: Entry)

  const MASTER_NAME: Bytes := [116, 105, 110, 121, 100, 98, 95, 109, 97, 115, 116, 101, 114]

  predicate OpOk(op: Op) {
    match op
    case Init => true
    case Insert(e) => EntryOk(e)
  }

  /** The master entry, with the statement text left as a parameter. */
  function Master(sql: Bytes): (e: Entry)
    ensures e.entryType == 1 && e.tableName == e.name && e.sql == sql && e.rootPage == 0 && e.isValid == 0
    ensures |e.name| == 13 && forall i :: 0 <= i < 13 ==> e.name[i] == "tinydb_master"[i] as int
  {
    Entry(TABLE_TYPE, MASTER_NAME, MASTER_NAME, sql, 0, 0)
  }

  function Item(op: Op, sql: Bytes): Stored {
    match op
    case Init => Stored(0, Master(sql))
    case Insert(e) => Stored(KeyOf(e.entryType, e.name), e)
  }

  predicate Holds(s: seq<Stored>, key: nat) {
    exists i :: 0 <= i < |s| && s[i].key == key
  }

  /** An insert succeeds when the key is taken or there is room, and only a new key is added. */
  predicate Accepted(s: seq<Stored>, item: Stored) {
    Holds(s, item.key) || |s| < CAPACITY
  }

  function Added(s: seq<Stored>, item: Stored): seq<Stored> {
    if Holds(s, item.key) || |s| >= CAPACITY then s else s + [item]
  }

  function AfterRun(ops: seq<Op>, sql: Bytes): (s: seq<Stored>)
    ensures |s| <= CAPACITY
  {
    if ops == [] then [] else Added(AfterRun(ops[..|ops| - 1], sql), Item(ops[|ops| - 1], sql))
  }

  /** Which operations of a run succeed. */
  function Reports(ops: seq<Op>, sql: Bytes): (oks: seq<bool>)
    ensures |oks| == |ops|
  {
    if ops == [] then []
    else
      var n := |ops| - 1;
      Reports(ops[..n], sql) + [Accepted(AfterRun(ops[..n], sql), Item(ops[n], sql))]
  }

  lemma RunStart(sql: Bytes)
    ensures AfterRun([], sql) == [] && Reports([], sql) == []
  {
  }

  lemma RunStep(ops: seq<Op>, n: nat, sql: Bytes)
    requires n < |ops|
    ensures AfterRun(ops[..n + 1], sql) == Added(AfterRun(ops[..n], sql), Item(ops[n], sql))
    ensures Reports(ops[..n + 1], sql) ==
      Reports(ops[..n], sql) + [Accepted(AfterRun(ops[..n], sql), Item(ops[n], sql))]
  {
    assert ops[..n + 1][..n] == ops[..n];
  }

  predicate Matches(e: Entry, entryType: nat, name: Bytes) {
    e.entryType == entryType && e.name == name
  }

  /** The first stored entry with the type and name. */
  function Lookup(s: seq<Stored>, entryType: nat, name: Bytes): (r: Option<Entry>)
    ensures r.Some? ==> Matches(r.value, entryType, name)
  {
    if s == [] then None
    else if Matches(s[0].entry, entryType, name) then Some(Restored(s[0].entry))
    else Lookup(s[1..], entryType, name)
  }

  /** Lookup from position c on. */
  ghost function Search(s: seq<Stored>, c: nat, entryType: nat, name: Bytes): Option<Entry>
    requires c <= |s|
  {
    Lookup(s[c..], entryType, name)
  }

  lemma SearchAll(s: seq<Stored>, entryType: nat, name: Bytes)
    ensures Search(s, 0, entryType, name) == Lookup(s, entryType, name)
  {
  }

  lemma SearchStep(s: seq<Stored>, c: nat, entryType: nat, name: Bytes)
    requires c <= |s|
    ensures Search(s, c, entryType, name) ==
      if c == |s| then None
      else if Matches(Restored(s[c].entry), entryType, name) then Some(Restored(s[c].entry))
      else Search(s, c + 1, entryType, name)
  {
  }

  // ----- What a run leaves behind -----

  function OpKey(op: Op): nat {
    match op
    case Init => 0
    case Insert(e) => KeyOf(e.entryType, e.name)
  }

  function KeysUsed(ops: seq<Op>): set<nat> {
    if ops == [] then {} else KeysUsed(ops[..|ops| - 1]) + {OpKey(ops[|ops| - 1])}
  }

  /** Index of the first operation with the key, or the number of operations. */
  function FirstOp(ops: seq<Op>, key: nat): (i: nat)
    ensures i <= |ops| && (i < |ops| ==> OpKey(ops[i]) == key)
    ensures forall j :: 0 <= j < i ==> OpKey(ops[j]) != key
  {
    if ops == [] then 0
    else
      var n := |ops| - 1;
      var i := FirstOp(ops[..n], key);
      if i < n || OpKey(ops[n]) == key then i else n + 1
  }

  /** The item stored under a key. */
  function Under(s: seq<Stored>, key: nat): (r: Option<Stored>)
    ensures r.Some? <==> Holds(s, key)
    ensures r.Some? ==> r.value in s && r.value.key == key
  {
    if s == [] then None
    else
      var n := |s| - 1;
      assert Holds(s, key) <==> Holds(s[..n], key) || s[n].key == key by {
        assert s == s[..n] + [s[n]];
      }
      var r := Under(s[..n], key);
      if r.Some? then r else if s[n].key == key then Some(s[n]) else None
  }

  lemma UnderAppend(s: seq<Stored>, item: Stored, key: nat)
    requires !Holds(s, item.key)
    ensures Under(s + [item], key) == if item.key == key then Some(item) else Under(s, key)
  {
  }

  lemma {:induction false} KeysOfRun(ops: seq<Op>, sql: Bytes, key: nat)
    ensures |AfterRun(ops, sql)| == if |KeysUsed(ops)| < CAPACITY then |KeysUsed(ops)| else CAPACITY
    ensures Holds(AfterRun(ops, sql), key) ==> key in KeysUsed(ops)
    ensures |KeysUsed(ops)| < CAPACITY && key in KeysUsed(ops) ==> Holds(AfterRun(ops, sql), key)
    decreases |ops|
  {
    if ops != [] {
      var n := |ops| - 1;
      var s, item, used := AfterRun(ops[..n], sql), Item(ops[n], sql), KeysUsed(ops[..n]);
      KeysOfRun(ops[..n], sql, key);
      KeysOfRun(ops[..n], sql, item.key);
      if item.key in used {
        assert used + {item.key} == used;
      }
      if !Holds(s, item.key) {
        UnderAppend(s, item, key);
      }
    }
  }

  lemma {:induction false} MoreKeys(ops: seq<Op>, i: nat)
    requires i <= |ops|
    ensures KeysUsed(ops[..i]) <= KeysUsed(ops) && |KeysUsed(ops[..i])| <= |KeysUsed(ops)|
    decreases |ops|
  {
    if i < |ops| {
      var n := |ops| - 1;
      MoreKeys(ops[..n], i);
      assert ops[..n][..i] == ops[..i];
      var used := KeysUsed(ops[..n]);
      assert OpKey(ops[n]) in used ==> used + {OpKey(ops[n])} == used;
    } else {
      assert ops[..i] == ops;
    }
  }

  lemma {:induction false} KeyUsedIff(ops: seq<Op>, key: nat)
    ensures key in KeysUsed(ops) <==> FirstOp(ops, key) < |ops|
  {
    if ops != [] {
      KeyUsedIff(ops[..|ops| - 1], key);
    }
  }

  /** A key holds the first item offered under it, provided fewer than six keys came before. */
  lemma {:induction false} RunUnder(ops: seq<Op>, sql: Bytes, key: nat)
    ensures var i := FirstOp(ops, key);
      Under(AfterRun(ops, sql), key) ==
        if i < |ops| && |KeysUsed(ops[..i])| < CAPACITY then Some(Item(ops[i], sql)) else None
    decreases |ops|
  {
    if ops != [] {
      var n, i := |ops| - 1, FirstOp(ops, key);
      var s, item := AfterRun(ops[..n], sql), Item(ops[n], sql);
      RunUnder(ops[..n], sql, key);
      assert i <= n ==> ops[..n][..i] == ops[..i];
      if !Holds(s, item.key) {
        UnderAppend(s, item, key);
      }
      KeysOfRun(ops[..n], sql, key);
      KeyUsedIff(ops[..n], key);
      MoreKeys(ops[..n], FirstOp(ops[..n], key));
    }
  }

  /** Every item is under its entry's key, except the master entry under key 0. */
  predicate Keyed(s: seq<Stored>, sql: Bytes) {
    forall i :: 0 <= i < |s| ==>
      s[i].key == KeyOf(s[i].entry.entryType, s[i].entry.name) || s[i] == Item(Init, sql)
  }

  predicate Unique(s: seq<Stored>) {
    forall i, j :: 0 <= i < j < |s| ==> s[i].key != s[j].key
  }

  lemma {:induction false} RunKeyed(ops: seq<Op>, sql: Bytes)
    ensures Keyed(AfterRun(ops, sql), sql) && Unique(AfterRun(ops, sql))
    ensures Init !in ops ==> forall i :: 0 <= i < |AfterRun(ops, sql)| ==> AfterRun(ops, sql)[i].key != 0
  {
    if ops != [] {
      RunKeyed(ops[..|ops| - 1], sql);
      assert Init !in ops ==> Init !in ops[..|ops| - 1];
    }
  }

  /** The operation put its item into the catalogue: the first with its key, after fewer than six
      others. */
  predicate Took(ops: seq<Op>, i: nat)
    requires i < |ops|
  {
    FirstOp(ops[..i], OpKey(ops[i])) == i && |KeysUsed(ops[..i])| < CAPACITY
  }

  /** The item of the first operation that took effect and has the type and name. */
  function FirstMatch(ops: seq<Op>, sql: Bytes, entryType: nat, name: Bytes): Option<Entry> {
    if ops == [] then None
    else
      var n := |ops| - 1;
      var r := FirstMatch(ops[..n], sql, entryType, name);
      if r.Some? then r
      else if Took(ops, n) && Matches(Item(ops[n], sql).entry, entryType, name) then
        Some(Restored(Item(ops[n], sql).entry))
      else None
  }

  /** After any run, lookup returns the entry of the first operation that took effect and has the type
      and name, and nothing if there is none. */
  lemma {:induction false} LookupIsFirstMatch(ops: seq<Op>, sql: Bytes, entryType: nat, name: Bytes)
    ensures Lookup(AfterRun(ops, sql), entryType, name) == FirstMatch(ops, sql, entryType, name)
    decreases |ops|
  {
    if ops != [] {
      var n := |ops| - 1;
      var s, item := AfterRun(ops[..n], sql), Item(ops[n], sql);
      LookupIsFirstMatch(ops[..n], sql, entryType, name);
      KeysOfRun(ops[..n], sql, item.key);
      KeyUsedIff(ops[..n], item.key);
      if Added(s, item) == s + [item] {
        LookupLast(s + [item], entryType, name);
        assert (s + [item])[..|s|] == s;
      }
    }
  }

  /** When all matching items share one key, lookup is the item under that key, if it matches. */
  lemma {:induction false} LookupUnder(s: seq<Stored>, entryType: nat, name: Bytes, key: nat)
    requires Unique(s)
    requires forall i :: 0 <= i < |s| && Matches(s[i].entry, entryType, name) ==> s[i].key == key
    ensures var u := Under(s, key);
      Lookup(s, entryType, name) ==
        if u.Some? && Matches(u.value.entry, entryType, name) then Some(Restored(u.value.entry)) else None
    decreases |s|
  {
    if s != [] {
      var n := |s| - 1;
      LookupUnder(s[..n], entryType, name, key);
      LookupLast(s, entryType, name);
    }
  }

  lemma {:induction false} LookupLast(s: seq<Stored>, entryType: nat, name: Bytes)
    requires s != []
    ensures var n := |s| - 1; var r := Lookup(s[..n], entryType, name);
      Lookup(s, entryType, name) ==
        if r.Some? then r else if Matches(s[n].entry, entryType, name) then Some(Restored(s[n].entry)) else None
    decreases |s|
  {
    var n := |s| - 1;
    if n > 0 {
      LookupLast(s[1..], entryType, name);
      assert s[1..][..n - 1] == s[..n][1..];
    }
  }

  /** After any run, looking up a type and name finds the entry first offered in its class (table or
      not, name length) if fewer than six classes came before it and it has this type and name, and
      nothing otherwise. */
  lemma LookupIsFirstOfClass(ops: seq<Op>, sql: Bytes, entryType: nat, name: Bytes)
    requires Init !in ops || entryType != TABLE_TYPE || name != MASTER_NAME
    ensures var i := FirstOp(ops, KeyOf(entryType, name));
      Lookup(AfterRun(ops, sql), entryType, name) ==
        if i < |ops| && |KeysUsed(ops[..i])| < CAPACITY && Matches(Item(ops[i], sql).entry, entryType, name)
        then Some(Restored(Item(ops[i], sql).entry)) else None
  {
    var s, key := AfterRun(ops, sql), KeyOf(entryType, name);
    RunKeyed(ops, sql);
    forall i | 0 <= i < |s| && Matches(s[i].entry, entryType, name) ensures s[i].key == key {
      assert s[i].key == 0 ==> Init in ops;
    }
    LookupUnder(s, entryType, name, key);
    RunUnder(ops, sql, key);
  }

  /** An operation is accepted exactly when fewer than six classes came before the first of its own:
      a seventh class is refused, whatever it is. */
  lemma AcceptedIff(ops: seq<Op>, sql: Bytes, op: Op)
    ensures Accepted(AfterRun(ops, sql), Item(op, sql)) <==> |KeysUsed(ops[..FirstOp(ops, OpKey(op))])| < CAPACITY
  {
    var key := OpKey(op);
    RunUnder(ops, sql, key);
    KeysOfRun(ops, sql, key);
    MoreKeys(ops, FirstOp(ops, key));
    if FirstOp(ops, key) == |ops| {
      assert ops[..|ops|] == ops;
    }
  }

  /** The key is meant to keep entries apart, but an insert of a class that is taken is answered as a
      success and dropped: an accepted entry is found exactly when it was the first of its class or
      repeats the one that was. */
  lemma AcceptedIsFoundIff(ops: seq<Op>, sql: Bytes, i: nat)
    requires i < |ops| && ops[i].Insert? && Accepted(AfterRun(ops[..i], sql), Item(ops[i], sql))
    requires Init !in ops || ops[i].entry.entryType != TABLE_TYPE || ops[i].entry.name != MASTER_NAME
    ensures var e := ops[i].entry; var first := FirstOp(ops, OpKey(ops[i]));
      && first <= i
      && (Lookup(AfterRun(ops, sql), e.entryType, e.name) == Some(Restored(e)) <==>
          first == i || Restored(Item(ops[first], sql).entry) == Restored(e))
  {
    hide AfterRun, Accepted, KeysUsed;
    var e, first := ops[i].entry, FirstOp(ops, OpKey(ops[i]));
    LookupIsFirstOfClass(ops, sql, e.entryType, e.name);
    AcceptedIff(ops[..i], sql, ops[i]);
    FirstOpPrefix(ops, i, OpKey(ops[i]));
    assert ops[..i][..first] == ops[..first];
  }

  lemma FirstOpPrefix(ops: seq<Op>, i: nat, key: nat)
    requires i < |ops| && OpKey(ops[i]) == key
    ensures FirstOp(ops[..i], key) == FirstOp(ops, key) <= i
  {
    var a, b := FirstOp(ops[..i], key), FirstOp(ops, key);
    assert forall j :: 0 <= j < i ==> ops[..i][j] == ops[j];
  }

  /** Two tables with names of one length: both inserts succeed and the second is not found. */
  lemma SecondTableLost(a: Entry, b: Entry, sql: Bytes)
    requires a.entryType == TABLE_TYPE && b.entryType == TABLE_TYPE && |a.name| == |b.name| && a.name != b.name
    ensures var ops := [Insert(a), Insert(b)];
      && Accepted(AfterRun(ops[..1], sql), Item(ops[1], sql))
      && Lookup(AfterRun(ops, sql), TABLE_TYPE, b.name) == None
  {
    var ops := [Insert(a), Insert(b)];
    assert ops[..1] == [Insert(a)] && [Insert(a)][..0] == [];
    assert AfterRun([Insert(a)], sql) == [Item(Insert(a), sql)];
    assert [Item(Insert(a), sql)][0].key == Item(Insert(b), sql).key;
    assert AfterRun(ops, sql) == [Item(Insert(a), sql)];
    assert Lookup([], TABLE_TYPE, b.name) == None;
  }

  /** A catalogue initialised first always finds its master entry. */
  lemma {:induction false} MasterFound(ops: seq<Op>, sql: Bytes)
    requires ops != [] && ops[0] == Init
    ensures Lookup(AfterRun(ops, sql), TABLE_TYPE, MASTER_NAME) == Some(Restored(Master(sql)))
    decreases |ops|
  {
    var n := |ops| - 1;
    var s := AfterRun(ops, sql);
    if n > 0 {
      MasterFound(ops[..n], sql);
      if s != AfterRun(ops[..n], sql) {
        LookupLast(s, TABLE_TYPE, MASTER_NAME);
      }
    } else {
      assert s == [Item(Init, sql)];
    }
  }

  // ----- The catalogue on its tree -----

  /** The pairs of a tree that stores the items. */
  function Cells(s: seq<Stored>): (r: seq<Pair>)
    requires forall i :: 0 <= i < |s| ==> EntryOk(s[i].entry)
    ensures |r| == |s|
  {
    seq(|s|, i requires 0 <= i < |s| => Pair(s[i].key, Image(s[i].entry)))
  }

  lemma {:induction false} EntriesUse(s: seq<Pair>)
    requires forall i :: 0 <= i < |s| ==> |s[i].value| == ENTRY_SIZE
    ensures Used(s) == (SLOT + CELL_OVERHEAD + ENTRY_SIZE) * |s|
  {
    if s != [] {
      EntriesUse(s[..|s| - 1]);
    }
  }

  /** A leaf holds exactly six entries. */
  lemma SixFit(s: seq<Pair>, value: Bytes)
    requires |value| == ENTRY_SIZE && forall i :: 0 <= i < |s| ==> |s[i].value| == ENTRY_SIZE
    ensures Fits(s, value) <==> |s| < CAPACITY
  {
    EntriesUse(s);
  }

  /** Inserting a pair does to the cells what adding does to the items. */
  lemma CellsAdded(s: seq<Stored>, item: Stored)
    requires (forall i :: 0 <= i < |s| ==> EntryOk(s[i].entry)) && EntryOk(item.entry)
    ensures forall i :: 0 <= i < |Added(s, item)| ==> EntryOk(Added(s, item)[i].entry)
    ensures Accepted(s, item) ==> Inserted(Cells(s), item.key, Image(item.entry)) == Cells(Added(s, item))
    ensures !Accepted(s, item) ==> Cells(Added(s, item)) == Cells(s)
    ensures Accepted(s, item) <==> HasKey(Cells(s), item.key) || Fits(Cells(s), Image(item.entry))
  {
    hide EntryOk, Image, Fits;
    var c := Cells(s);
    SixFit(c, Image(item.entry));
    assert HasKey(c, item.key) <==> Holds(s, item.key) by {
      assert forall i :: 0 <= i < |s| ==> c[i].key == s[i].key;
    }
    if Added(s, item) == s + [item] {
      assert Cells(s + [item]) == c + [Pair(item.key, Image(item.entry))];
    }
  }

  class Catalog {
    const tree: BTree
    const masterSql: Bytes
    ghost var stored: seq<Stored>

    ghost predicate Valid()
      reads this, tree, tree.cache, tree.cache.table, tree.pager
      reads tree.cache.pages, (set p | p in tree.cache.pages :: p.data)
    {
      && CString(masterSql, SQL_WIDTH)
      && tree.Ready()
      && (forall i :: 0 <= i < |stored| ==> EntryOk(stored[i].entry))
      && tree.Data() == Cells(stored)
    }

    /** catalog_open on the tree btree_create made. */
    constructor (tree: BTree, masterSql: Bytes)
      requires tree.Ready() && tree.Data() == [] && CString(masterSql, SQL_WIDTH)
      ensures Valid() && stored == [] && this.tree == tree && this.masterSql == masterSql
    {
      hide PageCache.Valid, PageCache.Linked, PageCache.Contents, PageCache.Views, WellFormed, Pairs, EntryOk, CString;
      this.tree, this.masterSql, stored := tree, masterSql, [];
    }

    method Store(key: nat, entry: Entry) returns (ok: bool)
      requires Valid() && EntryOk(entry) && key < U64_LIMIT
      modifies this`stored, tree.cache.Repr(), tree.pager`file
      ensures Valid() && fresh(tree.cache.Repr() - old(tree.cache.Repr()))
      ensures forall id :: tree.cache.Pins(id) == old(tree.cache.Pins(id))
      ensures ok ==> Accepted(old(stored), Stored(key, entry))
      ensures stored == if ok then Added(old(stored), Stored(key, entry)) else old(stored)
      ensures old(tree.cache.Idle()) && Accepted(old(stored), Stored(key, entry)) ==> ok
    {
      hide PageCache.Valid, PageCache.Linked, PageCache.Contents, PageCache.Views, WellFormed, Pairs, Fits, HasKey;
      hide Image, Cells, Inserted, Added, Accepted, EntryOk, CString, Pager.Valid, BTree.Ready, BTree.Data;
      var buf := Buffer(entry);
      CellsAdded(stored, Stored(key, entry));
      ok := tree.Insert(key, buf);
      Record(if ok then Added(stored, Stored(key, entry)) else stored);
    }

    ghost method Record(s: seq<Stored>)
      requires CString(masterSql, SQL_WIDTH) && tree.Ready() && (forall i :: 0 <= i < |s| ==> EntryOk(s[i].entry))
      requires tree.Data() == Cells(s)
      modifies this`stored
      ensures Valid() && stored == s
    {
      hide Cells, EntryOk, CString, WellFormed, Pairs, PageCache.Linked, PageCache.Views, ByRecency, Buffered;
      stored := s;
    }

    /** catalog_init or catalog_insert. */
    method Do(op: Op) returns (ok: bool)
      requires Valid() && OpOk(op)
      modifies this`stored, tree.cache.Repr(), tree.pager`file
      ensures Valid() && fresh(tree.cache.Repr() - old(tree.cache.Repr()))
      ensures forall id :: tree.cache.Pins(id) == old(tree.cache.Pins(id))
      ensures ok ==> Accepted(old(stored), Item(op, masterSql))
      ensures stored == if ok then Added(old(stored), Item(op, masterSql)) else old(stored)
      ensures old(tree.cache.Idle()) ==>
        && tree.cache.Idle() && (ok <==> Accepted(old(stored), Item(op, masterSql)))
        && stored == Added(old(stored), Item(op, masterSql))
    {
      hide PageCache.Valid, BTree.Ready, BTree.Data, Cells, Holds;
      match op
      case Init =>
        ok := Store(0, Master(masterSql));
      case Insert(entry) =>
        var key := if entry.entryType == TABLE_TYPE then 1 + |entry.name| else INDEX_BASE + |entry.name|;
        ok := Store(key, entry);
    }

    /** Any run of operations on a fresh catalogue leaves what AfterRun says. */
    method Run(ops: seq<Op>) returns (oks: seq<bool>)
      requires Valid() && tree.cache.Idle() && stored == [] && forall i :: 0 <= i < |ops| ==> OpOk(ops[i])
      modifies this`stored, tree.cache.Repr(), tree.pager`file
      ensures Valid() && tree.cache.Idle() && fresh(tree.cache.Repr() - old(tree.cache.Repr()))
      ensures stored == AfterRun(ops, masterSql) && oks == Reports(ops, masterSql)
    {
      hide Valid, OpOk, Added, Accepted, Item, AfterRun, Reports, PageCache.Idle, PageCache.Pins;
      oks := [];
      RunStart(masterSql);
      for n := 0 to |ops|
        invariant Valid() && tree.cache.Idle() && fresh(tree.cache.Repr() - old(tree.cache.Repr()))
        invariant stored == AfterRun(ops[..n], masterSql) && oks == Reports(ops[..n], masterSql)
      {
        RunStep(ops, n, masterSql);
        var ok := Do(ops[n]);
        oks := oks + [ok];
      }
      assert ops[..|ops|] == ops;
    }

    /** catalog_cursor_get at a valid position. */
    method Current(cursor: Cursor) returns (entry: Entry)
      requires Valid() && tree.cache.Idle() && cursor !in tree.cache.Repr() && !cursor.isEnd && cursor.cell < |stored|
      modifies tree.cache.Repr(), tree.pager`file
      ensures Valid() && tree.cache.Idle() && fresh(tree.cache.Repr() - old(tree.cache.Repr()))
      ensures entry == Restored(old(stored[cursor.cell].entry))
    {
      hide PageCache.Valid, PageCache.Linked, PageCache.Contents, PageCache.Views, WellFormed, Pairs;
      hide Image, Decoded, EntryOk, CString;
      hide Pager.Valid, HeaderTracks, ByRecency, Buffered;
      EntryRoundTrip(stored[cursor.cell].entry);
      assert tree.Data()[cursor.cell] == Pair(stored[cursor.cell].key, Image(stored[cursor.cell].entry));
      var _, _, value := tree.Get(cursor);
      entry := Decoded(value);
    }

    /** catalog_cursor_next. */
    method Step(cursor: Cursor)
      requires Valid() && tree.cache.Idle() && cursor !in tree.cache.Repr() && !cursor.isEnd && cursor.cell < |stored|
      modifies cursor
      modifies tree.cache.Repr(), tree.pager`file
      ensures Valid() && tree.cache.Idle() && fresh(tree.cache.Repr() - old(tree.cache.Repr()))
      ensures cursor.cell == old(cursor.cell) + 1 && cursor.isEnd == (cursor.cell == |stored|)
    {
      hide PageCache.Valid, PageCache.Linked, PageCache.Contents, PageCache.Views, WellFormed, Pairs, EntryOk, CString;
      hide Pager.Valid, HeaderTracks, ByRecency, Buffered;
      tree.Next(cursor);
    }

    /** catalog_cursor_create. */
    method Begin() returns (cursor: Cursor)
      requires Valid() && tree.cache.Idle()
      modifies tree.cache.Repr(), tree.pager`file
      ensures Valid() && tree.cache.Idle() && fresh(tree.cache.Repr() - old(tree.cache.Repr()))
      ensures fresh(cursor) && cursor !in tree.cache.Repr()
      ensures cursor.cell == 0 && cursor.isEnd == (stored == [])
    {
      hide PageCache.Valid, PageCache.Linked, PageCache.Contents, PageCache.Views, WellFormed, Pairs, EntryOk, CString;
      hide Pager.Valid, HeaderTracks, ByRecency, Buffered;
      cursor := tree.First();
    }

    /** One round of catalog_lookup_type_name: the current entry if it matches, else move on. */
    method Try(cursor: Cursor, entryType: nat, name: Bytes) returns (r: Option<Entry>)
      requires Valid() && tree.cache.Idle() && cursor !in tree.cache.Repr() && !cursor.isEnd && cursor.cell < |stored|
      modifies cursor
      modifies tree.cache.Repr(), tree.pager`file
      ensures Valid() && tree.cache.Idle() && fresh(tree.cache.Repr() - old(tree.cache.Repr()))
      ensures cursor !in tree.cache.Repr()
      ensures var e := Restored(old(stored[cursor.cell].entry));
        r == if Matches(e, entryType, name) then Some(e) else None
      ensures r.None? ==> cursor.cell == old(cursor.cell) + 1 && cursor.isEnd == (cursor.cell == |stored|)
    {
      hide Valid, Restored, PageCache.Idle;
      var entry := Current(cursor);
      if entry.entryType == entryType && entry.name == name {
        return Some(entry);
      }
      Step(cursor);
      r := None;
    }

    /** catalog_lookup_type_name. */
    method Find(entryType: nat, name: Bytes) returns (r: Option<Entry>)
      requires Valid() && tree.cache.Idle()
      modifies tree.cache.Repr(), tree.pager`file
      ensures Valid() && tree.cache.Idle() && fresh(tree.cache.Repr() - old(tree.cache.Repr()))
      ensures r == Lookup(stored, entryType, name)
    {
      hide Valid, Lookup, Search, Matches, Restored, PageCache.Idle;
      ghost var all := stored;
      r := None;
      var cursor := Begin();
      SearchAll(all, entryType, name);
      while !cursor.isEnd && r.None?
        invariant Valid() && tree.cache.Idle() && stored == all && fresh(tree.cache.Repr() - old(tree.cache.Repr()))
        invariant fresh(cursor) && cursor !in tree.cache.Repr()
        invariant r.None? ==> cursor.cell <= |all| && cursor.isEnd == (cursor.cell == |all|)
        invariant Lookup(all, entryType, name) == if r.Some? then r else Search(all, cursor.cell, entryType, name)
        decreases r.None?, |all| - cursor.cell
      {
        SearchStep(all, cursor.cell, entryType, name);
        r := Try(cursor, entryType, name);
      }
      if r.None? {
        SearchStep(all, |all|, entryType, name);
      }
    }
  }
}
