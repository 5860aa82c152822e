/** The slotted leaf page of the B+tree: a header, an array of cell pointers growing up, and cells
    growing down from the end of the page. */
module LeafPage {
  import opened Bytes

  const LEAF_TYPE := 0x0D
  const HEADER := 10
  const SLOT := 2
  /** Payload size, key size and an eight-byte key precede the value in a cell. */
  const CELL_OVERHEAD := 16

  datatype Pair = Pair(key: nat, value: Bytes)

  // ----- Reading the bytes -----

  function CellCount(d: Bytes): (n: nat)
    requires |d| == PAGE_SIZE
  {
    ReadBE16(d, 1)
  }

  function ContentStart(d: Bytes): (o: nat)
    requires |d| == PAGE_SIZE
  {
    ReadBE16(d, 3)
  }

  function CellPointer(d: Bytes, i: nat): (o: nat)
    requires |d| == PAGE_SIZE && HEADER + SLOT * i + 2 <= PAGE_SIZE
  {
    ReadBE16(d, HEADER + SLOT * i)
  }

  /** Cells are packed: each ends where the one before it begins. */
  function CellEnd(d: Bytes, i: nat): (o: nat)
    requires |d| == PAGE_SIZE && HEADER + SLOT * i <= PAGE_SIZE
  {
    if i == 0 then PAGE_SIZE else CellPointer(d, i - 1)
  }

  /** Cell i lies above the content start, its size field reaches its end and its key is 8 bytes. */
  ghost predicate CellOk(d: Bytes, i: nat)
    requires |d| == PAGE_SIZE && HEADER + SLOT * i + 2 <= PAGE_SIZE
  {
    var o, end := CellPointer(d, i), CellEnd(d, i);
    && ContentStart(d) <= o && o + CELL_OVERHEAD <= end <= PAGE_SIZE
    && ReadBE32(d, o) == end - o
    && ReadBE32(d, o + 4) == 8
  }

  ghost predicate Packed(d: Bytes) {
    && |d| == PAGE_SIZE
    && d[0] == LEAF_TYPE
    && HEADER + SLOT * CellCount(d) <= ContentStart(d) <= PAGE_SIZE
    && (forall i {:trigger CellOk(d, i)} :: 0 <= i < CellCount(d) ==> CellOk(d, i))
    && ContentStart(d) == CellEnd(d, CellCount(d))
  }

  function PairAt(d: Bytes, i: nat): (p: Pair)
    requires Packed(d) && i < CellCount(d)
  {
    assert CellOk(d, i);
    var o := CellPointer(d, i);
    Pair(ReadLE64(d, o + 8), d[o + CELL_OVERHEAD..CellEnd(d, i)])
  }

  /** The pairs on a page, in the order of its cell pointers. */
  function Pairs(d: Bytes): (s: seq<Pair>)
    requires Packed(d)
    ensures |s| == CellCount(d)
  {
    seq(CellCount(d), i requires 0 <= i < CellCount(d) => PairAt(d, i))
  }

  /** Byte by byte: pointers follow the ten bytes of the header; a cell starts with its size and eight, the
      size of its key, both big-endian, and then has the key, little-endian, and the value. */
  lemma PairBytes(d: Bytes, i: nat)
    requires Packed(d) && i < CellCount(d)
    ensures 10 + 2 * i + 2 <= PAGE_SIZE
    ensures var o := ReadBE16(d, 10 + 2 * i);
      && o + 16 + |PairAt(d, i).value| <= PAGE_SIZE
      && ReadBE32(d, o) == 16 + |PairAt(d, i).value| && ReadBE32(d, o + 4) == 8
      && ReadLE64(d, o + 8) == PairAt(d, i).key
      && d[o + 16..o + 16 + |PairAt(d, i).value|] == PairAt(d, i).value
  {
    assert CellOk(d, i);
  }

  ghost predicate DistinctKeys(s: seq<Pair>) {
    forall i, j :: 0 <= i < j < |s| ==> s[i].key != s[j].key
  }

  /** A leaf page as btree_create and btree_insert leave it. */
  ghost predicate WellFormed(d: Bytes) {
    Packed(d) && DistinctKeys(Pairs(d))
  }

  // ----- Layout -----

  /** Cells never overlap: a later cell ends at or below the start of an earlier one. */
  lemma {:induction false} CellsApart(d: Bytes, i: nat, j: nat)
    requires Packed(d) && i < j < CellCount(d)
    ensures CellEnd(d, j) <= CellPointer(d, i)
    ensures HEADER + SLOT * CellCount(d) <= CellPointer(d, j)
    decreases j
  {
    assert CellOk(d, j);
    if i < j - 1 {
      CellsApart(d, i, j - 1);
      assert CellOk(d, j - 1);
    }
  }

  /** Bytes a list of pairs occupies, cell pointers included. */
  function Used(s: seq<Pair>): nat {
    if s == [] then 0 else Used(s[..|s| - 1]) + SLOT + CELL_OVERHEAD + |s[|s| - 1].value|
  }

  /** The free gap is what the header and the pairs leave of the page. */
  lemma SpaceLeft(d: Bytes)
    requires Packed(d)
    ensures ContentStart(d) - (HEADER + SLOT * CellCount(d)) == PAGE_SIZE - HEADER - Used(Pairs(d))
  {
    SpaceUpTo(d, CellCount(d));
    assert Pairs(d)[..CellCount(d)] == Pairs(d);
  }

  lemma {:induction false} SpaceUpTo(d: Bytes, k: nat)
    requires Packed(d) && k <= CellCount(d)
    ensures CellEnd(d, k) - (HEADER + SLOT * k) == PAGE_SIZE - HEADER - Used(Pairs(d)[..k])
  {
    if k > 0 {
      SpaceUpTo(d, k - 1);
      assert CellOk(d, k - 1);
      var s := Pairs(d)[..k];
      assert s[..k - 1] == Pairs(d)[..k - 1];
      assert s[k - 1] == PairAt(d, k - 1);
    }
  }

  // ----- The empty page -----

  /** btree_create: zeros, the leaf type, no cells, content starting at the end of the page. */
  function EmptyImage(): (d: Bytes)
    ensures WellFormed(d) && Pairs(d) == []
    ensures d[..5] == [0x0D, 0, 0, 0x10, 0] && forall i :: 5 <= i < PAGE_SIZE ==> d[i] == 0
  {
    var d := Splice(Splice(Splice(Zeros(PAGE_SIZE), 0, [LEAF_TYPE]), 1, BE16(0)), 3, BE16(PAGE_SIZE));
    assert d[1..3] == BE16(0);
    assert d[3..5] == BE16(PAGE_SIZE);
    d
  }

  // ----- Inserting a cell -----

  ghost predicate Fits(s: seq<Pair>, value: Bytes) {
    Used(s) + SLOT + CELL_OVERHEAD + |value| <= PAGE_SIZE - HEADER
  }

  lemma UsedAppend(s: seq<Pair>, p: Pair)
    ensures Used(s + [p]) == Used(s) + 18 + |p.value|
  {
    assert (s + [p])[..|s|] == s;
  }

  /** A value fits a page exactly when its cell and its pointer, eighteen bytes more than the value,
      fit the gap between the cell pointers and the cells. */
  lemma FitsIffGap(d: Bytes, value: Bytes)
    requires Packed(d)
    ensures Fits(Pairs(d), value) <==> 18 + |value| <= ContentStart(d) - (10 + 2 * CellCount(d))
  {
    SpaceLeft(d);
  }

  /** If any well-formed page holds some pairs and one more, that one fits beside them. */
  lemma FitsIfHeld(r: Bytes, s: seq<Pair>, p: Pair)
    requires Packed(r) && Pairs(r) == s + [p]
    ensures Fits(s, p.value)
  {
    SpaceLeft(r);
    UsedAppend(s, p);
  }

  /** The bytes of a new cell: total size, key size, key, value. */
  function CellImage(key: nat, value: Bytes): (c: Bytes)
    requires key < U64_LIMIT && CELL_OVERHEAD + |value| < U32_LIMIT
    ensures |c| == CELL_OVERHEAD + |value|
    ensures ReadBE32(c, 0) == |c| && ReadBE32(c, 4) == 8 && ReadLE64(c, 8) == key
    ensures c[CELL_OVERHEAD..] == value
  {
    var c := BE32(CELL_OVERHEAD + |value|) + BE32(8) + LE64(key) + value;
    assert c[0..4] == BE32(CELL_OVERHEAD + |value|);
    assert c[4..8] == BE32(8);
    assert c[8..16] == LE64(key);
    c
  }

  /** The page after btree_insert has written pointer, cell and header. */
  function InsertImage(d: Bytes, key: nat, value: Bytes): (r: Bytes)
    requires Packed(d) && key < U64_LIMIT
    requires SLOT + CELL_OVERHEAD + |value| <= ContentStart(d) - (HEADER + SLOT * CellCount(d))
    ensures |r| == PAGE_SIZE
  {
    Placed(d, CellCount(d), ContentStart(d) - CELL_OVERHEAD - |value|, CellImage(key, value))
  }

  /** Pointer n set to o, cell c written there, header updated. */
  function Placed(d: Bytes, n: nat, o: nat, c: Bytes): (r: Bytes)
    requires |d| == PAGE_SIZE && HEADER + SLOT * n + 2 <= PAGE_SIZE && o + |c| <= PAGE_SIZE
    ensures |r| == PAGE_SIZE
  {
    var d1 := Splice(d, HEADER + SLOT * n, BE16(o));
    var d2 := Splice(d1, o, c);
    Splice(Splice(d2, 1, BE16(n + 1)), 3, BE16(o))
  }

  lemma SliceApart(s: Bytes, o: nat, t: Bytes, a: nat, b: nat)
    requires o + |t| <= |s| && a <= b <= |s| && (b <= o || o + |t| <= a)
    ensures Splice(s, o, t)[a..b] == s[a..b]
  {
  }

  /** Header and cell pointers of the new page. */
  lemma InsertHeader(d: Bytes, key: nat, value: Bytes)
    requires Packed(d) && key < U64_LIMIT
    requires SLOT + CELL_OVERHEAD + |value| <= ContentStart(d) - (HEADER + SLOT * CellCount(d))
    ensures var r, n, o := InsertImage(d, key, value), CellCount(d), ContentStart(d) - CELL_OVERHEAD - |value|;
      && r[0] == d[0] && CellCount(r) == n + 1 && ContentStart(r) == o && CellPointer(r, n) == o
      && forall i :: 0 <= i < n ==> CellPointer(r, i) == CellPointer(d, i)
  {
  }

  /** The new cell is in place and every earlier cell is preserved byte for byte. */
  lemma InsertCells(d: Bytes, key: nat, value: Bytes)
    requires Packed(d) && key < U64_LIMIT
    requires SLOT + CELL_OVERHEAD + |value| <= ContentStart(d) - (HEADER + SLOT * CellCount(d))
    ensures var r, o := InsertImage(d, key, value), ContentStart(d) - CELL_OVERHEAD - |value|;
      && r[o..ContentStart(d)] == CellImage(key, value)
      && r[ContentStart(d)..] == d[ContentStart(d)..]
  {
    hide Splice, CellImage, BE16, CellOk;
    var n, start := CellCount(d), ContentStart(d);
    var o := start - CELL_OVERHEAD - |value|;
    var c := CellImage(key, value);
    var d1 := Splice(d, HEADER + SLOT * n, BE16(o));
    var d2 := Splice(d1, o, c);
    var d3 := Splice(d2, 1, BE16(n + 1));
    SliceApart(d3, 3, BE16(o), o, start);
    SliceApart(d2, 1, BE16(n + 1), o, start);
    SliceApart(d3, 3, BE16(o), start, PAGE_SIZE);
    SliceApart(d2, 1, BE16(n + 1), start, PAGE_SIZE);
    SliceApart(d1, o, c, start, PAGE_SIZE);
    SliceApart(d, HEADER + SLOT * n, BE16(o), start, PAGE_SIZE);
  }

  /** A cell above `from` reads the same on two pages that agree there. */
  lemma CellReads(d: Bytes, r: Bytes, from: nat, o: nat, end: nat)
    requires |d| == |r| == PAGE_SIZE && from <= o && o + CELL_OVERHEAD <= end <= PAGE_SIZE
    requires r[from..] == d[from..]
    ensures ReadBE32(r, o) == ReadBE32(d, o) && ReadBE32(r, o + 4) == ReadBE32(d, o + 4)
    ensures ReadLE64(r, o + 8) == ReadLE64(d, o + 8)
    ensures r[o + CELL_OVERHEAD..end] == d[o + CELL_OVERHEAD..end]
  {
  }

  /** The new cell reads back as it was written. */
  lemma NewCellReads(r: Bytes, o: nat, end: nat, c: Bytes)
    requires |r| == PAGE_SIZE && o + CELL_OVERHEAD <= end <= PAGE_SIZE && r[o..end] == c
    ensures ReadBE32(r, o) == ReadBE32(c, 0) && ReadBE32(r, o + 4) == ReadBE32(c, 4)
    ensures ReadLE64(r, o + 8) == ReadLE64(c, 8)
    ensures r[o + CELL_OVERHEAD..end] == c[CELL_OVERHEAD..]
  {
  }

  ghost predicate HasKey(s: seq<Pair>, key: nat) {
    exists i :: 0 <= i < |s| && s[i].key == key
  }

  /** Inserting a new key that fits appends exactly that pair to the page and keeps the page
      well formed. */
  lemma InsertAppends(d: Bytes, key: nat, value: Bytes)
    requires WellFormed(d) && key < U64_LIMIT && !HasKey(Pairs(d), key) && Fits(Pairs(d), value)
    ensures SLOT + CELL_OVERHEAD + |value| <= ContentStart(d) - (HEADER + SLOT * CellCount(d))
    ensures var r := InsertImage(d, key, value);
      WellFormed(r) && Pairs(r) == Pairs(d) + [Pair(key, value)]
  {
    hide CellOk, CellCount, ContentStart, CellPointer, PairAt, InsertImage;
    SpaceLeft(d);
    InsertPacked(d, key, value);
    var r, n := InsertImage(d, key, value), CellCount(d);
    forall i | 0 <= i < n + 1
      ensures PairAt(r, i) == if i < n then PairAt(d, i) else Pair(key, value)
    {
      InsertPairs(d, key, value, i);
    }
    assert Pairs(r) == Pairs(d) + [Pair(key, value)];
  }

  lemma InsertPacked(d: Bytes, key: nat, value: Bytes)
    requires Packed(d) && key < U64_LIMIT
    requires SLOT + CELL_OVERHEAD + |value| <= ContentStart(d) - (HEADER + SLOT * CellCount(d))
    ensures Packed(InsertImage(d, key, value)) && CellCount(InsertImage(d, key, value)) == CellCount(d) + 1
  {
    hide InsertImage, CellImage, ReadBE32;
    var r, n := InsertImage(d, key, value), CellCount(d);
    InsertHeader(d, key, value);
    InsertCells(d, key, value);
    forall i | 0 <= i < n + 1
      ensures CellOk(r, i)
    {
      if i < n {
        assert CellOk(d, i);
        CellReads(d, r, ContentStart(d), CellPointer(d, i), CellEnd(d, i));
      } else {
        NewCellReads(r, ContentStart(r), ContentStart(d), CellImage(key, value));
      }
    }
  }

  lemma InsertPairs(d: Bytes, key: nat, value: Bytes, i: nat)
    requires Packed(d) && key < U64_LIMIT && i <= CellCount(d)
    requires SLOT + CELL_OVERHEAD + |value| <= ContentStart(d) - (HEADER + SLOT * CellCount(d))
    requires var r := InsertImage(d, key, value); Packed(r) && CellCount(r) == CellCount(d) + 1
    ensures PairAt(InsertImage(d, key, value), i) == if i < CellCount(d) then PairAt(d, i) else Pair(key, value)
  {
    hide InsertImage, CellImage, ReadBE32, ReadLE64;
    var r, n := InsertImage(d, key, value), CellCount(d);
    InsertHeader(d, key, value);
    InsertCells(d, key, value);
    if i < n {
      assert CellOk(d, i);
      CellReads(d, r, ContentStart(d), CellPointer(d, i), CellEnd(d, i));
    } else {
      NewCellReads(r, ContentStart(r), ContentStart(d), CellImage(key, value));
    }
  }

  // ----- The same operations in place on a page buffer -----

  function U16At(a: array<Byte>, o: nat): (v: nat)
    requires o + 2 <= a.Length
    reads a
    ensures v == ReadBE16(a[..], o)
  {
    a[o] as int * 256 + a[o + 1] as int
  }

  function U32At(a: array<Byte>, o: nat): (v: nat)
    requires o + 4 <= a.Length
    reads a
    ensures v == ReadBE32(a[..], o)
  {
    U16At(a, o) * U16_LIMIT + U16At(a, o + 2)
  }

  /** memcpy into a page buffer. */
  method Copy(a: array<Byte>, o: nat, t: Bytes)
    requires o + |t| <= a.Length
    modifies a
    ensures a[..] == Splice(old(a[..]), o, t)
  {
    for i := 0 to |t|
      invariant forall j :: 0 <= j < a.Length ==> a[j] == if o <= j < o + i then t[j - o] else old(a[j])
    {
      a[o + i] := t[i];
    }
  }

  /** The page initialisation of btree_create. */
  method Initialise(a: array<Byte>)
    requires a.Length == PAGE_SIZE
    modifies a
    ensures a[..] == EmptyImage()
  {
    forall i | 0 <= i < PAGE_SIZE { a[i] := 0; }
    assert a[..] == Zeros(PAGE_SIZE);
    Copy(a, 0, [LEAF_TYPE]);
    Copy(a, 1, BE16(0));
    Copy(a, 3, BE16(PAGE_SIZE));
  }

  /** Position of the first pair with the given key, or the number of pairs. */
  function Position(s: seq<Pair>, key: nat): (i: nat)
    ensures i <= |s| && (i < |s| ==> s[i].key == key)
    ensures forall j :: 0 <= j < i ==> s[j].key != key
    ensures i < |s| <==> HasKey(s, key)
  {
    if s == [] || s[0].key == key then 0
    else
      assert forall j :: 0 < j < |s| ==> s[j] == s[1..][j - 1];
      1 + Position(s[1..], key)
  }

  /** The cell loop of btree_find. */
  method FindCell(a: array<Byte>, key: nat) returns (cell: nat)
    requires a.Length == PAGE_SIZE && Packed(a[..])
    ensures cell == Position(Pairs(a[..]), key)
  {
    hide CellOk, Pairs, ReadBE16, ReadBE32, ReadLE64, HasKey;
    ghost var d := a[..];
    ghost var s := Pairs(d);
    var count := U16At(a, 1);
    cell := 0;
    while cell < count
      invariant cell <= count == |s|
      invariant forall j :: 0 <= j < cell ==> s[j].key != key
    {
      CellAt(d, cell);
      var offset := U16At(a, HEADER + SLOT * cell);
      var keySize := U32At(a, offset + 4);
      if keySize == 8 && KeyAt(a, offset + 8) == key {
        break;
      }
      cell := cell + 1;
    }
    PositionIs(s, key, cell);
  }

  lemma CellAt(d: Bytes, i: nat)
    requires Packed(d) && i < CellCount(d)
    ensures var o, p := CellPointer(d, i), Pairs(d)[i];
      && o + CELL_OVERHEAD + |p.value| <= PAGE_SIZE
      && ReadBE32(d, o) == CELL_OVERHEAD + |p.value| && ReadBE32(d, o + 4) == 8
      && ReadLE64(d, o + 8) == p.key && d[o + CELL_OVERHEAD..o + CELL_OVERHEAD + |p.value|] == p.value
  {
    assert CellOk(d, i);
    assert Pairs(d)[i] == PairAt(d, i);
  }

  lemma PositionIs(s: seq<Pair>, key: nat, i: nat)
    requires i <= |s| && (i < |s| ==> s[i].key == key)
    requires forall j :: 0 <= j < i ==> s[j].key != key
    ensures Position(s, key) == i
  {
  }

  function KeyAt(a: array<Byte>, o: nat): (k: nat)
    requires o + 8 <= a.Length
    reads a
    ensures k == ReadLE64(a[..], o)
  {
    ReadLE64(a[o..o + 8], 0)
  }

  /** The copies of btree_get: key and value of a cell. */
  method ReadCell(a: array<Byte>, cell: nat) returns (key: nat, value: Bytes)
    requires a.Length == PAGE_SIZE && Packed(a[..]) && cell < CellCount(a[..])
    ensures Pair(key, value) == Pairs(a[..])[cell]
  {
    hide CellOk, Pairs, ReadBE16, ReadBE32, ReadLE64;
    ghost var d := a[..];
    CellAt(d, cell);
    var offset := U16At(a, HEADER + SLOT * cell);
    var payload, keySize := U32At(a, offset), U32At(a, offset + 4);
    key := KeyAt(a, offset + 8);
    var length := payload - keySize - 8;
    value := a[offset + 8 + keySize..offset + 8 + keySize + length];
    assert value == d[offset + CELL_OVERHEAD..offset + CELL_OVERHEAD + length];
  }

  /** The writes of btree_insert once the space check has passed.  A key that is absent is placed
      after the last cell, so no cell pointer has to be moved up. */
  method WriteCell(a: array<Byte>, key: nat, value: Bytes)
    requires a.Length == PAGE_SIZE && Packed(a[..]) && key < U64_LIMIT
    requires SLOT + CELL_OVERHEAD + |value| <= ContentStart(a[..]) - (HEADER + SLOT * CellCount(a[..]))
    modifies a
    ensures a[..] == InsertImage(old(a[..]), key, value)
  {
    var count, start := U16At(a, 1), U16At(a, 3);
    Place(a, count, start - CELL_OVERHEAD - |value|, CellImage(key, value));
  }

  method Place(a: array<Byte>, count: nat, offset: nat, cell: Bytes)
    requires a.Length == PAGE_SIZE && HEADER + SLOT * count + 2 <= PAGE_SIZE && offset + |cell| <= PAGE_SIZE
    modifies a
    ensures a[..] == Placed(old(a[..]), count, offset, cell)
  {
    hide Splice, BE16;
    Copy(a, HEADER + SLOT * count, BE16(offset));
    Copy(a, offset, cell);
    Copy(a, 1, BE16(count + 1));
    Copy(a, 3, BE16(offset));
  }

  /** So a new pair fits a page exactly when some well-formed page holds the old pairs and the new one. */
  lemma FitsIffSomePage(d: Bytes, key: nat, value: Bytes)
    requires WellFormed(d) && key < U64_LIMIT && !HasKey(Pairs(d), key)
    ensures Fits(Pairs(d), value) <==> exists r :: WellFormed(r) && Pairs(r) == Pairs(d) + [Pair(key, value)]
  {
    hide CellOk, Packed, DistinctKeys, Fits, Pairs;
    if Fits(Pairs(d), value) {
      InsertAppends(d, key, value);
    }
    if r :| WellFormed(r) && Pairs(r) == Pairs(d) + [Pair(key, value)] {
      FitsIfHeld(r, Pairs(d), Pair(key, value));
    }
  }

  // ----- The space check of btree_insert -----

  /** The test as written: the needed size is truncated to sixteen bits before it is compared. */
  function SpaceCheck(available: nat, length: nat): bool {
    (SLOT + (CELL_OVERHEAD + length) % U32_LIMIT) % U16_LIMIT <= available
  }

  /** The check is right about a value exactly when the truncation loses nothing or still leaves a
      number too large; in particular it is right about every value below 65518 bytes. */
  lemma SpaceCheckIff(available: nat, length: nat)
    requires available <= PAGE_SIZE - HEADER
    ensures (SpaceCheck(available, length) <==> SLOT + CELL_OVERHEAD + length <= available) <==>
      || SLOT + CELL_OVERHEAD + length < U16_LIMIT
      || (SLOT + CELL_OVERHEAD + length) % U16_LIMIT > available
  {
    var total := CELL_OVERHEAD + length;
    assert (SLOT + total % U32_LIMIT) % U16_LIMIT == (SLOT + total) % U16_LIMIT by {
      TruncateTwice(total);
    }
  }

  lemma TruncateTwice(total: nat)
    ensures (SLOT + total % U32_LIMIT) % U16_LIMIT == (SLOT + total) % U16_LIMIT
  {
    var q := total / U32_LIMIT;
    assert SLOT + total == SLOT + total % U32_LIMIT + U16_LIMIT * (U16_LIMIT * q);
    ModMultiple(SLOT + total % U32_LIMIT, U16_LIMIT * q);
  }

  lemma ModMultiple(x: nat, k: nat)
    ensures (x + U16_LIMIT * k) % U16_LIMIT == x % U16_LIMIT
  {
  }

  /** A value of 65518 bytes passes the check on a page that can hold none. */
  lemma SpaceCheckCounterexample()
    ensures SpaceCheck(0, 65518) && SLOT + CELL_OVERHEAD + 65518 > PAGE_SIZE
  {
  }
}
