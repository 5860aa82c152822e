/** The write-ahead log: appending entries and scanning them for the last committed transaction. */
module Wal {
  import opened Bytes
  import opened Options
  import opened Bits
  import opened Checksum

  const BEGIN := 1
  const COMMIT := 2
  const ROLLBACK := 3
  const PAGE_MODIFY := 4
  const CHECKPOINT := 5

  const WAL_MAGIC := 0x377F0682
  /** Where the code believes entries start. */
  const DECLARED_HEADER_SIZE := 32
  /** The size of the file header it writes. */
  const FILE_HEADER_SIZE := 40
  const ENTRY_HEADER_SIZE := 16

  datatype Entry = Entry(kind: Byte, tx: nat, payload: Bytes)

  predicate Storable(e: Entry) {
    e.tx < U64_LIMIT && |e.payload| < U16_LIMIT
  }

  // ----- Encoding -----

  /** An entry header with a given checksum: type, flags, size, checksum, transaction. */
  function HeaderBytes(e: Entry, checksum: nat): (h: Bytes)
    requires Storable(e) && checksum < U32_LIMIT
    ensures |h| == ENTRY_HEADER_SIZE
    ensures h[0] == e.kind && h[1] == 0 && ReadLE16(h, 2) == |e.payload| && ReadLE64(h, 8) == e.tx
    ensures ReadLE32(h, 4) == checksum
  {
    var h := [e.kind, 0] + LE16(|e.payload|) + LE32(checksum) + LE64(e.tx);
    assert h[2..4] == LE16(|e.payload|);
    assert h[4..8] == LE32(checksum);
    assert h[8..16] == LE64(e.tx);
    h
  }

  /** The checksum of wal_append: over the header with a zero checksum field, then the payload. */
  function ChecksumOver(header: Bytes, payload: Bytes): (c: nat)
    ensures c < U32_LIMIT
  {
    SumFromBound(0, header);
    if payload == [] then Sum(header) else Xor32(Sum(header), Sum(payload))
  }

  function EntryChecksum(e: Entry): (c: nat)
    requires Storable(e)
    ensures c < U32_LIMIT
  {
    ChecksumOver(HeaderBytes(e, 0), e.payload)
  }

  function Encode(e: Entry): (s: Bytes)
    requires Storable(e)
    ensures |s| == ENTRY_HEADER_SIZE + |e.payload|
  {
    HeaderBytes(e, EntryChecksum(e)) + e.payload
  }

  function EncodeAll(es: seq<Entry>): (s: Bytes)
    requires forall e :: e in es ==> Storable(e)
    decreases |es|
  {
    if es == [] then [] else Encode(es[0]) + EncodeAll(es[1..])
  }

  /** An entry verifies against itself: the stored checksum is the one over its bytes with the
      checksum's own four taken as zero. */
  lemma StoredChecksum(e: Entry)
    requires Storable(e)
    ensures var s := Encode(e); ReadLE32(s, 4) == ChecksumOver(s[..4] + [0, 0, 0, 0] + s[8..16], s[16..])
  {
    hide EntryChecksum, ChecksumOver, ReadLE32;
    var s, h, z := Encode(e), HeaderBytes(e, EntryChecksum(e)), HeaderBytes(e, 0);
    assert LE32(0) == [0, 0, 0, 0];
    assert z == s[..4] + [0, 0, 0, 0] + s[8..16];
    assert s[16..] == e.payload;
    ReadsPrefix(h, e.payload);
    assert EntryChecksum(e) == ChecksumOver(z, e.payload) by { ChecksumIs(e); }
  }

  lemma ReadsPrefix(h: Bytes, rest: Bytes)
    requires |h| >= 8
    ensures ReadLE32(h + rest, 4) == ReadLE32(h, 4)
  {
  }

  lemma ChecksumIs(e: Entry)
    requires Storable(e)
    ensures EntryChecksum(e) == ChecksumOver(HeaderBytes(e, 0), e.payload)
  {
    hide ChecksumOver, HeaderBytes;
  }

  /** Changing any one byte of header or payload changes the checksum over both. */
  lemma ByteDetected(header: Bytes, payload: Bytes, i: nat, b: Byte)
    requires i < |header| + |payload| && b != (header + payload)[i]
    ensures var changed := (header + payload)[i := b];
      ChecksumOver(changed[..|header|], changed[|header|..]) != ChecksumOver(header, payload)
  {
    hide SumFrom, Xor, Xor32;
    var changed := (header + payload)[i := b];
    var h, p := changed[..|header|], changed[|header|..];
    SumFromBound(0, header);
    SumFromBound(0, payload);
    SumFromBound(0, h);
    SumFromBound(0, p);
    if i < |header| {
      SingleByteDetected(header, i, b);
      assert h == header[i := b] && p == payload;
      XorDiffers(Sum(h), Sum(header), Sum(payload));
    } else {
      SingleByteDetected(payload, i - |header|, b);
      assert h == header && p == payload[i - |header| := b];
      if Xor32(Sum(h), Sum(p)) == Xor32(Sum(h), Sum(payload)) {
        Xor32Injective(Sum(h), Sum(p), Sum(payload));
      }
    }
  }

  /** Changing any one byte of an entry, kind, flags, size and transaction included, changes the
      checksum stored with it. */
  lemma EntryByteDetected(e: Entry, i: nat, b: Byte)
    requires Storable(e) && i < |Encode(e)| && b != (HeaderBytes(e, 0) + e.payload)[i]
    ensures var changed := (HeaderBytes(e, 0) + e.payload)[i := b];
      ChecksumOver(changed[..ENTRY_HEADER_SIZE], changed[ENTRY_HEADER_SIZE..]) != EntryChecksum(e)
  {
    ByteDetected(HeaderBytes(e, 0), e.payload, i, b);
  }

  // ----- The recovery scan -----

  datatype Scan = Scan(tx: nat, inTx: bool, lastTx: nat, hasCheckpoint: bool, checkpointOffset: nat)

  const START := Scan(0, false, 0, false, 0)

  /** The switch of wal_recovery_info on one entry header. */
  function Note(s: Scan, kind: Byte, tx: nat, offset: nat): Scan {
    if kind == BEGIN then s.(tx := tx, inTx := true)
    else if kind == COMMIT then (if s.inTx && tx == s.tx then s.(lastTx := tx, inTx := false) else s)
    else if kind == ROLLBACK then s.(inTx := false)
    else if kind == CHECKPOINT then s.(hasCheckpoint := true, checkpointOffset := offset)
    else s
  }

  /** The scan from an offset to the first header that is not wholly in the file. */
  function ScanFrom(f: Bytes, offset: nat, s: Scan): Scan
    decreases |f| - offset
  {
    if offset + ENTRY_HEADER_SIZE > |f| then s
    else ScanFrom(f, offset + ENTRY_HEADER_SIZE + ReadLE16(f, offset + 2),
                  Note(s, f[offset], ReadLE64(f, offset + 8), offset))
  }

  /** wal_recovery_info, with the position of the first entry as a parameter. */
  method RecoveryInfo(f: Bytes, start: nat) returns (s: Scan)
    ensures s == ScanFrom(f, start, START)
  {
    s := START;
    var offset := start;
    while offset < |f|
      invariant ScanFrom(f, start, START) == ScanFrom(f, offset, s)
      decreases |f| - offset
    {
      if offset + ENTRY_HEADER_SIZE > |f| {
        break;
      }
      var kind, size, tx := f[offset], ReadLE16(f, offset + 2), ReadLE64(f, offset + 8);
      if kind == BEGIN {
        s := s.(tx := tx, inTx := true);
      } else if kind == COMMIT {
        if s.inTx && tx == s.tx {
          s := s.(lastTx := tx, inTx := false);
        }
      } else if kind == ROLLBACK {
        s := s.(inTx := false);
      } else if kind == CHECKPOINT {
        s := s.(hasCheckpoint := true, checkpointOffset := offset);
      }
      offset := offset + ENTRY_HEADER_SIZE + size;
    }
  }

  /** The same bookkeeping on the entries themselves. */
  function Replay(es: seq<Entry>, offset: nat, s: Scan): Scan
    decreases |es|
  {
    if es == [] then s
    else Replay(es[1..], offset + ENTRY_HEADER_SIZE + |es[0].payload|, Note(s, es[0].kind, es[0].tx, offset))
  }

  /** How many entries have their whole header in the first n bytes of the encoding. */
  function WholeHeaders(es: seq<Entry>, n: nat): (m: nat)
    ensures m <= |es|
    decreases |es|
  {
    if es == [] || n < ENTRY_HEADER_SIZE then 0
    else
      var size := ENTRY_HEADER_SIZE + |es[0].payload|;
      1 + if n < size then 0 else WholeHeaders(es[1..], n - size)
  }

  lemma HeaderInPlace(pre: Bytes, e: Entry, post: Bytes, cut: nat)
    requires Storable(e) && |pre| + ENTRY_HEADER_SIZE <= cut <= |pre| + |Encode(e)| + |post|
    ensures var f := (pre + (Encode(e) + post))[..cut]; var o := |pre|;
      f[o] == e.kind && ReadLE16(f, o + 2) == |e.payload| && ReadLE64(f, o + 8) == e.tx
  {
  }

  /** Whatever byte length the log was cut to, the scan stays on entry boundaries and sees exactly
      the entries whose headers survived. */
  lemma {:induction false} ScanOfPrefix(pre: Bytes, es: seq<Entry>, cut: nat, s: Scan)
    requires forall e :: e in es ==> Storable(e)
    requires |pre| <= cut <= |pre| + |EncodeAll(es)|
    ensures ScanFrom((pre + EncodeAll(es))[..cut], |pre|, s) == Replay(es[..WholeHeaders(es, cut - |pre|)], |pre|, s)
    decreases |es|
  {
    hide Encode, Note, ReadLE16, ReadLE64;
    var f, m := (pre + EncodeAll(es))[..cut], WholeHeaders(es, cut - |pre|);
    if m > 0 {
      var e, rest := es[0], es[1..];
      var pre' := pre + Encode(e);
      HeaderInPlace(pre, e, EncodeAll(rest), cut);
      assert pre' + EncodeAll(rest) == pre + EncodeAll(es);
      assert es[..m][1..] == rest[..m - 1];
      if cut >= |pre'| {
        ScanOfPrefix(pre', rest, cut, Note(s, e.kind, e.tx, |pre|));
      }
    }
  }

  // ----- What the scan reports -----

  /** The transaction begun last and not rolled back since. */
  function OpenTx(es: seq<Entry>): (t: Option<nat>)
    decreases |es|
  {
    if es == [] then None
    else
      var e := es[|es| - 1];
      if e.kind == BEGIN then Some(e.tx)
      else if e.kind == ROLLBACK then None
      else OpenTx(es[..|es| - 1])
  }

  ghost predicate BeganAt(es: seq<Entry>, i: nat, t: nat) {
    && i < |es| && es[i].kind == BEGIN && es[i].tx == t
    && forall k :: i < k < |es| ==> es[k].kind != BEGIN && es[k].kind != ROLLBACK
  }

  /** A transaction is open exactly when some BEGIN for it has no BEGIN or ROLLBACK after it. */
  lemma {:induction false} OpenTxIff(es: seq<Entry>, t: nat)
    ensures OpenTx(es) == Some(t) <==> exists i :: BeganAt(es, i, t)
    decreases |es|
  {
    if es != [] {
      var n := |es| - 1;
      OpenTxIff(es[..n], t);
      if es[n].kind == BEGIN && es[n].tx == t {
        assert BeganAt(es, n, t);
      } else if es[n].kind != BEGIN && es[n].kind != ROLLBACK {
        forall i
          ensures BeganAt(es[..n], i, t) <==> BeganAt(es, i, t)
        {
        }
      }
    }
  }

  /** The transaction of the last COMMIT that ends an open transaction; 0 if there is none. */
  function LastCommitted(es: seq<Entry>): (t: nat)
    decreases |es|
  {
    if es == [] then 0
    else
      var n := |es| - 1;
      if es[n].kind == COMMIT && OpenTx(es[..n]) == Some(es[n].tx) then es[n].tx else LastCommitted(es[..n])
  }

  lemma {:induction false} ReplaySnoc(es: seq<Entry>, e: Entry, offset: nat, s: Scan)
    ensures Replay(es + [e], offset, s) == Note(Replay(es, offset, s), e.kind, e.tx, offset + Size(es))
    decreases |es|
  {
    if es == [] {
      assert es + [e] == [e];
    } else {
      assert (es + [e])[1..] == es[1..] + [e];
      ReplaySnoc(es[1..], e, offset + ENTRY_HEADER_SIZE + |es[0].payload|, Note(s, es[0].kind, es[0].tx, offset));
    }
  }

  /** Bytes the entries occupy. */
  function Size(es: seq<Entry>): nat
    decreases |es|
  {
    if es == [] then 0 else ENTRY_HEADER_SIZE + |es[0].payload| + Size(es[1..])
  }

  /** The scan's bookkeeping finds the last committed transaction, never one still open or rolled
      back before its COMMIT. */
  lemma {:induction false} ReplayFindsLastCommitted(es: seq<Entry>, offset: nat)
    ensures var s := Replay(es, offset, START);
      && s.lastTx == LastCommitted(es)
      && (s.inTx ==> OpenTx(es) == Some(s.tx))
      && (OpenTx(es).Some? ==> OpenTx(es).value == s.tx && (s.inTx || s.lastTx == s.tx))
    decreases |es|
  {
    if es != [] {
      var n := |es| - 1;
      ReplayFindsLastCommitted(es[..n], offset);
      ReplaySnoc(es[..n], es[n], offset, START);
      assert es[..n] + [es[n]] == es;
    }
  }

  /** The last checkpoint among the entries is entry i. */
  ghost predicate LastCheckpointAt(es: seq<Entry>, i: nat) {
    i < |es| && es[i].kind == 5 && forall j :: i < j < |es| ==> es[j].kind != 5
  }

  lemma {:induction false} BoundaryAt(es: seq<Entry>, start: nat, i: nat)
    requires i < |es|
    ensures Boundaries(es, start)[i] == start + Size(es[..i])
    decreases |es|
  {
    if i > 0 {
      BoundaryAt(es[1..], start + ENTRY_HEADER_SIZE + |es[0].payload|, i - 1);
      assert es[..i][1..] == es[1..][..i - 1];
    }
  }

  /** The bookkeeping reports a checkpoint exactly if there is one, and then where the last one starts. */
  lemma {:induction false} ReplayFindsCheckpoint(es: seq<Entry>, start: nat, i: nat)
    ensures var s := Replay(es, start, START);
      && (s.hasCheckpoint <==> exists j :: 0 <= j < |es| && es[j].kind == 5)
      && (!s.hasCheckpoint ==> s.checkpointOffset == 0)
      && (LastCheckpointAt(es, i) ==> s.checkpointOffset == Boundaries(es, start)[i])
    decreases |es|
  {
    hide Boundaries, Size;
    if es != [] {
      var n := |es| - 1;
      ReplaySnoc(es[..n], es[n], start, START);
      assert es[..n] + [es[n]] == es;
      if es[n].kind == 5 {
        BoundaryAt(es, start, n);
      } else if i < n {
        ReplayFindsCheckpoint(es[..n], start, i);
        BoundaryAt(es, start, i);
        BoundaryAt(es[..n], start, i);
        assert es[..n][..i] == es[..i];
      }
      ReplayFindsCheckpoint(es[..n], start, 0);
      if j :| 0 <= j < n && es[..n][j].kind == 5 {
        assert es[j].kind == 5;
      }
      if j :| 0 <= j < n && es[j].kind == 5 {
        assert es[..n][j].kind == 5;
      }
    }
  }

  /** How many entries have a whole header in the first bytes of the file. */
  function WholeIn(es: seq<Entry>, cut: nat): (m: nat)
    ensures m <= |es|
  {
    if cut < FILE_HEADER_SIZE then 0 else WholeHeaders(es, cut - FILE_HEADER_SIZE)
  }

  lemma CrashScan(es: seq<Entry>, cut: nat)
    requires forall e :: e in es ==> Storable(e)
    requires cut <= FILE_HEADER_SIZE + |EncodeAll(es)|
    ensures ScanFrom((FileHeader() + EncodeAll(es))[..cut], FILE_HEADER_SIZE, START) ==
      Replay(es[..WholeIn(es, cut)], FILE_HEADER_SIZE, START)
  {
    hide Encode, EncodeAll, FileHeader, Note, ReadLE16, ReadLE64;
    if cut >= FILE_HEADER_SIZE {
      ScanOfPrefix(FileHeader(), es, cut, START);
    }
  }

  /** A log cut at any byte: the scan started at the first entry reports exactly the last
      transaction committed among the entries whose headers are whole. */
  lemma CrashRecovery(es: seq<Entry>, cut: nat)
    requires forall e :: e in es ==> Storable(e)
    requires cut <= FILE_HEADER_SIZE + |EncodeAll(es)|
    ensures var f := (FileHeader() + EncodeAll(es))[..cut];
      ScanFrom(f, FILE_HEADER_SIZE, START).lastTx == LastCommitted(es[..WholeIn(es, cut)])
  {
    hide EncodeAll, FileHeader, ScanFrom, Replay, WholeIn;
    CrashScan(es, cut);
    ReplayFindsLastCommitted(es[..WholeIn(es, cut)], FILE_HEADER_SIZE);
  }

  /** And a checkpoint exactly if one of those entries is one, with the offset of the last. */
  lemma CrashCheckpoint(es: seq<Entry>, cut: nat, i: nat)
    requires forall e :: e in es ==> Storable(e)
    requires cut <= FILE_HEADER_SIZE + |EncodeAll(es)|
    ensures var s := ScanFrom((FileHeader() + EncodeAll(es))[..cut], FILE_HEADER_SIZE, START);
      var whole := es[..WholeIn(es, cut)];
      && (s.hasCheckpoint <==> exists j :: 0 <= j < |whole| && whole[j].kind == 5)
      && (!s.hasCheckpoint ==> s.checkpointOffset == 0)
      && (LastCheckpointAt(whole, i) ==> s.checkpointOffset == Boundaries(whole, FILE_HEADER_SIZE)[i])
  {
    hide EncodeAll, FileHeader, ScanFrom, Replay, WholeIn, Boundaries;
    CrashScan(es, cut);
    ReplayFindsCheckpoint(es[..WholeIn(es, cut)], FILE_HEADER_SIZE, i);
  }

  // ----- The log file -----

  /** The header wal_open writes: magic, version, the two declared offsets, then zeros. */
  function FileHeader(): (h: Bytes)
    ensures |h| == FILE_HEADER_SIZE
    ensures ReadLE32(h, 0) == 0x377F0682 && ReadLE32(h, 4) == 1 && ReadLE64(h, 8) == 32 && ReadLE64(h, 16) == 32
    ensures forall i :: 24 <= i < FILE_HEADER_SIZE ==> h[i] == 0
  {
    var h := LE32(WAL_MAGIC) + LE32(1) + LE64(DECLARED_HEADER_SIZE) + LE64(DECLARED_HEADER_SIZE) + Zeros(16);
    assert h[0..4] == LE32(WAL_MAGIC) && h[4..8] == LE32(1);
    SameEight(h, 8, LE64(DECLARED_HEADER_SIZE), 0);
    SameEight(h, 16, LE64(DECLARED_HEADER_SIZE), 0);
    h
  }

  // ----- Where a scan reads -----

  /** The offsets at which a scan reads an entry header. */
  function Visits(f: Bytes, offset: nat): (s: seq<nat>)
    decreases |f| - offset
  {
    if offset + ENTRY_HEADER_SIZE > |f| then []
    else [offset] + Visits(f, offset + ENTRY_HEADER_SIZE + ReadLE16(f, offset + 2))
  }

  /** The offsets at which entries start, when the first one starts at `start`. */
  function Boundaries(es: seq<Entry>, start: nat): (s: seq<nat>)
    ensures |s| == |es|
    ensures forall i :: 0 <= i < |s| ==> s[i] >= start
    decreases |es|
  {
    if es == [] then [] else [start] + Boundaries(es[1..], start + ENTRY_HEADER_SIZE + |es[0].payload|)
  }

  lemma {:induction false} VisitsAreBoundaries(pre: Bytes, es: seq<Entry>)
    requires forall e :: e in es ==> Storable(e)
    ensures Visits(pre + EncodeAll(es), |pre|) == Boundaries(es, |pre|)
    decreases |es|
  {
    hide Encode, ReadLE16, ReadLE64;
    var f := pre + EncodeAll(es);
    if es != [] {
      HeaderInPlace(pre, es[0], EncodeAll(es[1..]), |f|);
      assert f[..|f|] == f;
      assert pre + Encode(es[0]) + EncodeAll(es[1..]) == f;
      VisitsAreBoundaries(pre + Encode(es[0]), es[1..]);
    }
  }

  /** Started at the declared header size, a scan reads only at entry boundaries exactly when there
      are no entries. */
  lemma ShippedScanIff(es: seq<Entry>)
    requires forall e :: e in es ==> Storable(e)
    ensures var f := FileHeader() + EncodeAll(es);
      (forall o :: o in Visits(f, DECLARED_HEADER_SIZE) ==> o in Boundaries(es, FILE_HEADER_SIZE)) <==> es == []
  {
    hide FileHeader, Encode, ReadLE16;
    var f := FileHeader() + EncodeAll(es);
    if es != [] {
      assert Visits(f, DECLARED_HEADER_SIZE)[0] == DECLARED_HEADER_SIZE;
      assert DECLARED_HEADER_SIZE !in Boundaries(es, FILE_HEADER_SIZE);
    }
  }

  // ----- What the scan as shipped reports -----

  /** An entry without payload whose transaction number fits in sixteen bits. */
  predicate Plain(e: Entry) {
    Storable(e) && e.payload == [] && e.tx < U16_LIMIT
  }

  predicate AllPlain(es: seq<Entry>) {
    forall i :: 0 <= i < |es| ==> Plain(es[i])
  }

  /** The first half of an entry, read as a transaction number. */
  function Head(e: Entry): nat
    requires Storable(e)
  {
    ReadLE64(Encode(e), 0)
  }

  /** What the shipped scan takes for entries: the second half of each entry, whose lowest byte of
      the transaction number passes for a kind, with the first half of the next one. */
  function Misread(es: seq<Entry>): (ms: seq<Entry>)
    requires AllPlain(es)
    ensures |ms| == if es == [] then 0 else |es| - 1
    ensures forall i :: 0 <= i < |ms| ==> ms[i].kind == es[i].tx % 256
    decreases |es|
  {
    if |es| < 2 then []
    else [Entry(es[0].tx % 256, Head(es[1]), [])] + Misread(es[1..])
  }

  lemma LowBytes(s: Bytes, v: nat)
    requires |s| == 8 && ReadLE64(s, 0) == v < U16_LIMIT
    ensures s[0] == v % 256 && s[2] == 0 && s[3] == 0
  {
    assert ReadLE32(s, 0) + ReadLE32(s, 4) * U32_LIMIT == v;
    assert ReadLE16(s, 0) + ReadLE16(s, 2) * U16_LIMIT == v;
  }

  /** The header the scan sees eight bytes into an entry. */
  lemma HalfHeader(pre: Bytes, e: Entry, next: Entry, post: Bytes)
    requires Plain(e) && Plain(next)
    ensures var f := pre + (Encode(e) + (Encode(next) + post)); var o := |pre| + 8;
      && f[o] == e.tx % 256 && ReadLE16(f, o + 2) == 0 && ReadLE64(f, o + 8) == Head(next)
  {
    hide HeaderBytes, EntryChecksum, ReadLE64;
    var f, o := pre + (Encode(e) + (Encode(next) + post)), |pre| + 8;
    var h := HeaderBytes(e, EntryChecksum(e));
    assert f[o..o + 8] == h[8..16];
    assert ReadLE64(h[8..16], 0) == ReadLE64(h, 8) by { SameEight(h[8..16], 0, h, 8); }
    LowBytes(h[8..16], e.tx);
    assert f[o] == f[o..o + 8][0] && f[o + 2] == f[o..o + 8][2] && f[o + 3] == f[o..o + 8][3];
    assert f[o + 8..o + 16] == Encode(next)[..8];
    SameEight(f, o + 8, Encode(next), 0);
  }

  lemma SameEight(a: Bytes, i: nat, b: Bytes, j: nat)
    requires i + 8 <= |a| && j + 8 <= |b| && a[i..i + 8] == b[j..j + 8]
    ensures ReadLE64(a, i) == ReadLE64(b, j)
  {
    var x, y := a[i..i + 8], b[j..j + 8];
    assert x[0] == a[i] && x[1] == a[i + 1] && x[2] == a[i + 2] && x[3] == a[i + 3];
    assert x[4] == a[i + 4] && x[5] == a[i + 5] && x[6] == a[i + 6] && x[7] == a[i + 7];
    assert y[0] == b[j] && y[1] == b[j + 1] && y[2] == b[j + 2] && y[3] == b[j + 3];
    assert y[4] == b[j + 4] && y[5] == b[j + 5] && y[6] == b[j + 6] && y[7] == b[j + 7];
  }

  lemma {:induction false} MisreadScan(pre: Bytes, es: seq<Entry>, s: Scan)
    requires AllPlain(es)
    ensures ScanFrom(pre + EncodeAll(es), |pre| + 8, s) == Replay(Misread(es), |pre| + 8, s)
    decreases |es|
  {
    hide Encode, EncodeAll, Note, ReadLE16, ReadLE64, Head;
    var f := pre + EncodeAll(es);
    EncodeSteps(es);
    if |es| >= 2 {
      var e, next, rest := es[0], es[1], EncodeAll(es[2..]);
      HalfHeader(pre, e, next, rest);
      assert f == (pre + Encode(e)) + EncodeAll(es[1..]);
      MisreadScan(pre + Encode(e), es[1..], Note(s, e.tx % 256, Head(next), |pre| + 8));
    }
  }

  lemma EncodeSteps(es: seq<Entry>)
    requires AllPlain(es)
    ensures es == [] ==> EncodeAll(es) == []
    ensures |es| == 1 ==> |EncodeAll(es)| == ENTRY_HEADER_SIZE
    ensures |es| >= 2 ==> EncodeAll(es) == Encode(es[0]) + EncodeAll(es[1..])
    ensures |es| >= 2 ==> EncodeAll(es) == Encode(es[0]) + (Encode(es[1]) + EncodeAll(es[2..]))
  {
    if |es| == 1 {
      assert es[1..] == [];
    } else if |es| >= 2 {
      assert es[1..][1..] == es[2..];
    }
  }

  /** For every log of plain entries the shipped scan is a replay of the misread entries. */
  lemma ShippedScanIs(es: seq<Entry>)
    requires AllPlain(es)
    ensures ScanFrom(FileHeader() + EncodeAll(es), DECLARED_HEADER_SIZE, START) == Replay(Misread(es), 48, START)
  {
    hide Encode, EncodeAll, FileHeader, Misread, Replay;
    var f := FileHeader() + EncodeAll(es);
    if |f| >= 48 {
      assert f[32] == 0 && f[34] == 0 && f[35] == 0;
      assert ScanFrom(f, 32, START) == ScanFrom(f, 48, START);
      MisreadScan(FileHeader(), es, START);
    } else {
      ShortLog(es);
    }
  }

  /** So it reports the last commit among them. */
  lemma ShippedScanReports(es: seq<Entry>)
    requires AllPlain(es)
    ensures ScanFrom(FileHeader() + EncodeAll(es), DECLARED_HEADER_SIZE, START).lastTx == LastCommitted(Misread(es))
  {
    hide EncodeAll, FileHeader, ScanFrom, Misread, Replay;
    ShippedScanIs(es);
    ReplayFindsLastCommitted(Misread(es), 48);
  }

  /** And a checkpoint exactly if the transaction number of an entry before the last ends in its kind. */
  lemma ShippedCheckpointIff(es: seq<Entry>)
    requires AllPlain(es)
    ensures ScanFrom(FileHeader() + EncodeAll(es), DECLARED_HEADER_SIZE, START).hasCheckpoint <==>
      exists j :: 0 <= j < |es| - 1 && es[j].tx % 256 == 5
  {
    hide EncodeAll, FileHeader, ScanFrom, Misread, Replay;
    ShippedScanIs(es);
    var ms := Misread(es);
    ReplayFindsCheckpoint(ms, 48, 0);
    assert forall j :: 0 <= j < |ms| ==> ms[j].kind == es[j].tx % 256;
  }

  lemma ShortLog(es: seq<Entry>)
    requires AllPlain(es) && |EncodeAll(es)| < ENTRY_HEADER_SIZE
    ensures es == [] && Misread(es) == [] && Replay(Misread(es), 48, START) == START
  {
  }

  /** It is right about a log whose misread kinds hold no COMMIT exactly when nothing was committed. */
  lemma NoMisreadCommit(es: seq<Entry>)
    requires AllPlain(es) && forall i :: 0 <= i < |es| ==> es[i].tx % 256 != COMMIT
    ensures ScanFrom(FileHeader() + EncodeAll(es), DECLARED_HEADER_SIZE, START).lastTx == LastCommitted(es)
      <==> LastCommitted(es) == 0
  {
    hide EncodeAll, FileHeader, ScanFrom;
    ShippedScanReports(es);
    NoCommit(Misread(es));
  }

  lemma {:induction false} NoCommit(ms: seq<Entry>)
    requires forall m :: m in ms ==> m.kind != COMMIT
    ensures LastCommitted(ms) == 0
    decreases |ms|
  {
    if ms != [] {
      NoCommit(ms[..|ms| - 1]);
    }
  }

  datatype LogOp = DoBegin | DoCommit | DoRollback | DoCheckpoint | DoAppend(entry: Entry)

  /** The entry an operation appends when the current transaction counter is tx. */
  function EntryOf(op: LogOp, tx: nat): Entry {
    match op
    case DoBegin => Entry(BEGIN, tx + 1, [])
    case DoCommit => Entry(COMMIT, tx, [])
    case DoRollback => Entry(ROLLBACK, tx, [])
    case DoCheckpoint => Entry(CHECKPOINT, tx, [])
    case DoAppend(e) => e
  }

  function EntriesOf(ops: seq<LogOp>, tx: nat): (es: seq<Entry>)
    ensures |es| == |ops|
    decreases |ops|
  {
    if ops == [] then []
    else [EntryOf(ops[0], tx)] + EntriesOf(ops[1..], if ops[0].DoBegin? then tx + 1 else tx)
  }

  // ----- Runs of the log operations, as the shipped scan reports them -----

  function Begins(ops: seq<LogOp>): (n: nat) {
    if ops == [] then 0 else Begins(ops[..|ops| - 1]) + if ops[|ops| - 1].DoBegin? then 1 else 0
  }

  /** A transaction was begun and not rolled back since. */
  predicate Open(ops: seq<LogOp>) {
    ops != [] && (ops[|ops| - 1].DoBegin? || (!ops[|ops| - 1].DoRollback? && Open(ops[..|ops| - 1])))
  }

  /** Some commit comes while a transaction is open. */
  ghost predicate Commits(ops: seq<LogOp>) {
    exists j :: 0 <= j < |ops| && ops[j].DoCommit? && Open(ops[..j])
  }

  /** No entry is appended but by the transaction operations. */
  predicate NoAppend(ops: seq<LogOp>) {
    forall i :: 0 <= i < |ops| ==> !ops[i].DoAppend?
  }

  lemma {:induction false} EntriesSnoc(ops: seq<LogOp>, op: LogOp, tx: nat)
    ensures EntriesOf(ops + [op], tx) == EntriesOf(ops, tx) + [EntryOf(op, tx + Begins(ops))]
    decreases |ops|
  {
    if ops == [] {
      assert ops + [op] == [op];
    } else {
      assert (ops + [op])[1..] == ops[1..] + [op];
      EntriesSnoc(ops[1..], op, if ops[0].DoBegin? then tx + 1 else tx);
      BeginsCons(ops);
    }
  }

  lemma {:induction false} BeginsCons(ops: seq<LogOp>)
    requires ops != []
    ensures Begins(ops) == Begins(ops[1..]) + if ops[0].DoBegin? then 1 else 0
    decreases |ops|
  {
    if |ops| > 1 {
      BeginsCons(ops[..|ops| - 1]);
      assert ops[..|ops| - 1][1..] == ops[1..][..|ops| - 2];
    }
  }

  lemma {:induction false} RunOpen(ops: seq<LogOp>)
    requires NoAppend(ops)
    ensures OpenTx(EntriesOf(ops, 0)) == if Open(ops) then Some(Begins(ops)) else None
    ensures Open(ops) ==> Begins(ops) > 0
    decreases |ops|
  {
    if ops != [] {
      var n := |ops| - 1;
      RunOpen(ops[..n]);
      EntriesSnoc(ops[..n], ops[n], 0);
      assert ops[..n] + [ops[n]] == ops;
      assert EntriesOf(ops, 0)[..n] == EntriesOf(ops[..n], 0);
    }
  }

  lemma {:induction false} RunCommits(ops: seq<LogOp>)
    requires NoAppend(ops)
    ensures LastCommitted(EntriesOf(ops, 0)) != 0 <==> Commits(ops)
    decreases |ops|
  {
    if ops != [] {
      var n := |ops| - 1;
      RunCommits(ops[..n]);
      RunOpen(ops[..n]);
      EntriesSnoc(ops[..n], ops[n], 0);
      assert ops[..n] + [ops[n]] == ops;
      assert EntriesOf(ops, 0)[..n] == EntriesOf(ops[..n], 0);
      assert forall j :: 0 <= j < n ==> ops[..n][..j] == ops[..j];
    }
  }

  /** The kind of the entry an operation leaves, as the format numbers them. */
  lemma {:induction false} RunKinds(ops: seq<LogOp>, tx: nat, i: nat)
    requires i < |ops|
    ensures EntriesOf(ops, tx)[i].kind == (match ops[i]
      case DoBegin => 1 case DoCommit => 2 case DoRollback => 3 case DoCheckpoint => 5 case DoAppend(e) => e.kind)
    decreases |ops|
  {
    if i > 0 {
      RunKinds(ops[1..], if ops[0].DoBegin? then tx + 1 else tx, i - 1);
    }
  }

  /** After any run on a new log the scan from the first entry reports a checkpoint exactly if one was
      asked for. */
  lemma RunCheckpoint(ops: seq<LogOp>)
    requires NoAppend(ops) && forall e :: e in EntriesOf(ops, 0) ==> Storable(e)
    ensures ScanFrom(FileHeader() + EncodeAll(EntriesOf(ops, 0)), FILE_HEADER_SIZE, START).hasCheckpoint <==>
      DoCheckpoint in ops
  {
    hide EncodeAll, FileHeader, ScanFrom, EntriesOf;
    var es := EntriesOf(ops, 0);
    var f := FileHeader() + EncodeAll(es);
    forall i | 0 <= i < |ops|
      ensures es[i].kind == 5 <==> ops[i] == DoCheckpoint
    {
      RunKinds(ops, 0, i);
    }
    AllWhole(es);
    CrashCheckpoint(es, |f|, 0);
    assert f[..|f|] == f && es[..|es|] == es;
  }

  lemma {:induction false} AllWhole(es: seq<Entry>)
    requires forall e :: e in es ==> Storable(e)
    ensures WholeHeaders(es, |EncodeAll(es)|) == |es|
    decreases |es|
  {
    if es != [] {
      AllWhole(es[1..]);
    }
  }

  /** As the operations number them: a BEGIN takes the next number, all others keep the last. */
  ghost predicate Numbered(es: seq<Entry>) {
    && AllPlain(es)
    && forall i :: 0 <= i < |es| - 1 ==> es[i + 1].tx == es[i].tx + if es[i + 1].kind == BEGIN then 1 else 0
  }

  lemma HeadsDiffer(e: Entry, tx: nat)
    requires Plain(e) && tx < U16_LIMIT && tx % 256 == COMMIT && e.tx == tx + if e.kind == BEGIN then 1 else 0
    ensures Head(e) != Head(Entry(BEGIN, tx, []))
  {
    hide Head, HeaderBytes, SumFrom;
    var f := Entry(BEGIN, tx, []);
    if Head(e) == Head(f) {
      HeadDetermines(e, f);
      NextHeader(tx);
      SingleByteDetected(HeaderBytes(f, 0), 8, tx % 256 + 1);
    }
  }

  /** The first half of an entry holds its kind and its checksum. */
  lemma HeadDetermines(e: Entry, f: Entry)
    requires Plain(e) && Plain(f) && Head(e) == Head(f)
    ensures e.kind == f.kind && EntryChecksum(e) == EntryChecksum(f)
  {
    hide ReadLE64, EntryChecksum;
    var a, b := HeaderBytes(e, EntryChecksum(e)), HeaderBytes(f, EntryChecksum(f));
    assert Encode(e) == a && Encode(f) == b;
    SameEight(a, 0, a[..8], 0);
    SameEight(b, 0, b[..8], 0);
    EightInjective(a[..8], b[..8]);
    assert a[0] == a[..8][0] && a[4] == a[..8][4] && a[5] == a[..8][5] && a[6] == a[..8][6] && a[7] == a[..8][7];
    assert b[0] == b[..8][0] && b[4] == b[..8][4] && b[5] == b[..8][5] && b[6] == b[..8][6] && b[7] == b[..8][7];
    assert ReadLE32(a, 4) == ReadLE32(b, 4);
  }

  lemma EightInjective(a: Bytes, b: Bytes)
    requires |a| == 8 && |b| == 8 && ReadLE64(a, 0) == ReadLE64(b, 0)
    ensures a == b
  {
    hide ReadLE16;
    assert ReadLE32(a, 0) == ReadLE32(b, 0) && ReadLE32(a, 4) == ReadLE32(b, 4);
    assert ReadLE16(a, 0) == ReadLE16(b, 0) && ReadLE16(a, 2) == ReadLE16(b, 2);
    assert ReadLE16(a, 4) == ReadLE16(b, 4) && ReadLE16(a, 6) == ReadLE16(b, 6);
    TwoInjective(a, b, 0);
    TwoInjective(a, b, 2);
    TwoInjective(a, b, 4);
    TwoInjective(a, b, 6);
  }

  /** A BEGIN header and that of the next transaction differ in one byte. */
  lemma NextHeader(tx: nat)
    requires tx < U16_LIMIT - 1 && tx % 256 < 255
    ensures var h := HeaderBytes(Entry(BEGIN, tx, []), 0);
      h[8] == tx % 256 && HeaderBytes(Entry(BEGIN, tx + 1, []), 0) == h[8 := tx % 256 + 1]
  {
    hide LE16, LE32, LE64;
    SmallLE64(tx);
    SmallLE64(tx + 1);
  }

  lemma SmallLE64(v: nat)
    requires v < U16_LIMIT
    ensures LE64(v) == [v % 256, v / 256] + Zeros(6)
  {
    assert LE32(v) == [v % 256, v / 256, 0, 0] && LE32(0) == [0, 0, 0, 0];
  }

  /** In a numbered log no misread commit matches the last misread begin. */
  lemma {:induction false} NeverMatches(es: seq<Entry>, offset: nat, s: Scan)
    requires es != [] && Numbered(es) && s.lastTx == 0
    requires es[0].tx % 256 == COMMIT && s.inTx ==> s.tx == Head(Entry(BEGIN, es[0].tx, []))
    ensures Replay(Misread(es), offset, s).lastTx == 0
    decreases |es|
  {
    hide Head;
    if |es| >= 2 {
      var e, next := es[0], es[1];
      if e.tx % 256 == COMMIT {
        HeadsDiffer(next, e.tx);
      }
      NeverMatches(es[1..], offset + ENTRY_HEADER_SIZE, Note(s, e.tx % 256, Head(next), offset));
    }
  }

  lemma {:induction false} RunNumbered(ops: seq<LogOp>)
    requires NoAppend(ops) && Begins(ops) < U16_LIMIT
    ensures var es := EntriesOf(ops, 0); Numbered(es) && (es != [] ==> es[|es| - 1].tx == Begins(ops))
    decreases |ops|
  {
    if ops != [] {
      var n := |ops| - 1;
      RunNumbered(ops[..n]);
      EntriesSnoc(ops[..n], ops[n], 0);
      assert ops[..n] + [ops[n]] == ops;
    }
  }

  /** Whatever transactions were run on a new log, as long as there were fewer than 65536 of them,
      the shipped scan reports none.  So it is right exactly when no commit came while a transaction
      was open. */
  lemma ShippedRecoveryIff(ops: seq<LogOp>)
    requires NoAppend(ops) && Begins(ops) < U16_LIMIT
    ensures AllPlain(EntriesOf(ops, 0))
    ensures var es := EntriesOf(ops, 0); var r := ScanFrom(FileHeader() + EncodeAll(es), DECLARED_HEADER_SIZE, START);
      r.lastTx == 0 && (r.lastTx == LastCommitted(es) <==> !Commits(ops))
  {
    hide EncodeAll, FileHeader, ScanFrom, Misread, Replay, Commits;
    var es := EntriesOf(ops, 0);
    RunNumbered(ops);
    RunCommits(ops);
    ShippedScanReports(es);
    if es != [] {
      NeverMatches(es, 48, START);
    }
    ReplayFindsLastCommitted(Misread(es), 48);
    ReplayNothing(es);
  }

  lemma ReplayNothing(es: seq<Entry>)
    requires AllPlain(es)
    ensures es == [] ==> Replay(Misread(es), 48, START) == START
  {
  }

  /** One transaction, begun and committed, of which the shipped scan reports nothing. */
  lemma ShippedScanMissesCommit()
    ensures var es := EntriesOf([DoBegin, DoCommit], 0);
      && AllPlain(es) && LastCommitted(es) == 1
      && ScanFrom(FileHeader() + EncodeAll(es), DECLARED_HEADER_SIZE, START).lastTx == 0
  {
    hide EncodeAll, FileHeader, ScanFrom;
    var ops := [DoBegin, DoCommit];
    assert ops[1..] == [DoCommit] && [DoCommit][1..] == [] && ops[..1] == [DoBegin] && [DoBegin][..0] == [];
    assert Begins(ops[..1]) == 1;
    ShippedRecoveryIff(ops);
    assert EntriesOf(ops, 0) == [Entry(BEGIN, 1, []), Entry(COMMIT, 1, [])];
    assert EntriesOf(ops, 0)[..1] == [Entry(BEGIN, 1, [])];
  }

  // ----- An append that fails -----

  lemma {:induction false} WholeHeadersSnoc(es: seq<Entry>, e: Entry, n: nat)
    requires (forall x :: x in es ==> Storable(x)) && Storable(e) && n < |Encode(e)|
    ensures WholeHeaders(es + [e], |EncodeAll(es)| + n) == |es| + if n < ENTRY_HEADER_SIZE then 0 else 1
    decreases |es|
  {
    hide Encode;
    if es == [] {
      assert es + [e] == [e];
    } else {
      assert (es + [e])[1..] == es[1..] + [e];
      WholeHeadersSnoc(es[1..], e, n);
    }
  }

  /** An append cut short anywhere leaves a log whose scan reports the last commit before it, or that
      of the entry itself once its header is whole. */
  lemma TornAppend(es: seq<Entry>, e: Entry, n: nat)
    requires (forall x :: x in es ==> Storable(x)) && Storable(e) && n < |Encode(e)|
    ensures ScanFrom(FileHeader() + EncodeAll(es) + Encode(e)[..n], FILE_HEADER_SIZE, START).lastTx ==
      LastCommitted(if n < ENTRY_HEADER_SIZE then es else es + [e])
  {
    hide Encode, EncodeAll, FileHeader, ScanFrom, LastCommitted, WholeHeaders;
    var all, cut := es + [e], FILE_HEADER_SIZE + |EncodeAll(es)| + n;
    EncodeSnoc(es, e);
    CrashRecovery(all, cut);
    WholeHeadersSnoc(es, e, n);
    assert (FileHeader() + EncodeAll(all))[..cut] == FileHeader() + EncodeAll(es) + Encode(e)[..n];
    assert all[..|es|] == es && all[..|all|] == all;
  }

  lemma {:induction false} EncodeSnoc(es: seq<Entry>, e: Entry)
    requires Storable(e) && forall x :: x in es ==> Storable(x)
    ensures EncodeAll(es + [e]) == EncodeAll(es) + Encode(e)
    decreases |es|
  {
    hide Encode;
    if es == [] {
      assert es + [e] == [e];
    } else {
      assert (es + [e])[1..] == es[1..] + [e];
      EncodeSnoc(es[1..], e);
    }
  }

  class Log {
    /** Whether every system call succeeds. */
    const reliable: bool
    var file: Bytes
    var logOffset: nat
    var currentTx: nat
    ghost var entries: seq<Entry>

    ghost predicate Valid()
      reads this
    {
      && (forall e :: e in entries ==> Storable(e))
      && file == FileHeader() + EncodeAll(entries)
      && logOffset == DECLARED_HEADER_SIZE + |EncodeAll(entries)|
    }

    /** wal_open on a path without a log. */
    constructor (reliable: bool)
      ensures Valid() && entries == [] && currentTx == 0 && this.reliable == reliable && fresh(this)
    {
      this.reliable := reliable;
      file, logOffset, currentTx := FileHeader(), DECLARED_HEADER_SIZE, 0;
      entries := [];
    }

    /** wal_open gives nothing if the file cannot be created or its header written. */
    static method CreateFile(reliable: bool) returns (log: Log?)
      ensures log != null ==> fresh(log) && log.Valid() && log.entries == [] && log.currentTx == 0
      ensures log != null ==> log.reliable == reliable
      ensures reliable ==> log != null
    {
      var ok := *;
      log := null;
      if ok || reliable {
        log := new Log(reliable);
      }
    }

    /** write_exact at the end of the file: on failure only some of the bytes are there. */
    method Write(t: Bytes) returns (ok: bool, ghost n: nat)
      requires t != []
      modifies this`file
      ensures n <= |t| && (ok <==> n == |t|) && file == old(file) + t[..n]
      ensures reliable ==> ok
    {
      ok := *;
      ok := ok || reliable;
      var k :| 0 <= k < |t|;
      k := if ok then |t| else k;
      file := file + t[..k];
      n := k;
    }

    /** wal_append.  A failure leaves the beginning of the entry behind. */
    method Append(kind: Byte, tx: nat, payload: Bytes) returns (ok: bool)
      requires Valid() && Storable(Entry(kind, tx, payload))
      modifies this`file, this`logOffset, this`entries
      ensures ok ==> Valid() && entries == old(entries) + [Entry(kind, tx, payload)]
      ensures !ok ==> logOffset == old(logOffset) && entries == old(entries)
      ensures !ok ==> CutShort(old(file), file, Entry(kind, tx, payload))
      ensures reliable ==> ok
    {
      hide FileHeader, EncodeAll, HeaderBytes, SumFrom, Xor32;
      ghost var e := Entry(kind, tx, payload);
      EncodeSnoc(entries, e);
      var checksum := WalChecksum(HeaderBytes(Entry(kind, tx, payload), 0));
      if |payload| > 0 {
        var rest := WalChecksum(payload);
        checksum := Xor32(checksum, rest);
      }
      ok := WriteEntry(Entry(kind, tx, payload), checksum);
      if ok {
        logOffset := logOffset + ENTRY_HEADER_SIZE + |payload|;
        entries := entries + [e];
      }
    }

    /** The header, then the payload if there is one. */
    method WriteEntry(e: Entry, checksum: nat) returns (ok: bool)
      requires Storable(e) && checksum == EntryChecksum(e)
      modifies this`file
      ensures ok ==> file == old(file) + Encode(e)
      ensures !ok ==> CutShort(old(file), file, e)
      ensures reliable ==> ok
    {
      hide HeaderBytes, EntryChecksum;
      var h := HeaderBytes(e, checksum);
      ghost var n, m;
      ok, n := Write(h);
      if !ok {
        assert Encode(e)[..n] == h[..n];
        return;
      }
      if |e.payload| > 0 {
        ok, m := Write(e.payload);
        if !ok {
          assert Encode(e)[..|h| + m] == h + e.payload[..m];
          assert file == old(file) + Encode(e)[..|h| + m];
          return;
        }
      }
      assert h[..|h|] == h && e.payload[..|e.payload|] == e.payload;
    }

    /** wal_begin_tx, wal_commit_tx, wal_rollback_tx, wal_checkpoint and wal_append. */
    method Do(op: LogOp) returns (ok: bool)
      requires Valid() && currentTx + 1 < U64_LIMIT && (op.DoAppend? ==> Storable(op.entry))
      modifies this
      ensures ok ==> Valid() && entries == old(entries) + [EntryOf(op, old(currentTx))]
      ensures !ok ==> entries == old(entries) && CutShort(old(file), file, EntryOf(op, old(currentTx)))
      ensures currentTx == old(currentTx) + if op.DoBegin? then 1 else 0
      ensures reliable ==> ok
    {
      hide FileHeader, EncodeAll, CutShort;
      match op
      case DoBegin =>
        currentTx := currentTx + 1;
        ok := Append(BEGIN, currentTx, []);
      case DoCommit => ok := Append(COMMIT, currentTx, []);
      case DoRollback => ok := Append(ROLLBACK, currentTx, []);
      case DoCheckpoint => ok := Append(CHECKPOINT, currentTx, []);
      case DoAppend(e) => ok := Append(e.kind, e.tx, e.payload);
    }

    /** Any run of the log operations produces the encoding of the entries it stands for. */
    method Run(ops: seq<LogOp>)
      requires Valid() && reliable && currentTx + |ops| + 1 < U64_LIMIT
      requires forall i :: 0 <= i < |ops| && ops[i].DoAppend? ==> Storable(ops[i].entry)
      modifies this
      ensures Valid() && entries == old(entries) + EntriesOf(ops, old(currentTx))
    {
      hide Encode, EncodeAll;
      ghost var es := EntriesOf(ops, currentTx);
      for i := 0 to |ops|
        invariant Valid() && currentTx + |ops| - i + 1 < U64_LIMIT
        invariant entries + EntriesOf(ops[i..], currentTx) == old(entries) + es
      {
        assert ops[i..][0] == ops[i] && ops[i..][1..] == ops[i + 1..];
        var _ := Do(ops[i]);
      }
    }
  }

  /** g is f with the beginning, but not the whole, of an entry after it. */
  ghost predicate CutShort(f: Bytes, g: Bytes, e: Entry)
    requires Storable(e)
  {
    exists n :: 0 <= n < |Encode(e)| && g == f + Encode(e)[..n]
  }

  /** What recovery makes of a log after an operation that failed. */
  lemma FailedThenScanned(f: Bytes, es: seq<Entry>, e: Entry)
    requires (forall x :: x in es ==> Storable(x)) && Storable(e) && CutShort(FileHeader() + EncodeAll(es), f, e)
    ensures var r := ScanFrom(f, FILE_HEADER_SIZE, START).lastTx;
      r == LastCommitted(es) || r == LastCommitted(es + [e])
  {
    hide Encode, EncodeAll, FileHeader, ScanFrom, LastCommitted;
    var n :| 0 <= n < |Encode(e)| && f == FileHeader() + EncodeAll(es) + Encode(e)[..n];
    TornAppend(es, e, n);
  }
}
