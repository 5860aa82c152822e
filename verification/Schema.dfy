/** Table schemas and their stored form (src/sql/schema.c). */
module Schemas {

  import opened Bytes
  import opened Options
  import opened Records

  const MAGIC := 0x5343_484D
  const VERSION := 1
  const MAX_COLUMNS := 64
  const SCHEMA_MAX_SIZE := 8192
  const NAME_WIDTH := 64
  const DEFAULT_WIDTH := 256
  const HEADER_SIZE := 84
  const COLUMN_SIZE := 336
  const MINIMUM_SIZE := 148

  datatype Column = Column(
    name: Bytes, columnType: nat, notNull: int, primaryKey: int, autoIncrement: int, defaultValue: Bytes)

  datatype Schema = Schema(tableName: Bytes, columns: seq<Column>, rootPage: nat, autoIncrement: nat, isOpen: int)

  predicate ColumnOk(c: Column) {
    CString(c.name, NAME_WIDTH) && c.columnType < U32_LIMIT && CString(c.defaultValue, DEFAULT_WIDTH)
  }

  /** What the fixed-size members of the C structures can hold. */
  predicate SchemaOk(s: Schema) {
    && CString(s.tableName, NAME_WIDTH) && s.autoIncrement < U64_LIMIT && |s.columns| < U32_LIMIT
    && forall i :: 0 <= i < |s.columns| ==> ColumnOk(s.columns[i])
  }

  /** schema_create: nothing without a column. */
  function Create(tableName: Bytes, columns: seq<Column>): (r: Option<Schema>)
    ensures r.None? <==> columns == []
    ensures r.Some? ==> r.value.columns == columns && r.value.autoIncrement == 1 && r.value.isOpen == 1
  {
    if columns == [] then None
    else Some(Schema(FieldText(Field(tableName, NAME_WIDTH)), columns, 0, 1, 1))
  }

  // ----- The stored form -----

  function HeaderImage(s: Schema): (b: Bytes)
    requires SchemaOk(s)
    ensures |b| == HEADER_SIZE
  {
    LE32(MAGIC) + LE32(VERSION) + Field(s.tableName, NAME_WIDTH) + LE32(|s.columns|)
    + LE32(s.autoIncrement / U32_LIMIT) + LE32(s.autoIncrement % U32_LIMIT)
  }

  function ColumnImage(c: Column): (b: Bytes)
    requires ColumnOk(c)
    ensures |b| == COLUMN_SIZE
  {
    Field(c.name, NAME_WIDTH) + LE32(c.columnType) + LE32(Flag(c.notNull)) + LE32(Flag(c.primaryKey))
    + LE32(Flag(c.autoIncrement)) + Field(c.defaultValue, DEFAULT_WIDTH)
  }

  function ColumnsImage(cs: seq<Column>): (b: Bytes)
    requires forall i :: 0 <= i < |cs| ==> ColumnOk(cs[i])
    ensures |b| == COLUMN_SIZE * |cs|
  {
    if cs == [] then [] else ColumnsImage(cs[..|cs| - 1]) + ColumnImage(cs[|cs| - 1])
  }

  function Image(s: Schema): (b: Bytes)
    requires SchemaOk(s)
    ensures |b| == HEADER_SIZE + COLUMN_SIZE * |s.columns|
  {
    HeaderImage(s) + ColumnsImage(s.columns)
  }

  method PutColumn(c: Column, buf: array<Byte>, offset: nat) returns (next: nat)
    requires ColumnOk(c) && offset + COLUMN_SIZE <= buf.Length
    modifies buf
    ensures next == offset + COLUMN_SIZE && buf[..next] == old(buf[..offset]) + ColumnImage(c)
    ensures forall i :: next <= i < buf.Length ==> buf[i] == old(buf[i])
  {
    hide Field, LE32, Flag;
    next := Put(buf, offset, Field(c.name, NAME_WIDTH));
    next := Put(buf, next, LE32(c.columnType));
    next := Put(buf, next, LE32(Flag(c.notNull)));
    next := Put(buf, next, LE32(Flag(c.primaryKey)));
    next := Put(buf, next, LE32(Flag(c.autoIncrement)));
    next := Put(buf, next, Field(c.defaultValue, DEFAULT_WIDTH));
  }

  method PutHeader(s: Schema, buf: array<Byte>) returns (next: nat)
    requires SchemaOk(s) && HEADER_SIZE <= buf.Length
    modifies buf
    ensures next == HEADER_SIZE && buf[..next] == HeaderImage(s)
    ensures forall i :: next <= i < buf.Length ==> buf[i] == old(buf[i])
  {
    hide Field, LE32;
    next := Put(buf, 0, LE32(MAGIC));
    next := Put(buf, next, LE32(VERSION));
    next := Put(buf, next, Field(s.tableName, NAME_WIDTH));
    next := Put(buf, next, LE32(|s.columns|));
    next := Put(buf, next, LE32(s.autoIncrement / U32_LIMIT));
    next := Put(buf, next, LE32(s.autoIncrement % U32_LIMIT));
  }

  /** schema_serialize into a buffer that is large enough. */
  method Serialize(s: Schema, buf: array<Byte>) returns (size: nat)
    requires SchemaOk(s) && HEADER_SIZE + COLUMN_SIZE * |s.columns| <= buf.Length
    modifies buf
    ensures size == HEADER_SIZE + COLUMN_SIZE * |s.columns| && buf[..size] == Image(s)
    ensures forall i :: size <= i < buf.Length ==> buf[i] == old(buf[i])
  {
    hide HeaderImage, ColumnImage;
    size := PutHeader(s, buf);
    for i := 0 to |s.columns|
      invariant size == HEADER_SIZE + COLUMN_SIZE * i
      invariant buf[..size] == HeaderImage(s) + ColumnsImage(s.columns[..i])
      invariant forall j :: size <= j < buf.Length ==> buf[j] == old(buf[j])
    {
      assert s.columns[..i + 1][..i] == s.columns[..i];
      size := PutColumn(s.columns[i], buf, size);
    }
    assert s.columns[..|s.columns|] == s.columns;
  }

  /** The buffer size the interface promises holds every schema of at most 24 columns and no other. */
  lemma PromisedBufferIff(s: Schema)
    requires SchemaOk(s)
    ensures |Image(s)| <= SCHEMA_MAX_SIZE <==> |s.columns| <= 24
  {
  }

  // ----- Reading it back -----

  function ColumnAt(b: Bytes, o: nat): Column
    requires o + COLUMN_SIZE <= |b|
  {
    Column(FieldText(b[o..o + 64]), ReadLE32(b, o + 64), Flag(ReadLE32(b, o + 68)), Flag(ReadLE32(b, o + 72)),
           Flag(ReadLE32(b, o + 76)), FieldText(b[o + 80..o + 336]))
  }

  function ColumnsAt(b: Bytes, n: nat): (cs: seq<Column>)
    requires HEADER_SIZE + COLUMN_SIZE * n <= |b|
    ensures |cs| == n
  {
    if n == 0 then [] else ColumnsAt(b, n - 1) + [ColumnAt(b, HEADER_SIZE + COLUMN_SIZE * (n - 1))]
  }

  /** The checks of schema_deserialize on the header. */
  predicate HeaderAccepted(b: Bytes, size: nat)
    requires size <= |b|
  {
    size >= MINIMUM_SIZE && ReadLE32(b, 0) == MAGIC && ReadLE32(b, 4) == VERSION && ReadLE32(b, 72) <= MAX_COLUMNS
  }

  /** The bytes the source reads are there: it does not compare the column count with the size. */
  predicate Readable(b: Bytes, size: nat) {
    size <= |b| && (HeaderAccepted(b, size) ==> HEADER_SIZE + COLUMN_SIZE * ReadLE32(b, 72) <= |b|)
  }

  function Decoded(b: Bytes, size: nat): Option<Schema>
    requires Readable(b, size)
  {
    if !HeaderAccepted(b, size) then None
    else match Create(FieldText(b[8..72]), ColumnsAt(b, ReadLE32(b, 72)))
      case None => None
      case Some(s) => Some(s.(autoIncrement := ReadLE32(b, 76) * U32_LIMIT + ReadLE32(b, 80)))
  }

  /** schema_deserialize. */
  method Deserialize(b: Bytes, size: nat) returns (r: Option<Schema>)
    requires Readable(b, size)
    ensures r == Decoded(b, size)
  {
    hide ReadLE32, ColumnAt, FieldText, Field;
    if size < MINIMUM_SIZE || ReadLE32(b, 0) != MAGIC || ReadLE32(b, 4) != VERSION {
      return None;
    }
    var tableName := FieldText(b[8..72]);
    var count := ReadLE32(b, 72);
    if count > MAX_COLUMNS {
      return None;
    }
    var autoIncrement := ReadLE32(b, 76) * U32_LIMIT + ReadLE32(b, 80);
    var columns, offset := [], HEADER_SIZE;
    for i := 0 to count
      invariant offset == HEADER_SIZE + COLUMN_SIZE * i && columns == ColumnsAt(b, i)
    {
      columns := columns + [ColumnAt(b, offset)];
      offset := offset + COLUMN_SIZE;
    }
    r := Create(tableName, columns);
    if r.Some? {
      r := Some(r.value.(autoIncrement := autoIncrement));
    }
  }

  // ----- What is accepted -----

  lemma MagicBytes(b: Bytes)
    requires |b| >= 8
    ensures ReadLE32(b, 0) == MAGIC && ReadLE32(b, 4) == VERSION <==> b[..8] == [0x4D, 0x48, 0x43, 0x53, 1, 0, 0, 0]
  {
    var good: Bytes := [0x4D, 0x48, 0x43, 0x53, 1, 0, 0, 0];
    assert ReadLE32(good[0..4], 0) == MAGIC && ReadLE32(good[4..8], 0) == VERSION;
    SliceReads(b, 0);
    SliceReads(b, 4);
    if ReadLE32(b, 0) == MAGIC && ReadLE32(b, 4) == VERSION {
      FourInjective(b[0..4], good[0..4]);
      FourInjective(b[4..8], good[4..8]);
      assert b[..8] == b[0..4] + b[4..8] && good == good[0..4] + good[4..8];
    }
    if b[..8] == good {
      assert b[0..4] == b[..8][0..4] == good[0..4] && b[4..8] == b[..8][4..8] == good[4..8];
    }
  }

  lemma SliceReads(b: Bytes, o: nat)
    requires o + 4 <= |b|
    ensures ReadLE32(b[o..o + 4], 0) == ReadLE32(b, o)
  {
  }

  /** A buffer is accepted exactly if it is long enough, starts with the magic number and the version,
      and tells of 1 to 64 columns. */
  lemma AcceptedIff(b: Bytes, size: nat)
    requires Readable(b, size)
    ensures Decoded(b, size).Some? <==>
      size >= 148 && b[..8] == [0x4D, 0x48, 0x43, 0x53, 1, 0, 0, 0] && 1 <= ReadLE32(b, 72) <= 64
  {
    hide ReadLE32, FieldText, ColumnAt;
    if size >= 148 {
      MagicBytes(b);
    }
  }

  /** Whatever buffer it comes from, a schema that was read is its own restored form: writing it and
      reading it again gives the same schema. */
  lemma DecodedIsNormal(b: Bytes, size: nat)
    requires Readable(b, size) && Decoded(b, size).Some?
    ensures var s := Decoded(b, size).value;
      SchemaOk(s) && Restored(s) == s && Decoded(Image(s), |Image(s)|) == Some(s)
  {
    hide ReadLE32, FieldText, ColumnAt, Image, CString;
    var s, n := Decoded(b, size).value, ReadLE32(b, 72);
    ColumnsAreNormal(b, n);
    assert s.columns == ColumnsAt(b, n);
    FieldFits(b[8..72]);
    FieldRoundTrip(FieldText(b[8..72]), NAME_WIDTH);
    assert Restored(s).columns == s.columns;
    RoundTrip(s);
  }

  lemma FieldFits(f: Bytes)
    requires |f| > 0
    ensures CString(FieldText(f), |f|) && NulFree(FieldText(f)) && |FieldText(f)| < |f|
  {
  }

  lemma {:induction false} ColumnsAreNormal(b: Bytes, n: nat)
    requires HEADER_SIZE + COLUMN_SIZE * n <= |b|
    ensures forall i :: 0 <= i < n ==>
      ColumnOk(ColumnsAt(b, n)[i]) && NormalColumn(ColumnsAt(b, n)[i]) == ColumnsAt(b, n)[i]
  {
    hide ReadLE32, FieldText, CString;
    if n > 0 {
      ColumnsAreNormal(b, n - 1);
      var o := HEADER_SIZE + COLUMN_SIZE * (n - 1);
      FieldFits(b[o..o + 64]);
      FieldFits(b[o + 80..o + 336]);
    }
  }

  // ----- Round trip -----

  function NormalColumn(c: Column): Column {
    c.(notNull := Flag(c.notNull), primaryKey := Flag(c.primaryKey), autoIncrement := Flag(c.autoIncrement))
  }

  /** What comes back: flags as zero or one, no root page, and open. */
  function Restored(s: Schema): Schema {
    var columns := seq(|s.columns|, i requires 0 <= i < |s.columns| => NormalColumn(s.columns[i]));
    Schema(s.tableName, columns, 0, s.autoIncrement, 1)
  }

  lemma Pieces(a: Bytes, p: Bytes, q: Bytes, r: Bytes, s: Bytes, z: Bytes)
    requires |a| == 64 && |p| == |q| == |r| == |s| == 4 && |z| == 256
    ensures var m := a + p + q + r + s + z;
      && |m| == 336 && m[0..64] == a && m[64..68] == p && m[68..72] == q && m[72..76] == r
      && m[76..80] == s && m[80..336] == z
  {
  }

  /** Where the fields of a stored column are. */
  lemma ColumnLayout(c: Column, b: Bytes, o: nat)
    requires ColumnOk(c) && o + 336 <= |b| && b[o..o + 336] == ColumnImage(c)
    ensures FieldText(b[o..o + 64]) == c.name && ReadLE32(b, o + 64) == c.columnType
    ensures ReadLE32(b, o + 68) == if c.notNull != 0 then 1 else 0
    ensures ReadLE32(b, o + 72) == if c.primaryKey != 0 then 1 else 0
    ensures ReadLE32(b, o + 76) == if c.autoIncrement != 0 then 1 else 0
    ensures FieldText(b[o + 80..o + 336]) == c.defaultValue
  {
    hide Field, FieldText, LE32, ReadLE32;
    var m := ColumnImage(c);
    Pieces(Field(c.name, NAME_WIDTH), LE32(c.columnType), LE32(Flag(c.notNull)), LE32(Flag(c.primaryKey)),
      LE32(Flag(c.autoIncrement)), Field(c.defaultValue, DEFAULT_WIDTH));
    SubSlice(b, o, m, 0, 64);
    SubSlice(b, o, m, 64, 68);
    SubSlice(b, o, m, 68, 72);
    SubSlice(b, o, m, 72, 76);
    SubSlice(b, o, m, 76, 80);
    SubSlice(b, o, m, 80, 336);
    StoredWord(b, o + 64, c.columnType);
    StoredWord(b, o + 68, Flag(c.notNull));
    StoredWord(b, o + 72, Flag(c.primaryKey));
    StoredWord(b, o + 76, Flag(c.autoIncrement));
    FieldRoundTrip(c.name, NAME_WIDTH);
    FieldRoundTrip(c.defaultValue, DEFAULT_WIDTH);
  }

  lemma ColumnRoundTrip(c: Column, b: Bytes, o: nat)
    requires ColumnOk(c) && o + COLUMN_SIZE <= |b| && b[o..o + COLUMN_SIZE] == ColumnImage(c)
    ensures ColumnAt(b, o) == NormalColumn(c)
  {
    hide ColumnImage, FieldText, ReadLE32;
    ColumnLayout(c, b, o);
  }

  lemma SubSlice(b: Bytes, o: nat, m: Bytes, i: nat, j: nat)
    requires o + |m| <= |b| && b[o..o + |m|] == m && i <= j <= |m|
    ensures b[o + i..o + j] == m[i..j]
  {
    assert forall k :: i <= k < j ==> m[k] == b[o..o + |m|][k] == b[o + k];
  }

  lemma {:induction false} ColumnsSlice(cs: seq<Column>, i: nat)
    requires (forall k :: 0 <= k < |cs| ==> ColumnOk(cs[k])) && i < |cs|
    ensures ColumnsImage(cs)[COLUMN_SIZE * i..COLUMN_SIZE * (i + 1)] == ColumnImage(cs[i])
    decreases |cs|
  {
    hide ColumnImage, ColumnOk;
    var n := |cs| - 1;
    if i < n {
      ColumnsSlice(cs[..n], i);
    }
  }

  lemma {:induction false} ColumnsRoundTrip(s: Schema, n: nat)
    requires SchemaOk(s) && n <= |s.columns|
    ensures ColumnsAt(Image(s), n) == Restored(s).columns[..n]
  {
    hide HeaderImage, ColumnImage, ColumnAt, ColumnOk, ColumnsImage, Image;
    if n > 0 {
      ColumnsRoundTrip(s, n - 1);
      var i, b := n - 1, Image(s);
      var o := HEADER_SIZE + COLUMN_SIZE * i;
      ColumnInImage(s, i);
      ColumnRoundTrip(s.columns[i], b, o);
      assert Restored(s).columns[..n] == Restored(s).columns[..i] + [NormalColumn(s.columns[i])];
    }
  }

  lemma ColumnInImage(s: Schema, i: nat)
    requires SchemaOk(s) && i < |s.columns|
    ensures var o := HEADER_SIZE + COLUMN_SIZE * i; Image(s)[o..o + COLUMN_SIZE] == ColumnImage(s.columns[i])
  {
    hide HeaderImage, ColumnImage, ColumnOk, ColumnsImage;
    ColumnsSlice(s.columns, i);
  }

  lemma HeaderRoundTrip(s: Schema, b: Bytes)
    requires SchemaOk(s) && HEADER_SIZE <= |b| && b[0..HEADER_SIZE] == HeaderImage(s)
    ensures ReadLE32(b, 0) == MAGIC && ReadLE32(b, 4) == VERSION && FieldText(b[8..72]) == s.tableName
    ensures ReadLE32(b, 72) == |s.columns|
    ensures ReadLE32(b, 76) == s.autoIncrement / U32_LIMIT && ReadLE32(b, 80) == s.autoIncrement % U32_LIMIT
  {
    hide Field, FieldText, LE32, ReadLE32;
    var m := HeaderImage(s);
    SubSlice(b, 0, m, 0, 4);
    SubSlice(b, 0, m, 4, 8);
    SubSlice(b, 0, m, 8, 72);
    SubSlice(b, 0, m, 72, 76);
    SubSlice(b, 0, m, 76, 80);
    SubSlice(b, 0, m, 80, 84);
    StoredWord(b, 0, MAGIC);
    StoredWord(b, 4, VERSION);
    StoredWord(b, 72, |s.columns|);
    StoredWord(b, 76, s.autoIncrement / U32_LIMIT);
    StoredWord(b, 80, s.autoIncrement % U32_LIMIT);
    assert m[8..72] == Field(s.tableName, NAME_WIDTH);
    FieldRoundTrip(s.tableName, NAME_WIDTH);
  }

  /** A stored schema is read back exactly when it has between 1 and 64 columns, and then it is the
      schema with its flags normalised, without its root page. */
  lemma RoundTrip(s: Schema)
    requires SchemaOk(s)
    ensures Readable(Image(s), |Image(s)|)
    ensures Decoded(Image(s), |Image(s)|) == if 1 <= |s.columns| <= MAX_COLUMNS then Some(Restored(s)) else None
  {
    hide HeaderImage, ColumnsImage, ReadLE32, ColumnAt, ColumnsAt;
    var b := Image(s);
    assert b[0..HEADER_SIZE] == HeaderImage(s);
    HeaderRoundTrip(s, b);
    var n := |s.columns|;
    if 1 <= n <= MAX_COLUMNS {
      ColumnsRoundTrip(s, n);
      assert Restored(s).columns[..n] == Restored(s).columns;
      FieldRoundTrip(s.tableName, NAME_WIDTH);
    }
  }

  // ----- Equality -----

  /** What schema_equal compares: not the defaults, nor the auto-increment flags and counter. */
  predicate Equal(a: Schema, b: Schema) {
    && a.tableName == b.tableName && |a.columns| == |b.columns|
    && forall i :: 0 <= i < |a.columns| ==>
      && a.columns[i].name == b.columns[i].name && a.columns[i].columnType == b.columns[i].columnType
      && a.columns[i].notNull == b.columns[i].notNull && a.columns[i].primaryKey == b.columns[i].primaryKey
  }

  /** A schema with everything that is not compared set to fixed values. */
  function Blanked(s: Schema): Schema {
    var columns := seq(|s.columns|, i requires 0 <= i < |s.columns| =>
      s.columns[i].(autoIncrement := 0, defaultValue := []));
    Schema(s.tableName, columns, 0, 0, 0)
  }

  /** Two schemas are equal exactly if they agree in everything but root page, counter, open flag,
      defaults and auto-increment flags. */
  lemma EqualIff(a: Schema, b: Schema)
    ensures Equal(a, b) <==> Blanked(a) == Blanked(b)
  {
    var x, y := Blanked(a), Blanked(b);
    if x == y {
      forall i | 0 <= i < |a.columns|
        ensures a.columns[i].name == b.columns[i].name && a.columns[i].columnType == b.columns[i].columnType
        ensures a.columns[i].notNull == b.columns[i].notNull && a.columns[i].primaryKey == b.columns[i].primaryKey
      {
        assert x.columns[i] == y.columns[i];
      }
    }
    if Equal(a, b) {
      assert x.columns == y.columns;
    }
  }

  /** schema_equal. */
  method CompareSchemas(a: Schema, b: Schema) returns (equal: bool)
    ensures equal <==> Equal(a, b)
    ensures equal <==> Blanked(a) == Blanked(b)
  {
    EqualIff(a, b);
    if a.tableName != b.tableName || |a.columns| != |b.columns| {
      return false;
    }
    for i := 0 to |a.columns|
      invariant Equal(a.(columns := a.columns[..i]), b.(columns := b.columns[..i]))
    {
      var ca, cb := a.columns[i], b.columns[i];
      if ca.name != cb.name || ca.columnType != cb.columnType || ca.notNull != cb.notNull
         || ca.primaryKey != cb.primaryKey {
        return false;
      }
    }
    return true;
  }

  /** The restored schema equals the original exactly when the compared flags were zero or one. */
  lemma RestoredEqualIff(s: Schema)
    ensures Equal(s, Restored(s)) <==>
      forall i :: 0 <= i < |s.columns| ==> 0 <= s.columns[i].notNull <= 1 && 0 <= s.columns[i].primaryKey <= 1
  {
  }
}
