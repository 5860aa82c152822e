/** SQL values and their order (src/sql/expression.c, value_compare), and the in-place removal of
    duplicate rows built on it (src/sql/executor.c, select_apply_distinct). */
module Values {

  import opened Bytes
  import opened Sequences

  /** A value; a missing value counts as NULL.  Floats are reals, without NaN or rounding. */
  datatype Value = Null | Integer(i: int) | Float(f: real) | Text(t: Bytes) | Blob(b: Bytes)

  // ----- Comparison -----

  function TypeOrder(v: Value): nat {
    match v
    case Null => 0
    case Integer(_) => 0
    case Float(_) => 1
    case Text(_) => 2
    case Blob(_) => 3
  }

  predicate SameType(a: Value, b: Value) {
    (a.Null? <==> b.Null?) && (a.Integer? <==> b.Integer?) && (a.Float? <==> b.Float?) && (a.Text? <==> b.Text?)
  }

  function Compare(a: Value, b: Value): int {
    if a.Null? && b.Null? then 0
    else if a.Null? then -1
    else if b.Null? then 1
    else if !SameType(a, b) then if TypeOrder(a) < TypeOrder(b) then -1 else 1
    else match a
      case Integer(x) => if x < b.i then -1 else if x > b.i then 1 else 0
      case Float(x) => if x < b.f then -1 else if x > b.f then 1 else 0
      case Text(x) => CompareBytes(x, b.t)
      case Blob(x) => CompareBytes(x, b.b)
  }

  // ----- The order it computes -----

  /** NULL first, then integers, floats, text and blobs, each kind in its own order. */
  ghost predicate Before(a: Value, b: Value) {
    match (a, b)
    case (Null, _) => !b.Null?
    case (Integer(x), Integer(y)) => x < y
    case (Integer(_), _) => b.Float? || b.Text? || b.Blob?
    case (Float(x), Float(y)) => x < y
    case (Float(_), _) => b.Text? || b.Blob?
    case (Text(x), Text(y)) => BytesBefore(x, y)
    case (Text(_), _) => b.Blob?
    case (Blob(x), Blob(y)) => BytesBefore(x, y)
    case (Blob(_), _) => false
  }

  /** The sign of value_compare is the order: less, equal and greater mean just that. */
  lemma CompareIsOrder(a: Value, b: Value)
    ensures Compare(a, b) < 0 <==> Before(a, b)
    ensures Compare(a, b) > 0 <==> Before(b, a)
    ensures Compare(a, b) == 0 <==> a == b
  {
    if a.Text? && b.Text? {
      CompareBytesIsOrder(a.t, b.t);
    } else if a.Blob? && b.Blob? {
      CompareBytesIsOrder(a.b, b.b);
    }
  }

  lemma CompareTransitive(a: Value, b: Value, c: Value)
    requires Compare(a, b) <= 0 && Compare(b, c) <= 0
    ensures Compare(a, c) <= 0
  {
    CompareIsOrder(a, b);
    CompareIsOrder(b, c);
    CompareIsOrder(a, c);
    if a != b && b != c {
      if a.Text? && c.Text? {
        BytesBeforeTransitive(a.t, b.t, c.t);
      } else if a.Blob? && c.Blob? {
        BytesBeforeTransitive(a.b, b.b, c.b);
      }
    }
  }

  // ----- DISTINCT -----

  type Row = seq<Value>

  /** The rows that do not occur earlier, in order. */
  function FirstOccurrences(rows: seq<Row>): (r: seq<Row>)
    ensures |r| <= |rows|
  {
    if rows == [] then []
    else
      var n := |rows| - 1;
      var r := FirstOccurrences(rows[..n]);
      if rows[n] in rows[..n] then r else r + [rows[n]]
  }

  /** Where a row first occurs. */
  function FirstAt(rows: seq<Row>, row: Row): (i: nat)
    requires row in rows
    ensures i < |rows| && rows[i] == row && forall j :: 0 <= j < i ==> rows[j] != row
  {
    if rows[0] == row then 0 else 1 + FirstAt(rows[1..], row)
  }

  lemma {:induction false} SameRows(rows: seq<Row>)
    ensures forall row :: row in FirstOccurrences(rows) <==> row in rows
  {
    if rows != [] {
      var n := |rows| - 1;
      SameRows(rows[..n]);
      assert rows == rows[..n] + [rows[n]];
    }
  }

  lemma OneMoreRow(rows: seq<Row>, n: nat)
    requires n < |rows|
    ensures var kept := FirstOccurrences(rows[..n]);
      FirstOccurrences(rows[..n + 1]) == if rows[n] in kept then kept else kept + [rows[n]]
  {
    assert rows[..n + 1][..n] == rows[..n];
    SameRows(rows[..n]);
  }

  lemma FirstAtPrefix(rows: seq<Row>, n: nat, row: Row)
    requires n <= |rows| && row in rows[..n]
    ensures FirstAt(rows, row) == FirstAt(rows[..n], row)
  {
  }

  /** Each distinct row is kept once, in the order of first occurrence. */
  lemma {:induction false} KeptInOrder(rows: seq<Row>, j: nat, k: nat)
    requires j < k < |FirstOccurrences(rows)|
    ensures FirstOccurrences(rows)[j] in rows && FirstOccurrences(rows)[k] in rows
    ensures FirstAt(rows, FirstOccurrences(rows)[j]) < FirstAt(rows, FirstOccurrences(rows)[k])
    decreases |rows|
  {
    hide FirstOccurrences, FirstAt;
    SameRows(rows);
    NothingKept(rows);
    var n := |rows| - 1;
    var r := FirstOccurrences(rows[..n]);
    SameRows(rows[..n]);
    OneMoreRow(rows, n);
    assert rows[..n + 1] == rows;
    FirstAtPrefix(rows, n, r[j]);
    if k < |r| {
      KeptInOrder(rows[..n], j, k);
      FirstAtPrefix(rows, n, r[k]);
    }
  }

  lemma NothingKept(rows: seq<Row>)
    requires FirstOccurrences(rows) != []
    ensures rows != []
  {
  }

  lemma KeptOnce(rows: seq<Row>)
    ensures NoRepeats(FirstOccurrences(rows))
  {
    var r := FirstOccurrences(rows);
    forall j, k | 0 <= j < k < |r| ensures r[j] != r[k] {
      KeptInOrder(rows, j, k);
    }
  }

  lemma {:induction false} NothingToDrop(rows: seq<Row>)
    requires NoRepeats(rows)
    ensures FirstOccurrences(rows) == rows
  {
    if rows != [] {
      var n := |rows| - 1;
      NothingToDrop(rows[..n]);
      assert rows == rows[..n] + [rows[n]];
    }
  }

  /** Removing duplicates twice is removing them once. */
  lemma Idempotent(rows: seq<Row>)
    ensures FirstOccurrences(FirstOccurrences(rows)) == FirstOccurrences(rows)
  {
    KeptOnce(rows);
    NothingToDrop(FirstOccurrences(rows));
  }

  class ResultSet {
    const rows: array<Row>
    const columnCount: nat
    var rowCount: nat

    constructor (rows: array<Row>, columnCount: nat)
      requires forall i :: 0 <= i < rows.Length ==> |rows[i]| == columnCount
      ensures this.rows == rows && this.columnCount == columnCount && rowCount == rows.Length && Valid()
    {
      this.rows, this.columnCount, rowCount := rows, columnCount, rows.Length;
    }

    predicate Valid()
      reads this, rows
    {
      rowCount <= rows.Length && forall i :: 0 <= i < rowCount ==> |rows[i]| == columnCount
    }

    method Same(i: nat, j: nat) returns (same: bool)
      requires Valid() && i < rowCount && j < rowCount
      ensures same <==> rows[i] == rows[j]
    {
      for c := 0 to columnCount
        invariant forall d :: 0 <= d < c ==> rows[i][d] == rows[j][d]
      {
        CompareIsOrder(rows[i][c], rows[j][c]);
        if Compare(rows[i][c], rows[j][c]) != 0 {
          return false;
        }
      }
      return true;
    }

    method IsDuplicate(i: nat, kept: nat) returns (duplicate: bool)
      requires Valid() && i < rowCount && kept <= rowCount
      ensures duplicate <==> rows[i] in rows[..kept]
    {
      for j := 0 to kept
        invariant rows[i] !in rows[..j]
      {
        var same := Same(i, j);
        if same {
          return true;
        }
      }
      return false;
    }

    /** select_apply_distinct. */
    method ApplyDistinct()
      requires Valid()
      modifies this, rows
      ensures Valid()
      ensures rows[..rowCount] == FirstOccurrences(old(rows[..rowCount]))
      ensures forall k :: old(rowCount) <= k < rows.Length ==> rows[k] == old(rows[k])
    {
      hide FirstOccurrences;
      if rowCount == 0 {
        NothingToDrop(rows[..rowCount]);
        return;
      }
      ghost var was := rows[..rowCount];
      NothingToDrop(was[..0]);
      var write := 0;
      for read := 0 to rowCount
        invariant write <= read && Valid() && rowCount == |was|
        invariant rows[..write] == FirstOccurrences(was[..read])
        invariant forall k :: read <= k < rows.Length ==> rows[k] == old(rows[k])
      {
        OneMoreRow(was, read);
        assert rows[read] == was[read];
        var duplicate := IsDuplicate(read, write);
        if !duplicate {
          Keep(write, read);
          write := write + 1;
        }
      }
      assert was[..rowCount] == was;
      rowCount := write;
    }

    method Keep(write: nat, read: nat)
      requires Valid() && write <= read < rowCount
      modifies rows
      ensures Valid() && rows[..write + 1] == old(rows[..write]) + [old(rows[read])]
      ensures forall k :: read < k < rows.Length ==> rows[k] == old(rows[k])
    {
      if write != read {
        rows[write] := rows[read];
      }
    }
  }
}
