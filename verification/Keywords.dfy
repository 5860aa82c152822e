/** Keyword lookup (src/sql/lexer.c): a binary search in a table of which the last two words are out
    of order. */
module Keywords {
  import opened Bytes
  import opened Options
  import Parsing

  const COUNT := 45

  /** The table. */
  function Keyword(i: nat): string {
    match i
    case 0 => "AND" case 1 => "AS" case 2 => "ASC" case 3 => "AUTOINCREMENT" case 4 => "BEGIN"
    case 5 => "BETWEEN" case 6 => "BY" case 7 => "COMMIT" case 8 => "CREATE" case 9 => "DEFAULT"
    case 10 => "DELETE" case 11 => "DESC" case 12 => "DISTINCT" case 13 => "DROP" case 14 => "EXISTS"
    case 15 => "FROM" case 16 => "IF" case 17 => "IN" case 18 => "INDEX" case 19 => "INSERT"
    case 20 => "INTO" case 21 => "IS" case 22 => "KEY" case 23 => "LIKE" case 24 => "LIMIT"
    case 25 => "NOT" case 26 => "NULL" case 27 => "OFFSET" case 28 => "ON" case 29 => "OR"
    case 30 => "ORDER" case 31 => "PRIMARY" case 32 => "REAL" case 33 => "ROLLBACK" case 34 => "SELECT"
    case 35 => "SET" case 36 => "TABLE" case 37 => "TEXT" case 38 => "TRANSACTION" case 39 => "UNIQUE"
    case 40 => "UPDATE" case 41 => "VALUES" case 42 => "WHERE" case 43 => "INTEGER" case 44 => "BLOB"
    case _ => ""
  }

  /** How many words at the start of the table are in order. */
  const IN_ORDER := 43

  function Lower(c: char): char {
    if 'A' <= c <= 'Z' then (c as int + 32) as char else c
  }

  /** What strncasecmp compares.  A character of the source is a byte. */
  function Folded(s: string): (b: Bytes)
    ensures |b| == |s|
  {
    seq(|s|, i requires 0 <= i < |s| => if s[i] as int < 256 then Lower(s[i]) as int else 255)
  }

  /** The i-th word of the table, folded. */
  function Word(i: nat): Bytes {
    Folded(Keyword(i))
  }

  // ----- The order of the table -----

  lemma Parts(a: string, b: string, k: nat)
    requires k <= |a| && k < |b| && (forall i :: 0 <= i < k ==> a[i] == b[i])
    requires k < |a| ==> 'A' <= a[k] < b[k] <= 'Z'
    ensures BytesBefore(Folded(a), Folded(b))
  {
    assert PartAt(Folded(a), Folded(b), k);
  }

  lemma FirstWords(i: nat)
    requires 0 <= i < 14
    ensures BytesBefore(Word(i), Word(i + 1))
  {
    hide BytesBefore, Folded;
    if i == 0 { Parts("AND", "AS", 1);
    } else if i == 1 { Parts("AS", "ASC", 2);
    } else if i == 2 { Parts("ASC", "AUTOINCREMENT", 1);
    } else if i == 3 { Parts("AUTOINCREMENT", "BEGIN", 0);
    } else if i == 4 { Parts("BEGIN", "BETWEEN", 2);
    } else if i == 5 { Parts("BETWEEN", "BY", 1);
    } else if i == 6 { Parts("BY", "COMMIT", 0);
    } else if i == 7 { Parts("COMMIT", "CREATE", 1);
    } else if i == 8 { Parts("CREATE", "DEFAULT", 0);
    } else if i == 9 { Parts("DEFAULT", "DELETE", 2);
    } else if i == 10 { Parts("DELETE", "DESC", 2);
    } else if i == 11 { Parts("DESC", "DISTINCT", 1);
    } else if i == 12 { Parts("DISTINCT", "DROP", 1);
    } else if i == 13 { Parts("DROP", "EXISTS", 0);
    }
  }

  lemma MiddleWords(i: nat)
    requires 14 <= i < 28
    ensures BytesBefore(Word(i), Word(i + 1))
  {
    hide BytesBefore, Folded;
    if i == 14 { Parts("EXISTS", "FROM", 0);
    } else if i == 15 { Parts("FROM", "IF", 0);
    } else if i == 16 { Parts("IF", "IN", 1);
    } else if i == 17 { Parts("IN", "INDEX", 2);
    } else if i == 18 { Parts("INDEX", "INSERT", 2);
    } else if i == 19 { Parts("INSERT", "INTO", 2);
    } else if i == 20 { Parts("INTO", "IS", 1);
    } else if i == 21 { Parts("IS", "KEY", 0);
    } else if i == 22 { Parts("KEY", "LIKE", 0);
    } else if i == 23 { Parts("LIKE", "LIMIT", 2);
    } else if i == 24 { Parts("LIMIT", "NOT", 0);
    } else if i == 25 { Parts("NOT", "NULL", 1);
    } else if i == 26 { Parts("NULL", "OFFSET", 0);
    } else if i == 27 { Parts("OFFSET", "ON", 1);
    }
  }

  lemma LastWords(i: nat)
    requires 28 <= i < 42
    ensures BytesBefore(Word(i), Word(i + 1))
  {
    hide BytesBefore, Folded;
    if i == 28 { Parts("ON", "OR", 1);
    } else if i == 29 { Parts("OR", "ORDER", 2);
    } else if i == 30 { Parts("ORDER", "PRIMARY", 0);
    } else if i == 31 { Parts("PRIMARY", "REAL", 0);
    } else if i == 32 { Parts("REAL", "ROLLBACK", 1);
    } else if i == 33 { Parts("ROLLBACK", "SELECT", 0);
    } else if i == 34 { Parts("SELECT", "SET", 2);
    } else if i == 35 { Parts("SET", "TABLE", 0);
    } else if i == 36 { Parts("TABLE", "TEXT", 1);
    } else if i == 37 { Parts("TEXT", "TRANSACTION", 1);
    } else if i == 38 { Parts("TRANSACTION", "UNIQUE", 0);
    } else if i == 39 { Parts("UNIQUE", "UPDATE", 1);
    } else if i == 40 { Parts("UPDATE", "VALUES", 0);
    } else if i == 41 { Parts("VALUES", "WHERE", 0);
    }
  }

  lemma {:induction false} InOrder(i: nat, j: nat)
    requires i < j < IN_ORDER
    ensures BytesBefore(Word(i), Word(j))
    decreases j
  {
    hide BytesBefore, Word;
    if j - 1 < 14 {
      FirstWords(j - 1);
    } else if j - 1 < 28 {
      MiddleWords(j - 1);
    } else {
      LastWords(j - 1);
    }
    if i < j - 1 {
      InOrder(i, j - 1);
      BytesBeforeTransitive(Word(i), Word(j - 1), Word(j));
    }
  }

  /** INTEGER and BLOB belong far up in the table. */
  lemma IntegerOutOfOrder()
    ensures BytesBefore(Word(19), Word(43)) && BytesBefore(Word(43), Word(20)) && BytesBefore(Word(43), Word(42))
  {
    hide BytesBefore, Folded;
    Parts("INSERT", "INTEGER", 2);
    Parts("INTEGER", "INTO", 3);
    Parts("INTEGER", "WHERE", 0);
  }

  lemma BlobOutOfOrder()
    ensures BytesBefore(Word(5), Word(44)) && BytesBefore(Word(44), Word(6)) && BytesBefore(Word(44), Word(42))
  {
    hide BytesBefore, Folded;
    Parts("BETWEEN", "BLOB", 1);
    Parts("BLOB", "BY", 1);
    Parts("BLOB", "WHERE", 0);
  }

  lemma Irreflexive(a: Bytes, b: Bytes)
    requires BytesBefore(a, b)
    ensures a != b && !BytesBefore(b, a)
  {
    CompareBytesIsOrder(a, b);
  }

  /** Where a word of the ordered part can be, once its text was compared with the word at mid. */
  lemma Narrowed(t: Bytes, mid: nat, j: nat)
    requires mid < IN_ORDER && j < IN_ORDER && t == Word(j)
    ensures BytesBefore(t, Word(mid)) ==> j < mid
    ensures BytesBefore(Word(mid), t) ==> j > mid
  {
    hide BytesBefore, Word;
    if j < mid {
      InOrder(j, mid);
      Irreflexive(t, Word(mid));
    } else if mid < j {
      InOrder(mid, j);
      Irreflexive(Word(mid), t);
    } else if BytesBefore(t, t) {
      Irreflexive(t, t);
    }
  }

  // ----- The search -----

  /** The word is one of the first forty-three. */
  ghost predicate Known(t: Bytes) {
    exists j :: 0 <= j < IN_ORDER && t == Word(j)
  }

  /** lookup_keyword: the position of the text in the table, or nothing for an identifier. */
  method LookupKeyword(text: string) returns (r: Option<nat>)
    ensures r.Some? ==> r.value < IN_ORDER && Folded(text) == Word(r.value)
    ensures r.None? ==> !Known(Folded(text))
  {
    hide BytesBefore, Word, Folded, CompareBytes;
    var t := Folded(text);
    var low, high := 0, COUNT - 1;
    while low <= high
      invariant 0 <= low <= COUNT && -1 <= high < COUNT
      invariant forall j :: 0 <= j < IN_ORDER && t == Word(j) ==> low <= j <= high
      invariant
        || (high == 44 && (low == 0 || low == 23 || low == 34 || low == 40))
        || high <= 41
        || (low >= IN_ORDER && BytesBefore(Word(42), t))
      decreases high - low + 1
    {
      var mid := (low + high) / 2;
      var c := CompareBytes(t, Word(mid));
      CompareBytesIsOrder(t, Word(mid));
      Probed(t, mid);
      if c == 0 {
        return Some(mid);
      } else if c < 0 {
        high := mid - 1;
      } else {
        low := mid + 1;
      }
    }
    r := None;
  }

  lemma Probed(t: Bytes, mid: nat)
    requires mid < COUNT
    ensures mid < IN_ORDER && BytesBefore(t, Word(mid)) ==> forall j :: 0 <= j < IN_ORDER && t == Word(j) ==> j < mid
    ensures mid < IN_ORDER && BytesBefore(Word(mid), t) ==> forall j :: 0 <= j < IN_ORDER && t == Word(j) ==> j > mid
    ensures mid >= IN_ORDER && BytesBefore(Word(42), t) ==>
      BytesBefore(Word(mid), t) && t != Word(mid) && !BytesBefore(t, Word(mid))
  {
    hide BytesBefore, Word;
    if mid < IN_ORDER {
      forall j | 0 <= j < IN_ORDER && t == Word(j)
        ensures BytesBefore(t, Word(mid)) ==> j < mid
        ensures BytesBefore(Word(mid), t) ==> j > mid
      {
        Narrowed(t, mid, j);
      }
    } else if BytesBefore(Word(42), t) {
      IntegerOutOfOrder();
      BlobOutOfOrder();
      BytesBeforeTransitive(Word(mid), Word(42), t);
      Irreflexive(Word(mid), t);
    }
  }

  // ----- What it finds -----

  lemma SpelledIs(text: string, i: nat)
    requires Parsing.Spells(text, Keyword(i))
    ensures Folded(text) == Word(i)
  {
  }

  /** A word between two neighbours of the ordered part is not in it. */
  lemma BetweenNeighbours(t: Bytes, i: nat)
    requires i + 1 < IN_ORDER && BytesBefore(Word(i), t) && BytesBefore(t, Word(i + 1))
    ensures !Known(t)
  {
    hide BytesBefore, Word;
    forall j | 0 <= j < IN_ORDER
      ensures t != Word(j)
    {
      if t == Word(j) {
        Narrowed(t, i, j);
        Narrowed(t, i + 1, j);
      }
    }
  }

  /** Whatever the capitals, a word of the table is recognised exactly when it is one of the first
      forty-three: INTEGER and BLOB are taken for identifiers. */
  lemma RecognisedIff(text: string, i: nat)
    requires i < COUNT && Parsing.Spells(text, Keyword(i))
    ensures Known(Folded(text)) <==> i < IN_ORDER
  {
    hide BytesBefore, Folded, Word, Keyword;
    SpelledIs(text, i);
    if i == 43 {
      IntegerOutOfOrder();
      BetweenNeighbours(Word(43), 19);
    } else if i == 44 {
      BlobOutOfOrder();
      BetweenNeighbours(Word(44), 5);
    }
  }

  /** So no identifier the lexer produces spells AND or NOT, as the parser's keyword test assumes. */
  lemma IdentifiersAreNotWords(text: string)
    requires !Known(Folded(text))
    ensures !Parsing.Spells(text, "AND") && !Parsing.Spells(text, "NOT")
  {
    assert Keyword(0) == "AND" && Keyword(25) == "NOT";
    if Parsing.Spells(text, "AND") {
      RecognisedIff(text, 0);
    }
    if Parsing.Spells(text, "NOT") {
      RecognisedIff(text, 25);
    }
  }
}
