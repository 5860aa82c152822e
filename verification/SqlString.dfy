/** SQL string literals: the escaping of security.c and the scanning of lexer.c. */
module SqlString {
  import opened Bytes

  const QUOTE: Byte := 39
  const DOUBLE_QUOTE: Byte := 34
  const LINE_FEED: Byte := 10

  // ----- Escaping -----

  /** Every quote doubled. */
  function Doubled(s: Bytes, quote: Byte): (r: Bytes)
    ensures |s| <= |r| <= 2 * |s|
    decreases |s|
  {
    if s == [] then [] else (if s[0] == quote then [quote, quote] else [s[0]]) + Doubled(s[1..], quote)
  }

  lemma {:induction false} DoubledSnoc(s: Bytes, c: Byte, quote: Byte)
    ensures Doubled(s + [c], quote) == Doubled(s, quote) + if c == quote then [quote, quote] else [c]
    decreases |s|
  {
    if s == [] {
      assert s + [c] == [c];
    } else {
      assert (s + [c])[1..] == s[1..] + [c];
      DoubledSnoc(s[1..], c, quote);
    }
  }

  /** security_escape_string: a length of zero means the whole terminated string. */
  method EscapeString(input: Bytes, inputLen: nat) returns (output: array<Byte>)
    requires inputLen <= |input|
    ensures var text := if inputLen == 0 then input else input[..inputLen];
      && |Doubled(text, QUOTE)| < output.Length == 2 * |text| + 1
      && output[..|Doubled(text, QUOTE)|] == Doubled(text, QUOTE) && output[|Doubled(text, QUOTE)|] == 0
  {
    var len := if inputLen == 0 then |input| else inputLen;
    output := new Byte[len * 2 + 1](_ => 0);
    var dest := 0;
    for i := 0 to len
      invariant dest == |Doubled(input[..i], QUOTE)| <= 2 * i
      invariant output[..dest] == Doubled(input[..i], QUOTE)
    {
      ghost var done := output[..dest];
      DoubledSnoc(input[..i], input[i], QUOTE);
      assert input[..i + 1] == input[..i] + [input[i]];
      if input[i] == QUOTE {
        output[dest], output[dest + 1] := QUOTE, QUOTE;
        dest := dest + 2;
        assert output[..dest] == done + [QUOTE, QUOTE];
      } else {
        output[dest] := input[i];
        dest := dest + 1;
        assert output[..dest] == done + [input[i]];
      }
    }
    output[dest] := 0;
    assert inputLen == 0 ==> input[..len] == input;
  }

  // ----- Scanning -----

  /** The result of scanning after the opening quote, with the number of bytes passed. */
  datatype Scan = Unterminated(passed: nat) | Closed(content: Bytes, passed: nat)

  function Prepend(c: Byte, width: nat, s: Scan): Scan {
    match s
    case Unterminated(n) => Unterminated(n + width)
    case Closed(content, n) => Closed([c] + content, n + width)
  }

  /** The content loop of scan_string.  A doubled quote always adds a single quote character. */
  function ScanBody(s: Bytes, quote: Byte): (r: Scan)
    ensures r.passed <= |s|
    decreases |s|
  {
    if s == [] || s[0] == 0 then Unterminated(0)
    else if s[0] == quote then
      if |s| > 1 && s[1] == quote then Prepend(QUOTE, 2, ScanBody(s[2..], quote)) else Closed([], 1)
    else Prepend(s[0], 1, ScanBody(s[1..], quote))
  }

  lemma ScanAt(sql: Bytes, pos: nat, quote: Byte)
    requires pos <= |sql| && quote != 0
    ensures pos == |sql| || sql[pos] == 0 ==> ScanBody(sql[pos..], quote) == Unterminated(0)
    ensures pos < |sql| && sql[pos] == quote && !(pos + 1 < |sql| && sql[pos + 1] == quote) ==>
      ScanBody(sql[pos..], quote) == Closed([], 1)
    ensures pos + 1 < |sql| && sql[pos] == quote && sql[pos + 1] == quote ==>
      ScanBody(sql[pos..], quote) == Prepend(QUOTE, 2, ScanBody(sql[pos + 2..], quote))
    ensures pos < |sql| && sql[pos] != quote && sql[pos] != 0 ==>
      ScanBody(sql[pos..], quote) == Prepend(sql[pos], 1, ScanBody(sql[pos + 1..], quote))
  {
  }

  /** Line feeds from position i up to position j. */
  function Newlines(s: Bytes, i: nat, j: nat): nat
    requires j <= |s| || i == j
  {
    if j <= i then 0 else Newlines(s, i, j - 1) + if s[j - 1] == LINE_FEED then 1 else 0
  }

  lemma {:induction false} NewlinesAreLineFeeds(s: Bytes, i: nat, j: nat)
    requires i <= j <= |s|
    ensures Newlines(s, i, j) == multiset(s[i..j])[10]
    decreases j
  {
    if i == j {
      assert s[i..j] == [];
    } else {
      NewlinesAreLineFeeds(s, i, j - 1);
      assert s[i..j] == s[i..j - 1] + [s[j - 1]];
    }
  }

  lemma NewlinesStep(s: Bytes, i: nat, j: nat)
    requires i <= j <= |s|
    ensures j < |s| ==> Newlines(s, i, j + 1) == Newlines(s, i, j) + Newlines(s, j, j + 1)
    ensures j + 1 < |s| ==> Newlines(s, i, j + 2) == Newlines(s, i, j + 1) + Newlines(s, j + 1, j + 2)
  {
  }

  class Lexer {
    const sql: Bytes
    var pos: nat
    var line: nat
    var column: nat

    constructor (sql: Bytes)
      ensures this.sql == sql && pos == 0 && line == 1 && column == 1
    {
      this.sql, pos, line, column := sql, 0, 1, 1;
    }

    function CurrentChar(): Byte
      reads this
    {
      if pos >= |sql| then 0 else sql[pos]
    }

    function PeekChar(): Byte
      reads this
    {
      if pos + 1 >= |sql| then 0 else sql[pos + 1]
    }

    method Advance()
      modifies this
      ensures pos == if old(pos) < |sql| then old(pos) + 1 else old(pos)
      ensures line == old(line) + Newlines(sql, old(pos), pos)
      ensures column == if pos == old(pos) then old(column) else if line > old(line) then 1 else old(column) + 1
    {
      if pos < |sql| {
        if sql[pos] == LINE_FEED {
          line, column := line + 1, 1;
        } else {
          column := column + 1;
        }
        pos := pos + 1;
      }
    }

    /** scan_string, entered on an opening quote. */
    method ScanString() returns (r: Scan)
      requires pos < |sql| && (sql[pos] == QUOTE || sql[pos] == DOUBLE_QUOTE)
      modifies this
      ensures r == ScanBody(sql[old(pos) + 1..], sql[old(pos)])
      ensures pos == old(pos) + 1 + r.passed <= |sql|
      ensures line == old(line) + Newlines(sql, old(pos), pos) && column == old(column)
    {
      hide ScanBody, Prepend, Newlines;
      var startColumn := column;
      var quote := CurrentChar();
      Advance();
      var start := pos;
      ghost var all := ScanBody(sql[start..], quote);
      var content: Bytes := [];
      while true
        invariant start <= pos <= |sql| && line == old(line) + Newlines(sql, old(pos), pos)
        invariant all == Continue(content, pos - start, ScanBody(sql[pos..], quote))
        decreases |sql| - pos
      {
        ScanAt(sql, pos, quote);
        NewlinesStep(sql, old(pos), pos);
        if CurrentChar() == 0 {
          column := startColumn;
          return Unterminated(pos - start);
        }
        if CurrentChar() == quote {
          if PeekChar() == quote {
            ContinuePrepend(content, pos - start, QUOTE, 2, ScanBody(sql[pos + 2..], quote));
            content := content + [QUOTE];
            Advance();
            Advance();
          } else {
            Advance();
            break;
          }
        } else {
          ContinuePrepend(content, pos - start, CurrentChar(), 1, ScanBody(sql[pos + 1..], quote));
          content := content + [CurrentChar()];
          Advance();
        }
      }
      column := startColumn;
      r := Closed(content, pos - start);
    }
  }

  /** A scan resumed after `passed` bytes that yielded `content`. */
  ghost function Continue(content: Bytes, passed: nat, s: Scan): Scan {
    match s
    case Unterminated(n) => Unterminated(passed + n)
    case Closed(more, n) => Closed(content + more, passed + n)
  }

  lemma ContinuePrepend(content: Bytes, passed: nat, c: Byte, width: nat, s: Scan)
    ensures Continue(content, passed, Prepend(c, width, s)) == Continue(content + [c], passed + width, s)
  {
  }

  // ----- The two are inverse -----

  /** The string with every occurrence of the quote replaced by a single quote. */
  function Requoted(s: Bytes, quote: Byte): (r: Bytes)
    ensures |r| == |s|
    ensures forall i :: 0 <= i < |s| ==> r[i] == if s[i] == quote then QUOTE else s[i]
  {
    seq(|s|, i requires 0 <= i < |s| => if s[i] == quote then QUOTE else s[i])
  }

  lemma {:induction false} ScanDoubled(s: Bytes, quote: Byte, rest: Bytes)
    requires NulFree(s) && quote != 0 && (rest != [] ==> rest[0] != quote)
    ensures ScanBody(Doubled(s, quote) + ([quote] + rest), quote) == Closed(Requoted(s, quote), |Doubled(s, quote)| + 1)
    decreases |s|
  {
    hide ScanBody, Requoted;
    var tail := [quote] + rest;
    var t := Doubled(s, quote) + tail;
    ScanAt(t, 0, quote);
    assert t[0..] == t;
    if s == [] {
      assert t == tail;
      assert Requoted(s, quote) == [];
    } else {
      ScanDoubled(s[1..], quote, rest);
      DoubledTail(s, quote, tail);
      assert Requoted(s, quote) == [if s[0] == quote then QUOTE else s[0]] + Requoted(s[1..], quote);
    }
  }

  lemma DoubledTail(s: Bytes, quote: Byte, tail: Bytes)
    requires s != []
    ensures var t := Doubled(s, quote) + tail; var unit := if s[0] == quote then 2 else 1;
      |t| >= unit && t[unit..] == Doubled(s[1..], quote) + tail && t[0] == s[0] && (unit == 2 ==> t[1] == quote)
  {
    DropFirst(if s[0] == quote then [quote, quote] else [s[0]], Doubled(s[1..], quote), tail);
  }

  lemma DropFirst(a: Bytes, b: Bytes, c: Bytes)
    ensures ((a + b) + c)[|a|..] == b + c && (forall i :: 0 <= i < |a| ==> ((a + b) + c)[i] == a[i])
  {
  }

  /** Scanning the escape of a string and a closing quote that no other quote follows consumes
      exactly that text and yields the string. */
  lemma ScanEscaped(s: Bytes, rest: Bytes)
    requires NulFree(s) && (rest != [] ==> rest[0] != QUOTE)
    ensures ScanBody(Doubled(s, QUOTE) + ([QUOTE] + rest), QUOTE) == Closed(s, |Doubled(s, QUOTE)| + 1)
  {
    ScanDoubled(s, QUOTE, rest);
    assert Requoted(s, QUOTE) == s;
  }

  /** Conversely, every accepted literal is the quoted escape of its content and ends at a quote
      that no other quote follows. */
  lemma {:induction false} AcceptedIsEscaped(t: Bytes)
    requires ScanBody(t, QUOTE).Closed?
    ensures var r := ScanBody(t, QUOTE);
      && t[..r.passed] == Doubled(r.content, QUOTE) + [QUOTE]
      && NulFree(r.content) && (r.passed < |t| ==> t[r.passed] != QUOTE)
    decreases |t|
  {
    hide ScanBody;
    ScanAt(t, 0, QUOTE);
    assert t[0..] == t;
    if t[0] != QUOTE {
      AcceptedIsEscaped(t[1..]);
      var q := ScanBody(t[1..], QUOTE);
      RejoinAccepted(t[..1], t, q);
    } else if |t| > 1 && t[1] == QUOTE {
      AcceptedIsEscaped(t[2..]);
      var q := ScanBody(t[2..], QUOTE);
      RejoinAccepted(t[..2], t, q);
    }
  }

  /** Adding one more character, escaped, in front of an accepted literal. */
  lemma RejoinAccepted(unit: Bytes, t: Bytes, q: Scan)
    requires 1 <= |unit| <= 2 && unit <= t && q.Closed? && q.passed <= |t| - |unit|
    requires unit == if unit[0] == QUOTE then [QUOTE, QUOTE] else [unit[0]]
    requires t[|unit|..][..q.passed] == Doubled(q.content, QUOTE) + [QUOTE]
    ensures t[..|unit| + q.passed] == Doubled([unit[0]] + q.content, QUOTE) + [QUOTE]
  {
    assert ([unit[0]] + q.content)[1..] == q.content;
    assert t[..|unit| + q.passed] == unit + t[|unit|..][..q.passed];
  }

  /** An unterminated literal was passed up to the first NUL or the end of the text. */
  lemma {:induction false} UnterminatedPasses(s: Bytes, quote: Byte)
    requires quote != 0 && ScanBody(s, quote).Unterminated?
    ensures var n := ScanBody(s, quote).passed; NulFree(s[..n]) && (n == |s| || s[n] == 0)
    decreases |s|
  {
    hide ScanBody;
    ScanAt(s, 0, quote);
    assert s[0..] == s;
    if s != [] && s[0] != 0 {
      var k := if s[0] == quote then 2 else 1;
      UnterminatedPasses(s[k..], quote);
      var n := ScanBody(s[k..], quote).passed;
      assert s[..k + n] == s[..k] + s[k..][..n];
    }
  }

  // ----- Double-quoted text -----

  /** A double-quoted literal yields its text exactly when the text holds no double quote: a doubled
      one comes back as a single quote. */
  lemma DoubleQuotedIff(s: Bytes, rest: Bytes)
    requires NulFree(s) && (rest != [] ==> rest[0] != DOUBLE_QUOTE)
    ensures var r := ScanBody(Doubled(s, DOUBLE_QUOTE) + ([DOUBLE_QUOTE] + rest), DOUBLE_QUOTE);
      r == Closed(s, |Doubled(s, DOUBLE_QUOTE)| + 1) <==> DOUBLE_QUOTE !in s
  {
    ScanDoubled(s, DOUBLE_QUOTE, rest);
    if DOUBLE_QUOTE in s {
      var i :| 0 <= i < |s| && s[i] == DOUBLE_QUOTE;
      assert Requoted(s, DOUBLE_QUOTE)[i] != s[i];
    } else {
      assert Requoted(s, DOUBLE_QUOTE) == s;
    }
  }
}
