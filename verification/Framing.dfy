/** Cutting the byte stream of a connection into request lines. */
module Framing {
  import opened Bytes
  import opened Options
  import opened Escape

  datatype Outcome = Closed | NoLine | TooLarge | NoBuffer | ReadFailed | Line(text: Bytes)

  /** Position of the first newline, or the length if there is none. */
  function NewlineAt(s: Bytes): (k: nat)
    ensures k <= |s| && (k < |s| ==> s[k] == NEWLINE)
    ensures forall i :: 0 <= i < k ==> s[i] != NEWLINE
    decreases |s|
  {
    if s == [] || s[0] == NEWLINE then 0
    else
      assert forall i :: 1 <= i < |s| ==> s[i] == s[1..][i - 1];
      1 + NewlineAt(s[1..])
  }

  /** The effect of one read on the pending bytes of a buffer of the given size. */
  function Deliver(pending: Bytes, chunk: Bytes, size: nat): (Outcome, Bytes) {
    var all := pending + chunk;
    var k := NewlineAt(all);
    if chunk == [] then (Closed, pending)
    else if k < |all| then (Line(all[..k]), all[k + 1..])
    else if |all| + 1 >= size then (TooLarge, [])
    else (NoLine, all)
  }

  /** The first line is complete and does not fit a buffer of the given size with its terminator. */
  predicate TooLong(all: Bytes, lineSize: nat) {
    lineSize <= NewlineAt(all) < |all|
  }

  class Protocol {
    const buffer: array<Byte>
    var dataLen: nat

    constructor (size: nat)
      requires size > 0
      ensures Valid() && buffer.Length == size && Pending() == [] && fresh(buffer)
    {
      buffer := new Byte[size](_ => 0);
      dataLen := 0;
    }

    ghost predicate Valid()
      reads this, buffer
    {
      dataLen < buffer.Length && NulFree(buffer[..dataLen])
    }

    /** The bytes received and not yet delivered. */
    function Pending(): Bytes
      requires dataLen <= buffer.Length
      reads this, buffer
    {
      buffer[..dataLen]
    }

    /** protocol_read_request; `read` is what the read call returned, nothing if it failed. */
    method ReadRequest(read: Option<Bytes>, lineSize: nat) returns (outcome: Outcome)
      requires Valid() && (read.Some? ==> Acceptable(read.value, lineSize))
      modifies this`dataLen, buffer
      ensures dataLen < buffer.Length
      ensures lineSize == 0 ==> outcome == NoBuffer && Valid() && Pending() == old(Pending())
      ensures lineSize > 0 && read.None? ==> outcome == ReadFailed && Valid() && Pending() == old(Pending())
      ensures lineSize > 0 && read.Some? ==> Handled(old(Pending()), read.value, lineSize, outcome)
    {
      if lineSize == 0 {
        return NoBuffer;
      }
      if read.None? {
        return ReadFailed;
      }
      outcome := HandleChunk(read.value, lineSize);
    }

    /** The chunk fits the buffer and holds no NUL.  A line that does not fit the caller's buffer of
        lineSize bytes is cut, and then the copy that closes the gap runs on past the pending bytes;
        it must stay in the buffer. */
    predicate Acceptable(chunk: Bytes, lineSize: nat)
      requires dataLen <= buffer.Length
      reads this, buffer
    {
      var all := Pending() + chunk;
      && NulFree(chunk) && |all| < buffer.Length
      && (TooLong(all, lineSize) ==> |all| + NewlineAt(all) < buffer.Length + lineSize)
    }

    /** What the bytes of one read do, given the bytes pending before: the specified effect, exactly if
        the line fits; otherwise a part of the line, and the bytes after it with a NUL and stale bytes
        behind them. */
    ghost predicate Handled(pending: Bytes, chunk: Bytes, lineSize: nat, outcome: Outcome)
      requires lineSize > 0 && dataLen <= buffer.Length
      reads this, buffer
    {
      var all := pending + chunk;
      var fits := chunk == [] || !TooLong(all, lineSize);
      && (fits ==> Valid())
      && ((outcome, Pending()) == Deliver(pending, chunk, buffer.Length) <==> fits)
      && (!fits ==> outcome == Line(all[..lineSize - 1]) && |Pending()| == |all| - lineSize)
      && (!fits ==> all[NewlineAt(all) + 1..] + [0] <= Pending())
    }

    method HandleChunk(chunk: Bytes, lineSize: nat) returns (outcome: Outcome)
      requires Valid() && Acceptable(chunk, lineSize) && lineSize > 0
      modifies this`dataLen, buffer
      ensures dataLen < buffer.Length && Handled(old(Pending()), chunk, lineSize, outcome)
    {
      hide NewlineAt;
      if chunk == [] {
        return Closed;
      }
      Receive(chunk);
      var k := FindNewline();
      if k < dataLen {
        outcome := TakeLine(k, lineSize);
      } else if dataLen >= buffer.Length - 1 {
        dataLen := 0;
        outcome := TooLarge;
        assert Pending() == [];
      } else {
        outcome := NoLine;
      }
    }

    /** Copy the line out and move what follows it to the front. */
    method TakeLine(k: nat, lineSize: nat) returns (outcome: Outcome)
      requires Valid() && buffer[dataLen] == 0 && k < dataLen && k == NewlineAt(Pending()) && lineSize > 0
      requires k >= lineSize ==> dataLen + k < buffer.Length + lineSize
      modifies this`dataLen, buffer
      ensures dataLen < buffer.Length
      ensures k < lineSize ==> Valid() && outcome == Line(old(Pending())[..k]) && Pending() == old(Pending())[k + 1..]
      ensures k >= lineSize ==> outcome == Line(old(Pending())[..lineSize - 1])
      ensures k >= lineSize ==> |Pending()| == old(dataLen) - lineSize && old(Pending())[k + 1..] + [0] <= Pending()
    {
      hide NewlineAt;
      ghost var all := Pending();
      var length := if k >= lineSize then lineSize - 1 else k;
      outcome := Line(buffer[..length]);
      var remaining := dataLen - length - 1;
      assert buffer[..length] == all[..length];
      ghost var moved := buffer[k + 1..k + 1 + remaining];
      assert moved[..dataLen - k - 1] == all[k + 1..];
      assert k >= lineSize ==> moved[dataLen - k - 1] == buffer[dataLen];
      MoveDown(k + 1, remaining);
      dataLen := remaining;
      assert Pending() == moved;
    }

    /** The read call: append the bytes and terminate them. */
    method Receive(chunk: Bytes)
      requires Valid() && NulFree(chunk) && dataLen + |chunk| < buffer.Length
      modifies this`dataLen, buffer
      ensures Valid() && Pending() == old(Pending()) + chunk && buffer[dataLen] == 0
    {
      ghost var was := Pending();
      forall i | 0 <= i < |chunk| { buffer[dataLen + i] := chunk[i]; }
      dataLen := dataLen + |chunk|;
      buffer[dataLen] := 0;
      assert Pending() == was + chunk;
      forall i | 0 <= i < dataLen
        ensures Pending()[i] != 0
      {
        assert Pending()[i] == (was + chunk)[i];
      }
    }

    /** strchr: the search stops at the terminator, so it sees exactly the pending bytes. */
    method FindNewline() returns (k: nat)
      requires Valid() && buffer[dataLen] == 0
      ensures k == NewlineAt(Pending())
    {
      k := 0;
      while buffer[k] != 0 && buffer[k] != NEWLINE
        invariant k <= dataLen && forall i :: 0 <= i < k ==> buffer[i] != NEWLINE
        decreases dataLen - k
      {
        k := k + 1;
      }
      assert k < dataLen ==> Pending()[k] != 0;
      FirstNewline(Pending(), k);
    }

    /** memmove of n bytes from offset o to the start of the buffer. */
    method MoveDown(o: nat, n: nat)
      requires o + n <= buffer.Length
      modifies buffer
      ensures buffer[..n] == old(buffer[o..o + n])
    {
      for i := 0 to n
        invariant forall j :: 0 <= j < i ==> buffer[j] == old(buffer[o + j])
        invariant forall j :: i <= j < buffer.Length ==> buffer[j] == old(buffer[j])
      {
        buffer[i] := buffer[o + i];
      }
    }
  }

  lemma FirstNewline(s: Bytes, k: nat)
    requires k <= |s| && (k < |s| ==> s[k] == NEWLINE)
    requires forall i :: 0 <= i < k ==> s[i] != NEWLINE
    ensures NewlineAt(s) == k
  {
  }

  // ----- Whole sessions -----

  /** Lines delivered and bytes left over after a sequence of reads. */
  function Session(pending: Bytes, chunks: seq<Bytes>, size: nat): (seq<Bytes>, Bytes)
    decreases |chunks|
  {
    if chunks == [] then ([], pending)
    else
      var (outcome, next) := Deliver(pending, chunks[0], size);
      var (lines, rest) := Session(next, chunks[1..], size);
      ((if outcome.Line? then [outcome.text] else []) + lines, rest)
  }

  /** Every read fits the buffer, carries no NUL and completes no line longer than the caller's
      buffer. */
  predicate Readable(pending: Bytes, chunks: seq<Bytes>, size: nat, lineSize: nat)
    decreases |chunks|
  {
    chunks == [] || (
      var all := pending + chunks[0];
      && NulFree(chunks[0]) && |all| < size
      && !TooLong(all, lineSize)
      && Readable(Deliver(pending, chunks[0], size).1, chunks[1..], size, lineSize))
  }

  /** A session over the real buffer. */
  method Serve(protocol: Protocol, chunks: seq<Bytes>, lineSize: nat) returns (lines: seq<Bytes>)
    requires protocol.Valid() && lineSize > 0 && Readable(protocol.Pending(), chunks, protocol.buffer.Length, lineSize)
    modifies protocol`dataLen, protocol.buffer
    ensures protocol.Valid()
    ensures (lines, protocol.Pending()) == Session(old(protocol.Pending()), chunks, protocol.buffer.Length)
  {
    hide Deliver, NewlineAt, TooLong, Session, Readable, NulFree;
    lines := [];
    ghost var pending, size := protocol.Pending(), protocol.buffer.Length;
    assert chunks[0..] == chunks;
    AheadNothing(Session(pending, chunks, size));
    for i := 0 to |chunks|
      invariant protocol.Valid() && Readable(protocol.Pending(), chunks[i..], size, lineSize)
      invariant Ahead(lines, Session(protocol.Pending(), chunks[i..], size)) == Session(pending, chunks, size)
    {
      SessionStep(lines, protocol.Pending(), chunks, i, size, lineSize);
      var outcome := protocol.ReadRequest(Some(chunks[i]), lineSize);
      if outcome.Line? {
        lines := lines + [outcome.text];
      }
    }
    SessionEnd(lines, protocol.Pending(), chunks, size);
  }

  /** Lines already delivered, in front of what a session yields. */
  function Ahead(lines: seq<Bytes>, rest: (seq<Bytes>, Bytes)): (seq<Bytes>, Bytes) {
    (lines + rest.0, rest.1)
  }

  lemma AheadNothing(rest: (seq<Bytes>, Bytes))
    ensures Ahead([], rest) == rest
  {
    assert [] + rest.0 == rest.0;
  }

  lemma SessionStep(lines: seq<Bytes>, pending: Bytes, chunks: seq<Bytes>, i: nat, size: nat, lineSize: nat)
    requires i < |chunks| && Readable(pending, chunks[i..], size, lineSize)
    ensures NulFree(chunks[i]) && |pending| + |chunks[i]| < size && !TooLong(pending + chunks[i], lineSize)
    ensures var (outcome, next) := Deliver(pending, chunks[i], size);
      && Readable(next, chunks[i + 1..], size, lineSize)
      && Ahead(lines, Session(pending, chunks[i..], size)) ==
        Ahead(if outcome.Line? then lines + [outcome.text] else lines, Session(next, chunks[i + 1..], size))
  {
    hide Deliver, NewlineAt, TooLong;
    assert chunks[i..][0] == chunks[i] && chunks[i..][1..] == chunks[i + 1..];
    var (outcome, next) := Deliver(pending, chunks[i], size);
    var more := Session(next, chunks[i + 1..], size).0;
    if outcome.Line? {
      assert lines + ([outcome.text] + more) == lines + [outcome.text] + more;
    } else {
      assert [] + more == more;
    }
  }

  lemma SessionEnd(lines: seq<Bytes>, pending: Bytes, chunks: seq<Bytes>, size: nat)
    ensures Ahead(lines, Session(pending, chunks[|chunks|..], size)) == (lines, pending)
  {
    assert lines + [] == lines;
  }

  /** No read finds the buffer full without a newline. */
  predicate NeverFull(pending: Bytes, chunks: seq<Bytes>, size: nat)
    decreases |chunks|
  {
    chunks == [] || (
      var (outcome, next) := Deliver(pending, chunks[0], size);
      !outcome.TooLarge? && NeverFull(next, chunks[1..], size))
  }

  function Flatten(chunks: seq<Bytes>): Bytes
    decreases |chunks|
  {
    if chunks == [] then [] else chunks[0] + Flatten(chunks[1..])
  }

  function Terminated(lines: seq<Bytes>): Bytes
    decreases |lines|
  {
    if lines == [] then [] else lines[0] + [NEWLINE] + Terminated(lines[1..])
  }

  lemma DeliverConserves(pending: Bytes, chunk: Bytes, size: nat)
    ensures var (outcome, next) := Deliver(pending, chunk, size);
      !outcome.TooLarge? ==>
        pending + chunk == (if outcome.Line? then outcome.text + [NEWLINE] else []) + next
  {
  }

  lemma {:induction false} NeverFullConserves(pending: Bytes, chunks: seq<Bytes>, size: nat)
    requires NeverFull(pending, chunks, size)
    ensures var (lines, rest) := Session(pending, chunks, size);
      Terminated(lines) + rest == pending + Flatten(chunks)
    decreases |chunks|
  {
    hide Deliver;
    if chunks == [] {
      assert pending + Flatten(chunks) == pending;
    } else {
      var (outcome, next) := Deliver(pending, chunks[0], size);
      var (lines, rest) := Session(next, chunks[1..], size);
      DeliverConserves(pending, chunks[0], size);
      NeverFullConserves(next, chunks[1..], size);
      var more := Flatten(chunks[1..]);
      assert pending + (chunks[0] + more) == (pending + chunks[0]) + more;
      if outcome.Line? {
        var head := outcome.text + [NEWLINE];
        assert Terminated([outcome.text] + lines) == head + Terminated(lines) by {
          assert ([outcome.text] + lines)[1..] == lines;
        }
        assert head + Terminated(lines) + rest == head + (Terminated(lines) + rest);
        assert head + next + more == head + (next + more);
      } else {
        assert [] + lines == lines && [] + next == next;
      }
    }
  }

  /** Delivered lines contain no newline, so they are the stream's own lines. */
  lemma {:induction false} SessionLines(pending: Bytes, chunks: seq<Bytes>, size: nat)
    ensures forall i :: 0 <= i < |Session(pending, chunks, size).0| ==> NEWLINE !in Session(pending, chunks, size).0[i]
    decreases |chunks|
  {
    if chunks != [] {
      SessionLines(Deliver(pending, chunks[0], size).1, chunks[1..], size);
    }
  }

  // ----- Lines left waiting -----

  function Count(s: Bytes): nat
    decreases |s|
  {
    if s == [] then 0 else (if s[0] == NEWLINE then 1 else 0) + Count(s[1..])
  }

  lemma {:induction false} CountConcat(s: Bytes, t: Bytes)
    ensures Count(s + t) == Count(s) + Count(t)
    decreases |s|
  {
    if s == [] {
      assert s + t == t;
    } else {
      assert (s + t)[1..] == s[1..] + t;
      CountConcat(s[1..], t);
    }
  }

  lemma {:induction false} CountAfterLine(s: Bytes)
    ensures NewlineAt(s) < |s| <==> Count(s) > 0
    ensures NewlineAt(s) < |s| ==> Count(s[NewlineAt(s) + 1..]) == Count(s) - 1
    decreases |s|
  {
    if s != [] && s[0] != NEWLINE {
      CountAfterLine(s[1..]);
      if NewlineAt(s) < |s| {
        assert s[1..][NewlineAt(s[1..]) + 1..] == s[NewlineAt(s) + 1..];
      }
    }
  }

  /** Complete lines left in the buffer, if each read that brings anything delivers at most one. */
  function Backlog(waiting: nat, chunks: seq<Bytes>): nat
    decreases |chunks|
  {
    if chunks == [] then waiting
    else
      var n := waiting + Count(chunks[0]);
      Backlog(if chunks[0] == [] || n == 0 then n else n - 1, chunks[1..])
  }

  lemma {:induction false} WaitingIfNeverFull(pending: Bytes, chunks: seq<Bytes>, size: nat)
    requires NeverFull(pending, chunks, size)
    ensures var rest := Session(pending, chunks, size).1;
      && Count(rest) == Backlog(Count(pending), chunks)
      && (NewlineAt(rest) < |rest| <==> Backlog(Count(pending), chunks) > 0)
    decreases |chunks|
  {
    if chunks == [] {
      CountAfterLine(pending);
    } else {
      CountConcat(pending, chunks[0]);
      CountAfterLine(pending + chunks[0]);
      WaitingIfNeverFull(Deliver(pending, chunks[0], size).1, chunks[1..], size);
    }
  }

  // ----- When the buffer fills -----

  /** One read, case by case: a read without a newline in the buffer keeps everything while there is
      room for one more byte, and drops everything otherwise. */
  lemma DeliverCases(pending: Bytes, chunk: Bytes, size: nat)
    ensures var (outcome, next) := Deliver(pending, chunk, size); var all := pending + chunk;
      && (outcome == Closed <==> chunk == [])
      && (outcome.Line? <==> chunk != [] && NEWLINE in all)
      && (outcome == TooLarge <==> chunk != [] && NEWLINE !in all && |all| + 1 >= size)
      && (outcome == NoLine <==> chunk != [] && NEWLINE !in all && |all| + 1 < size)
      && (outcome.Line? ==> NEWLINE !in outcome.text && outcome.text + [NEWLINE] + next == all)
      && next == (match outcome case Closed => pending case NoLine => all case TooLarge => [] case _ => next)
  {
    var all := pending + chunk;
    var k := NewlineAt(all);
    if k < |all| {
      assert all[k] == NEWLINE;
      assert all == all[..k] + [NEWLINE] + all[k + 1..];
    }
  }

  /** What follows the first n lines of a stream. */
  function AfterLines(s: Bytes, n: nat): Bytes
    decreases n
  {
    if n == 0 then s else if NEWLINE !in s then [] else AfterLines(s[NewlineAt(s) + 1..], n - 1)
  }

  /** Whether there is room for every read, told from the bytes alone: s has come so far and n lines of
      it were delivered.  A read that completes or finds a complete line needs none; any other must
      leave room for one more byte behind what follows the delivered lines. */
  predicate Roomy(s: Bytes, n: nat, chunks: seq<Bytes>, size: nat)
    decreases |chunks|
  {
    chunks == [] || (
      var t := s + chunks[0];
      if chunks[0] == [] then Roomy(s, n, chunks[1..], size)
      else if Count(t) > n then Roomy(t, n + 1, chunks[1..], size)
      else |AfterLines(t, n)| + 1 < size && Roomy(t, n, chunks[1..], size))
  }

  lemma {:induction false} AfterLinesCount(s: Bytes, n: nat)
    requires n <= Count(s)
    ensures Count(AfterLines(s, n)) == Count(s) - n
    decreases n
  {
    CountAfterLine(s);
    if n > 0 {
      assert NEWLINE in s;
      AfterLinesCount(s[NewlineAt(s) + 1..], n - 1);
    }
  }

  lemma {:induction false} AfterLinesConcat(s: Bytes, n: nat, t: Bytes)
    requires n <= Count(s)
    ensures AfterLines(s + t, n) == AfterLines(s, n) + t
    decreases n
  {
    if n > 0 {
      CountAfterLine(s);
      var k := NewlineAt(s);
      assert s[k] == NEWLINE && (s + t)[k] == NEWLINE;
      FirstNewline(s + t, k);
      assert (s + t)[k + 1..] == s[k + 1..] + t;
      AfterLinesConcat(s[k + 1..], n - 1, t);
    }
  }

  lemma {:induction false} AfterOneMore(s: Bytes, n: nat)
    requires n < Count(s)
    ensures var r := AfterLines(s, n); NewlineAt(r) < |r| && r[NewlineAt(r) + 1..] == AfterLines(s, n + 1)
    decreases n
  {
    CountAfterLine(s);
    assert s[NewlineAt(s)] == NEWLINE;
    if n > 0 {
      AfterOneMore(s[NewlineAt(s) + 1..], n - 1);
    }
  }

  /** One read in terms of the stream. */
  lemma DeliverMoves(s: Bytes, n: nat, c: Bytes, size: nat)
    requires n <= Count(s)
    ensures var (outcome, next) := Deliver(AfterLines(s, n), c, size); var t := s + c;
      && n <= Count(t)
      && (c == [] ==> !outcome.TooLarge? && next == AfterLines(s, n))
      && (c != [] && Count(t) > n ==> !outcome.TooLarge? && next == AfterLines(t, n + 1))
      && (c != [] && Count(t) == n ==> (outcome.TooLarge? <==> |AfterLines(t, n)| + 1 >= size))
      && (c != [] && Count(t) == n && !outcome.TooLarge? ==> next == AfterLines(t, n))
  {
    hide Count, AfterLines, NewlineAt;
    var t := s + c;
    CountConcat(s, c);
    AfterLinesConcat(s, n, c);
    AfterLinesCount(t, n);
    CountAfterLine(AfterLines(t, n));
    if Count(t) > n {
      AfterOneMore(t, n);
    }
  }

  lemma {:induction false} NeverFullIff(s: Bytes, n: nat, chunks: seq<Bytes>, size: nat)
    requires n <= Count(s)
    ensures NeverFull(AfterLines(s, n), chunks, size) <==> Roomy(s, n, chunks, size)
    decreases |chunks|
  {
    hide Deliver, Count, AfterLines;
    if chunks != [] {
      var c, t := chunks[0], s + chunks[0];
      DeliverMoves(s, n, c, size);
      if c == [] {
        NeverFullIff(s, n, chunks[1..], size);
      } else if Count(t) > n {
        NeverFullIff(t, n + 1, chunks[1..], size);
      } else {
        NeverFullIff(t, n, chunks[1..], size);
      }
    }
  }

  lemma {:induction false} FullLoses(pending: Bytes, chunks: seq<Bytes>, size: nat)
    ensures var (lines, rest) := Session(pending, chunks, size);
      && |Terminated(lines)| + |rest| <= |pending| + |Flatten(chunks)|
      && (!NeverFull(pending, chunks, size) ==> |Terminated(lines)| + |rest| < |pending| + |Flatten(chunks)|)
    decreases |chunks|
  {
    hide Deliver;
    if chunks != [] {
      var (outcome, next) := Deliver(pending, chunks[0], size);
      var (lines, rest) := Session(next, chunks[1..], size);
      DeliverCases(pending, chunks[0], size);
      FullLoses(next, chunks[1..], size);
      if outcome.Line? {
        assert ([outcome.text] + lines)[1..] == lines;
        assert |outcome.text + [NEWLINE] + next| == |pending + chunks[0]|;
      } else {
        assert [] + lines == lines;
      }
    }
  }

  /** Nothing is lost, invented or reordered by the framing, however the stream is cut into reads, exactly
      if there is room: the lines, each with its newline, and then the left-over bytes are what was read. */
  lemma SessionConserves(pending: Bytes, chunks: seq<Bytes>, size: nat)
    ensures var (lines, rest) := Session(pending, chunks, size);
      Terminated(lines) + rest == pending + Flatten(chunks) <==> Roomy(pending, 0, chunks, size)
  {
    hide Session, NeverFull, Terminated, Flatten;
    NeverFullIff(pending, 0, chunks, size);
    FullLoses(pending, chunks, size);
    if NeverFull(pending, chunks, size) {
      NeverFullConserves(pending, chunks, size);
    }
  }

  /** The remainder still holds a complete line exactly when the reads brought lines faster than one
      each, as counted by the backlog. */
  lemma LinesLeftWaiting(pending: Bytes, chunks: seq<Bytes>, size: nat)
    requires Roomy(pending, 0, chunks, size)
    ensures var rest := Session(pending, chunks, size).1;
      && Count(rest) == Backlog(Count(pending), chunks)
      && (NEWLINE in rest <==> Backlog(Count(pending), chunks) > 0)
  {
    NeverFullIff(pending, 0, chunks, size);
    WaitingIfNeverFull(pending, chunks, size);
    var rest := Session(pending, chunks, size).1;
    assert NewlineAt(rest) < |rest| ==> rest[NewlineAt(rest)] == NEWLINE;
  }

  lemma {:induction false} RoomyIfAllFits(s: Bytes, n: nat, chunks: seq<Bytes>, size: nat)
    requires n <= Count(s) && |AfterLines(s, n)| + |Flatten(chunks)| + 1 < size
    ensures Roomy(s, n, chunks, size)
    decreases |chunks|
  {
    if chunks != [] {
      var t := s + chunks[0];
      CountConcat(s, chunks[0]);
      AfterLinesConcat(s, n, chunks[0]);
      if chunks[0] == [] {
        RoomyIfAllFits(s, n, chunks[1..], size);
      } else if Count(t) > n {
        AfterOneMore(t, n);
        RoomyIfAllFits(t, n + 1, chunks[1..], size);
      } else {
        RoomyIfAllFits(t, n, chunks[1..], size);
      }
    }
  }

  /** Two lines in one read: the second waits for a read that may never come. */
  lemma TwoLinesOneRead()
    ensures Session([], [[65, NEWLINE, 66, NEWLINE]], 16) == ([[65]], [66, NEWLINE])
  {
    var all: Bytes := [65, NEWLINE, 66, NEWLINE];
    assert [] + all == all && all[..1] == [65] && all[2..] == [66, NEWLINE];
    FirstNewline(all, 1);
    assert Deliver([], all, 16) == (Line([65]), [66, NEWLINE]);
    assert [all][1..] == [] && [[65]] + [] == [[65]];
    assert Session([66, NEWLINE], [], 16) == ([], [66, NEWLINE]);
  }
}
