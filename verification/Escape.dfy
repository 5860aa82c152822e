/** Escaping and unescaping of strings on the wire. */
module Escape {
  import opened Bytes

  const TAB: Byte := 9
  const NEWLINE: Byte := 10
  const ZERO: Byte := 48
  const BACKSLASH: Byte := 92
  const LETTER_N: Byte := 110
  const LETTER_T: Byte := 116

  // ----- Specification -----

  function EscapeByte(c: Byte): (r: Bytes)
    ensures 1 <= |r| <= 2
    ensures TAB !in r && NEWLINE !in r
    ensures c != 0 ==> NulFree(r)
  {
    if c == TAB then [BACKSLASH, LETTER_T]
    else if c == NEWLINE then [BACKSLASH, LETTER_N]
    else if c == BACKSLASH then [BACKSLASH, BACKSLASH]
    else [c]
  }

  function Escaped(s: Bytes): (r: Bytes)
    decreases |s|
  {
    if s == [] then [] else EscapeByte(s[0]) + Escaped(s[1..])
  }

  function UnescapeByte(c: Byte): Byte {
    if c == LETTER_T then TAB else if c == LETTER_N then NEWLINE else if c == ZERO then 0 else c
  }

  function Unescaped(s: Bytes): (r: Bytes)
    decreases |s|
  {
    if s == [] then []
    else if s[0] == BACKSLASH && |s| > 1 then [UnescapeByte(s[1])] + Unescaped(s[2..])
    else [s[0]] + Unescaped(s[1..])
  }

  /** How many bytes of s are escaped into a buffer of the given size when j bytes are used. */
  function Consumed(s: Bytes, j: nat, size: nat): (m: nat)
    ensures m <= |s|
    decreases |s|
  {
    if s == [] || j + 2 >= size then 0 else 1 + Consumed(s[1..], j + |EscapeByte(s[0])|, size)
  }

  // ----- The loops -----

  /** protocol_escape_string.  The source bytes end before the terminating NUL. */
  method EscapeString(src: Bytes, dst: array<Byte>) returns (j: nat)
    requires NulFree(src)
    modifies dst
    ensures dst.Length == 0 ==> j == 0
    ensures dst.Length > 0 ==>
      j < dst.Length && dst[j] == 0 && dst[..j] == Escaped(src[..Consumed(src, 0, dst.Length)])
    ensures forall k :: j < k < dst.Length ==> dst[k] == old(dst[k])
  {
    hide Escaped, Consumed, EscapeByte;
    j := 0;
    if dst.Length == 0 {
      return;
    }
    var i := 0;
    EscapeStart(src);
    while i < |src| && j + 2 < dst.Length
      invariant i <= |src| && j < dst.Length
      invariant dst[..j] == Escaped(src[..i])
      invariant Consumed(src, 0, dst.Length) == i + Consumed(src[i..], j, dst.Length)
      invariant forall k :: j <= k < dst.Length ==> dst[k] == old(dst[k])
    {
      EscapeStep(src, i, j, dst.Length);
      j := PutEscaped(dst, j, src[i]);
      i := i + 1;
    }
    EscapeStop(src, i, j, dst.Length);
    dst[j] := 0;
  }

  lemma EscapeStart(src: Bytes)
    ensures src[0..] == src && Escaped(src[..0]) == []
  {
  }

  lemma EscapeStep(src: Bytes, i: nat, j: nat, size: nat)
    requires i < |src| && j + 2 < size
    ensures Escaped(src[..i + 1]) == Escaped(src[..i]) + EscapeByte(src[i])
    ensures Consumed(src[i..], j, size) == 1 + Consumed(src[i + 1..], j + |EscapeByte(src[i])|, size)
  {
    EscapedSnoc(src[..i], src[i]);
    assert src[..i + 1] == src[..i] + [src[i]];
    assert src[i..][1..] == src[i + 1..];
  }

  lemma EscapeStop(src: Bytes, i: nat, j: nat, size: nat)
    requires i <= |src| && (i == |src| || j + 2 >= size)
    ensures Consumed(src[i..], j, size) == 0
  {
  }

  /** The switch of protocol_escape_string. */
  method PutEscaped(dst: array<Byte>, j: nat, c: Byte) returns (next: nat)
    requires j + 2 < dst.Length
    modifies dst
    ensures next == j + |EscapeByte(c)|
    ensures dst[..next] == old(dst[..j]) + EscapeByte(c)
    ensures forall k :: next <= k < dst.Length ==> dst[k] == old(dst[k])
  {
    if c == TAB {
      dst[j], dst[j + 1] := BACKSLASH, LETTER_T;
      next := j + 2;
    } else if c == NEWLINE {
      dst[j], dst[j + 1] := BACKSLASH, LETTER_N;
      next := j + 2;
    } else if c == BACKSLASH {
      dst[j], dst[j + 1] := BACKSLASH, BACKSLASH;
      next := j + 2;
    } else {
      dst[j] := c;
      next := j + 1;
    }
  }

  /** protocol_unescape_string: at most one byte less than the buffer holds. */
  method UnescapeString(src: Bytes, dst: array<Byte>) returns (j: nat)
    requires NulFree(src)
    modifies dst
    ensures dst.Length == 0 ==> j == 0
    ensures dst.Length > 0 ==>
      && j == (if |Unescaped(src)| < dst.Length then |Unescaped(src)| else dst.Length - 1)
      && dst[j] == 0 && dst[..j] == Unescaped(src)[..j]
    ensures forall k :: j < k < dst.Length ==> dst[k] == old(dst[k])
  {
    hide Unescaped;
    j := 0;
    if dst.Length == 0 {
      return;
    }
    var i := 0;
    assert src[0..] == src;
    while i < |src| && j < dst.Length - 1
      invariant i <= |src| && j < dst.Length
      invariant Unescaped(src) == dst[..j] + Unescaped(src[i..])
      invariant forall k :: j <= k < dst.Length ==> dst[k] == old(dst[k])
    {
      UnescapeStep(src, i, dst[..j]);
      if src[i] == BACKSLASH && i + 1 < |src| {
        i := i + 1;
        dst[j] := UnescapeByte(src[i]);
      } else {
        dst[j] := src[i];
      }
      j := j + 1;
      i := i + 1;
    }
    UnescapeStop(src);
    dst[j] := 0;
  }

  lemma UnescapeStep(src: Bytes, i: nat, done: Bytes)
    requires i < |src|
    ensures var pair := src[i] == BACKSLASH && i + 1 < |src|;
      done + Unescaped(src[i..]) ==
        (if pair then (done + [UnescapeByte(src[i + 1])]) + Unescaped(src[i + 2..])
        else (done + [src[i]]) + Unescaped(src[i + 1..]))
  {
  }

  lemma UnescapeStop(src: Bytes)
    ensures Unescaped(src[|src|..]) == []
  {
  }

  lemma {:induction false} EscapedSnoc(s: Bytes, c: Byte)
    ensures Escaped(s + [c]) == Escaped(s) + EscapeByte(c)
    decreases |s|
  {
    if s == [] {
      assert s + [c] == [c];
    } else {
      assert (s + [c])[1..] == s[1..] + [c];
      EscapedSnoc(s[1..], c);
    }
  }

  // ----- What they promise -----

  /** Escaped text holds no raw tab, newline or NUL. */
  lemma {:induction false} EscapedIsClean(s: Bytes)
    requires NulFree(s)
    ensures TAB !in Escaped(s) && NEWLINE !in Escaped(s) && NulFree(Escaped(s))
    decreases |s|
  {
    if s != [] {
      EscapedIsClean(s[1..]);
    }
  }

  lemma UnescapeUnit(c: Byte, rest: Bytes)
    ensures Unescaped(EscapeByte(c) + rest) == [c] + Unescaped(rest)
  {
    var unit := EscapeByte(c);
    assert (unit + rest)[|unit|..] == rest;
  }

  /** Unescaping undoes escaping. */
  lemma {:induction false} UnescapeEscaped(s: Bytes)
    ensures Unescaped(Escaped(s)) == s
    decreases |s|
  {
    hide Unescaped, EscapeByte;
    if s == [] {
      UnescapeStop([]);
    } else {
      UnescapeUnit(s[0], Escaped(s[1..]));
      UnescapeEscaped(s[1..]);
      assert s == [s[0]] + s[1..];
    }
  }

  /** What stands after a backslash: t, n and 0 name a tab, a newline and a NUL, anything else itself; a
      backslash at the very end stands for itself. */
  lemma UnescapeTable(c: Byte, rest: Bytes)
    ensures Unescaped([92, c] + rest) ==
      [if c == 116 then 9 else if c == 110 then 10 else if c == 48 then 0 else c] + Unescaped(rest)
    ensures Unescaped([92]) == [92]
    ensures c != 92 ==> Unescaped([c] + rest) == [c] + Unescaped(rest)
  {
    assert ([92, c] + rest)[2..] == rest && ([c] + rest)[1..] == rest;
    assert [92][1..] == [];
  }

  /** The whole string is escaped exactly when the buffer has room for two bytes and the
      terminator after everything but the last byte. */
  lemma {:induction false} ConsumedAllIff(s: Bytes, j: nat, size: nat)
    ensures Consumed(s, j, size) == |s| <==> s == [] || j + |Escaped(s[..|s| - 1])| + 2 < size
    decreases |s|
  {
    if |s| > 1 {
      var t, k := s[1..], j + |EscapeByte(s[0])|;
      ConsumedAllIff(t, k, size);
      assert s[..|s| - 1][1..] == t[..|t| - 1];
    } else if |s| == 1 {
      assert s[1..] == [] && s[..0] == [];
    }
  }

  /** For every source string and every pair of buffer sizes: what comes back through both loops is
      a prefix of the original, and all of it exactly when both buffers are large enough. */
  lemma WireRoundTrip(s: Bytes, size1: nat, size2: nat)
    requires size2 > 0
    ensures var sent := Escaped(s[..Consumed(s, 0, size1)]);
      var got := Unescaped(sent)[..if |Unescaped(sent)| < size2 then |Unescaped(sent)| else size2 - 1];
      && got <= s
      && (got == s <==> (s == [] || |Escaped(s[..|s| - 1])| + 2 < size1) && |s| < size2)
  {
    var m := Consumed(s, 0, size1);
    UnescapeEscaped(s[..m]);
    ConsumedAllIff(s, 0, size1);
    if m == |s| {
      assert s[..m] == s;
    }
  }
}
