/** Bytes, fixed-width integers and byte files, as the storage code lays them out. */
module Bytes {

  type Byte = b: int | 0 <= b < 256
  type Bytes = seq<Byte>

  const PAGE_SIZE := 4096
  const U16_LIMIT := 0x1_0000
  const U32_LIMIT := 0x1_0000_0000
  const U64_LIMIT := 0x1_0000_0000_0000_0000

  function Zeros(n: nat): (z: Bytes)
    ensures |z| == n
    ensures forall i :: 0 <= i < n ==> z[i] == 0
  {
    seq(n, _ => 0)
  }

  /** A string as C sees it: nothing before its terminator is zero. */
  predicate NulFree(s: Bytes) {
    forall i :: 0 <= i < |s| ==> s[i] != 0
  }

  // ----- Big-endian integers: node headers, cell pointers and cell sizes -----

  function BE16(v: nat): (s: Bytes)
    requires v < U16_LIMIT
    ensures |s| == 2 && ReadBE16(s, 0) == v
  {
    [v / 256, v % 256]
  }

  function ReadBE16(s: Bytes, o: nat): (v: nat)
    requires o + 2 <= |s|
    ensures v < U16_LIMIT
  {
    s[o] as int * 256 + s[o + 1] as int
  }

  function BE32(v: nat): (s: Bytes)
    requires v < U32_LIMIT
    ensures |s| == 4 && ReadBE32(s, 0) == v
  {
    BE16(v / U16_LIMIT) + BE16(v % U16_LIMIT)
  }

  function ReadBE32(s: Bytes, o: nat): (v: nat)
    requires o + 4 <= |s|
    ensures v < U32_LIMIT
  {
    ReadBE16(s, o) * U16_LIMIT + ReadBE16(s, o + 2)
  }

  // ----- Little-endian integers: everything stored through a C pointer cast -----

  function LE16(v: nat): (s: Bytes)
    requires v < U16_LIMIT
    ensures |s| == 2 && ReadLE16(s, 0) == v
  {
    [v % 256, v / 256]
  }

  function ReadLE16(s: Bytes, o: nat): (v: nat)
    requires o + 2 <= |s|
    ensures v < U16_LIMIT
  {
    s[o] as int + s[o + 1] as int * 256
  }

  function LE32(v: nat): (s: Bytes)
    requires v < U32_LIMIT
    ensures |s| == 4 && ReadLE32(s, 0) == v
  {
    LE16(v % U16_LIMIT) + LE16(v / U16_LIMIT)
  }

  function ReadLE32(s: Bytes, o: nat): (v: nat)
    requires o + 4 <= |s|
    ensures v < U32_LIMIT
  {
    ReadLE16(s, o) + ReadLE16(s, o + 2) * U16_LIMIT
  }

  function LE64(v: nat): (s: Bytes)
    requires v < U64_LIMIT
    ensures |s| == 8 && ReadLE64(s, 0) == v
  {
    LE32(v % U32_LIMIT) + LE32(v / U32_LIMIT)
  }

  function ReadLE64(s: Bytes, o: nat): (v: nat)
    requires o + 8 <= |s|
    ensures v < U64_LIMIT
  {
    ReadLE32(s, o) + ReadLE32(s, o + 4) * U32_LIMIT
  }

  /** The most significant byte comes first in a big-endian number and last in a little-endian one. */
  lemma ByteOrder(a: Byte, b: Byte, c: Byte, d: Byte)
    ensures ReadBE16([a, b], 0) == ReadLE16([b, a], 0) == 256 * a as int + b as int
    ensures ReadBE32([a, b, c, d], 0) == ReadLE32([d, c, b, a], 0)
    ensures ReadLE32([d, c, b, a], 0) == 0x100_0000 * a as int + 0x1_0000 * b as int + 256 * c as int + d as int
    ensures ReadLE64([d, c, b, a, 0, 0, 0, 0], 0) == ReadLE32([d, c, b, a], 0)
  {
  }

  lemma TwoInjective(s: Bytes, t: Bytes, o: nat)
    requires o + 2 <= |s| && o + 2 <= |t| && ReadLE16(s, o) == ReadLE16(t, o)
    ensures s[o] == t[o] && s[o + 1] == t[o + 1]
  {
  }

  lemma FourInjective(s: Bytes, t: Bytes)
    requires |s| == 4 && |t| == 4 && ReadLE32(s, 0) == ReadLE32(t, 0)
    ensures s == t
  {
    hide ReadLE16;
    assert ReadLE16(s, 0) == ReadLE16(t, 0) && ReadLE16(s, 2) == ReadLE16(t, 2);
    TwoInjective(s, t, 0);
    TwoInjective(s, t, 2);
  }

  // ----- Overwriting part of a byte string -----

  /** memcpy of t into s at offset o. */
  function Splice(s: Bytes, o: nat, t: Bytes): (r: Bytes)
    requires o + |t| <= |s|
    ensures |r| == |s|
    ensures forall i :: 0 <= i < |s| ==> r[i] == if o <= i < o + |t| then t[i - o] else s[i]
    ensures r[o..o + |t|] == t
  {
    s[..o] + t + s[o + |t|..]
  }

  /** lseek to o and write t: a gap past the end of the file is filled with zeros. */
  function WriteAt(f: Bytes, o: nat, t: Bytes): (r: Bytes)
    ensures |r| == if t == [] || o + |t| <= |f| then |f| else o + |t|
    ensures forall i :: 0 <= i < |r| ==>
      r[i] == if o <= i < o + |t| then t[i - o] else if i < |f| then f[i] else 0
  {
    if t == [] then f
    else if o + |t| <= |f| then f[..o] + t + f[o + |t|..]
    else if o <= |f| then f[..o] + t
    else f + Zeros(o - |f|) + t
  }

  /** ftruncate: cut, or extend with zeros. */
  function Truncate(f: Bytes, n: nat): (r: Bytes)
    ensures |r| == n
    ensures forall i :: 0 <= i < n ==> r[i] == if i < |f| then f[i] else 0
  {
    if n <= |f| then f[..n] else f + Zeros(n - |f|)
  }

  // ----- Pages of a file -----

  ghost predicate InFile(f: Bytes, p: nat) {
    (p + 1) * PAGE_SIZE <= |f|
  }

  function PageAt(f: Bytes, p: nat): (d: Bytes)
    requires InFile(f, p)
    ensures |d| == PAGE_SIZE
  {
    f[p * PAGE_SIZE..(p + 1) * PAGE_SIZE]
  }

  /** Writing at most one page's worth of bytes at page p leaves every other page alone. */
  lemma WriteKeepsOthers(f: Bytes, p: nat, t: Bytes, q: nat)
    requires |t| <= PAGE_SIZE && q != p && InFile(f, q)
    ensures InFile(WriteAt(f, p * PAGE_SIZE, t), q)
    ensures PageAt(WriteAt(f, p * PAGE_SIZE, t), q) == PageAt(f, q)
  {
  }

  lemma WriteSetsPage(f: Bytes, p: nat, t: Bytes)
    requires |t| == PAGE_SIZE
    ensures InFile(WriteAt(f, p * PAGE_SIZE, t), p)
    ensures PageAt(WriteAt(f, p * PAGE_SIZE, t), p) == t
  {
  }

  // ----- The order of byte strings -----

  /** memcmp on the first n bytes of both; callers use only the sign. */
  function MemCmp(a: Bytes, b: Bytes, n: nat): int
    requires n <= |a| && n <= |b|
    decreases n
  {
    if n == 0 then 0 else if a[0] != b[0] then a[0] as int - b[0] as int else MemCmp(a[1..], b[1..], n - 1)
  }

  function CompareBytes(a: Bytes, b: Bytes): int {
    var c := MemCmp(a, b, if |a| < |b| then |a| else |b|);
    if c != 0 then c else if |a| < |b| then -1 else if |a| > |b| then 1 else 0
  }

  /** The first place where two byte strings part, or the end of one of them. */
  ghost predicate PartAt(a: Bytes, b: Bytes, k: nat) {
    && k <= |a| && k <= |b| && (forall i :: 0 <= i < k ==> a[i] == b[i])
    && (k < |a| && k < |b| ==> a[k] != b[k])
  }

  /** Dictionary order: smaller at the first difference, or a proper prefix. */
  ghost predicate BytesBefore(a: Bytes, b: Bytes) {
    exists k: nat :: PartAt(a, b, k) && k < |b| && (k == |a| || a[k] < b[k])
  }

  lemma {:induction false} MemCmpFinds(a: Bytes, b: Bytes, n: nat) returns (k: nat)
    requires n <= |a| && n <= |b|
    ensures k <= n && forall i :: 0 <= i < k ==> a[i] == b[i]
    ensures k < n ==> a[k] != b[k]
    ensures MemCmp(a, b, n) == if k < n then a[k] as int - b[k] as int else 0
    decreases n
  {
    if n == 0 || a[0] != b[0] {
      k := 0;
    } else {
      k := MemCmpFinds(a[1..], b[1..], n - 1);
      assert forall i :: 1 <= i < k + 1 ==> a[i] == a[1..][i - 1] && b[i] == b[1..][i - 1];
      k := k + 1;
    }
  }

  lemma CompareBytesIsOrder(a: Bytes, b: Bytes)
    ensures CompareBytes(a, b) < 0 <==> BytesBefore(a, b)
    ensures CompareBytes(a, b) > 0 <==> BytesBefore(b, a)
    ensures CompareBytes(a, b) == 0 <==> a == b
  {
    var k := MemCmpFinds(a, b, if |a| < |b| then |a| else |b|);
    assert PartAt(a, b, k) && PartAt(b, a, k);
    if BytesBefore(a, b) {
      var j: nat :| PartAt(a, b, j) && j < |b| && (j == |a| || a[j] < b[j]);
      assert j == k;
    }
    if BytesBefore(b, a) {
      var j: nat :| PartAt(b, a, j) && j < |a| && (j == |b| || b[j] < a[j]);
      assert j == k;
    }
    if k == |a| == |b| {
      assert a[..k] == a && b[..k] == b;
    }
  }

  lemma BytesBeforeTransitive(a: Bytes, b: Bytes, c: Bytes)
    requires BytesBefore(a, b) && BytesBefore(b, c)
    ensures BytesBefore(a, c)
  {
  }
}
