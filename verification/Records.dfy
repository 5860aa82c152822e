/** Fields of fixed-width records: zero-padded C strings and stored flags, as the schema and
    catalogue serializers write them (src/sql/schema.c, src/sql/catalog.c). */
module Records {

  import opened Bytes

  /** A NUL-terminated string held in a buffer of the given width. */
  predicate CString(s: Bytes, width: nat) {
    |s| < width && NulFree(s)
  }

  /** memset to zero, then strncpy of at most width - 1 characters. */
  function Field(s: Bytes, width: nat): (f: Bytes)
    requires width > 0
    ensures |f| == width
    ensures forall i :: 0 <= i < width ==> f[i] == if i < |s| && i + 1 < width then s[i] else 0
  {
    var n := if |s| < width then |s| else width - 1;
    s[..n] + Zeros(width - n)
  }

  /** strncpy out of a field into a zeroed buffer of the same width. */
  function FieldText(f: Bytes): (s: Bytes)
    ensures |f| > 0 ==> CString(s, |f|)
    // the bytes before the first NUL, or all but the last
    ensures s <= f && (|s| + 1 < |f| ==> f[|s|] == 0)
  {
    if |f| <= 1 || f[0] == 0 then [] else [f[0]] + FieldText(f[1..])
  }

  lemma {:induction false} PaddedText(s: Bytes, n: nat)
    requires NulFree(s) && n > 0
    ensures FieldText(s + Zeros(n)) == s
    decreases |s|
  {
    var f := s + Zeros(n);
    if s != [] {
      PaddedText(s[1..], n);
      assert f[1..] == s[1..] + Zeros(n);
    }
  }

  /** A field gives back the string, cut to one less than the width. */
  lemma FieldRoundTrip(s: Bytes, width: nat)
    requires NulFree(s) && width > 0
    ensures FieldText(Field(s, width)) == if |s| < width then s else s[..width - 1]
  {
    var n := if |s| < width then |s| else width - 1;
    PaddedText(s[..n], width - n);
  }

  function Flag(b: int): (f: nat)
    ensures f <= 1
  {
    if b != 0 then 1 else 0
  }

  lemma StoredWord(s: Bytes, o: nat, v: nat)
    requires o + 4 <= |s| && v < U32_LIMIT && s[o..o + 4] == LE32(v)
    ensures ReadLE32(s, o) == v
  {
  }

  /** Writing the next piece of a record at the running offset. */
  method Put(buf: array<Byte>, offset: nat, piece: Bytes) returns (next: nat)
    requires offset + |piece| <= buf.Length
    modifies buf
    ensures next == offset + |piece|
    ensures buf[..next] == old(buf[..offset]) + piece
    ensures forall i :: next <= i < buf.Length ==> buf[i] == old(buf[i])
  {
    forall i | 0 <= i < |piece| {
      buf[offset + i] := piece[i];
    }
    next := offset + |piece|;
  }
}
