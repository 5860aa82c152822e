/** What a page count reads as when the write that replaces it stops part way. */
module PageCounts {
  import opened Bytes

  /** The new count in the first j of the four bytes and the old one in the rest. */
  function Mixed(m: nat, n: nat, j: nat): nat
    requires m < U32_LIMIT && n < U32_LIMIT && j <= 4
  {
    ReadLE32(LE32(n)[..j] + LE32(m)[j..], 0)
  }

  /** The two counts differ in more than one of their four bytes. */
  predicate Tearable(m: nat, n: nat) {
    m < U32_LIMIT && n < U32_LIMIT &&
    exists i, j :: 0 <= i < j < 4 && LE32(m)[i] != LE32(n)[i] && LE32(m)[j] != LE32(n)[j]
  }

  /** A mixture reads as the old count if no byte before the cut differs, and as the new one if none
      after it does. */
  lemma MixedReads(m: nat, n: nat, j: nat)
    requires m < U32_LIMIT && n < U32_LIMIT && j <= 4
    ensures Mixed(m, n, j) == m <==> forall i :: 0 <= i < j ==> LE32(m)[i] == LE32(n)[i]
    ensures Mixed(m, n, j) == n <==> forall i :: j <= i < 4 ==> LE32(m)[i] == LE32(n)[i]
  {
    hide LE32, ReadLE32;
    var s := LE32(n)[..j] + LE32(m)[j..];
    if ReadLE32(s, 0) == m {
      FourInjective(s, LE32(m));
    }
    if ReadLE32(s, 0) == n {
      FourInjective(s, LE32(n));
    }
    if forall i :: 0 <= i < j ==> LE32(m)[i] == LE32(n)[i] {
      assert s == LE32(m);
    }
    if forall i :: j <= i < 4 ==> LE32(m)[i] == LE32(n)[i] {
      assert s == LE32(n);
    }
  }

  /** Some cut leaves a count that is neither the old nor the new one exactly when the two differ in
      more than one byte. */
  lemma TornIff(m: nat, n: nat)
    requires m < U32_LIMIT && n < U32_LIMIT
    ensures (exists j :: 0 <= j <= 4 && Mixed(m, n, j) != m && Mixed(m, n, j) != n) <==> Tearable(m, n)
  {
    hide LE32, Mixed;
    if Tearable(m, n) {
      var i, j :| 0 <= i < j < 4 && LE32(m)[i] != LE32(n)[i] && LE32(m)[j] != LE32(n)[j];
      MixedReads(m, n, j);
      assert Mixed(m, n, j) != m && Mixed(m, n, j) != n;
    }
    if j :| 0 <= j <= 4 && Mixed(m, n, j) != m && Mixed(m, n, j) != n {
      MixedReads(m, n, j);
    }
  }

  /** The four bytes of a count. */
  lemma Digits(v: nat)
    requires v < U32_LIMIT
    ensures LE32(v) == [v % 256, v / 256 % 256, v / 65536 % 256, v / 16777216]
  {
    var lo, hi := v % U16_LIMIT, v / U16_LIMIT;
    BaseDigits(v, lo % 256, lo / 256, hi % 256, hi / 256);
  }

  lemma BaseDigits(v: nat, a: nat, b: nat, c: nat, d: nat)
    requires a < 256 && b < 256 && c < 256 && v == a + 256 * b + 65536 * c + 16777216 * d
    ensures v % 256 == a && v / 256 % 256 == b && v / 65536 % 256 == c && v / 16777216 == d
  {
    assert v / 256 == b + 256 * c + 65536 * d;
    assert v / 65536 == c + 256 * d;
  }

  /** Counts with the same upper three bytes cannot be torn. */
  lemma TearableCrosses(m: nat, n: nat)
    requires Tearable(m, n)
    ensures m / 256 != n / 256
  {
    hide LE32;
    Digits(m);
    Digits(n);
    if m / 256 == n / 256 {
      Upper(m);
      Upper(n);
    }
  }

  lemma Upper(v: nat)
    ensures v / 65536 == v / 256 / 256 && v / 16777216 == v / 256 / 65536
  {
  }

  /** Counting one page more can be torn exactly when the lowest byte runs over. */
  lemma NextTearableIff(n: nat)
    requires n + 1 < U32_LIMIT
    ensures Tearable(n, n + 1) <==> n % 256 == 255
  {
    hide LE32;
    Digits(n);
    Digits(n + 1);
    if n % 256 == 255 {
      assert (n + 1) / 256 == n / 256 + 1;
      assert LE32(n)[0] != LE32(n + 1)[0] && LE32(n)[1] != LE32(n + 1)[1];
    } else if Tearable(n, n + 1) {
      TearableCrosses(n, n + 1);
    }
  }

  /** With the lowest byte run over, a cut after it loses 255. */
  lemma MixedAtCarry(n: nat)
    requires n + 1 < U32_LIMIT && n % 256 == 255
    ensures Mixed(n, n + 1, 1) == n - 255
  {
    hide Mixed;
    MixedFirst(n, n + 1);
  }

  /** A cut after the first byte. */
  lemma MixedFirst(m: nat, n: nat)
    requires m < U32_LIMIT && n < U32_LIMIT
    ensures Mixed(m, n, 1) == n % 256 + m / 256 * 256
  {
    hide LE32;
    Digits(m);
    Digits(n);
    var s := LE32(n)[..1] + LE32(m)[1..];
    assert s == [n % 256, m / 256 % 256, m / 65536 % 256, m / 16777216];
    Upper(m);
  }

  // ----- The count in the header over a run -----

  /** The pager's page count, the one in the header, and whether that is torn. */
  datatype Counts = Counts(pageCount: nat, stored: nat, torn: bool)

  /** What one operation does to them: the stored count stays or becomes the pager's own, unless it is
      torn, and then the two differed in more than one byte. */
  ghost predicate CountKept(was: Counts, now: Counts) {
    && was.pageCount <= now.pageCount <= was.pageCount + 1
    && (!now.torn ==> now.stored == now.pageCount || (!was.torn && now.stored == was.stored))
    && (now.torn && !was.torn ==> now.pageCount == was.pageCount + 1 && Tearable(was.stored, now.pageCount))
  }

  /** A count that was not torn to begin with is torn only after its upper three bytes have changed. */
  ghost predicate CountSafe(first: nat, now: Counts) {
    && first <= now.pageCount
    && (if now.torn then first / 256 < now.pageCount / 256 else first <= now.stored)
  }

  lemma StaysSafe(first: nat, was: Counts, now: Counts)
    requires CountSafe(first, was) && CountKept(was, now) && (!was.torn ==> was.stored <= was.pageCount)
    ensures CountSafe(first, now)
  {
    hide Tearable;
    if now.torn && !was.torn {
      TearableCrosses(was.stored, now.pageCount);
    }
  }
}
