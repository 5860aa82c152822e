/** The multiplicative checksum of the write-ahead log. */
module Checksum {
  import opened Bytes

  /** One round: shift left by five, add the old sum and the byte, in 32 bits. */
  function Mix(sum: nat, b: Byte): (r: nat)
    ensures r < U32_LIMIT
  {
    (sum * 33 + b as int) % U32_LIMIT
  }

  function SumFrom(sum: nat, data: Bytes): (r: nat)
    decreases |data|
  {
    if data == [] then sum else SumFrom(Mix(sum, data[0]), data[1..])
  }

  function Sum(data: Bytes): (r: nat) {
    SumFrom(0, data)
  }

  /** wal_checksum. */
  method WalChecksum(data: Bytes) returns (sum: nat)
    ensures sum == Sum(data) && sum < U32_LIMIT
  {
    sum := 0;
    for i := 0 to |data|
      invariant SumFrom(sum, data[i..]) == Sum(data) && sum < U32_LIMIT
    {
      var shifted := sum * 32 % U32_LIMIT;
      ShiftAdd(sum, data[i]);
      sum := (shifted + sum + data[i] as int) % U32_LIMIT;
      assert data[i..][0] == data[i] && data[i..][1..] == data[i + 1..];
    }
  }

  lemma ShiftAdd(sum: nat, b: Byte)
    requires sum < U32_LIMIT
    ensures (sum * 32 % U32_LIMIT + sum + b as int) % U32_LIMIT == Mix(sum, b)
  {
    var x, q := sum * 32 % U32_LIMIT + sum + b as int, sum * 32 / U32_LIMIT;
    assert sum * 33 + b as int == x + U32_LIMIT * q;
    ModEqual(sum * 33 + b as int, x, q);
  }

  function Pow33(n: nat): (p: nat)
    ensures p >= 1
  {
    if n == 0 then 1 else 33 * Pow33(n - 1)
  }

  /** The checksum of a concatenation: sum(a + b) = sum(a) * 33^|b| + sum(b) modulo 2^32. */
  lemma SumConcat(a: Bytes, b: Bytes)
    ensures Sum(a + b) == (Sum(a) * Pow33(|b|) + Sum(b)) % U32_LIMIT
  {
    hide SumFrom, Pow33;
    SumFromConcat(0, a, b);
    SumFromBound(0, a + b);
    SumFromLinear(Sum(a), b);
    ModSmall(Sum(a + b));
  }

  /** The polynomial in 33 with the bytes as coefficients, the first byte first. */
  function Polynomial(data: Bytes): nat
    decreases |data|
  {
    if data == [] then 0 else data[0] as int * Pow33(|data| - 1) + Polynomial(data[1..])
  }

  /** The sum is the value of that polynomial modulo 2^32. */
  lemma {:induction false} SumIsPolynomial(data: Bytes)
    ensures Sum(data) == Polynomial(data) % U32_LIMIT
    decreases |data|
  {
    if data != [] {
      var b, rest := data[0], data[1..];
      SumIsPolynomial(rest);
      SumConcat([b], rest);
      assert [b] + rest == data && [b][1..] == [];
      assert SumFrom(0, [b]) == SumFrom(Mix(0, b), [b][1..]) == b as int;
      var p := b as int * Pow33(|rest|);
      ModEqual(p + Polynomial(rest), p + Sum(rest), Polynomial(rest) / U32_LIMIT);
    }
  }

  lemma ModSmall(x: nat)
    requires x < U32_LIMIT
    ensures x % U32_LIMIT == x
  {
  }

  lemma {:induction false} SumFromConcat(s: nat, a: Bytes, b: Bytes)
    ensures SumFrom(s, a + b) == SumFrom(SumFrom(s, a), b)
    decreases |a|
  {
    if a == [] {
      assert a + b == b;
    } else {
      assert (a + b)[1..] == a[1..] + b;
      SumFromConcat(Mix(s, a[0]), a[1..], b);
    }
  }

  lemma {:induction false} SumFromLinear(s: nat, b: Bytes)
    ensures SumFrom(s, b) % U32_LIMIT == (s * Pow33(|b|) + Sum(b)) % U32_LIMIT
    decreases |b|
  {
    if b != [] {
      var t, z, p := Mix(s, b[0]), Mix(0, b[0]), Pow33(|b| - 1);
      SumFromLinear(t, b[1..]);
      SumFromLinear(z, b[1..]);
      var q, q0 := (s * 33 + b[0] as int) / U32_LIMIT, b[0] as int / U32_LIMIT;
      var rest := Sum(b[1..]);
      // t * p + rest and s * 33 * p + (z * p + rest) differ by a multiple of 2^32
      assert t == s * 33 + b[0] as int - U32_LIMIT * q;
      assert z == b[0] as int;
      CongruentSums(s, p, q, z, rest, t, Sum(b));
    }
  }

  lemma CongruentSums(s: nat, p: nat, q: nat, z: nat, rest: nat, t: nat, whole: nat)
    requires t == s * 33 + z - U32_LIMIT * q
    requires whole % U32_LIMIT == (z * p + rest) % U32_LIMIT
    ensures (t * p + rest) % U32_LIMIT == (s * (33 * p) + whole) % U32_LIMIT
  {
    var k := (z * p + rest) / U32_LIMIT - whole / U32_LIMIT;
    assert z * p + rest == whole + U32_LIMIT * k;
    assert t * p == s * (33 * p) + z * p - U32_LIMIT * (q * p);
    assert s * (33 * p) + whole == t * p + rest + U32_LIMIT * (q * p - k);
    ModEqual(s * (33 * p) + whole, t * p + rest, q * p - k);
  }

  lemma ModEqual(x: int, y: int, k: int)
    requires x == y + U32_LIMIT * k
    ensures x % U32_LIMIT == y % U32_LIMIT
  {
  }

  /** 33 is odd, so a round never merges two different sums. */
  lemma MixInjective(x: nat, y: nat, b: Byte)
    requires x < U32_LIMIT && y < U32_LIMIT && Mix(x, b) == Mix(y, b)
    ensures x == y
  {
  }

  lemma {:induction false} SumFromInjective(x: nat, y: nat, data: Bytes)
    requires x < U32_LIMIT && y < U32_LIMIT && x != y
    ensures SumFrom(x, data) != SumFrom(y, data)
    decreases |data|
  {
    if data != [] {
      if Mix(x, data[0]) == Mix(y, data[0]) {
        MixInjective(x, y, data[0]);
      }
      SumFromInjective(Mix(x, data[0]), Mix(y, data[0]), data[1..]);
    }
  }

  lemma {:induction false} SumFromBound(s: nat, data: Bytes)
    requires s < U32_LIMIT
    ensures SumFrom(s, data) < U32_LIMIT
    decreases |data|
  {
    if data != [] {
      SumFromBound(Mix(s, data[0]), data[1..]);
    }
  }

  /** Changing any single byte of data of any length changes its checksum. */
  lemma SingleByteDetected(data: Bytes, i: nat, b: Byte)
    requires i < |data| && b != data[i]
    ensures Sum(data[i := b]) != Sum(data)
  {
    var pre, post := data[..i], data[i + 1..];
    var s := Sum(pre);
    SumFromBound(0, pre);
    assert data == pre + ([data[i]] + post) && data[i := b] == pre + ([b] + post);
    SumFromConcat(0, pre, [data[i]] + post);
    SumFromConcat(0, pre, [b] + post);
    assert ([data[i]] + post)[1..] == post && ([b] + post)[1..] == post;
    DifferentBytes(s, data[i], b);
    SumFromInjective(Mix(s, data[i]), Mix(s, b), post);
  }

  lemma DifferentBytes(s: nat, a: Byte, b: Byte)
    requires a != b
    ensures Mix(s, a) != Mix(s, b)
  {
  }
}
