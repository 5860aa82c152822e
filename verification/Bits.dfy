/** Bitwise operators on numbers, and what they mean arithmetically. */
module Bits {
  import opened Bytes

  function Pow2(n: nat): (p: nat)
    ensures p > 0
  {
    if n == 0 then 1 else 2 * Pow2(n - 1)
  }

  ghost predicate PowerOfTwo(n: nat) {
    exists k :: IsPow2(n, k)
  }

  ghost predicate IsPow2(n: nat, k: nat) {
    n == Pow2(k)
  }

  /** Bitwise and of the low n bits. */
  function BitAnd(a: nat, b: nat, n: nat): nat {
    if n == 0 then 0 else (a % 2) * (b % 2) + 2 * BitAnd(a / 2, b / 2, n - 1)
  }

  /** Masking with a power of two less one is the remainder. */
  lemma {:induction false} MaskIsRemainder(x: nat, k: nat, bits: nat)
    requires x < Pow2(bits)
    ensures BitAnd(x, Pow2(k) - 1, bits) == x % Pow2(k)
    decreases bits
  {
    hide BitAnd;
    if k == 0 {
      AndZero(x, bits);
    } else if bits == 0 {
      AndNoBits(x, Pow2(k) - 1);
      ZeroRemainder(Pow2(k));
    } else {
      MaskIsRemainder(x / 2, k - 1, bits - 1);
      MaskHalves(x, Pow2(k - 1), bits);
    }
  }

  lemma ZeroRemainder(d: nat)
    requires d > 0
    ensures 0 % d == 0
  {
  }

  lemma MaskHalves(x: nat, half: nat, bits: nat)
    requires half > 0 && bits > 0 && BitAnd(x / 2, half - 1, bits - 1) == x / 2 % half
    ensures BitAnd(x, 2 * half - 1, bits) == x % (2 * half)
  {
    assert (2 * half - 1) % 2 == 1 && (2 * half - 1) / 2 == half - 1;
    HalveRemainder(x, half);
  }

  lemma DoubledPower(n: nat)
    requires PowerOfTwo(n)
    ensures PowerOfTwo(n * 2)
  {
    var k: nat :| IsPow2(n, k);
    assert IsPow2(n * 2, k + 1);
  }

  lemma AndNoBits(a: nat, b: nat)
    ensures BitAnd(a, b, 0) == 0
  {
  }

  lemma {:induction false} AndZero(x: nat, bits: nat)
    ensures BitAnd(x, 0, bits) == 0
  {
    if bits > 0 {
      AndZero(x / 2, bits - 1);
    }
  }

  lemma HalveRemainder(x: nat, half: nat)
    requires half > 0
    ensures x % (2 * half) == x % 2 + 2 * (x / 2 % half)
  {
    var q, r := x / 2 / half, x / 2 % half;
    assert x == 2 * (half * q + r) + x % 2;
    assert x == (2 * half) * q + (x % 2 + 2 * r);
    RemainderIs(x, 2 * half, q, x % 2 + 2 * r);
  }

  lemma RemainderIs(x: nat, d: nat, q: nat, r: nat)
    requires d > 0 && r < d && x == d * q + r
    ensures x % d == r
  {
    var k := x / d - q;
    assert d * k == d * (x / d) - d * q == r - x % d;
    SmallMultiple(d, k);
  }

  lemma SmallMultiple(d: nat, k: int)
    requires 0 - d < d * k < d
    ensures k == 0
  {
  }

  /** Bitwise exclusive or of the low n bits. */
  function Xor(a: nat, b: nat, n: nat): (r: nat)
    ensures r < Pow2(n)
  {
    if n == 0 then 0 else (a + b) % 2 + 2 * Xor(a / 2, b / 2, n - 1)
  }

  function Xor32(a: nat, b: nat): (r: nat)
    ensures r < U32_LIMIT
  {
    assert Pow2(8) == 256 && Pow2(16) == 0x1_0000 && Pow2(24) == 0x100_0000 && Pow2(32) == U32_LIMIT;
    Xor(a, b, 32)
  }

  lemma {:induction false} XorInjective(h: nat, a: nat, b: nat, n: nat)
    requires a < Pow2(n) && b < Pow2(n) && Xor(h, a, n) == Xor(h, b, n)
    ensures a == b
  {
    if n > 0 {
      LowBit((h + a) % 2, Xor(h / 2, a / 2, n - 1), (h + b) % 2, Xor(h / 2, b / 2, n - 1));
      SameParity(h, a, b);
      XorInjective(h / 2, a / 2, b / 2, n - 1);
    }
  }

  lemma LowBit(x: nat, u: nat, y: nat, v: nat)
    requires x < 2 && y < 2 && x + 2 * u == y + 2 * v
    ensures x == y && u == v
  {
  }

  lemma SameParity(h: nat, a: nat, b: nat)
    requires (h + a) % 2 == (h + b) % 2
    ensures a % 2 == b % 2
  {
  }

  lemma Xor32Injective(h: nat, a: nat, b: nat)
    requires a < U32_LIMIT && b < U32_LIMIT && Xor32(h, a) == Xor32(h, b)
    ensures a == b
  {
    assert Pow2(8) == 256 && Pow2(16) == 0x1_0000 && Pow2(24) == 0x100_0000 && Pow2(32) == U32_LIMIT;
    XorInjective(h, a, b, 32);
  }

  /** Nothing changes what it is combined with, and everything cancels itself. */
  lemma {:induction false} XorLaws(a: nat, n: nat)
    requires a < Pow2(n)
    ensures Xor(a, 0, n) == a && Xor(a, a, n) == 0
  {
    if n > 0 {
      XorLaws(a / 2, n - 1);
    }
  }

  lemma {:induction false} XorCommutes(a: nat, b: nat, n: nat)
    ensures Xor(a, b, n) == Xor(b, a, n)
  {
    if n > 0 {
      XorCommutes(a / 2, b / 2, n - 1);
    }
  }

  lemma XorDiffers(a: nat, b: nat, x: nat)
    requires a < U32_LIMIT && b < U32_LIMIT && a != b
    ensures Xor32(a, x) != Xor32(b, x)
  {
    hide Xor;
    XorCommutes(a, x, 32);
    XorCommutes(b, x, 32);
    if Xor32(x, a) == Xor32(x, b) {
      Xor32Injective(x, a, b);
    }
  }
}
