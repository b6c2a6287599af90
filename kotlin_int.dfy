/**
  Kotlin's 32-bit `Int`, as the decoder uses it.

  A value is an unbounded `int` kept in the signed 32-bit range. Each operator the
  decoder applies is written out with Kotlin's semantics: addition wraps modulo 2^32,
  `shl` and `shr` mask the shift distance to its low five bits, `shr` is the
  arithmetic (sign-propagating) shift, `inv` is the bitwise complement, and `and`/`or`
  act bit by bit on the two's-complement representation.
*/
module KotlinInt {

  const TWO_31: int := 0x8000_0000
  const TWO_32: int := 0x1_0000_0000

  type Int32 = x: int | -0x8000_0000 <= x < 0x8000_0000

  /** What a Kotlin `Int` keeps of the exact value x: x modulo 2^32, read as signed. */
  function Wrap(x: int): (r: Int32)
    ensures -TWO_31 <= x < TWO_31 ==> r == x
  {
    (x + TWO_31) % TWO_32 - TWO_31
  }

  /** The 32 bits of x read as an unsigned number. */
  function Unsigned(x: Int32): (u: nat)
    ensures u < TWO_32
    ensures 0 <= x ==> u == x
  {
    x % TWO_32
  }

  /** Bitwise OR of two naturals. */
  function BitOr(a: nat, b: nat): nat
    decreases a
  {
    if a == 0 then b
    else if b == 0 then a
    else (if a % 2 == 1 || b % 2 == 1 then 1 else 0) + 2 * BitOr(a / 2, b / 2)
  }

  /** Bitwise AND of two naturals. */
  function BitAnd(a: nat, b: nat): nat
    decreases a
  {
    if a == 0 || b == 0 then 0
    else (if a % 2 == 1 && b % 2 == 1 then 1 else 0) + 2 * BitAnd(a / 2, b / 2)
  }

  /** `x + y` on Kotlin `Int`s. */
  function Plus(x: Int32, y: Int32): Int32 {
    Wrap(x + y)
  }

  /** `x or y` */
  function Or(x: Int32, y: Int32): Int32 {
    Wrap(BitOr(Unsigned(x), Unsigned(y)))
  }

  /** `x and y` */
  function And(x: Int32, y: Int32): Int32 {
    Wrap(BitAnd(Unsigned(x), Unsigned(y)))
  }

  /** x doubled k times. */
  function Doubled(x: int, k: nat): (r: int)
    ensures 0 <= x ==> x <= r
  {
    if k == 0 then x else 2 * Doubled(x, k - 1)
  }

  /** x halved k times, each time rounding down. */
  function Halved(x: int, k: nat): (r: int)
    ensures 0 <= x ==> 0 <= r <= x
    ensures x < 0 ==> x <= r < 0
  {
    if k == 0 then x else Halved(x, k - 1) / 2
  }

  /** `x shl n`: only the low five bits of n count, and the bits pushed past bit 31 are lost. */
  function Shl(x: Int32, n: Int32): Int32 {
    Wrap(Doubled(x, n % 32))
  }

  /** `x shr n`: the arithmetic shift, which rounds x / 2^(n and 31) down. */
  function Shr(x: Int32, n: Int32): Int32 {
    Halved(x, n % 32)
  }

  /** `x.inv()`: the bitwise complement, which in two's complement is -x - 1. */
  function Inv(x: Int32): Int32 {
    -1 - x
  }

  /** AND with an odd mask keeps the low bit and goes on with the remaining bits. */
  lemma BitAndOddMask(a: nat, m: nat)
    requires m % 2 == 1
    ensures BitAnd(a, m) == a % 2 + 2 * BitAnd(a / 2, m / 2)
  {
  }

  /** OR of a number below 2^k with a multiple of 2^k is their sum: the bits do not overlap. */
  lemma {:induction false} BitOrDisjoint(a: nat, b: nat, k: nat, q: nat)
    requires a < Doubled(1, k) && b == Doubled(q, k)
    ensures BitOr(a, b) == a + b
  {
    if k > 0 && a != 0 && b != 0 {
      BitOrDisjoint(a / 2, b / 2, k - 1, q);
    }
  }

  /** The unsigned reading of x has the same low five bits as x. */
  lemma UnsignedLowBits(x: Int32)
    ensures Unsigned(x) % 32 == x % 32 && Unsigned(x) % 2 == x % 2
  {
    if x < 0 {
      var q, r := x / 32, x % 32;
      assert x == 32 * q + r;
      assert Unsigned(x) == x + TWO_32 == 32 * (q + TWO_32 / 32) + r;
    }
  }

  /** `x and 0x1F` is the residue of x modulo 32, also for negative x. */
  lemma AndLowFive(x: Int32)
    ensures And(x, 0x1F) == x % 32
  {
    var u := Unsigned(x);
    BitAndOddMask(u, 31);
    BitAndOddMask(u / 2, 15);
    BitAndOddMask(u / 4, 7);
    BitAndOddMask(u / 8, 3);
    BitAndOddMask(u / 16, 1);
    assert u / 2 / 2 == u / 4 && u / 4 / 2 == u / 8 && u / 8 / 2 == u / 16 && u / 16 / 2 == u / 32;
    assert BitAnd(u, 31) == u % 32;
    UnsignedLowBits(x);
  }

  /** `x and 1` is the residue of x modulo 2, also for negative x. */
  lemma AndOne(x: Int32)
    ensures And(x, 1) == x % 2
  {
    BitAndOddMask(Unsigned(x), 1);
    UnsignedLowBits(x);
  }

  /** Or-ing in a non-negative value whose bits lie above those of a leaves both intact. */
  lemma OrDisjoint(a: Int32, b: Int32, k: nat, q: nat)
    requires 0 <= a < Doubled(1, k) && 0 <= b == Doubled(q, k) && a + b < TWO_31
    ensures Or(a, b) == a + b
  {
    BitOrDisjoint(a, b, k, q);
  }

  /** Doubling distributes over addition. */
  lemma {:induction false} DoubledAdd(x: int, y: int, k: nat)
    ensures Doubled(x + y, k) == Doubled(x, k) + Doubled(y, k)
  {
    if k > 0 {
      DoubledAdd(x, y, k - 1);
    }
  }

  /** Doubling x once more is doubling 2x. */
  lemma {:induction false} DoubledTwice(x: int, k: nat)
    ensures Doubled(2 * x, k) == Doubled(x, k + 1)
  {
    if k > 0 {
      DoubledTwice(x, k - 1);
    }
  }

  /** Doubling keeps order. */
  lemma {:induction false} DoubledMonotone(x: int, y: int, k: nat)
    requires x <= y
    ensures Doubled(x, k) <= Doubled(y, k)
  {
    if k > 0 {
      DoubledMonotone(x, y, k - 1);
    }
  }

  /** 0 stays 0. */
  lemma DoubledZero(k: nat)
    ensures Doubled(0, k) == 0
  {
    DoubledAdd(0, 0, k);
  }

  /** Doubling 32x is doubling x five more times: a shift by one chunk of five bits. */
  lemma DoubledBy32(x: int, k: nat)
    ensures Doubled(32 * x, k) == Doubled(x, k + 5)
  {
    DoubledTwice(16 * x, k);
    DoubledTwice(8 * x, k + 1);
    DoubledTwice(4 * x, k + 2);
    DoubledTwice(2 * x, k + 3);
    DoubledTwice(x, k + 4);
  }

  /** A positive number doubled 31 times or more is at least 2^31. */
  lemma {:induction false} DoubledPast31(x: int, k: nat)
    requires 1 <= x && 31 <= k
    ensures TWO_31 <= Doubled(x, k)
  {
    if k == 31 {
      DoubledMonotone(1, x, 31);
      TwoToThe31();
    } else {
      DoubledPast31(x, k - 1);
    }
  }

  lemma TwoToThe31()
    ensures Doubled(1, 31) == TWO_31
  {
    assert Doubled(1, 1) == 0x2;
    assert Doubled(1, 2) == 0x4;
    assert Doubled(1, 3) == 0x8;
    assert Doubled(1, 4) == 0x10;
    assert Doubled(1, 5) == 0x20;
    assert Doubled(1, 6) == 0x40;
    assert Doubled(1, 7) == 0x80;
    assert Doubled(1, 8) == 0x100;
    assert Doubled(1, 9) == 0x200;
    assert Doubled(1, 10) == 0x400;
    assert Doubled(1, 11) == 0x800;
    assert Doubled(1, 12) == 0x1000;
    assert Doubled(1, 13) == 0x2000;
    assert Doubled(1, 14) == 0x4000;
    assert Doubled(1, 15) == 0x8000;
    assert Doubled(1, 16) == 0x10000;
    assert Doubled(1, 17) == 0x20000;
    assert Doubled(1, 18) == 0x40000;
    assert Doubled(1, 19) == 0x80000;
    assert Doubled(1, 20) == 0x100000;
    assert Doubled(1, 21) == 0x200000;
    assert Doubled(1, 22) == 0x400000;
    assert Doubled(1, 23) == 0x800000;
    assert Doubled(1, 24) == 0x1000000;
    assert Doubled(1, 25) == 0x2000000;
    assert Doubled(1, 26) == 0x4000000;
    assert Doubled(1, 27) == 0x8000000;
    assert Doubled(1, 28) == 0x10000000;
    assert Doubled(1, 29) == 0x20000000;
    assert Doubled(1, 30) == 0x40000000;
    assert Doubled(1, 31) == 0x80000000;
  }

  /** A shift by at most 30 whose doubled value still fits in an `Int` is exact doubling. */
  lemma ShlExact(x: Int32, n: Int32)
    requires 0 <= n <= 30 && -TWO_31 <= Doubled(x, n) < TWO_31
    ensures Shl(x, n) == Doubled(x, n)
  {
    assert n % 32 == n;
  }

  lemma OrZero(x: Int32)
    ensures Or(x, 0) == x
  {
  }
}
