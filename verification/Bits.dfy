// Fixed-width integers and the C++ bit operators on them.
//
// A word is a mathematical integer in range. The operators are defined bit by
// bit, so that the shift-and-mask expressions of the encoders can be written
// as they stand and their positional meaning proved by induction.
module Bits {

  const M32: int := 0x1_0000_0000
  const M64: int := 0x1_0000_0000_0000_0000

  type u8 = x: int | 0 <= x < 0x100
  type u16 = x: int | 0 <= x < 0x1_0000
  type u32 = x: int | 0 <= x < 0x1_0000_0000
  type u64 = x: int | 0 <= x < 0x1_0000_0000_0000_0000
  type i16 = x: int | -0x8000 <= x < 0x8000
  type i32 = x: int | -0x8000_0000 <= x < 0x8000_0000

  /** The value of a 64-bit result: all 64-bit arithmetic wraps. */
  function Wrap(x: int): (r: u64) {
    x % M64
  }

  function Wrap32(x: int): (r: u32) {
    x % M32
  }

  /** static_cast<int16_t> of an unsigned halfword. */
  function Signed16(x: u16): (r: i16)
    ensures r % 0x1_0000 == x
  {
    if x < 0x8000 then x else x - 0x1_0000
  }

  function Pow2(n: nat): (p: nat)
    ensures p > 0
  {
    if n == 0 then 1 else 2 * Pow2(n - 1)
  }

  function And(x: nat, y: nat): nat
    decreases x
  {
    if x == 0 then 0 else 2 * And(x / 2, y / 2) + (if x % 2 == 1 && y % 2 == 1 then 1 else 0)
  }

  function Or(x: nat, y: nat): nat
    decreases x + y
  {
    if x == 0 && y == 0 then 0
    else 2 * Or(x / 2, y / 2) + (if x % 2 == 1 || y % 2 == 1 then 1 else 0)
  }

  function Xor(x: nat, y: nat): nat
    decreases x + y
  {
    if x == 0 && y == 0 then 0
    else 2 * Xor(x / 2, y / 2) + (if x % 2 != y % 2 then 1 else 0)
  }

  /** x << k on uint32_t, one bit at a time. */
  function Shl32(x: nat, k: nat): (r: u32)
    decreases k
  {
    if k == 0 then x % M32 else Shl32(2 * x, k - 1)
  }

  /** x >> k on an unsigned word. */
  function Shr(x: nat, k: nat): nat
    decreases k
  {
    if k == 0 then x else Shr(x / 2, k - 1)
  }

  lemma {:induction false} ShlIs(x: nat, k: nat, p: nat)
    requires p == Pow2(k)
    ensures Shl32(x, k) == x * p % M32
    decreases k
  {
    if k > 0 {
      ShlIs(2 * x, k - 1, p / 2);
      assert 2 * x * (p / 2) == x * p;
    }
  }

  lemma {:induction false} ShrIs(x: nat, k: nat, p: nat)
    requires p == Pow2(k)
    ensures Shr(x, k) == x / p
    decreases k
  {
    if k > 0 {
      ShrIs(x / 2, k - 1, p / 2);
      HalfOfQuotient(x, p / 2);
    }
  }

  lemma Powers()
    ensures Pow2(0) == 1 && Pow2(1) == 2 && Pow2(2) == 4 && Pow2(3) == 8 && Pow2(5) == 32 && Pow2(6) == 64
    ensures Pow2(8) == 0x100 && Pow2(10) == 0x400 && Pow2(11) == 0x800 && Pow2(13) == 0x2000
    ensures Pow2(14) == 0x4000 && Pow2(15) == 0x8000 && Pow2(16) == 0x1_0000 && Pow2(21) == 0x20_0000
    ensures Pow2(24) == 0x100_0000 && Pow2(25) == 0x200_0000 && Pow2(26) == 0x400_0000
    ensures Pow2(32) == M32 && Pow2(48) == 0x1_0000_0000_0000 && Pow2(64) == M64
  {
    assert Pow2(8) == 0x100;
    assert Pow2(16) == 0x1_0000 by { PowSum(8, 8); }
    assert Pow2(24) == 0x100_0000 by { PowSum(8, 16); }
    assert Pow2(32) == M32 by { PowSum(16, 16); }
    assert Pow2(48) == 0x1_0000_0000_0000 by { PowSum(16, 32); }
    assert Pow2(64) == M64 by { PowSum(32, 32); }
  }

  lemma PowSum(a: nat, b: nat)
    ensures Pow2(a + b) == Pow2(a) * Pow2(b)
  {
    if a == 0 {
    } else {
      PowSum(a - 1, b);
      assert Pow2(a + b) == 2 * Pow2(a - 1 + b);
    }
  }

  lemma HalfOfQuotient(x: nat, p: nat)
    requires p > 0
    ensures x / 2 / p == x / (2 * p)
    ensures x % (2 * p) == 2 * (x / 2 % p) + x % 2
  {
    var q, r := x / 2 / p, x / 2 % p;
    assert 2 * p * q == 2 * (p * q);
    QuotientUnique(x, 2 * p, q, 2 * r + x % 2);
  }

  lemma MultipleTooFar(d: int, n: int)
    requires d > 0 && n != 0
    ensures d * n >= d || d * n <= -d
  {
  }

  lemma QuotientUnique(x: int, d: int, q: int, r: int)
    requires d > 0 && 0 <= r < d
    requires x == d * q + r
    ensures x / d == q && x % d == r
  {
    var q' := x / d;
    assert d * (q' - q) == d * q' - d * q;
    if q' != q {
      MultipleTooFar(d, q' - q);
    }
  }

  lemma Multiple(x: int, d: int, k: int)
    requires d > 0 && x == d * k
    ensures x % d == 0 && x / d == k
  {
    QuotientUnique(x, d, k, 0);
  }

  /** x & (2^m - 1) keeps the low m bits. */
  lemma {:induction false} AndMask(x: nat, m: nat, p: nat)
    requires p == Pow2(m)
    ensures And(x, p - 1) == x % p
    decreases m
  {
    if m == 0 {
      AndZero(x);
    } else {
      AndMask(x / 2, m - 1, p / 2);
      AndOdd(x, p / 2 - 1);
      HalfOfQuotient(x, p / 2);
    }
  }

  lemma AndOdd(x: nat, y: nat)
    ensures And(x, 2 * y + 1) == 2 * And(x / 2, y) + x % 2
    ensures And(x, 2 * y) == 2 * And(x / 2, y)
  {
    assert (2 * y + 1) / 2 == y && 2 * y / 2 == y;
  }

  lemma AndZero(x: nat)
    ensures And(x, 0) == 0
    decreases x
  {
    if x != 0 {
      AndZero(x / 2);
    }
  }

  /** x * 2^k by doubling. */
  function Up(x: nat, k: nat): nat {
    if k == 0 then x else 2 * Up(x, k - 1)
  }

  lemma {:induction false} UpIs(x: nat, k: nat, p: nat)
    requires p == Pow2(k)
    ensures Up(x, k) == x * p
  {
    if k > 0 {
      UpIs(x, k - 1, p / 2);
      assert x * p == 2 * (x * (p / 2));
    }
  }

  lemma {:induction false} AndUp(z: nat, y: nat, k: nat, low: nat)
    requires low < Pow2(k)
    ensures And(Up(z, k) + low, Up(y, k)) == Up(And(z, y), k)
  {
    if k > 0 {
      var a, b := Up(z, k - 1) + low / 2, Up(y, k - 1);
      AndUp(z, y, k - 1, low / 2);
      AndOdd(2 * a + low % 2, b);
      assert (2 * a + low % 2) / 2 == a;
    }
  }

  /** & with a shifted mask ignores the bits below the mask. */
  lemma {:induction false} AndShift(z: nat, y: nat, k: nat, p: nat, low: nat)
    requires p == Pow2(k) && low < p
    ensures z * p >= 0 && y * p >= 0
    ensures And(z * p + low, y * p) == And(z, y) * p
  {
    UpIs(z, k, p);
    UpIs(y, k, p);
    UpIs(And(z, y), k, p);
    AndUp(z, y, k, low);
  }

  lemma OrZero(x: nat)
    ensures Or(x, 0) == x && Or(0, x) == x
    decreases x
  {
    if x != 0 {
      OrZero(x / 2);
    }
  }

  /** | of a multiple of 2^k and a value below 2^k is their sum. */
  lemma {:induction false} OrField(h: nat, k: nat, p: nat, y: nat)
    requires p == Pow2(k) && y < p
    ensures Or(h * p, y) == h * p + y
    decreases k
  {
    if k == 0 {
      OrZero(h);
    } else {
      var x := h * (p / 2);
      assert h * p == 2 * x;
      OrField(h, k - 1, p / 2, y / 2);
      assert Or(2 * x, y) == 2 * Or(x, y / 2) + y % 2;
    }
  }

  /** The same, with the multiple given as a word whose low bits are 0. */
  lemma {:induction false} OrLow(x: nat, k: nat, p: nat, y: nat)
    requires p == Pow2(k) && y < p && x % p == 0
    ensures Or(x, y) == x + y
  {
    hide Or, Pow2;
    OrField(x / p, k, p, y);
    assert x / p * p == x;
  }

  /** Flipping the sign bit adds or subtracts it. */
  lemma XorSign(v: nat, w: nat)
    requires v < Pow2(w + 1)
    ensures Xor(v, Pow2(w)) == if v < Pow2(w) then v + Pow2(w) else v - Pow2(w)
    decreases w
  {
    if w == 0 {
      assert Xor(0, 0) == 0;
      assert v == 0 || v == 1;
      assert Xor(v, 1) == 2 * Xor(v / 2, 0) + (if v % 2 != 1 then 1 else 0);
    } else {
      XorSign(v / 2, w - 1);
      assert Pow2(w) / 2 == Pow2(w - 1);
    }
  }
}
