// Byte swapping and the Endianed scalar (libelf/include/elf/endian.hpp), on a
// little-endian host.
module Endian {
  import opened Bits
  import opened Bytes

  function ByteSwap16(v: u16): nat {
    Or(Shr(v, 8), Shl32(v, 8)) % 0x1_0000
  }

  function ByteSwap32(v: u32): nat {
    Or(Or(Or(Shl32(And(v, 0xFF), 24), Shl32(And(v, 0xFF00), 8)), Shr(And(v, 0xFF_0000), 8)),
       Shr(And(v, 0xFF00_0000), 24))
  }

  function ByteSwap64(v: u64): nat {
    Or(Up(ByteSwap32(v % M32), 32), ByteSwap32(Wrap32(Shr(v, 32))))
  }

  /** byteswap<T> for T of 2, 4 or 8 bytes. */
  function ByteSwap(v: u64, width: nat): nat
    requires width == 2 || width == 4 || width == 8
    requires v < Pow256(width)
  {
    Powers256();
    if width == 2 then ByteSwap16(v) else if width == 4 then ByteSwap32(v) else ByteSwap64(v)
  }

  // -------------------------------------------------- what a swap computes

  lemma {:induction false} Swapped16(v: u16)
    ensures ByteSwap16(v) == v % 0x100 * 0x100 + v / 0x100
  {
    hide Or, Shr, Shl32, Pow2;
    Powers();
    ShrIs(v, 8, 0x100);
    ShlIs(v, 8, 0x100);
    OrCommutes(v / 0x100, v * 0x100);
    OrField(v, 8, 0x100, v / 0x100);
    assert (v * 0x100 + v / 0x100) % 0x1_0000 == v % 0x100 * 0x100 + v / 0x100 by {
      assert v * 0x100 == v / 0x100 * 0x1_0000 + v % 0x100 * 0x100;
    }
  }

  lemma OrCommutes(x: nat, y: nat)
    ensures Or(x, y) == Or(y, x)
    decreases x + y
  {
    if x != 0 || y != 0 {
      OrCommutes(x / 2, y / 2);
    }
  }

  /** One byte of v, masked in place. */
  lemma {:induction false} MaskedByte(v: u32, k: nat, p: nat)
    requires p == Pow2(k) && (p == 1 || p == 0x100 || p == 0x1_0000 || p == 0x100_0000)
    ensures And(v, 0xFF * p) == v / p % 0x100 * p
  {
    hide And, Pow2;
    assert Pow2(8) == 0x100 by { Powers(); }
    AndMask(v / p, 8, 0x100);
    AndShift(v / p, 0xFF, k, p, v % p);
    if p == 1 {
    } else if p == 0x100 {
    } else if p == 0x1_0000 {
    } else {
    }
  }

  lemma {:induction false} Swapped32(v: u32)
    ensures ByteSwap32(v)
            == v % 0x100 * 0x100_0000 + v / 0x100 % 0x100 * 0x1_0000 + v / 0x1_0000 % 0x100 * 0x100 + v / 0x100_0000
  {
    hide And, Or, Shr, Shl32, Pow2;
    Powers();
    MaskedByte(v, 0, 1);
    MaskedByte(v, 8, 0x100);
    MaskedByte(v, 16, 0x1_0000);
    MaskedByte(v, 24, 0x100_0000);
    BytesJoin(v % 0x100, v / 0x100 % 0x100, v / 0x1_0000 % 0x100, v / 0x100_0000);
    TopByte(v);
  }

  lemma TopByte(v: u32)
    ensures v / 0x100_0000 % 0x100 == v / 0x100_0000 < 0x100
  {
  }

  /** Four bytes, each masked in place, moved to the mirrored place and joined. */
  lemma {:induction false} BytesJoin(a: u8, b: u8, c: u8, d: u8)
    ensures Or(Or(Or(Shl32(a * 1, 24), Shl32(b * 0x100, 8)), Shr(c * 0x1_0000, 8)), Shr(d * 0x100_0000, 24))
            == a * 0x100_0000 + b * 0x1_0000 + c * 0x100 + d
  {
    hide Or, Shr, Shl32, Pow2;
    Powers();
    ShlIs(a, 24, 0x100_0000);
    ShlIs(b * 0x100, 8, 0x100);
    ShrIs(c * 0x1_0000, 8, 0x100);
    ShrIs(d * 0x100_0000, 24, 0x100_0000);
    QuotientUnique(c * 0x1_0000, 0x100, c * 0x100, 0);
    QuotientUnique(d * 0x100_0000, 0x100_0000, d, 0);
    OrField(a, 24, 0x100_0000, b * 0x1_0000);
    OrField(a * 0x100 + b, 16, 0x1_0000, c * 0x100);
    OrField(a * 0x1_0000 + b * 0x100 + c, 8, 0x100, d);
  }

  lemma {:induction false} Swapped64(v: u64)
    ensures ByteSwap64(v) == ByteSwap32(v % M32) * M32 + ByteSwap32(v / M32)
  {
    hide Or, Shr, Up, Pow2, ByteSwap32;
    Powers();
    ShrIs(v, 32, M32);
    UpIs(ByteSwap32(v % M32), 32, M32);
    SwapBelow(v / M32);
    OrField(ByteSwap32(v % M32), 32, M32, ByteSwap32(v / M32));
  }

  lemma SwapBelow(v: u32)
    ensures ByteSwap32(v) < M32
  {
    hide ByteSwap32;
    Swapped32(v);
  }

  // ------------------------------------------------------ bytes of a swap

  /** The bytes of an unsigned integer in this host's memory: least significant first. */
  function HostBytes(v: nat, width: nat): (b: seq<u8>)
    ensures |b| == width
  {
    Reverse(BeBytes(v, width))
  }

  lemma {:induction false} BeBytes2(v: u16)
    ensures BeBytes(v, 2) == [v / 0x100, v % 0x100]
  {
    assert BeBytes(v, 2) == BeBytes(v / 0x100, 1) + [v % 0x100];
    assert BeBytes(v / 0x100, 1) == BeBytes(v / 0x100 / 0x100, 0) + [v / 0x100 % 0x100];
  }

  lemma {:induction false} BeValueAppend(a: seq<u8>, b: seq<u8>)
    ensures BeValue(a + b) == BeValue(a) * Pow256(|b|) + BeValue(b)
    decreases |b|
  {
    if b == [] {
      assert a + b == a;
    } else {
      var n := |b| - 1;
      assert (a + b)[..|a + b| - 1] == a + b[..n] && (a + b)[|a + b| - 1] == b[n];
      BeValueAppend(a, b[..n]);
      Redistribute(BeValue(a), Pow256(n), BeValue(b[..n]));
    }
  }

  lemma Redistribute(x: nat, p: nat, y: nat)
    ensures (x * p + y) * 0x100 == x * (0x100 * p) + y * 0x100
  {
  }

  lemma {:induction false} BeBytes8(hi: u32, lo: u32)
    ensures BeBytes(hi * M32 + lo, 8) == BeBytes(hi, 4) + BeBytes(lo, 4)
  {
    hide BeBytes, BeValue, Pow256;
    Powers256();
    var s := BeBytes(hi, 4) + BeBytes(lo, 4);
    BeValueOfBytes(hi, 4);
    BeValueOfBytes(lo, 4);
    BeValueAppend(BeBytes(hi, 4), BeBytes(lo, 4));
    BeBytesOfValue(s);
  }

  /** Swapping reverses the bytes. */
  lemma {:induction false} SwapReverses(v: u64, width: nat)
    requires width == 2 || width == 4 || width == 8
    requires v < Pow256(width)
    ensures ByteSwap(v, width) < Pow256(width) && BeBytes(ByteSwap(v, width), width) == Reverse(BeBytes(v, width))
  {
    Powers256();
    if width == 2 {
      SwapReverses16(v);
    } else if width == 4 {
      SwapReverses32(v);
    } else {
      SwapReverses64(v);
    }
  }

  lemma {:induction false} SwapReverses16(v: u16)
    ensures ByteSwap16(v) < 0x1_0000 && BeBytes(ByteSwap16(v), 2) == Reverse(BeBytes(v, 2))
  {
    hide ByteSwap16, BeBytes;
    Swapped16(v);
    BeBytes2(v);
    BeBytes2(ByteSwap16(v));
  }

  lemma {:induction false} SwapReverses32(v: u32)
    ensures ByteSwap32(v) < M32 && BeBytes(ByteSwap32(v), 4) == Reverse(BeBytes(v, 4))
  {
    hide ByteSwap32, BeBytes;
    Swapped32(v);
    BeBytes4(v);
    BeBytes4(ByteSwap32(v));
    var a, b, c, d := v % 0x100, v / 0x100 % 0x100, v / 0x1_0000 % 0x100, v / 0x100_0000;
    Digits(ByteSwap32(v), a, b, c, d);
  }

  lemma Digits(v: nat, a: nat, b: nat, c: nat, d: nat)
    requires a < 0x100 && b < 0x100 && c < 0x100 && d < 0x100
    requires v == a * 0x100_0000 + b * 0x1_0000 + c * 0x100 + d
    ensures v / 0x100_0000 == a && v / 0x1_0000 % 0x100 == b && v / 0x100 % 0x100 == c && v % 0x100 == d
  {
    assert v / 0x100 == a * 0x1_0000 + b * 0x100 + c;
    assert v / 0x1_0000 == a * 0x100 + b;
  }

  lemma {:induction false} SwapReverses64(v: u64)
    ensures ByteSwap64(v) < M64 && BeBytes(ByteSwap64(v), 8) == Reverse(BeBytes(v, 8))
  {
    hide ByteSwap32, ByteSwap64, BeBytes;
    var hi, lo := v / M32, v % M32;
    Swapped64(v);
    SwapReverses32(hi);
    SwapReverses32(lo);
    BeBytes8(hi, lo);
    BeBytes8(ByteSwap32(lo), ByteSwap32(hi));
    assert Reverse(BeBytes(hi, 4) + BeBytes(lo, 4)) == Reverse(BeBytes(lo, 4)) + Reverse(BeBytes(hi, 4));
  }

  // ------------------------------------------------------------- Endianed

  /** A scalar kept in memory in a fixed byte order whatever the host's is. */
  class Endianed {
    const big: bool
    const width: nat
    var storage: nat

    ghost predicate Valid()
      reads this
    {
      (width == 2 || width == 4 || width == 8) && storage < Pow256(width) && Pow256(width) <= M64
    }

    /** What memcpy sees. */
    function Memory(): seq<u8>
      reads this
    {
      HostBytes(storage, width)
    }

    constructor (big: bool, width: nat, hostValue: u64)
      requires (width == 2 || width == 4 || width == 8) && hostValue < Pow256(width)
      ensures Valid() && this.big == big && this.width == width
      ensures Memory() == ToBytes(big, hostValue, width)
    {
      hide BeBytes, ByteSwap;
      this.big := big;
      this.width := width;
      storage := 0;
      new;
      Powers256();
      Set(hostValue);
    }

    /** Stores the value so that its memory is the file's encoding of it. */
    method Set(hostValue: u64)
      requires Valid() && hostValue < Pow256(width)
      modifies this`storage
      ensures Valid() && Memory() == ToBytes(big, hostValue, width)
    {
      hide BeBytes, ByteSwap;
      var needsSwap := big;
      SwapReverses(hostValue, width);
      storage := if needsSwap then ByteSwap(hostValue, width) else hostValue;
      assert Reverse(Reverse(BeBytes(hostValue, width))) == BeBytes(hostValue, width);
    }

    /** Reads memory back in the file's byte order. */
    method Get() returns (v: u64)
      requires Valid()
      ensures v == FromBytes(big, Memory())
    {
      hide BeBytes, BeValue, ByteSwap;
      var needsSwap := big;
      SwapReverses(storage, width);
      v := if needsSwap then ByteSwap(storage, width) else storage;
      assert Reverse(Reverse(BeBytes(storage, width))) == BeBytes(storage, width);
      BeValueOfBytes(v, width);
    }
  }
}
