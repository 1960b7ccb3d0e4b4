// The PowerPC instruction encoders (ppc/include/ppc/encode.hpp).
//
// Bodies are the source's shift-and-mask expressions; contracts give the word
// as a sum of fields at their bit positions, which is what Isa.dfy decodes.
// An encoder that throws std::invalid_argument returns None.
module Encode {
  import opened Bits
  import opened Wrappers

  const SPR_LR: u32 := 8
  const SPR_CTR: u32 := 9

  /** The low `width` bits of a word. */
  function BitsOf(value: u32, width: nat): u32
    requires width < 32
  {
    AndBelow(value, if Shl32(1, width) > 0 then Shl32(1, width) - 1 else 0);
    And(value, if Shl32(1, width) > 0 then Shl32(1, width) - 1 else 0)
  }

  lemma AndBelow(x: nat, y: nat)
    ensures And(x, y) <= x
    decreases x
  {
    if x != 0 {
      AndBelow(x / 2, y / 2);
    }
  }

  lemma {:induction false} BitsIs(value: u32, width: nat, p: nat)
    requires width < 32 && p == Pow2(width) && p < M32
    ensures BitsOf(value, width) == value % p
  {
    hide And, Shl32, Pow2;
    ShlIs(1, width, p);
    AndMask(value, width, p);
  }

  /** A field of `width` bits shifted to bit `k`, when it fits. */
  lemma {:induction false} FieldIs(value: u32, width: nat, p: nat, k: nat, q: nat)
    requires width < 32 && p == Pow2(width) && p < M32 && q == Pow2(k)
    requires value % p * q < M32
    ensures Shl32(BitsOf(value, width), k) == value % p * q
  {
    hide Or, And, Shl32, Shr, BitsOf, Pow2;
    BitsIs(value, width, p);
    var x: nat := value % p;
    ShlIs(x, k, q);
    SmallWord(x * q);
  }

  lemma SmallWord(n: nat)
    requires n < M32
    ensures n % M32 == n
  {
  }

  // ---------------------------------------------------------------- fields

  function OpcodeAndRegisters(op: u32, a: u32, b: u32): u32
    requires op < 64
  {
    op * 0x400_0000 + a % 32 * 0x20_0000 + b % 32 * 0x1_0000
  }

  /** The opcode and the two register fields every D-, DS-, MD-, B- and XL-form word starts with. */
  lemma {:induction false} HighHalf(op: u32, a: u32, b: u32)
    requires op < 64
    ensures Or(Or(Shl32(BitsOf(op, 6), 26), Shl32(BitsOf(a, 5), 21)), Shl32(BitsOf(b, 5), 16))
            == OpcodeAndRegisters(op, a, b)
  {
    hide Or, And, Shl32, Shr, BitsOf, Pow2;
    Powers();
    FieldIs(op, 6, 64, 26, 0x400_0000);
    FieldIs(a, 5, 32, 21, 0x20_0000);
    FieldIs(b, 5, 32, 16, 0x1_0000);
    OrLow(op * 0x400_0000, 26, 0x400_0000, a % 32 * 0x20_0000);
    OrLow(op * 0x400_0000 + a % 32 * 0x20_0000, 21, 0x20_0000, b % 32 * 0x1_0000);
  }

  lemma {:induction false} WithLowHalf(op: u32, a: u32, b: u32, low: u32)
    requires op < 64 && low < 0x1_0000
    ensures Or(OpcodeAndRegisters(op, a, b), low) == OpcodeAndRegisters(op, a, b) + low
  {
    hide Or, And, Shl32, Shr, BitsOf, Pow2;
    Powers();
    assert OpcodeAndRegisters(op, a, b) == (op * 1024 + a % 32 * 32 + b % 32) * 0x1_0000;
    OrField(op * 1024 + a % 32 * 32 + b % 32, 16, 0x1_0000, low);
  }

  lemma {:induction false} DForm(op: u32, a: u32, b: u32, imm: u16)
    requires op < 64
    ensures Or(Or(Or(Shl32(BitsOf(op, 6), 26), Shl32(BitsOf(a, 5), 21)), Shl32(BitsOf(b, 5), 16)),
               BitsOf(imm, 16))
            == OpcodeAndRegisters(op, a, b) + imm
  {
    hide Or, And, Shl32, Shr, BitsOf, Pow2;
    Powers();
    HighHalf(op, a, b);
    BitsIs(imm, 16, 0x1_0000);
    WithLowHalf(op, a, b, imm);
  }

  function EncodeAddi(rd: u32, ra: u32, simm: i16): (w: u32)
    ensures w == 14 * 0x400_0000 + rd % 32 * 0x20_0000 + ra % 32 * 0x1_0000 + simm % 0x1_0000
  {
    DForm(14, rd, ra, simm % 0x1_0000);
    Or(Or(Or(Shl32(BitsOf(14, 6), 26), Shl32(BitsOf(rd, 5), 21)), Shl32(BitsOf(ra, 5), 16)),
       BitsOf(simm % 0x1_0000, 16))
  }

  function EncodeLi(rd: u32, simm: i16): u32 {
    EncodeAddi(rd, 0, simm)
  }

  function EncodeAddis(rd: u32, ra: u32, simm: i16): (w: u32)
    ensures w == 15 * 0x400_0000 + rd % 32 * 0x20_0000 + ra % 32 * 0x1_0000 + simm % 0x1_0000
  {
    DForm(15, rd, ra, simm % 0x1_0000);
    Or(Or(Or(Shl32(BitsOf(15, 6), 26), Shl32(BitsOf(rd, 5), 21)), Shl32(BitsOf(ra, 5), 16)),
       BitsOf(simm % 0x1_0000, 16))
  }

  function EncodeLis(rd: u32, simm: i16): u32 {
    EncodeAddis(rd, 0, simm)
  }

  function EncodeOri(ra: u32, rs: u32, uimm: u16): (w: u32)
    ensures w == 24 * 0x400_0000 + rs % 32 * 0x20_0000 + ra % 32 * 0x1_0000 + uimm
  {
    DForm(24, rs, ra, uimm);
    Or(Or(Or(Shl32(BitsOf(24, 6), 26), Shl32(BitsOf(rs, 5), 21)), Shl32(BitsOf(ra, 5), 16)), BitsOf(uimm, 16))
  }

  /** An SPR number is stored with its two five-bit halves swapped. */
  function EncodeSprField(spr: u32): (r: u32)
    ensures r == spr % 32 * 32 + spr / 32 % 32
  {
    SwappedHalves(spr);
    var lo5 := And(spr, 0x1F);
    var hi5 := And(Shr(spr, 5), 0x1F);
    Or(Shl32(lo5, 5), hi5)
  }

  lemma {:induction false} SwappedHalves(spr: u32)
    ensures Or(Shl32(And(spr, 0x1F), 5), And(Shr(spr, 5), 0x1F)) == spr % 32 * 32 + spr / 32 % 32
  {
    hide Or, And, Shl32, Shr, BitsOf, Pow2;
    Powers();
    AndMask(spr, 5, 32);
    ShrIs(spr, 5, 32);
    AndMask(spr / 32, 5, 32);
    ShlIs(spr % 32, 5, 32);
    OrLow(spr % 32 * 32, 5, 32, spr / 32 % 32);
  }

  lemma {:induction false} SprForm(op: u32, r: u32, field: u32, xo: u32)
    requires op < 64 && field < 1024 && xo < 1024
    ensures Or(Or(Or(Shl32(BitsOf(op, 6), 26), Shl32(BitsOf(r, 5), 21)), Shl32(BitsOf(field, 10), 11)),
               Shl32(BitsOf(xo, 10), 1))
            == op * 0x400_0000 + r % 32 * 0x20_0000 + field * 0x800 + xo * 2
  {
    hide Or, And, Shl32, Shr, BitsOf, Pow2;
    Powers();
    FieldIs(op, 6, 64, 26, 0x400_0000);
    FieldIs(r, 5, 32, 21, 0x20_0000);
    FieldIs(field, 10, 1024, 11, 0x800);
    FieldIs(xo, 10, 1024, 1, 2);
    OrLow(op * 0x400_0000, 26, 0x400_0000, r % 32 * 0x20_0000);
    OrLow(op * 0x400_0000 + r % 32 * 0x20_0000, 21, 0x20_0000, field * 0x800);
    OrLow(op * 0x400_0000 + r % 32 * 0x20_0000 + field * 0x800, 11, 0x800, xo * 2);
  }

  function EncodeMtspr(rs: u32, spr: u32): (w: u32)
    ensures w == 31 * 0x400_0000 + rs % 32 * 0x20_0000 + (spr % 32 * 32 + spr / 32 % 32) * 0x800 + 467 * 2
  {
    SprForm(31, rs, EncodeSprField(spr), 467);
    Or(Or(Or(Shl32(BitsOf(31, 6), 26), Shl32(BitsOf(rs, 5), 21)), Shl32(BitsOf(EncodeSprField(spr), 10), 11)),
       Shl32(BitsOf(467, 10), 1))
  }

  function EncodeMfspr(rt: u32, spr: u32): (w: u32)
    ensures w == 31 * 0x400_0000 + rt % 32 * 0x20_0000 + (spr % 32 * 32 + spr / 32 % 32) * 0x800 + 339 * 2
  {
    SprForm(31, rt, EncodeSprField(spr), 339);
    Or(Or(Or(Shl32(BitsOf(31, 6), 26), Shl32(BitsOf(rt, 5), 21)), Shl32(BitsOf(EncodeSprField(spr), 10), 11)),
       Shl32(BitsOf(339, 10), 1))
  }

  function EncodeMtlr(rs: u32): u32 { EncodeMtspr(rs, SPR_LR) }

  function EncodeMflr(rt: u32): u32 { EncodeMfspr(rt, SPR_LR) }

  function EncodeMtctr(rs: u32): u32 { EncodeMtspr(rs, SPR_CTR) }

  function EncodeMfctr(rt: u32): u32 { EncodeMfspr(rt, SPR_CTR) }

  /** std, stdu, ld and ldu: a displacement that is a multiple of 4, stored divided by 4. */
  function EncodeStdForm(primaryOpcode: u32, xo: u32, r: u32, ra: u32, d: i32): (o: Option<u32>)
    ensures o.Some? <==> d % 4 == 0 && -0x8000 <= d < 0x8000
    ensures o.Some? ==> o.value == primaryOpcode % 64 * 0x400_0000 + r % 32 * 0x20_0000 + ra % 32 * 0x1_0000
                                   + d % 0x1_0000 + xo % 4
  {
    hide StdWord;
    if d % 4 != 0 then None
    else if d > 32764 || d < -32768 then None
    else Some(StdWord(primaryOpcode, xo, r, ra, d))
  }

  function StdWord(primaryOpcode: u32, xo: u32, r: u32, ra: u32, d: i32): (w: u32)
    requires d % 4 == 0 && -0x8000 <= d < 0x8000
    ensures w == primaryOpcode % 64 * 0x400_0000 + r % 32 * 0x20_0000 + ra % 32 * 0x1_0000 + d % 0x1_0000 + xo % 4
  {
    hide Or, Shl32, BitsOf, Wrap32;
    SmallFields(primaryOpcode, xo);
    DsForm(primaryOpcode % 64, xo % 4, r, ra, d);
    var ds14 := BitsOf(Wrap32(d / 4), 14);
    Or(Or(Or(Or(Shl32(BitsOf(primaryOpcode, 6), 26), Shl32(BitsOf(r, 5), 21)), Shl32(BitsOf(ra, 5), 16)),
          Shl32(ds14, 2)),
       BitsOf(xo, 2))
  }

  /** Only the low bits of an opcode and of a two-bit field matter. */
  lemma {:induction false} SmallFields(op: u32, xo: u32)
    ensures BitsOf(op, 6) == BitsOf(op % 64, 6) && BitsOf(xo, 2) == BitsOf(xo % 4, 2)
  {
    hide BitsOf, Pow2;
    Powers();
    BitsIs(op, 6, 64);
    BitsIs(op % 64, 6, 64);
    BitsIs(xo, 2, 4);
    BitsIs(xo % 4, 2, 4);
  }

  lemma {:induction false} DsForm(op: u32, xo: u32, r: u32, ra: u32, d: i32)
    requires op < 64 && xo < 4 && d % 4 == 0 && -0x8000 <= d < 0x8000
    ensures 0 <= d % 0x1_0000 <= 0xFFFC && OpcodeAndRegisters(op, r, ra) <= 0xFFFF_0000
    ensures Or(Or(Or(Or(Shl32(BitsOf(op, 6), 26), Shl32(BitsOf(r, 5), 21)), Shl32(BitsOf(ra, 5), 16)),
                  Shl32(BitsOf(Wrap32(d / 4), 14), 2)),
               BitsOf(xo, 2))
            == OpcodeAndRegisters(op, r, ra) + d % 0x1_0000 + xo
  {
    hide Or, And, Shl32, Shr, BitsOf, Pow2, Wrap32;
    Powers();
    HighHalf(op, r, ra);
    assert Shl32(BitsOf(Wrap32(d / 4), 14), 2) == d % 0x1_0000 by {
      FieldIs(Wrap32(d / 4), 14, 0x4000, 2, 4);
      QuarterField(d);
    }
    BitsIs(xo, 2, 4);
    QuarterField(d);
    WithLowHalf(op, r, ra, d % 0x1_0000);
    OrField(op * 0x100_0000 + r % 32 * 0x8_0000 + ra % 32 * 0x4000 + Wrap32(d / 4) % 0x4000, 2, 4, xo);
  }

  /** The 14-bit DS field of a multiple of 4, put back at bit 2. */
  lemma QuarterField(d: i32)
    requires d % 4 == 0 && -0x8000 <= d < 0x8000
    ensures Wrap32(d / 4) % 0x4000 * 4 == d % 0x1_0000 && 0 <= d % 0x1_0000 <= 0xFFFC
  {
    if d >= 0 {
      assert d % 0x1_0000 == d && Wrap32(d / 4) == d / 4 && d / 4 < 0x4000;
    } else {
      assert d % 0x1_0000 == d + 0x1_0000 && Wrap32(d / 4) == d / 4 + M32;
      assert (d / 4 + M32) % 0x4000 == d / 4 + 0x4000;
    }
  }

  function EncodeStd(rs: u32, ra: u32, d: i32): Option<u32> { EncodeStdForm(62, 0, rs, ra, d) }

  function EncodeStdu(rs: u32, ra: u32, d: i32): Option<u32> { EncodeStdForm(62, 1, rs, ra, d) }

  function EncodeLd(rt: u32, ra: u32, d: i32): Option<u32> { EncodeStdForm(58, 0, rt, ra, d) }

  /**
   * rldicl with the six mask-begin bits written in natural order at bits
   * 21:26. (The architecture stores mb5 last but reads it first; see
   * Machine.MaskBegin.)
   */
  function EncodeRldicl(ra: u32, rs: u32, sh6: u32, mb6: u32, rc: bool := false): (w: u32)
    ensures w == 30 * 0x400_0000 + rs % 32 * 0x20_0000 + ra % 32 * 0x1_0000 + sh6 % 32 * 0x800
                 + mb6 % 64 * 32 + sh6 / 32 % 2 * 2 + (if rc then 1 else 0)
  {
    MdForm(ra, rs, sh6, mb6, rc);
    var shLo5 := And(sh6, 0x1F);
    var shHi1 := And(Shr(sh6, 5), 0x1);
    Or(Or(Or(Or(Or(Or(Or(Shl32(BitsOf(30, 6), 26), Shl32(BitsOf(rs, 5), 21)), Shl32(BitsOf(ra, 5), 16)),
                   Shl32(BitsOf(shLo5, 5), 11)),
                Shl32(BitsOf(mb6, 6), 5)),
             Shl32(BitsOf(0, 3), 2)),
          Shl32(BitsOf(shHi1, 1), 1)),
       if rc then 1 else 0)
  }

  lemma {:induction false} MdForm(ra: u32, rs: u32, sh6: u32, mb6: u32, rc: bool)
    ensures And(sh6, 0x1F) < M32 && And(Shr(sh6, 5), 0x1) < M32
    ensures Or(Or(Or(Or(Or(Or(Or(Shl32(BitsOf(30, 6), 26), Shl32(BitsOf(rs, 5), 21)), Shl32(BitsOf(ra, 5), 16)),
                             Shl32(BitsOf(And(sh6, 0x1F), 5), 11)),
                          Shl32(BitsOf(mb6, 6), 5)),
                       Shl32(BitsOf(0, 3), 2)),
                    Shl32(BitsOf(And(Shr(sh6, 5), 0x1), 1), 1)),
                 if rc then 1 else 0)
            == OpcodeAndRegisters(30, rs, ra) + sh6 % 32 * 0x800 + mb6 % 64 * 32 + sh6 / 32 % 2 * 2
               + (if rc then 1 else 0)
  {
    hide Or, And, Shl32, Shr, BitsOf, Pow2;
    Powers();
    AndMask(sh6, 5, 32);
    ShrIs(sh6, 5, 32);
    AndMask(sh6 / 32, 1, 2);
    HighHalf(30, rs, ra);
    FieldIs(sh6 % 32, 5, 32, 11, 0x800);
    FieldIs(mb6, 6, 64, 5, 32);
    FieldIs(0, 3, 8, 2, 4);
    FieldIs(sh6 / 32 % 2, 1, 2, 1, 2);
    WithLowHalf(30, rs, ra, sh6 % 32 * 0x800);
    var w0 := OpcodeAndRegisters(30, rs, ra) + sh6 % 32 * 0x800;
    OrLow(w0, 11, 0x800, mb6 % 64 * 32);
    var w1 := w0 + mb6 % 64 * 32;
    OrLow(w1, 5, 32, 0);
    OrLow(w1, 5, 32, sh6 / 32 % 2 * 2);
    OrLow(w1 + sh6 / 32 % 2 * 2, 1, 2, if rc then 1 else 0);
  }

  function EncodeClrldi(ra: u32, rs: u32, n: u32): u32 {
    EncodeRldicl(ra, rs, 0, n)
  }

  /** bctr: BO = 20 (always), BI = 0, LK = 0. */
  function EncodeBctr(): (w: u32)
    ensures w == 0x4E80_0420
  {
    BctrForm();
    Or(Or(Or(Or(Shl32(BitsOf(19, 6), 26), Shl32(BitsOf(20, 5), 21)), Shl32(BitsOf(0, 5), 16)),
          Shl32(BitsOf(0, 5), 11)),
       Shl32(BitsOf(528, 10), 1))
  }

  lemma {:induction false} BctrForm()
    ensures Or(Or(Or(Or(Shl32(BitsOf(19, 6), 26), Shl32(BitsOf(20, 5), 21)), Shl32(BitsOf(0, 5), 16)),
                  Shl32(BitsOf(0, 5), 11)),
               Shl32(BitsOf(528, 10), 1))
            == 0x4E80_0420
  {
    hide Or, And, Shl32, Shr, BitsOf, Pow2;
    Powers();
    HighHalf(19, 20, 0);
    FieldIs(0, 5, 32, 11, 0x800);
    FieldIs(528, 10, 1024, 1, 2);
    WithLowHalf(19, 20, 0, 0);
    WithLowHalf(19, 20, 0, 1056);
  }

  /** The bit pair AA, LK under a field that is a multiple of 4. */
  lemma {:induction false} AaLk(high: u32, absolute: bool, link: bool)
    requires high % 4 == 0
    ensures Or(Or(high, if absolute then 2 else 0), if link then 1 else 0)
            == high + (if absolute then 2 else 0) + (if link then 1 else 0)
  {
    hide Or, And, Shl32, Shr, BitsOf, Pow2;
    Powers();
    var aa := if absolute then 2 else 0;
    OrLow(high, 2, 4, aa);
    assert (high + aa) % 2 == 0;
    OrLow(high + aa, 1, 2, if link then 1 else 0);
  }

  /** & with a mask whose two low bits are 0 changes no multiple of 4 below it. */
  lemma {:induction false} AndMultipleOf4(v: u32, m: nat, p: nat)
    requires v % 4 == 0 && p == Pow2(m) && v / 4 < p
    ensures And(v, (p - 1) * 4) == v
  {
    hide Or, And, Shl32, Shr, BitsOf, Pow2;
    assert Pow2(2) == 4 by { Powers(); }
    var q: nat := v / 4;
    assert v == q * 4 + 0;
    AndShift(q, p - 1, 2, 4, 0);
    AndMask(q, m, p);
    SmallRemainder(q, p);
  }

  lemma SmallRemainder(q: nat, p: nat)
    requires q < p
    ensures q % p == q
  {
  }

  /** b, ba, bl and bla. */
  function EncodeBranch(target: i32, absolute: bool, link: bool): (o: Option<u32>)
    ensures o.Some? <==> target % 4 == 0 && -0x200_0000 <= target <= 0x1FF_FFFC
    ensures o.Some? ==> o.value == 18 * 0x400_0000 + target % 0x400_0000
                                   + (if absolute then 2 else 0) + (if link then 1 else 0)
  {
    if target % 4 != 0 then None
    else if target > 0x1FF_FFFC || target < -0x200_0000 then None
    else
      IForm(target, absolute, link);
      var li := And(BitsOf(Wrap32(target), 26), 0xFFFF_FFFC);
      Some(Or(Or(Or(Shl32(BitsOf(18, 6), 26), li), if absolute then 2 else 0), if link then 1 else 0))
  }

  lemma {:induction false} IForm(target: i32, absolute: bool, link: bool)
    requires target % 4 == 0
    ensures Or(Or(Or(Shl32(BitsOf(18, 6), 26), And(BitsOf(Wrap32(target), 26), 0xFFFF_FFFC)),
                  if absolute then 2 else 0),
               if link then 1 else 0)
            == 18 * 0x400_0000 + target % 0x400_0000 + (if absolute then 2 else 0) + (if link then 1 else 0)
  {
    hide Or, And, Shl32, Shr, BitsOf, Pow2;
    Powers();
    PowSum(24, 6);
    FieldIs(18, 6, 64, 26, 0x400_0000);
    BitsIs(Wrap32(target), 26, 0x400_0000);
    LowField(target, 0x100_0000);
    var low: nat := target % 0x400_0000;
    AndMultipleOf4(low, 30, 0x4000_0000);
    OrLow(18 * 0x400_0000, 26, 0x400_0000, low);
    AaLk(18 * 0x400_0000 + low, absolute, link);
  }

  /** bc, bca, bcl and bcla. */
  function EncodeBranchConditional(bo: u32, bi: u32, target: i32, absolute: bool, link: bool): (o: Option<u32>)
    ensures o.Some? <==> target % 4 == 0 && -0x8000 <= target <= 0x7FFC
    ensures o.Some? ==> o.value == 16 * 0x400_0000 + bo % 32 * 0x20_0000 + bi % 32 * 0x1_0000 + target % 0x1_0000
                                   + (if absolute then 2 else 0) + (if link then 1 else 0)
  {
    if target % 4 != 0 then None
    else if target > 0x7FFC || target < -0x8000 then None
    else
      BForm(bo, bi, target, absolute, link);
      var bd := And(BitsOf(Wrap32(target), 16), 0xFFFC);
      Some(Or(Or(Or(Or(Or(Shl32(BitsOf(16, 6), 26), Shl32(BitsOf(bo, 5), 21)), Shl32(BitsOf(bi, 5), 16)), bd),
                 if absolute then 2 else 0),
              if link then 1 else 0))
  }

  lemma {:induction false} BForm(bo: u32, bi: u32, target: i32, absolute: bool, link: bool)
    requires target % 4 == 0
    ensures Or(Or(Or(Or(Or(Shl32(BitsOf(16, 6), 26), Shl32(BitsOf(bo, 5), 21)), Shl32(BitsOf(bi, 5), 16)),
                        And(BitsOf(Wrap32(target), 16), 0xFFFC)),
                  if absolute then 2 else 0),
               if link then 1 else 0)
            == OpcodeAndRegisters(16, bo, bi) + target % 0x1_0000 + (if absolute then 2 else 0)
               + (if link then 1 else 0)
  {
    hide Or, And, Shl32, Shr, BitsOf, Pow2;
    Powers();
    HighHalf(16, bo, bi);
    BitsIs(Wrap32(target), 16, 0x1_0000);
    LowField(target, 0x4000);
    var low: nat := target % 0x1_0000;
    AndMultipleOf4(low, 14, 0x4000);
    WithLowHalf(16, bo, bi, low);
    HighMultiple(16, bo, bi, low);
    AaLk(OpcodeAndRegisters(16, bo, bi) + low, absolute, link);
  }

  lemma HighMultiple(op: u32, a: u32, b: u32, low: nat)
    requires op < 64 && low % 4 == 0 && low <= 0xFFFC
    ensures (OpcodeAndRegisters(op, a, b) + low) % 4 == 0 && OpcodeAndRegisters(op, a, b) + low <= 0xFFFF_FFFC
  {
    var r1: nat, r2: nat := a % 32, b % 32;
    var q := low / 4;
    assert low == 4 * q && r1 <= 31 && r2 <= 31;
    Multiple(op * 0x400_0000 + r1 * 0x20_0000 + r2 * 0x1_0000 + low, 4,
             op * 0x100_0000 + r1 * 0x8_0000 + r2 * 0x4000 + q);
  }

  /** The low bits of a multiple of 4, taken as a word or as an integer. */
  lemma LowField(target: i32, quarter: nat)
    requires target % 4 == 0 && (quarter == 0x4000 || quarter == 0x100_0000)
    ensures var low := target % (4 * quarter);
            low % 4 == 0 && 0 <= low <= 4 * quarter - 4 && Wrap32(target) % (4 * quarter) == low
  {
    if quarter == 0x4000 {
      LowField16(target);
    } else {
      LowField26(target);
    }
  }

  lemma LowField16(target: i32)
    requires target % 4 == 0
    ensures var low := target % 0x1_0000;
            low % 4 == 0 && low <= 0xFFFC && Wrap32(target) % 0x1_0000 == low
  {
    var q, low := target / 0x1_0000, target % 0x1_0000;
    assert target == 4 * (target / 4) == 0x1_0000 * q + low;
    Multiple(low, 4, target / 4 - 0x4000 * q);
    if target >= 0 {
      QuotientUnique(target, M32, 0, target);
    } else {
      QuotientUnique(target, M32, -1, target + M32);
    }
    if target < 0 {
      assert Wrap32(target) == target + M32;
      QuotientUnique(target + M32, 0x1_0000, q + 0x1_0000, low);
    }
  }

  lemma LowField26(target: i32)
    requires target % 4 == 0
    ensures var low := target % 0x400_0000;
            low % 4 == 0 && low <= 0x3FF_FFFC && Wrap32(target) % 0x400_0000 == low
  {
    var q, low := target / 0x400_0000, target % 0x400_0000;
    assert target == 4 * (target / 4) == 0x400_0000 * q + low;
    Multiple(low, 4, target / 4 - 0x100_0000 * q);
    if target >= 0 {
      QuotientUnique(target, M32, 0, target);
    } else {
      QuotientUnique(target, M32, -1, target + M32);
    }
    if target < 0 {
      assert Wrap32(target) == target + M32;
      QuotientUnique(target + M32, 0x400_0000, q + 64, low);
    }
  }

  /** lis, ori, clrldi: meant to leave `value`, zero-extended, in the register. */
  function LoadImmediate32(reg: u32, value: u32): (ws: seq<u32>)
    ensures |ws| == 3
  {
    hide EncodeAddis, EncodeOri, EncodeRldicl, And, Shr;
    Halves(value);
    var hi := Signed16(And(Shr(value, 16), 0xFFFF));
    var lo := And(value, 0xFFFF);
    [EncodeLis(reg, hi), EncodeOri(reg, reg, lo), EncodeClrldi(reg, reg, 32)]
  }

  lemma {:induction false} LoadImmediateWords(reg: u32, value: u32)
    ensures LoadImmediate32(reg, value)
            == [EncodeAddis(reg, 0, Signed16(value / 0x1_0000)), EncodeOri(reg, reg, value % 0x1_0000),
                EncodeRldicl(reg, reg, 0, 32)]
  {
    hide EncodeAddis, EncodeOri, EncodeRldicl, And, Shr;
    Halves(value);
  }

  lemma {:induction false} Halves(value: u32)
    ensures And(Shr(value, 16), 0xFFFF) == value / 0x1_0000 && And(value, 0xFFFF) == value % 0x1_0000
  {
    hide Or, And, Shl32, Shr, BitsOf, Pow2;
    Powers();
    ShrIs(value, 16, 0x1_0000);
    AndMask(value / 0x1_0000, 16, 0x1_0000);
    AndMask(value, 16, 0x1_0000);
  }

  /** The five-instruction long jump through CTR. */
  function MakeAbsoluteJump(targetAddress: u32, scratchReg: u32 := 12): (ws: seq<u32>)
    ensures |ws| == 5
  {
    hide LoadImmediate32, EncodeMtspr, EncodeBctr;
    var load := LoadImmediate32(scratchReg, targetAddress);
    [load[0], load[1], load[2], EncodeMtctr(scratchReg), EncodeBctr()]
  }

  lemma AbsoluteJumpWords(targetAddress: u32, scratchReg: u32)
    ensures MakeAbsoluteJump(targetAddress, scratchReg)
            == LoadImmediate32(scratchReg, targetAddress) + [EncodeMtctr(scratchReg), EncodeBctr()]
  {
    hide LoadImmediate32, EncodeMtspr, EncodeBctr;
  }
}
