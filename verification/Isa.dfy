// The instruction words of Power ISA 2.06 Book I that the tool emits or moves:
// section 1.6 (Instruction Formats), section 2.4 (Branch Instructions) and
// section 3.3 (Fixed-Point Facility Instructions).
module Isa {
  import opened Bits
  import opened Encode

  type Reg = r: int | 0 <= r < 32

  datatype Instr =
    | Addi(rt: Reg, ra: Reg, si: i16)
    | Addis(rt: Reg, ra: Reg, si: i16)
    | Ori(ra: Reg, rs: Reg, ui: u16)
    | Mflr(rt: Reg)
    | Mfctr(rt: Reg)
    | Mtlr(rs: Reg)
    | Mtctr(rs: Reg)
    | Std(rs: Reg, ra: Reg, d: i16)
    | Stdu(rs: Reg, ra: Reg, d: i16)
    | Ld(rt: Reg, ra: Reg, d: i16)
      // mb is the field as stored at bits 21:26
    | Rldicl(ra: Reg, rs: Reg, sh: nat, mb: nat)
    | B(li: i32, aa: bool, lk: bool)
    | Bc(bo: Reg, bi: Reg, bd: i16, aa: bool, lk: bool)
    | Bclr(bo: Reg, bi: Reg, lk: bool)
    | Bcctr(bo: Reg, bi: Reg, lk: bool)
    | Sc
      // every other word: an instruction whose effect does not depend on its address
    | Other(word: u32)
  {
    predicate IsBranch() {
      B? || Bc? || Bclr? || Bcctr?
    }

    /** LK = 1: the branch stores the address of its successor in LR. */
    predicate Links() {
      (B? || Bc? || Bclr? || Bcctr?) && lk
    }

    /** b or bc with AA = 0: the one kind whose target depends on where it is. */
    predicate IsRelative() {
      (B? || Bc?) && !aa
    }
  }

  /** A two's complement field with sign weight `half`. */
  function SignedField(v: nat, half: nat): int {
    if v < half then v else v - 2 * half
  }

  function Disassemble(w: u32): Instr {
    OfFields(w, w / 0x400_0000, w / 0x20_0000 % 32, w / 0x1_0000 % 32, w % 0x1_0000)
  }

  /** The instruction with this opcode, the two fields after it, and these low 16 bits. */
  function OfFields(w: u32, op: nat, r0: Reg, r1: Reg, low: u16): Instr {
    var lk := low % 2 == 1;
    if op == 14 then Addi(r0, r1, Signed16(low))
    else if op == 15 then Addis(r0, r1, Signed16(low))
    else if op == 16 then Bc(r0, r1, Signed16(low / 4 * 4), low / 2 % 2 == 1, lk)
    else if op == 17 then (if w == 0x4400_0002 then Sc else Other(w))
    else if op == 18 then
      B(SignedField(r0 * 0x20_0000 + r1 * 0x1_0000 + low / 4 * 4, 0x200_0000), low / 2 % 2 == 1, lk)
    else if op == 19 then
      (if low / 2 % 1024 == 16 then Bclr(r0, r1, lk)
       else if low / 2 % 1024 == 528 then Bcctr(r0, r1, lk)
       else Other(w))
    else if op == 24 then Ori(r1, r0, low)
    else if op == 30 then
      (if low / 4 % 8 == 0 && !lk then Rldicl(r1, r0, low / 0x800 + low / 2 % 2 * 32, low / 32 % 64) else Other(w))
    else if op == 31 then MoveSpr(w, r0, r1 + low / 0x800 * 32, low % 0x800)
    else if op == 58 then (if low % 4 == 0 then Ld(r0, r1, Signed16(low)) else Other(w))
    else if op == 62 then
      (if low % 4 == 0 then Std(r0, r1, Signed16(low))
       else if low % 4 == 1 then Stdu(r0, r1, Signed16(low - 1))
       else Other(w))
    else Other(w)
  }

  /** mtspr and mfspr for LR (8) and CTR (9). */
  function MoveSpr(w: u32, r: Reg, spr: nat, xo: nat): Instr {
    if xo == 467 * 2 && spr == 8 then Mtlr(r)
    else if xo == 467 * 2 && spr == 9 then Mtctr(r)
    else if xo == 339 * 2 && spr == 8 then Mflr(r)
    else if xo == 339 * 2 && spr == 9 then Mfctr(r)
    else Other(w)
  }

  lemma FieldsOf(w: int, op: nat, a: Reg, b: Reg, low: u16)
    requires op < 64
    requires w == op * 0x400_0000 + a * 0x20_0000 + b * 0x1_0000 + low
    ensures 0 <= w < M32 && Disassemble(w) == OfFields(w, op, a, b, low)
    ensures w / 0x400_0000 == op && w / 0x20_0000 % 32 == a && w / 0x1_0000 % 32 == b && w % 0x1_0000 == low
  {
    hide OfFields;
    assert w / 0x1_0000 == op * 1024 + a * 32 + b;
    assert w / 0x20_0000 == op * 32 + a;
    assert w / 0x400_0000 == op;
  }

  lemma DisassembleAddi(rd: Reg, ra: Reg, simm: i16)
    ensures Disassemble(EncodeAddi(rd, ra, simm)) == Addi(rd, ra, simm)
  {
    hide EncodeAddi, Disassemble;
    FieldsOf(EncodeAddi(rd, ra, simm), 14, rd, ra, simm % 0x1_0000);
  }

  lemma DisassembleAddis(rd: Reg, ra: Reg, simm: i16)
    ensures Disassemble(EncodeAddis(rd, ra, simm)) == Addis(rd, ra, simm)
  {
    hide EncodeAddis, Disassemble;
    FieldsOf(EncodeAddis(rd, ra, simm), 15, rd, ra, simm % 0x1_0000);
  }

  lemma DisassembleOri(ra: Reg, rs: Reg, uimm: u16)
    ensures Disassemble(EncodeOri(ra, rs, uimm)) == Ori(ra, rs, uimm)
  {
    hide EncodeOri, Disassemble;
    FieldsOf(EncodeOri(ra, rs, uimm), 24, rs, ra, uimm);
  }

  lemma DisassembleSpr(r: Reg)
    ensures Disassemble(EncodeMflr(r)) == Mflr(r) && Disassemble(EncodeMfctr(r)) == Mfctr(r)
    ensures Disassemble(EncodeMtlr(r)) == Mtlr(r) && Disassemble(EncodeMtctr(r)) == Mtctr(r)
  {
    hide EncodeMtspr, EncodeMfspr, Disassemble;
    SprWord(EncodeMflr(r), r, 8, 339);
    SprWord(EncodeMfctr(r), r, 9, 339);
    SprWord(EncodeMtlr(r), r, 8, 467);
    SprWord(EncodeMtctr(r), r, 9, 467);
  }

  lemma SprWord(w: u32, r: Reg, spr: Reg, xo: nat)
    requires (spr == 8 || spr == 9) && (xo == 339 || xo == 467)
    requires w == 31 * 0x400_0000 + r * 0x20_0000 + spr * 0x1_0000 + xo * 2
    ensures Disassemble(w) == MoveSpr(w, r, spr, xo * 2)
  {
    hide Disassemble, MoveSpr;
    FieldsOf(w, 31, r, spr, xo * 2);
  }

  lemma DisassembleStd(r: Reg, ra: Reg, d: i16)
    requires d % 4 == 0
    ensures EncodeStd(r, ra, d).Some? && Disassemble(EncodeStd(r, ra, d).value) == Std(r, ra, d)
    ensures EncodeStdu(r, ra, d).Some? && Disassemble(EncodeStdu(r, ra, d).value) == Stdu(r, ra, d)
    ensures EncodeLd(r, ra, d).Some? && Disassemble(EncodeLd(r, ra, d).value) == Ld(r, ra, d)
  {
    hide EncodeStdForm, Disassemble;
    DsWord(62, 0, r, ra, d);
    DsWord(62, 1, r, ra, d);
    DsWord(58, 0, r, ra, d);
  }

  lemma DsWord(op: u32, xo: u32, r: Reg, ra: Reg, d: i16)
    requires d % 4 == 0 && ((op == 62 && xo < 2) || (op == 58 && xo == 0))
    ensures EncodeStdForm(op, xo, r, ra, d).Some?
    ensures Disassemble(EncodeStdForm(op, xo, r, ra, d).value)
            == if op == 58 then Ld(r, ra, d) else if xo == 0 then Std(r, ra, d) else Stdu(r, ra, d)
  {
    hide EncodeStdForm, Disassemble, OfFields;
    var low := d % 0x1_0000;
    BdField(d);
    QuotientUnique(low + xo, 4, low / 4, xo);
    var w := EncodeStdForm(op, xo, r, ra, d).value;
    FieldsOf(w, op, r, ra, low + xo);
    OfDsFields(w, op, r, ra, low, xo);
  }

  lemma OfDsFields(w: u32, op: nat, r: Reg, ra: Reg, low: u16, xo: nat)
    requires low % 4 == 0 && ((op == 62 && xo < 2) || (op == 58 && xo == 0))
    ensures low + xo < 0x1_0000
    ensures OfFields(w, op, r, ra, low + xo)
            == if op == 58 then Ld(r, ra, Signed16(low)) else if xo == 0 then Std(r, ra, Signed16(low))
               else Stdu(r, ra, Signed16(low))
  {
    hide Signed16;
    var q := low / 4;
    assert low == 4 * q;
    QuotientUnique(low, 4, q, 0);
    QuotientUnique(low + xo, 4, q, xo);
  }

  /** The low half of an MD-form word, with XO and Rc 0. */
  lemma MdLow(s: nat, mb: nat, s5: nat)
    requires s < 32 && mb < 64 && s5 < 2
    ensures var low := s * 0x800 + mb * 32 + s5 * 2;
            low < 0x1_0000 && low / 0x800 == s && low / 32 % 64 == mb && low / 4 % 8 == 0 && low / 2 % 2 == s5
            && low % 2 == 0
  {
    var low := s * 0x800 + mb * 32 + s5 * 2;
    assert low / 32 == s * 64 + mb;
    assert low / 2 == 2 * (s * 512 + mb * 8) + s5;
    assert low / 4 == 8 * (s * 64 + mb);
  }

  lemma DisassembleRldicl(ra: Reg, rs: Reg, sh: u32, mb: u32)
    requires sh < 64 && mb < 64
    ensures Disassemble(EncodeRldicl(ra, rs, sh, mb)) == Rldicl(ra, rs, sh, mb)
  {
    hide EncodeRldicl, Disassemble;
    var s, s5 := sh % 32, sh / 32;
    assert sh == 32 * s5 + s;
    var w := EncodeRldicl(ra, rs, sh, mb);
    var low := s * 0x800 + mb * 32 + s5 * 2;
    MdLow(s, mb, s5);
    assert w == 30 * 0x400_0000 + rs * 0x20_0000 + ra * 0x1_0000 + low by { SmallMd(rs, ra, mb, s5); }
    FieldsOf(w, 30, rs, ra, low);
    OfMdFields(w, rs, ra, low, s, mb, s5);
  }

  lemma SmallMd(rs: Reg, ra: Reg, mb: nat, s5: nat)
    requires mb < 64 && s5 < 2
    ensures rs % 32 == rs && ra % 32 == ra && mb % 64 == mb && s5 % 2 == s5
  {
  }

  lemma OfMdFields(w: u32, rs: Reg, ra: Reg, low: u16, s: nat, mb: nat, s5: nat)
    requires low / 0x800 == s && low / 32 % 64 == mb && low / 4 % 8 == 0 && low / 2 % 2 == s5 && low % 2 == 0
    ensures OfFields(w, 30, rs, ra, low) == Rldicl(ra, rs, s + 32 * s5, mb)
  {
  }

  lemma DisassembleBctr()
    ensures Disassemble(EncodeBctr()) == Bcctr(20, 0, false)
  {
    hide EncodeBctr, Disassemble;
    FieldsOf(EncodeBctr(), 19, 20, 0, 1056);
  }

  lemma DisassembleBranch(target: i32, aa: bool, lk: bool)
    requires target % 4 == 0 && -0x200_0000 <= target < 0x200_0000
    ensures EncodeBranch(target, aa, lk).Some?
    ensures Disassemble(EncodeBranch(target, aa, lk).value) == B(target, aa, lk)
  {
    hide EncodeBranch, Disassemble;
    var li := target % 0x400_0000;
    assert li % 4 == 0;
    SplitLi(li);
    IFormWord(EncodeBranch(target, aa, lk).value, li, aa, lk);
  }

  lemma IFormWord(w: u32, li: nat, aa: bool, lk: bool)
    requires li < 0x400_0000 && li % 4 == 0
    requires w == 18 * 0x400_0000 + li + (if aa then 2 else 0) + (if lk then 1 else 0)
    ensures Disassemble(w) == B(SignedField(li, 0x200_0000), aa, lk)
  {
    hide Disassemble;
    var low := li % 0x1_0000 + (if aa then 2 else 0) + (if lk then 1 else 0);
    SplitLi(li);
    LowBits(li % 0x1_0000, aa, lk);
    FieldsOf(w, 18, li / 0x20_0000, li / 0x1_0000 % 32, low);
  }

  lemma LowBits(f: nat, aa: bool, lk: bool)
    requires f % 4 == 0
    ensures var low := f + (if aa then 2 else 0) + (if lk then 1 else 0);
            low / 4 * 4 == f && (low / 2 % 2 == 1 <==> aa) && (low % 2 == 1 <==> lk)
  {
    var q, a, l := f / 4, if aa then 1 else 0, if lk then 1 else 0;
    assert f == 4 * q;
    QuotientUnique(4 * q + 2 * a + l, 4, q, 2 * a + l);
    QuotientUnique(4 * q + 2 * a + l, 2, 2 * q + a, l);
    QuotientUnique(2 * q + a, 2, q, a);
  }

  lemma SplitLi(li: nat)
    requires li < 0x400_0000 && li % 4 == 0
    ensures li / 0x20_0000 < 32 && li % 0x1_0000 <= 0xFFFC && li % 0x1_0000 % 4 == 0
    ensures li == li / 0x20_0000 * 0x20_0000 + li / 0x1_0000 % 32 * 0x1_0000 + li % 0x1_0000
  {
    assert li / 0x20_0000 == li / 0x1_0000 / 32;
  }

  lemma DisassembleBranchConditional(bo: Reg, bi: Reg, target: i32, aa: bool, lk: bool)
    requires target % 4 == 0 && -0x8000 <= target < 0x8000
    ensures EncodeBranchConditional(bo, bi, target, aa, lk).Some?
    ensures Disassemble(EncodeBranchConditional(bo, bi, target, aa, lk).value) == Bc(bo, bi, target, aa, lk)
  {
    hide EncodeBranchConditional, Disassemble, Signed16;
    var f := target % 0x1_0000;
    BdField(target);
    LowBits(f, aa, lk);
    FieldsOf(EncodeBranchConditional(bo, bi, target, aa, lk).value, 16, bo, bi,
             f + (if aa then 2 else 0) + (if lk then 1 else 0));
  }

  lemma BdField(target: int)
    requires target % 4 == 0 && -0x8000 <= target < 0x8000
    ensures var f := target % 0x1_0000; f % 4 == 0 && f <= 0xFFFC && Signed16(f) == target
  {
    var q := target / 4;
    assert target == 4 * q;
    if target >= 0 {
      QuotientUnique(target, 0x1_0000, 0, target);
    } else {
      QuotientUnique(target, 0x1_0000, -1, target + 0x1_0000);
      Multiple(target + 0x1_0000, 4, q + 0x4000);
    }
  }
}
