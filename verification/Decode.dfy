// Branch classification and relocation (ppc/include/ppc/decode.hpp).
module Decode {
  import opened Bits
  import opened Wrappers
  import opened Encode
  import opened Isa

  datatype BranchKind = NotABranch | DirectRelative | DirectAbsolute | ToLinkRegister | ToCountRegister

  datatype DecodedBranch = DecodedBranch(
    kind: BranchKind, link: bool, isConditionalForm: bool, bo: u32, bi: u32, displacement: i32, absoluteTarget: u32)

  const NoBranch := DecodedBranch(NotABranch, false, false, 0, 0, 0, 0)

  /** static_cast<int32_t> of an unsigned word. */
  function Signed32(x: u32): (r: i32)
    ensures Wrap32(r) == x
  {
    if x < 0x8000_0000 then x else x - M32
  }

  function SignExtend(value: u32, bitWidth: nat): i32
    requires bitWidth > 0
  {
    var signBit := Shl32(1, bitWidth - 1);
    Signed32(Wrap32(Xor(value, signBit) - signBit))
  }

  lemma {:induction false} SignExtendIs(value: u32, bitWidth: nat, half: nat)
    requires 0 < bitWidth <= 26 && half == Pow2(bitWidth - 1) && half <= 0x200_0000 && value < 2 * half
    ensures SignExtend(value, bitWidth) == SignedField(value, half)
  {
    hide Xor, Shl32, Pow2;
    ShlIs(1, bitWidth - 1, half);
    assert value < Pow2(bitWidth - 1 + 1) by { PowSum(1, bitWidth - 1); Powers(); }
    XorSign(value, bitWidth - 1);
  }

  function Classify(instr: u32): DecodedBranch {
    var opcode := And(Shr(instr, 26), 0x3F);
    if opcode == 18 then
      var aa := And(instr, 0x2) != 0;
      var lk := And(instr, 0x1) != 0;
      AndBelow(instr, 0x03FF_FFFC);
      var li := SignExtend(And(instr, 0x03FF_FFFC), 26);
      if aa then NoBranch.(link := lk, kind := DirectAbsolute, absoluteTarget := Wrap32(li))
      else NoBranch.(link := lk, kind := DirectRelative, displacement := li)
    else if opcode == 16 then
      var aa := And(instr, 0x2) != 0;
      var lk := And(instr, 0x1) != 0;
      BranchFields(instr);
      var bo := And(Shr(instr, 21), 0x1F);
      var bi := And(Shr(instr, 16), 0x1F);
      var bd := SignExtend(And(instr, 0x0000_FFFC), 16);
      var form := NoBranch.(link := lk, isConditionalForm := true, bo := bo, bi := bi);
      if aa then form.(kind := DirectAbsolute, absoluteTarget := Wrap32(bd))
      else form.(kind := DirectRelative, displacement := bd)
    else if opcode == 19 then
      var xo := And(Shr(instr, 1), 0x3FF);
      var lk := And(instr, 0x1) != 0;
      if xo == 16 then NoBranch.(kind := ToLinkRegister, link := lk)
      else if xo == 528 then NoBranch.(kind := ToCountRegister, link := lk)
      else NoBranch
    else NoBranch
  }

  /** The masks and shifts of Classify, as fields of the word. */
  lemma {:induction false} BranchFields(w: u32)
    ensures And(Shr(w, 26), 0x3F) == w / 0x400_0000
    ensures And(Shr(w, 21), 0x1F) == w / 0x20_0000 % 32 && And(Shr(w, 16), 0x1F) == w / 0x1_0000 % 32
    ensures And(Shr(w, 1), 0x3FF) == w / 2 % 1024
    ensures And(w, 0x2) == w / 2 % 2 * 2 && And(w, 0x1) == w % 2
    ensures And(w, 0x03FF_FFFC) == w / 4 % 0x100_0000 * 4 && And(w, 0xFFFC) == w / 4 % 0x4000 * 4
  {
    hide And, Shr, Pow2;
    Powers();
    ShrIs(w, 26, 0x400_0000);
    AndMask(w / 0x400_0000, 6, 64);
    ShrIs(w, 21, 0x20_0000);
    AndMask(w / 0x20_0000, 5, 32);
    ShrIs(w, 16, 0x1_0000);
    AndMask(w / 0x1_0000, 5, 32);
    ShrIs(w, 1, 2);
    AndMask(w / 2, 10, 1024);
    AndMask(w, 1, 2);
    AndMask(w / 2, 1, 2);
    AndShift(w / 2, 1, 1, 2, w % 2);
    AndMask(w / 4, 24, 0x100_0000);
    AndShift(w / 4, 0xFF_FFFF, 2, 4, w % 4);
    AndMask(w / 4, 14, 0x4000);
    AndShift(w / 4, 0x3FFF, 2, 4, w % 4);
  }

  /** What the tool must know about a decoded instruction. */
  function OfInstr(i: Instr): DecodedBranch {
    match i
    case B(li, aa, lk) =>
      if aa then NoBranch.(kind := DirectAbsolute, link := lk, absoluteTarget := Wrap32(li))
      else NoBranch.(kind := DirectRelative, link := lk, displacement := li)
    case Bc(bo, bi, bd, aa, lk) =>
      var form := NoBranch.(link := lk, isConditionalForm := true, bo := bo, bi := bi);
      if aa then form.(kind := DirectAbsolute, absoluteTarget := Wrap32(bd))
      else form.(kind := DirectRelative, displacement := bd)
    case Bclr(_, _, lk) => NoBranch.(kind := ToLinkRegister, link := lk)
    case Bcctr(_, _, lk) => NoBranch.(kind := ToCountRegister, link := lk)
    case _ => NoBranch
  }

  /** The classifier and the architecture's decoder agree on every one of the 2^32 words. */
  lemma {:induction false} ClassifyAgrees(w: u32)
    ensures Classify(w) == OfInstr(Disassemble(w))
  {
    hide And, Shr, SignExtend, Pow2, BitsOf;
    BranchFields(w);
    assert Pow2(25) == 0x200_0000 && Pow2(15) == 0x8000 by { Powers(); }
    var op, r0, r1, low := w / 0x400_0000, w / 0x20_0000 % 32, w / 0x1_0000 % 32, w % 0x1_0000;
    FieldsOf(w, op, r0, r1, low) by { WordFields(w); }
    LowFields(w);
    if op == 18 {
      SignExtendIs(w / 4 % 0x100_0000 * 4, 26, 0x200_0000);
      assert w / 4 % 0x100_0000 * 4 == r0 * 0x20_0000 + r1 * 0x1_0000 + low / 4 * 4;
    } else if op == 16 {
      SignExtendIs(w / 4 % 0x4000 * 4, 16, 0x8000);
    }
  }

  lemma WordFields(w: u32)
    ensures w == w / 0x400_0000 * 0x400_0000 + w / 0x20_0000 % 32 * 0x20_0000 + w / 0x1_0000 % 32 * 0x1_0000
                 + w % 0x1_0000
  {
    var h, low := w / 0x1_0000, w % 0x1_0000;
    var g, b := h / 32, h % 32;
    var op, a := g / 32, g % 32;
    assert w == 0x1_0000 * h + low && h == 32 * g + b && g == 32 * op + a;
    QuotientUnique(w, 0x20_0000, g, 0x1_0000 * b + low);
    QuotientUnique(w, 0x400_0000, op, 0x20_0000 * a + 0x1_0000 * b + low);
  }

  lemma LowFields(w: u32)
    ensures w / 2 % 2 == w % 0x1_0000 / 2 % 2 && w % 2 == w % 0x1_0000 % 2
    ensures w / 2 % 1024 == w % 0x1_0000 / 2 % 1024
    ensures w / 4 % 0x4000 * 4 == w % 0x1_0000 / 4 * 4
    ensures w / 4 % 0x100_0000 * 4
            == w / 0x20_0000 % 32 * 0x20_0000 + w / 0x1_0000 % 32 * 0x1_0000 + w % 0x1_0000 / 4 * 4
  {
    var h, low := w / 0x1_0000, w % 0x1_0000;
    assert w / 0x20_0000 == h / 32;
    LowHalves(h, low);
    LowQuarters(h, low);
  }

  lemma LowHalves(h: nat, low: u16)
    ensures var w := h * 0x1_0000 + low;
            w / 2 % 2 == low / 2 % 2 && w % 2 == low % 2 && w / 2 % 1024 == low / 2 % 1024
  {
    var y := low / 2;
    assert (h * 0x1_0000 + low) / 2 == h * 0x8000 + y;
    QuotientUnique(h * 0x8000 + y, 1024, 32 * h + y / 1024, y % 1024);
    QuotientUnique(h * 0x8000 + y, 2, 0x4000 * h + y / 2, y % 2);
  }

  lemma LowQuarters(h: nat, low: u16)
    ensures var w := h * 0x1_0000 + low;
            w / 4 % 0x4000 * 4 == low / 4 * 4
            && w / 4 % 0x100_0000 * 4 == h / 32 % 32 * 0x20_0000 + h % 32 * 0x1_0000 + low / 4 * 4
  {
    var q := h * 0x4000 + low / 4;
    assert (h * 0x1_0000 + low) / 4 == q;
    assert q % 0x4000 == low / 4;
    assert h == h / 1024 * 1024 + h % 1024;
    QuotientUnique(q, 0x100_0000, h / 1024, h % 1024 * 0x4000 + low / 4);
    Digits32(h);
  }

  lemma Digits32(h: nat)
    ensures h % 1024 == h / 32 % 32 * 32 + h % 32
  {
    var g, b := h / 32, h % 32;
    var op, a := g / 32, g % 32;
    assert h == 32 * g + b && g == 32 * op + a;
    QuotientUnique(h, 1024, op, 32 * a + b);
  }

  // ------------------------------------------------------------ bijection

  /** classify reads back every field that encodeBranch accepted. */
  lemma ClassifyOfBranch(target: i32, absolute: bool, link: bool)
    requires EncodeBranch(target, absolute, link).Some?
    ensures var d := Classify(EncodeBranch(target, absolute, link).value);
            d.link == link && !d.isConditionalForm
            && (if absolute then d.kind == DirectAbsolute && Signed32(d.absoluteTarget) == target
                else d.kind == DirectRelative && d.displacement == target)
  {
    hide EncodeBranch, Disassemble, Classify;
    DisassembleBranch(target, absolute, link);
    ClassifyAgrees(EncodeBranch(target, absolute, link).value);
  }

  /** classify reads back every field that encodeBranchConditional accepted. */
  lemma ClassifyOfConditional(bo: Reg, bi: Reg, target: i32, absolute: bool, link: bool)
    requires EncodeBranchConditional(bo, bi, target, absolute, link).Some?
    ensures var d := Classify(EncodeBranchConditional(bo, bi, target, absolute, link).value);
            d.link == link && d.isConditionalForm && d.bo == bo && d.bi == bi
            && (if absolute then d.kind == DirectAbsolute && Signed32(d.absoluteTarget) == target
                else d.kind == DirectRelative && d.displacement == target)
  {
    hide EncodeBranchConditional, Disassemble, Classify;
    DisassembleBranchConditional(bo, bi, target, absolute, link);
    ClassifyAgrees(EncodeBranchConditional(bo, bi, target, absolute, link).value);
  }

  /** The target operand that the encoders take: a displacement, or an absolute address as int32_t. */
  function Operand(d: DecodedBranch): i32 {
    if d.kind == DirectAbsolute then Signed32(d.absoluteTarget) else d.displacement
  }

  /** Encoding what classify found in an opcode-18 or opcode-16 word gives the word back. */
  lemma {:induction false} ReencodeClassified(w: u32)
    requires w / 0x400_0000 == 18 || w / 0x400_0000 == 16
    ensures var d := Classify(w);
            (d.kind == DirectRelative || d.kind == DirectAbsolute)
            && (if d.isConditionalForm
                then EncodeBranchConditional(d.bo, d.bi, Operand(d), d.kind == DirectAbsolute, d.link)
                else EncodeBranch(Operand(d), d.kind == DirectAbsolute, d.link)) == Some(w)
  {
    hide Classify, EncodeBranch, EncodeBranchConditional, Disassemble, Wrap32, Signed32, SignedField;
    if w / 0x400_0000 == 18 {
      ReencodeIForm(w);
    } else {
      ReencodeBForm(w);
    }
  }

  lemma {:induction false} ReencodeIForm(w: u32)
    requires w / 0x400_0000 == 18
    ensures var d := Classify(w);
            !d.isConditionalForm && (d.kind == DirectRelative || d.kind == DirectAbsolute)
            && EncodeBranch(Operand(d), d.kind == DirectAbsolute, d.link) == Some(w)
  {
    hide Classify, EncodeBranch, Disassemble, Wrap32, Signed32, SignedField;
    ClassifyAgrees(w);
    BranchWord(w);
    FieldOperand(w / 4 % 0x100_0000 * 4, 0x200_0000);
  }

  lemma {:induction false} ReencodeBForm(w: u32)
    requires w / 0x400_0000 == 16
    ensures var d := Classify(w);
            d.isConditionalForm && (d.kind == DirectRelative || d.kind == DirectAbsolute)
            && EncodeBranchConditional(d.bo, d.bi, Operand(d), d.kind == DirectAbsolute, d.link) == Some(w)
  {
    hide Classify, EncodeBranchConditional, Disassemble, SignedField, Operand;
    BFormOperand(w);
    BranchWord(w);
    EncodedBc(w / 0x20_0000 % 32, w / 0x1_0000 % 32, w / 4 % 0x4000 * 4, w / 2 % 2 == 1, w % 2 == 1);
  }

  /** A B-form word from its fields. */
  lemma EncodedBc(bo: Reg, bi: Reg, f: nat, aa: bool, lk: bool)
    requires f % 4 == 0 && f < 0x1_0000
    ensures -0x8000 <= SignedField(f, 0x8000) < 0x8000
    ensures EncodeBranchConditional(bo, bi, SignedField(f, 0x8000), aa, lk)
            == Some(16 * 0x400_0000 + bo * 0x20_0000 + bi * 0x1_0000 + f + (if aa then 2 else 0) + (if lk then 1 else 0))
  {
    hide EncodeBranchConditional, SignedField, Wrap32, Signed32;
    FieldOperand(f, 0x8000);
  }

  lemma {:induction false} BFormOperand(w: u32)
    requires w / 0x400_0000 == 16
    ensures var d := Classify(w);
            d.isConditionalForm && (d.kind == DirectRelative || d.kind == DirectAbsolute)
            && d.bo == w / 0x20_0000 % 32 && d.bi == w / 0x1_0000 % 32 && (d.link <==> w % 2 == 1)
            && (d.kind == DirectAbsolute <==> w / 2 % 2 == 1) && Operand(d) == SignedField(w / 4 % 0x4000 * 4, 0x8000)
  {
    hide Classify, Disassemble, SignedField, Operand, OfInstr;
    var f := w / 4 % 0x4000 * 4;
    ClassifyAgrees(w);
    DisassembledBc(w);
    Multiple(f, 4, w / 4 % 0x4000);
    OperandOfBc(w / 0x20_0000 % 32, w / 0x1_0000 % 32, f, w / 2 % 2 == 1, w % 2 == 1);
  }

  lemma {:induction false} DisassembledBc(w: u32)
    requires w / 0x400_0000 == 16
    ensures Disassemble(w)
            == Bc(w / 0x20_0000 % 32, w / 0x1_0000 % 32, Signed16(w / 4 % 0x4000 * 4), w / 2 % 2 == 1, w % 2 == 1)
  {
    hide Disassemble, Signed16;
    BranchWord(w);
  }

  /** What the tool sees in a B-form instruction. */
  lemma OperandOfBc(bo: Reg, bi: Reg, f: nat, aa: bool, lk: bool)
    requires f % 4 == 0 && f < 0x1_0000
    ensures var d := OfInstr(Bc(bo, bi, Signed16(f), aa, lk));
            d.isConditionalForm && (d.kind == DirectRelative || d.kind == DirectAbsolute)
            && d.bo == bo && d.bi == bi && d.link == lk && (d.kind == DirectAbsolute <==> aa)
            && Operand(d) == SignedField(f, 0x8000)
  {
    hide SignedField, Wrap32, Signed32, Signed16;
    FieldOperand(f, 0x8000);
  }

  lemma FieldOperand(f: int, half: int)
    requires f % 4 == 0 && 0 <= f < 2 * half && (half == 0x200_0000 || half == 0x8000)
    ensures var d := SignedField(f, half);
            d % 4 == 0 && -half <= d <= half - 4 && d % (2 * half) == f && Signed32(Wrap32(d)) == d
            && (half == 0x8000 ==> Signed16(f) == d)
  {
    var q, d := f / 4, SignedField(f, half);
    assert f == 4 * q;
    if f < half {
      QuotientUnique(d, 2 * half, 0, f);
      QuotientUnique(d, M32, 0, d);
      FieldTop(q, half);
    } else {
      assert d == f - 2 * half == 4 * (q - (if half == 0x8000 then 0x4000 else 0x100_0000));
      Multiple(d, 4, q - (if half == 0x8000 then 0x4000 else 0x100_0000));
      QuotientUnique(d, 2 * half, -1, f);
      QuotientUnique(d, M32, -1, d + M32);
      FieldTop(q - (if half == 0x8000 then 0x4000 else 0x100_0000), half);
    }
  }

  lemma FieldTop(k: int, half: int)
    requires 4 * k < half && (half == 0x200_0000 || half == 0x8000)
    ensures 4 * k <= half - 4
  {
  }

  /** The operand fields of an opcode-18 or opcode-16 word, and the word as their sum. */
  lemma {:induction false} BranchWord(w: u32)
    requires w / 0x400_0000 == 18 || w / 0x400_0000 == 16
    ensures var aa, lk := w / 2 % 2 == 1, w % 2 == 1;
            if w / 0x400_0000 == 18
            then Disassemble(w) == B(SignedField(w / 4 % 0x100_0000 * 4, 0x200_0000), aa, lk)
                 && w == 18 * 0x400_0000 + w / 4 % 0x100_0000 * 4 + w / 2 % 2 * 2 + w % 2
            else Disassemble(w) == Bc(w / 0x20_0000 % 32, w / 0x1_0000 % 32, Signed16(w / 4 % 0x4000 * 4), aa, lk)
                 && w == 16 * 0x400_0000 + w / 0x20_0000 % 32 * 0x20_0000 + w / 0x1_0000 % 32 * 0x1_0000
                         + w / 4 % 0x4000 * 4 + w / 2 % 2 * 2 + w % 2
  {
    hide Disassemble;
    WordFields(w);
    LowFields(w);
    FieldsOf(w, w / 0x400_0000, w / 0x20_0000 % 32, w / 0x1_0000 % 32, w % 0x1_0000);
    Bits4(w % 0x1_0000);
  }

  lemma Bits4(low: nat)
    ensures low == low / 4 * 4 + low / 2 % 2 * 2 + low % 2
  {
    var h := low / 2;
    assert low == 2 * h + low % 2 && h == 2 * (h / 2) + h % 2 && low / 4 == h / 2;
  }

  // ----------------------------------------------------------- relocation

  function RelocateBranch(branch: DecodedBranch, originalAddr: u32, newAddr: u32): Option<u32> {
    if branch.kind != DirectRelative then None
    else
      var originalTarget := Wrap32(originalAddr + Wrap32(branch.displacement));
      var newDisplacement := originalTarget - newAddr;
      if newDisplacement < -0x8000_0000 || newDisplacement > 0x7FFF_FFFF then None
      else if branch.isConditionalForm then
        EncodeBranchConditional(branch.bo, branch.bi, newDisplacement, false, branch.link)
      else EncodeBranch(newDisplacement, false, branch.link)
  }

  /** The displacement a relative branch needs at its new address, on 32-bit addresses. */
  function CorrectedDisplacement(displacement: int, originalAddr: u32, newAddr: u32): int {
    Wrap32(originalAddr + displacement) - newAddr
  }

  /** The displacements a 24-bit LI or a 14-bit BD field holds. */
  predicate Fits(displacement: int, conditional: bool) {
    displacement % 4 == 0
    && (if conditional then -0x8000 <= displacement < 0x8000 else -0x200_0000 <= displacement < 0x200_0000)
  }

  function DisplacementOf(i: Instr): int
    requires i.IsRelative()
  {
    if i.B? then i.li else i.bd
  }

  function WithDisplacement(i: Instr, d: int): Instr
    requires i.IsRelative() && Fits(d, i.Bc?)
  {
    if i.B? then i.(li := d) else i.(bd := d)
  }

  /**
   * Relocation succeeds exactly when the corrected displacement fits the
   * field, and then changes nothing but the displacement.
   */
  lemma {:induction false} RelocateBranchSpec(w: u32, originalAddr: u32, newAddr: u32)
    ensures Classify(w).kind == DirectRelative <==> Disassemble(w).IsRelative()
    ensures var i := Disassemble(w);
            i.IsRelative() ==>
            var d := CorrectedDisplacement(DisplacementOf(i), originalAddr, newAddr);
            var r := RelocateBranch(Classify(w), originalAddr, newAddr);
            (r.Some? <==> Fits(d, i.Bc?)) && (r.Some? ==> Disassemble(r.value) == WithDisplacement(i, d))
  {
    hide Classify, EncodeBranch, EncodeBranchConditional, Disassemble;
    ClassifyAgrees(w);
    var i := Disassemble(w);
    if i.IsRelative() {
      var d := CorrectedDisplacement(DisplacementOf(i), originalAddr, newAddr);
      assert Wrap32(originalAddr + Wrap32(DisplacementOf(i))) == Wrap32(originalAddr + DisplacementOf(i));
      if Fits(d, i.Bc?) {
        if i.Bc? {
          DisassembleBranchConditional(i.bo, i.bi, d, false, i.lk);
        } else {
          DisassembleBranch(d, false, i.lk);
        }
      }
    }
  }

  /**
   * A relocated branch has the original's 64-bit target exactly when that
   * target is a 32-bit address: the source computes it modulo 2^32.
   */
  lemma RelocatedTarget(w: u32, originalAddr: u32, newAddr: u32)
    requires Disassemble(w).IsRelative() && RelocateBranch(Classify(w), originalAddr, newAddr).Some?
    ensures var moved := Disassemble(RelocateBranch(Classify(w), originalAddr, newAddr).value);
            var d := DisplacementOf(Disassemble(w));
            moved.IsRelative()
            && (Wrap(newAddr + DisplacementOf(moved)) == Wrap(originalAddr + d) <==> 0 <= originalAddr + d < M32)
  {
    hide Classify, Disassemble, RelocateBranch;
    RelocateBranchSpec(w, originalAddr, newAddr);
  }

  /** For one, `b -8` at address 4, moved to 0xFFFF_0000, goes to 0xFFFF_FFFC instead of to 2^64 - 4. */
  lemma {:induction false} WrappedTarget()
    ensures EncodeBranch(-8, false, false).Some?
    ensures var w := EncodeBranch(-8, false, false).value;
            var moved := RelocateBranch(Classify(w), 4, 0xFFFF_0000);
            Wrap(4 + DisplacementOf(B(-8, false, false))) == M64 - 4
            && moved.Some? && Disassemble(moved.value) == B(0xFFFC, false, false)
  {
    hide Classify, Disassemble, RelocateBranch, EncodeBranch;
    DisassembleBranch(-8, false, false);
    RelocateBranchSpec(EncodeBranch(-8, false, false).value, 4, 0xFFFF_0000);
  }

  /** Moving a branch from A to B and back restores the word exactly when its target does not wrap. */
  lemma {:induction false} RelocateThereAndBack(w: u32, a: u32, b: u32)
    requires a % 4 == 0 && b % 4 == 0
    requires Disassemble(w).IsRelative() && RelocateBranch(Classify(w), a, b).Some?
    ensures RelocateBranch(Classify(RelocateBranch(Classify(w), a, b).value), b, a) == Some(w)
            <==> 0 <= a + DisplacementOf(Disassemble(w)) < M32
  {
    hide Classify, Disassemble, RelocateBranch;
    RelocateBranchSpec(w, a, b);
    var there := RelocateBranch(Classify(w), a, b).value;
    RelocateBranchSpec(there, b, a);
    var d := DisplacementOf(Disassemble(w));
    assert CorrectedDisplacement(DisplacementOf(Disassemble(there)), b, a) == Wrap32(a + d) - a by {
      assert Wrap32(b + (Wrap32(a + d) - b)) == Wrap32(a + d);
    }
    var back := RelocateBranch(Classify(there), b, a);
    if 0 <= a + d < M32 {
      RelativeOpcode(w);
      BranchFits(w);
      assert Disassemble(back.value) == Disassemble(w);
      SameInstruction(w, back.value);
    }
  }

  lemma {:induction false} BranchFits(w: u32)
    requires Disassemble(w).IsRelative()
    ensures Fits(DisplacementOf(Disassemble(w)), Disassemble(w).Bc?)
  {
    hide Disassemble, SignedField, Signed16;
    RelativeOpcode(w);
    BranchWord(w);
    FieldOperand(w / 4 % 0x100_0000 * 4, 0x200_0000);
    FieldOperand(w / 4 % 0x4000 * 4, 0x8000);
  }

  /** A relative branch word is determined by the instruction it disassembles to. */
  lemma {:induction false} SameInstruction(w: u32, v: u32)
    requires Disassemble(w).IsRelative() && Disassemble(v) == Disassemble(w)
    ensures v == w
  {
    hide Classify, Disassemble, EncodeBranch, EncodeBranchConditional;
    RelativeOpcode(w);
    RelativeOpcode(v);
    ClassifyAgrees(w);
    ClassifyAgrees(v);
    ReencodeClassified(w);
    ReencodeClassified(v);
  }

  lemma RelativeOpcode(w: u32)
    requires Disassemble(w).IsRelative()
    ensures w / 0x400_0000 == 18 || w / 0x400_0000 == 16
  {
  }
}
