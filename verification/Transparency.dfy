// Running the straight-line pieces: loading constants, saving and restoring.
module Transparency {
  import opened Bits
  import opened Bytes
  import opened Isa
  import opened Machine
  import opened Listing

  // ------------------------------------------------------ loading constants

  /** What lis, ori, clrldi leave in the register. */
  function LoadedValue(cpu: Cpu, v: u32): u64 {
    if cpu.mbInOrder || v < 0x8000_0000 then v else v + 0xFFFF_0000_0000
  }

  predicate Loads(cpu: Cpu, v: u32) {
    cpu.mbInOrder || v < 0x8000_0000
  }

  lemma SignedHalves(v: u32)
    ensures var high := Wrap(Signed16(v / 0x1_0000) * 0x1_0000);
            high % 0x1_0000 == 0 && high + v % 0x1_0000 == Wrap(SignedField(v, 0x8000_0000))
  {
    var hi, lo := v / 0x1_0000, v % 0x1_0000;
    assert v == hi * 0x1_0000 + lo;
    if hi < 0x8000 {
      assert Wrap(hi * 0x1_0000) == hi * 0x1_0000;
    } else {
      assert Wrap((hi - 0x1_0000) * 0x1_0000) == M64 + (hi - 0x1_0000) * 0x1_0000;
      assert (M64 + (hi - 0x1_0000) * 0x1_0000) == (0x1_0000_0000_0000 + hi - 0x1_0000) * 0x1_0000;
    }
  }

  lemma OrOfHalves(v: u32)
    ensures Wrap(0 + Signed16(v / 0x1_0000) * 0x1_0000) >= 0
    ensures Wrap(Or(Wrap(0 + Signed16(v / 0x1_0000) * 0x1_0000), v % 0x1_0000)) == Wrap(SignedField(v, 0x8000_0000))
  {
    hide Or, Pow2, Signed16, SignedField;
    var high := Wrap(Signed16(v / 0x1_0000) * 0x1_0000);
    SignedHalves(v);
    Powers();
    OrLow(high, 16, 0x1_0000, v % 0x1_0000);
  }

  /** lis and ori alone leave the sign-extended value. */
  lemma HalvesExecute(cpu: Cpu, r: Reg, v: u32, c: Core)
    ensures ExecuteAll(cpu, LoadList(r, v)[..2], c) == c.(gpr := c.gpr[r := Wrap(SignedField(v, 0x8000_0000))])
  {
    hide Or, Pow2, Wrap, Signed16, SignedField;
    var prog := LoadList(r, v)[..2];
    var c1 := Execute(cpu, prog[0], c);
    OrOfHalves(v);
    var c2 := Execute(cpu, prog[1], c1);
    assert c2.gpr == c.gpr[r := Wrap(SignedField(v, 0x8000_0000))];
    assert prog[1..] == [prog[1]] && prog[1..][1..] == [];
    assert ExecuteAll(cpu, prog[1..], c1) == ExecuteAll(cpu, [], c2);
  }

  /** The third instruction clears the top 32 bits, or as the architecture reads it the top 16. */
  lemma ClearExecute(cpu: Cpu, r: Reg, x: u64, c: Core)
    requires c.gpr[r] == x
    ensures Execute(cpu, Rldicl(r, r, 0, 32), c)
            == c.(gpr := c.gpr[r := if cpu.mbInOrder then x % M32 else x % 0x1_0000_0000_0000])
  {
    hide Pow2, Shr;
    Powers();
    ShrIs(x, 64, M64);
    assert RotateLeft(x, 0) == x;
    assert MaskBegin(cpu, 32) == if cpu.mbInOrder then 32 else 16;
  }

  lemma ClearedValue(cpu: Cpu, v: u32)
    ensures var x := Wrap(SignedField(v, 0x8000_0000));
            (if cpu.mbInOrder then x % M32 else x % 0x1_0000_0000_0000) == LoadedValue(cpu, v)
  {
    if v < 0x8000_0000 {
      SmallValue(v);
    } else {
      SignedWord(v);
      var x := v + 0xFFFF_FFFF_0000_0000;
      QuotientUnique(x, M32, 0xFFFF_FFFF, v);
      QuotientUnique(x, 0x1_0000_0000_0000, 0xFFFF, v + 0xFFFF_0000_0000);
    }
  }

  lemma SmallValue(v: u32)
    requires v < 0x8000_0000
    ensures Wrap(v) == v && v % M32 == v && v % 0x1_0000_0000_0000 == v
  {
  }

  lemma SignedWord(v: u32)
    requires v >= 0x8000_0000
    ensures Wrap(SignedField(v, 0x8000_0000)) == v + 0xFFFF_FFFF_0000_0000
  {
  }

  lemma {:induction false} LoadExecute(cpu: Cpu, r: Reg, v: u32, c: Core)
    ensures ExecuteAll(cpu, LoadList(r, v), c) == c.(gpr := c.gpr[r := LoadedValue(cpu, v)])
  {
    hide Execute;
    HalvesExecute(cpu, r, v, c);
    var prog := LoadList(r, v);
    var x := Wrap(SignedField(v, 0x8000_0000));
    var c2 := c.(gpr := c.gpr[r := x]);
    assert prog == prog[..2] + [prog[2]];
    ExecuteAllAppend(cpu, prog[..2], [prog[2]], c);
    ClearExecute(cpu, r, x, c2);
    ClearedValue(cpu, v);
    assert c2.gpr[r := LoadedValue(cpu, v)] == c.gpr[r := LoadedValue(cpu, v)];
    assert [prog[2]][1..] == [];
    assert ExecuteAll(cpu, [prog[2]], c2) == Execute(cpu, prog[2], c2);
  }

  /**
   * The sequence leaves exactly the zero-extended constant in its register,
   * changing nothing else, exactly when the value is below 2^31 or the mask
   * bits are read in the order the encoder wrote them. Without its third
   * instruction the sequence is right exactly below 2^31.
   */
  lemma {:induction false} LoadImmediateExact(cpu: Cpu, r: Reg, v: u32, c: Core)
    ensures ExecuteAll(cpu, LoadList(r, v), c) == c.(gpr := c.gpr[r := v]) <==> Loads(cpu, v)
    ensures ExecuteAll(cpu, LoadList(r, v)[..2], c) == c.(gpr := c.gpr[r := v]) <==> v < 0x8000_0000
  {
    hide Execute, ExecuteAll, LoadList;
    LoadExecute(cpu, r, v, c);
    HalvesExecute(cpu, r, v, c);
    assert c.gpr[r := LoadedValue(cpu, v)][r] == LoadedValue(cpu, v) && c.gpr[r := v][r] == v;
    assert c.gpr[r := Wrap(SignedField(v, 0x8000_0000))][r] == Wrap(SignedField(v, 0x8000_0000));
  }

  /** For one, the address 0x8000_0000 reaches the register of the architecture's machine with bits 32 to 47 set. */
  lemma {:induction false} HighAddressMisloads(cpu: Cpu, r: Reg, c: Core)
    requires !cpu.mbInOrder
    ensures ExecuteAll(cpu, LoadList(r, 0x8000_0000), c).gpr[r] == 0xFFFF_8000_0000
  {
    hide ExecuteAll, LoadList;
    LoadExecute(cpu, r, 0x8000_0000, c);
  }

  // -------------------------------------------------------- saving registers

  /** The values the prologue saves, in slot order: r0, LR, CTR, r3 .. r12. */
  function SaveVector(c: Core): (v: seq<u64>)
    ensures |v| == 13
  {
    [c.gpr[0], c.lr, c.ctr] + c.gpr[3..13]
  }

  /** Slot i of the frame at `base` holds v[i]. */
  ghost predicate Saved(m: Memory, base: int, v: seq<u64>) {
    forall i {:trigger v[i]} :: 0 <= i < |v| ==> LoadDoubleword(m, base + 128 + 8 * i) == v[i]
  }

  predicate InFrame(base: int, a: int) {
    Wrap(a - base) < 256
  }

  /** What the prologue may write: the back chain, and the thirteen slots above the 112-byte linkage area. */
  predicate InSlots(base: int, a: int) {
    Wrap(a - base) < 8 || 128 <= Wrap(a - base) < 232
  }

  ghost predicate SameOutsideSlots(m: Memory, m': Memory, base: int) {
    forall a: u64 {:trigger ByteAt(m', a)} :: !InSlots(base, a) ==> ByteAt(m', a) == ByteAt(m, a)
  }

  ghost predicate SameInFrame(m: Memory, m': Memory, base: int) {
    forall a: u64 {:trigger ByteAt(m', a)} :: InFrame(base, a) ==> ByteAt(m', a) == ByteAt(m, a)
  }

  /** No byte of the frame is a byte of the code. */
  ghost predicate FrameClear(base: int, code: Region) {
    0 <= code.lo && code.hi < M64 && forall a {:trigger InFrame(base, a)} :: code.Has(a) ==> !InFrame(base, a)
  }

  lemma StoreInSlots(m: Memory, base: int, offset: nat, v: u64)
    requires offset == 0 || 128 <= offset <= 224
    ensures SameOutsideSlots(m, StoreDoubleword(m, base + offset, v), base)
  {
    hide StoreBytes, BeBytes, Wrap;
    forall a: u64 | !InSlots(base, a)
      ensures ByteAt(StoreDoubleword(m, base + offset, v), a) == ByteAt(m, a)
    {
      ByteAfterStore(m, base + offset, BeBytes(v, 8), a);
      FarOffset(a, base, offset);
    }
  }

  lemma FarOffset(a: int, base: int, offset: nat)
    requires offset + 8 <= 256 && !(offset <= Wrap(a - base) < offset + 8)
    ensures Wrap(a - (base + offset)) >= 8
  {
    var d := Wrap(a - base);
    assert a - (base + offset) == d - offset + (a - base) / M64 * M64;
    OffsetModulo(d - offset, (a - base) / M64);
  }

  /** Storing the next slot extends the saved prefix. */
  lemma SaveNext(m: Memory, base: int, v: seq<u64>, x: u64)
    requires Saved(m, base, v) && |v| < 13
    ensures Saved(StoreDoubleword(m, base + 128 + 8 * |v|, x), base, v + [x])
  {
    hide StoreDoubleword, LoadDoubleword;
    var m' := StoreDoubleword(m, base + 128 + 8 * |v|, x);
    LoadStoreSame(m, base + 128 + 8 * |v|, x);
    forall i | 0 <= i < |v|
      ensures LoadDoubleword(m', base + 128 + 8 * i) == v[i]
    {
      LoadStoreOther(m, base + 128, 8 * |v|, 8 * i, x);
    }
  }

  lemma UnchangedOutsideSlots(m: Memory, m': Memory, base: int, code: Region)
    requires SameOutsideSlots(m, m', base) && FrameClear(base, code)
    ensures Unchanged(m, m', code)
  {
    forall a | code.Has(a)
      ensures ByteAt(m', a) == ByteAt(m, a)
    {
      assert !InFrame(base, a);
    }
  }

  /** One std to the next slot. */
  lemma SaveStep(cpu: Cpu, c: Core, base: int, v: seq<u64>, r: Reg, code: Region)
    requires c.gpr[1] == base && Saved(c.mem, base, v) && |v| < 13 && FrameClear(base, code)
    ensures var c' := Execute(cpu, Std(r, 1, 128 + 8 * |v|), c);
            c' == c.(mem := c'.mem) && Saved(c'.mem, base, v + [c.gpr[r]])
            && SameOutsideSlots(c.mem, c'.mem, base) && Unchanged(c.mem, c'.mem, code)
  {
    hide StoreDoubleword, Saved, SameOutsideSlots, Unchanged, FrameClear;
    SaveNext(c.mem, base, v, c.gpr[r]);
    StoreInSlots(c.mem, base, 128 + 8 * |v|, c.gpr[r]);
    UnchangedOutsideSlots(c.mem, Execute(cpu, Std(r, 1, 128 + 8 * |v|), c).mem, base, code);
  }

  /** A list saves: it runs from c to c', which has the same registers and the slots in v. */
  ghost predicate Saves(cpu: Cpu, prog: seq<Instr>, c: Core, c': Core, base: int, v: seq<u64>, code: Region) {
    ExecuteAll(cpu, prog, c) == c' && KeepsCode(cpu, prog, c, code)
    && Saved(c'.mem, base, v) && SameOutsideSlots(c.mem, c'.mem, base)
  }

  lemma SavesCons(cpu: Cpu, i: Instr, rest: seq<Instr>, c: Core, c1: Core, c': Core, base: int, v: seq<u64>, code: Region)
    requires c1 == Execute(cpu, i, c) && Unchanged(c.mem, c1.mem, code) && SameOutsideSlots(c.mem, c1.mem, base)
    requires Saves(cpu, rest, c1, c', base, v, code)
    ensures Saves(cpu, [i] + rest, c, c', base, v, code)
  {
    hide Execute, Unchanged;
    assert ([i] + rest)[1..] == rest;
    forall a: u64 | !InSlots(base, a)
      ensures ByteAt(c'.mem, a) == ByteAt(c.mem, a)
    {
      assert ByteAt(c1.mem, a) == ByteAt(c.mem, a);
    }
  }

  /** The ten std of r3+k .. r12. */
  lemma {:induction false} SaveRegisters(cpu: Cpu, c: Core, base: int, v: seq<u64>, k: nat, code: Region)
    requires k <= 10 && |v| == 3 + k
    requires c.gpr[1] == base && Saved(c.mem, base, v) && FrameClear(base, code)
    ensures var c' := ExecuteAll(cpu, SaveList(k), c);
            c' == c.(mem := c'.mem) && Saves(cpu, SaveList(k), c, c', base, v + c.gpr[3 + k..13], code)
    decreases 10 - k
  {
    hide Execute, Saved, FrameClear, Unchanged;
    if k == 10 {
      assert v + c.gpr[13..13] == v;
    } else {
      SaveStep(cpu, c, base, v, 3 + k, code);
      var c1 := Execute(cpu, Std(3 + k, 1, 152 + 8 * k), c);
      SaveRegisters(cpu, c1, base, v + [c.gpr[3 + k]], k + 1, code);
      var c' := ExecuteAll(cpu, SaveList(k + 1), c1);
      assert v + [c.gpr[3 + k]] + c.gpr[4 + k..13] == v + c.gpr[3 + k..13];
      SavesCons(cpu, Std(3 + k, 1, 152 + 8 * k), SaveList(k + 1), c, c1, c', base, v + c.gpr[3 + k..13], code);
    }
  }

  ghost predicate PrologueDone(cpu: Cpu, c: Core, c': Core, base: u64, code: Region) {
    c' == c.(mem := c'.mem, gpr := c.gpr[1 := base][0 := c.ctr])
    && Saves(cpu, PrologueList(), c, c', base, SaveVector(c), code)
  }

  /**
   * The prologue: afterwards r1 is 256 lower, r0 holds CTR, every other
   * register is as before, and the thirteen slots of the new frame hold the
   * entry values. Beside the back chain and those slots nothing is written.
   */
  lemma {:induction false} PrologueExecute(cpu: Cpu, c: Core, code: Region)
    requires FrameClear(Wrap(c.gpr[1] as int - 256), code)
    ensures PrologueDone(cpu, c, ExecuteAll(cpu, PrologueList(), c), Wrap(c.gpr[1] as int - 256), code)
  {
    hide StoreDoubleword, SaveList, FrameClear, Saved, Unchanged, SameOutsideSlots, ExecuteAll, KeepsCode, Saves;
    var base := Wrap(c.gpr[1] as int - 256);
    var c1 := Execute(cpu, Stdu(1, 1, -256), c);
    StackPush(cpu, c, code);
    assert Saved(c1.mem, base, []) by { SavedNothing(c1.mem, base); }
    var i2, i4, i6 := Std(0, 1, 128), Std(0, 1, 136), Std(0, 1, 144);
    SaveStep(cpu, c1, base, [], 0, code);
    var c2 := Execute(cpu, i2, c1);
    var c3 := Execute(cpu, Mflr(0), c2);
    assert [] + [c.gpr[0]] == [c.gpr[0]];
    SaveStep(cpu, c3, base, [c.gpr[0]], 0, code);
    var c4 := Execute(cpu, i4, c3);
    var c5 := Execute(cpu, Mfctr(0), c4);
    var v2 := [c.gpr[0], c.lr];
    assert [c.gpr[0]] + [c.lr] == v2;
    SaveStep(cpu, c5, base, v2, 0, code);
    var c6 := Execute(cpu, i6, c5);
    var v3 := v2 + [c.ctr];
    SaveRegisters(cpu, c6, base, v3, 0, code);
    var c' := ExecuteAll(cpu, SaveList(0), c6);
    assert c6.gpr == c.gpr[1 := base][0 := c.ctr];
    assert v3 + c6.gpr[3..13] == SaveVector(c);
    var v := SaveVector(c);
    NoChange(c2.mem, base, code);
    NoChange(c4.mem, base, code);
    SavesCons(cpu, i6, SaveList(0), c5, c6, c', base, v, code);
    SavesCons(cpu, Mfctr(0), [i6] + SaveList(0), c4, c5, c', base, v, code);
    SavesCons(cpu, i4, [Mfctr(0)] + ([i6] + SaveList(0)), c3, c4, c', base, v, code);
    SavesCons(cpu, Mflr(0), [i4] + ([Mfctr(0)] + ([i6] + SaveList(0))), c2, c3, c', base, v, code);
    SavesCons(cpu, i2, [Mflr(0)] + ([i4] + ([Mfctr(0)] + ([i6] + SaveList(0)))), c1, c2, c', base, v, code);
    SavesCons(cpu, Stdu(1, 1, -256), [i2] + ([Mflr(0)] + ([i4] + ([Mfctr(0)] + ([i6] + SaveList(0))))), c, c1, c',
              base, v, code);
    assert PrologueList()
           == [Stdu(1, 1, -256)] + ([i2] + ([Mflr(0)] + ([i4] + ([Mfctr(0)] + ([i6] + SaveList(0))))));
    SavesIs(cpu, PrologueList(), c, c', base, v, code);
  }

  lemma SavesIs(cpu: Cpu, prog: seq<Instr>, c: Core, c': Core, base: int, v: seq<u64>, code: Region)
    requires Saves(cpu, prog, c, c', base, v, code)
    ensures ExecuteAll(cpu, prog, c) == c'
  {
  }

  lemma NoChange(m: Memory, base: int, code: Region)
    ensures Unchanged(m, m, code) && SameOutsideSlots(m, m, base)
  {
  }

  lemma SavedNothing(m: Memory, base: int)
    ensures Saved(m, base, [])
  {
  }

  lemma StackPush(cpu: Cpu, c: Core, code: Region)
    requires FrameClear(Wrap(c.gpr[1] as int - 256), code)
    ensures var base := Wrap(c.gpr[1] as int - 256);
            var c1 := Execute(cpu, Stdu(1, 1, -256), c);
            c1 == c.(mem := c1.mem, gpr := c.gpr[1 := base])
            && SameOutsideSlots(c.mem, c1.mem, base) && Unchanged(c.mem, c1.mem, code)
  {
    hide StoreDoubleword, FrameClear, SameOutsideSlots, Unchanged;
    var base := Wrap(c.gpr[1] as int - 256);
    var m1 := StoreDoubleword(c.mem, c.gpr[1] as int - 256, c.gpr[1]);
    StoreInSlots(c.mem, c.gpr[1] as int - 256, 0, c.gpr[1]);
    SameBase(c.mem, m1, c.gpr[1] as int - 256);
    UnchangedOutsideSlots(c.mem, m1, base, code);
  }

  lemma WholeTurns(x: int, k: int)
    ensures Wrap(x + k * M64) == Wrap(x)
  {
  }

  /** A frame base may be given before or after it wraps. */
  lemma SameBase(m: Memory, m': Memory, base: int)
    requires SameOutsideSlots(m, m', base)
    ensures SameOutsideSlots(m, m', Wrap(base))
  {
    forall a: u64 | !InSlots(Wrap(base), a)
      ensures ByteAt(m', a) == ByteAt(m, a)
    {
      WholeTurns(a - base, base / M64);
      assert a - Wrap(base) == a - base + base / M64 * M64;
    }
  }

  // ----------------------------------------------------- restoring registers

  lemma InFrameOffset(base: int, k: nat)
    requires k < 256
    ensures InFrame(base, Wrap(base + k))
  {
    OffsetFrom(base, k, base);
  }

  lemma SavedKept(m: Memory, m': Memory, base: int, v: seq<u64>)
    requires Saved(m, base, v) && |v| <= 13 && SameInFrame(m, m', base)
    ensures Saved(m', base, v)
  {
    hide Wrap, InFrame;
    forall i | 0 <= i < |v|
      ensures LoadDoubleword(m', base + 128 + 8 * i) == v[i]
    {
      var a := base + 128 + 8 * i;
      var before, after := LoadBytes(m, a, 8), LoadBytes(m', a, 8);
      forall k | 0 <= k < 8
        ensures after[k] == before[k]
      {
        InFrameOffset(base, 128 + 8 * i + k);
        assert a + k == base + (128 + 8 * i + k);
      }
      assert after == before;
    }
  }

  lemma SlotLoad(cpu: Cpu, c: Core, base: int, v: seq<u64>, r: Reg, i: nat)
    requires c.gpr[1] == base && Saved(c.mem, base, v) && |v| == 13 && i < 13
    ensures Execute(cpu, Ld(r, 1, 128 + 8 * i), c) == c.(gpr := c.gpr[r := v[i]])
  {
    hide LoadDoubleword;
    assert LoadDoubleword(c.mem, base + 128 + 8 * i) == v[i];
    assert RegOrZero(c, 1) + (128 + 8 * i) == base + 128 + 8 * i;
  }

  lemma {:induction false} RestoreRegisters(cpu: Cpu, c: Core, base: int, v: seq<u64>, k: nat)
    requires k <= 10 && |v| == 13 && c.gpr[1] == base && Saved(c.mem, base, v)
    ensures ExecuteAll(cpu, RestoreList(k), c) == c.(gpr := c.gpr[..3 + k] + v[3 + k..] + c.gpr[13..])
    decreases 10 - k
  {
    hide Execute, Saved;
    if k == 10 {
      assert c.gpr[..13] + v[13..] + c.gpr[13..] == c.gpr;
    } else {
      SlotLoad(cpu, c, base, v, 3 + k, 3 + k);
      var c1 := c.(gpr := c.gpr[3 + k := v[3 + k]]);
      RestoreRegisters(cpu, c1, base, v, k + 1);
      assert c1.gpr[..4 + k] + v[4 + k..] + c1.gpr[13..] == c.gpr[..3 + k] + v[3 + k..] + c.gpr[13..];
    }
  }

  lemma ExecuteCons(cpu: Cpu, i: Instr, rest: seq<Instr>, c: Core)
    ensures ExecuteAll(cpu, [i] + rest, c) == ExecuteAll(cpu, rest, Execute(cpu, i, c))
  {
    assert ([i] + rest)[1..] == rest;
  }

  /** Registers loaded back from the slots, r1 above the frame. */
  function Restored(c: Core, base: int, v: seq<u64>): Core
    requires |v| == 13
  {
    c.(gpr := [v[0], Wrap(base + 256), c.gpr[2]] + v[3..] + c.gpr[13..], lr := v[1], ctr := v[2])
  }

  /** The epilogue loads every saved value back and pops the frame. */
  lemma {:induction false} EpilogueExecute(cpu: Cpu, c: Core, base: int, v: seq<u64>)
    requires |v| == 13 && c.gpr[1] == base && Saved(c.mem, base, v)
    ensures ExecuteAll(cpu, EpilogueList(), c) == Restored(c, base, v)
  {
    hide LoadDoubleword, RestoreList, Saved, ExecuteAll;
    SlotLoad(cpu, c, base, v, 0, 1);
    var c1 := Execute(cpu, Ld(0, 1, 136), c);
    var c2 := Execute(cpu, Mtlr(0), c1);
    SlotLoad(cpu, c2, base, v, 0, 2);
    var c3 := Execute(cpu, Ld(0, 1, 144), c2);
    var c4 := Execute(cpu, Mtctr(0), c3);
    RestoreRegisters(cpu, c4, base, v, 0);
    var c5 := c4.(gpr := c4.gpr[..3] + v[3..] + c4.gpr[13..]);
    SlotLoad(cpu, c5, base, v, 0, 0);
    var c6 := Execute(cpu, Ld(0, 1, 128), c5);
    var c7 := Execute(cpu, Addi(1, 1, 256), c6);
    var tail := [Ld(0, 1, 128)] + ([Addi(1, 1, 256)] + []);
    var rest := RestoreList(0) + tail;
    assert EpilogueList() == [Ld(0, 1, 136)] + ([Mtlr(0)] + ([Ld(0, 1, 144)] + ([Mtctr(0)] + rest)));
    ExecuteCons(cpu, Ld(0, 1, 136), [Mtlr(0)] + ([Ld(0, 1, 144)] + ([Mtctr(0)] + rest)), c);
    ExecuteCons(cpu, Mtlr(0), [Ld(0, 1, 144)] + ([Mtctr(0)] + rest), c1);
    ExecuteCons(cpu, Ld(0, 1, 144), [Mtctr(0)] + rest, c2);
    ExecuteCons(cpu, Mtctr(0), rest, c3);
    ExecuteAllAppend(cpu, RestoreList(0), tail, c4);
    ExecuteCons(cpu, Ld(0, 1, 128), [Addi(1, 1, 256)] + [], c5);
    ExecuteCons(cpu, Addi(1, 1, 256), [], c6);
    ExecuteNothing(cpu, c7);
    assert c7.gpr == Restored(c, base, v).gpr;
  }

  lemma ExecuteNothing(cpu: Cpu, c: Core)
    ensures ExecuteAll(cpu, [], c) == c
  {
  }

  /** Foreign code between prologue and epilogue may change everything except r1, r13-r31 and the frame. */
  ghost predicate Respects(c1: Core, c3: Core, base: int) {
    c3.gpr[1] == c1.gpr[1] && c3.gpr[13..] == c1.gpr[13..] && SameInFrame(c1.mem, c3.mem, base)
  }

  /**
   * Save/restore transparency: whatever runs between prologue and epilogue,
   * as long as it respects r1, r13-r31 and the frame, the epilogue gives back
   * the entry values of r0, r1, r3-r12, LR and CTR. Only r2, CR, XER and
   * memory are as the code in between left them.
   */
  lemma {:induction false} SaveRestore(cpu: Cpu, e: Core, c3: Core, code: Region)
    requires FrameClear(Wrap(e.gpr[1] as int - 256), code)
    requires Respects(ExecuteAll(cpu, PrologueList(), e), c3, Wrap(e.gpr[1] as int - 256))
    ensures ExecuteAll(cpu, EpilogueList(), c3)
            == Core(e.gpr[2 := c3.gpr[2]], e.lr, e.ctr, c3.cr, c3.xer, c3.mem)
  {
    hide PrologueList, EpilogueList, ExecuteAll, Saved, SameInFrame, SameOutsideSlots, KeepsCode, FrameClear;
    var base := Wrap(e.gpr[1] as int - 256);
    PrologueExecute(cpu, e, code);
    var c1 := ExecuteAll(cpu, PrologueList(), e);
    var v := SaveVector(e);
    SavedKept(c1.mem, c3.mem, base, v);
    EpilogueExecute(cpu, c3, base, v);
    assert Wrap(base as int + 256) == e.gpr[1];
    assert c3.gpr[13..] == e.gpr[13..];
    assert [v[0], e.gpr[1], c3.gpr[2]] + v[3..] + c3.gpr[13..] == e.gpr[2 := c3.gpr[2]];
  }
}
