// A 64-bit PowerPC thread: 32 general registers, LR, CTR, CR, XER, a program
// counter and byte memory (Power ISA 2.06 Book I, sections 2.3, 2.4 and 3.3).
module Machine {
  import opened Bits
  import opened Bytes
  import opened Isa

  // ---------------------------------------------------------------- memory

  /** Byte memory over 64-bit addresses; an address never written holds 0. */
  type Memory = map<int, u8>

  function ByteAt(m: Memory, a: int): u8 {
    if a in m then m[a] else 0
  }

  function StoreBytes(m: Memory, a: int, bytes: seq<u8>): Memory
    decreases |bytes|
  {
    if bytes == [] then m else StoreBytes(m[Wrap(a) := bytes[0]], a + 1, bytes[1..])
  }

  function LoadBytes(m: Memory, a: int, n: nat): (s: seq<u8>)
    ensures |s| == n
    ensures forall i {:trigger s[i]} :: 0 <= i < n ==> s[i] == ByteAt(m, Wrap(a + i))
  {
    seq<u8>(n, i => ByteAt(m, Wrap(a + i)))
  }

  function StoreDoubleword(m: Memory, a: int, v: u64): Memory {
    StoreBytes(m, a, BeBytes(v, 8))
  }

  function LoadDoubleword(m: Memory, a: int): (v: u64) {
    BeValueBound(LoadBytes(m, a, 8));
    Powers256();
    BeValue(LoadBytes(m, a, 8))
  }

  function FetchWord(m: Memory, pc: int): (w: u32) {
    BeValueBound(LoadBytes(m, pc, 4));
    Powers256();
    BeValue(LoadBytes(m, pc, 4))
  }

  lemma {:induction false} ByteAfterStore(m: Memory, a: int, bytes: seq<u8>, x: u64)
    requires |bytes| < M64
    ensures ByteAt(StoreBytes(m, a, bytes), x)
            == if Wrap(x - a) < |bytes| then bytes[Wrap(x - a)] else ByteAt(m, x)
    decreases |bytes|
  {
    hide Wrap;
    if bytes != [] {
      ByteAfterStore(m[Wrap(a) := bytes[0]], a + 1, bytes[1..], x);
      NextOffset(x, a);
    }
  }

  /** The offset of x from a + 1 is one less than from a, unless x is a. */
  lemma NextOffset(x: u64, a: int)
    ensures x == Wrap(a) <==> Wrap(x - a) == 0
    ensures Wrap(x - (a + 1)) == if x == Wrap(a) then M64 - 1 else Wrap(x - a) - 1
  {
    assert x - a == x - Wrap(a) - a / M64 * M64;
    OffsetModulo(x - Wrap(a), -(a / M64));
    OffsetModulo(x - Wrap(a) - 1, -(a / M64));
  }

  /** Whole turns round the address space do not matter. */
  lemma OffsetModulo(d: int, turns: int)
    requires -M64 <= d < M64
    ensures Wrap(d + turns * M64) == if d < 0 then d + M64 else d
  {
  }

  lemma LoadStoreSame(m: Memory, a: int, v: u64)
    ensures LoadDoubleword(StoreDoubleword(m, a, v), a) == v
  {
    hide BeBytes, BeValue, StoreBytes, Wrap;
    var bytes := BeBytes(v, 8);
    var m' := StoreDoubleword(m, a, v);
    forall i | 0 <= i < 8
      ensures LoadBytes(m', a, 8)[i] == bytes[i]
    {
      ByteAfterStore(m, a, bytes, Wrap(a + i));
      OffsetFrom(a, i, a);
    }
    assert LoadBytes(m', a, 8) == bytes;
    Powers256();
    BeValueOfBytes(v, 8);
  }

  lemma OffsetFrom(x: int, i: int, a: int)
    requires -0x2_0000 <= x + i - a < 0x2_0000
    ensures Wrap(Wrap(x + i) - a) == if x + i - a < 0 then x + i - a + M64 else x + i - a
  {
    assert Wrap(x + i) - a == (x + i - a) - (x + i) / M64 * M64;
    OffsetModulo(x + i - a, -((x + i) / M64));
  }

  /** Doublewords at offsets at least 8 apart from one base do not overlap. */
  lemma LoadStoreOther(m: Memory, base: int, i: nat, j: nat, v: u64)
    requires i < 0x1_0000 && j < 0x1_0000 && (i + 8 <= j || j + 8 <= i)
    ensures LoadDoubleword(StoreDoubleword(m, base + i, v), base + j) == LoadDoubleword(m, base + j)
  {
    hide BeBytes, BeValue, StoreBytes, Wrap;
    var before, after := LoadBytes(m, base + j, 8), LoadBytes(StoreDoubleword(m, base + i, v), base + j, 8);
    forall k | 0 <= k < 8
      ensures after[k] == before[k]
    {
      ByteAfterStore(m, base + i, BeBytes(v, 8), Wrap(base + j + k));
      OffsetFrom(base + j, k, base + i);
    }
    assert after == before;
  }

  // ----------------------------------------------------------------- state

  type Registers = r: seq<u64> | |r| == 32 witness seq(32, _ => 0)

  /** Everything but the program counter. */
  datatype Core = Core(gpr: Registers, lr: u64, ctr: u64, cr: u32, xer: u64, mem: Memory)

  datatype State = State(pc: u64, core: Core)

  /**
   * What the model leaves open. `other` executes any instruction outside the
   * modelled subset; it sees no program counter. `kernel` is a system call:
   * foreign code. `mbInOrder` says how the mask-begin bits of rldicl are read:
   * the architecture reads mb5 || mb0:4 (false); the encoder assumes they
   * stand in natural order (true).
   */
  datatype Cpu = Cpu(other: (u32, Core) -> Core, kernel: Core -> Core, mbInOrder: bool)

  function RegOrZero(c: Core, ra: Reg): u64 {
    if ra == 0 then 0 else c.gpr[ra]
  }

  function MaskBegin(cpu: Cpu, field: nat): nat {
    if cpu.mbInOrder then field else field % 2 * 32 + field / 2
  }

  function RotateLeft(x: u64, n: nat): nat
    requires n < 64
  {
    Up(x, n) % M64 + Shr(x, 64 - n)
  }

  function Execute(cpu: Cpu, i: Instr, c: Core): Core {
    match i
    case Addi(rt, ra, si) => c.(gpr := c.gpr[rt := Wrap(RegOrZero(c, ra) + si)])
    case Addis(rt, ra, si) => c.(gpr := c.gpr[rt := Wrap(RegOrZero(c, ra) + si * 0x1_0000)])
    case Ori(ra, rs, ui) => c.(gpr := c.gpr[ra := Wrap(Or(c.gpr[rs], ui))])
    case Mflr(rt) => c.(gpr := c.gpr[rt := c.lr])
    case Mfctr(rt) => c.(gpr := c.gpr[rt := c.ctr])
    case Mtlr(rs) => c.(lr := c.gpr[rs])
    case Mtctr(rs) => c.(ctr := c.gpr[rs])
    case Std(rs, ra, d) => c.(mem := StoreDoubleword(c.mem, RegOrZero(c, ra) + d, c.gpr[rs]))
    case Stdu(rs, ra, d) =>
      c.(mem := StoreDoubleword(c.mem, c.gpr[ra] + d, c.gpr[rs]), gpr := c.gpr[ra := Wrap(c.gpr[ra] + d)])
    case Ld(rt, ra, d) => c.(gpr := c.gpr[rt := LoadDoubleword(c.mem, RegOrZero(c, ra) + d)])
    case Rldicl(ra, rs, sh, mb) =>
      if sh < 64 && MaskBegin(cpu, mb) <= 64
      then c.(gpr := c.gpr[ra := Wrap(RotateLeft(c.gpr[rs], sh) % Pow2(64 - MaskBegin(cpu, mb)))])
      else c
    case Sc => cpu.kernel(c)
    case Other(w) => cpu.other(w, c)
    case _ => c
  }

  // ---------------------------------------------------------------- branches

  function CrBit(cr: u32, bi: Reg): int {
    cr / Pow2(31 - bi) % 2
  }

  /** CTR after a bc or bclr: decremented unless BO[2] is set. */
  function CtrAfter(bo: Reg, ctr: u64): u64 {
    if bo / 4 % 2 == 1 then ctr else Wrap(ctr - 1)
  }

  predicate CtrOk(bo: Reg, ctr: u64) {
    bo / 4 % 2 == 1 || ((CtrAfter(bo, ctr) != 0) != (bo / 2 % 2 == 1))
  }

  predicate CondOk(bo: Reg, bi: Reg, cr: u32) {
    bo / 16 % 2 == 1 || CrBit(cr, bi) == bo / 8 % 2
  }

  predicate Taken(i: Instr, c: Core)
    requires i.IsBranch()
  {
    match i
    case B(_, _, _) => true
    case Bc(bo, bi, _, _, _) => CtrOk(bo, c.ctr) && CondOk(bo, bi, c.cr)
    case Bclr(bo, bi, _) => CtrOk(bo, c.ctr) && CondOk(bo, bi, c.cr)
    case Bcctr(bo, bi, _) => CondOk(bo, bi, c.cr)
  }

  /** A branch through a register ignores its two low bits. */
  function WordAligned(a: u64): u64 {
    a / 4 * 4
  }

  function Target(i: Instr, pc: u64, c: Core): u64
    requires i.IsBranch()
  {
    match i
    case B(li, aa, _) => Wrap((if aa then 0 else pc) + li)
    case Bc(_, _, bd, aa, _) => Wrap((if aa then 0 else pc) + bd)
    case Bclr(_, _, _) => WordAligned(c.lr)
    case Bcctr(_, _, _) => WordAligned(c.ctr)
  }

  /**
   * The BO encodings of section 2.4 that compilers use: always, if the CR bit
   * is set, if it is clear, and after decrementing CTR if it is then not zero
   * or is zero.
   */
  lemma BranchOptions(bi: Reg, bd: i16, c: Core)
    ensures Taken(Bc(20, bi, bd, false, false), c)
    ensures Taken(Bc(12, bi, bd, false, false), c) <==> CrBit(c.cr, bi) == 1
    ensures Taken(Bc(4, bi, bd, false, false), c) <==> CrBit(c.cr, bi) == 0
    ensures Taken(Bc(16, bi, bd, false, false), c) <==> c.ctr != 1
    ensures Taken(Bc(18, bi, bd, false, false), c) <==> c.ctr == 1
    ensures CoreAfterBranch(Bc(16, bi, bd, false, false), 0, c).ctr == (if c.ctr == 0 then M64 - 1 else c.ctr - 1)
    ensures CoreAfterBranch(Bc(20, bi, bd, false, false), 0, c).ctr == c.ctr
  {
    hide CrBit;
  }

  function CoreAfterBranch(i: Instr, pc: u64, c: Core): Core
    requires i.IsBranch()
  {
    var c1 := if i.Bc? || i.Bclr? then c.(ctr := CtrAfter(i.bo, c.ctr)) else c;
    if i.lk then c1.(lr := Wrap(pc + 4)) else c1
  }

  // --------------------------------------------------------------------- run

  function InstrAt(s: State): Instr {
    Disassemble(FetchWord(s.core.mem, s.pc))
  }

  function StepWith(cpu: Cpu, i: Instr, s: State): State {
    if i.IsBranch() then
      State(if Taken(i, s.core) then Target(i, s.pc, s.core) else Wrap(s.pc + 4), CoreAfterBranch(i, s.pc, s.core))
    else State(Wrap(s.pc + 4), Execute(cpu, i, s.core))
  }

  function Step(cpu: Cpu, s: State): State {
    StepWith(cpu, InstrAt(s), s)
  }

  function Run(cpu: Cpu, s: State, n: nat): State
    decreases n
  {
    if n == 0 then s else Run(cpu, Step(cpu, s), n - 1)
  }

  lemma {:induction false} RunAdd(cpu: Cpu, s: State, m: nat, n: nat)
    ensures Run(cpu, s, m + n) == Run(cpu, Run(cpu, s, m), n)
    decreases m
  {
    hide Step;
    if m > 0 {
      RunAdd(cpu, Step(cpu, s), m - 1, n);
    }
  }

  /** Executing a list of instructions that are not branches. */
  function ExecuteAll(cpu: Cpu, prog: seq<Instr>, c: Core): Core
    decreases |prog|
  {
    if prog == [] then c else ExecuteAll(cpu, prog[1..], Execute(cpu, prog[0], c))
  }

  lemma {:induction false} ExecuteAllAppend(cpu: Cpu, xs: seq<Instr>, ys: seq<Instr>, c: Core)
    ensures ExecuteAll(cpu, xs + ys, c) == ExecuteAll(cpu, ys, ExecuteAll(cpu, xs, c))
    decreases |xs|
  {
    if xs == [] {
      assert xs + ys == ys;
    } else {
      assert (xs + ys)[1..] == xs[1..] + ys;
      ExecuteAllAppend(cpu, xs[1..], ys, Execute(cpu, xs[0], c));
    }
  }

  // ------------------------------------------------------- code in memory

  /** Addresses whose bytes a run must not change. */
  datatype Region = Region(lo: int, hi: int) {
    predicate Has(a: int) {
      lo <= a < hi
    }
  }

  ghost predicate Unchanged(m: Memory, m': Memory, code: Region) {
    forall a {:trigger ByteAt(m', a)} :: code.Has(a) ==> ByteAt(m', a) == ByteAt(m, a)
  }

  ghost predicate Holds(m: Memory, a: int, bytes: seq<u8>) {
    forall i {:trigger bytes[i]} :: 0 <= i < |bytes| ==> ByteAt(m, a + i) == bytes[i]
  }

  /** The words at pc, pc+4, ... disassemble to the listed instructions. */
  ghost predicate CodeAt(m: Memory, pc: int, prog: seq<Instr>) {
    forall i {:trigger prog[i]} :: 0 <= i < |prog| ==> Disassemble(FetchWord(m, pc + 4 * i)) == prog[i]
  }

  lemma FetchUnchanged(m: Memory, m': Memory, code: Region, pc: int)
    requires Unchanged(m, m', code) && 0 <= code.lo <= pc && pc + 4 <= code.hi <= M64
    ensures FetchWord(m', pc) == FetchWord(m, pc)
  {
    forall i | 0 <= i < 4
      ensures LoadBytes(m', pc, 4)[i] == LoadBytes(m, pc, 4)[i]
    {
      assert code.Has(pc + i) && Wrap(pc + i) == pc + i;
    }
    assert LoadBytes(m', pc, 4) == LoadBytes(m, pc, 4);
  }

  lemma CodeUnchanged(m: Memory, m': Memory, code: Region, pc: int, prog: seq<Instr>)
    requires Unchanged(m, m', code) && 0 <= code.lo <= pc && pc + 4 * |prog| <= code.hi <= M64
    requires CodeAt(m, pc, prog)
    ensures CodeAt(m', pc, prog)
  {
    forall i | 0 <= i < |prog|
      ensures Disassemble(FetchWord(m', pc + 4 * i)) == prog[i]
    {
      FetchUnchanged(m, m', code, pc + 4 * i);
    }
  }

  /** Executing the list never changes a byte of the code. */
  ghost predicate KeepsCode(cpu: Cpu, prog: seq<Instr>, c: Core, code: Region)
    decreases |prog|
  {
    prog == [] || (Unchanged(c.mem, Execute(cpu, prog[0], c).mem, code)
                 && KeepsCode(cpu, prog[1..], Execute(cpu, prog[0], c), code))
  }

  predicate StraightLine(prog: seq<Instr>) {
    forall i :: 0 <= i < |prog| ==> !prog[i].IsBranch()
  }

  /** A straight-line list in memory runs as ExecuteAll says. */
  lemma {:induction false} RunStraight(cpu: Cpu, prog: seq<Instr>, s: State, code: Region)
    requires StraightLine(prog) && CodeAt(s.core.mem, s.pc, prog) && KeepsCode(cpu, prog, s.core, code)
    requires 0 <= code.lo <= s.pc && s.pc + 4 * |prog| <= code.hi < M64
    ensures Run(cpu, s, |prog|) == State(s.pc + 4 * |prog|, ExecuteAll(cpu, prog, s.core))
    ensures Unchanged(s.core.mem, ExecuteAll(cpu, prog, s.core).mem, code)
    decreases |prog|
  {
    hide Execute, FetchWord, Disassemble;
    if prog != [] {
      assert InstrAt(s) == prog[0] by {
        assert FetchWord(s.core.mem, s.pc + 4 * 0) == FetchWord(s.core.mem, s.pc);
      }
      var s' := Step(cpu, s);
      assert s' == State(s.pc + 4, Execute(cpu, prog[0], s.core));
      CodeUnchanged(s.core.mem, s'.core.mem, code, s.pc, prog);
      forall i | 0 <= i < |prog[1..]|
        ensures Disassemble(FetchWord(s'.core.mem, s'.pc + 4 * i)) == prog[1..][i]
      {
        assert prog[1..][i] == prog[i + 1] && s'.pc + 4 * i == s.pc + 4 * (i + 1);
      }
      RunStraight(cpu, prog[1..], s', code);
    }
  }

  lemma {:induction false} KeepsCodeAppend(cpu: Cpu, xs: seq<Instr>, ys: seq<Instr>, c: Core, code: Region)
    requires KeepsCode(cpu, xs, c, code) && KeepsCode(cpu, ys, ExecuteAll(cpu, xs, c), code)
    ensures KeepsCode(cpu, xs + ys, c, code)
    decreases |xs|
  {
    if xs == [] {
      assert xs + ys == ys;
    } else {
      assert (xs + ys)[1..] == xs[1..] + ys;
      KeepsCodeAppend(cpu, xs[1..], ys, Execute(cpu, xs[0], c), code);
    }
  }

  /** Instructions that only read and write registers. */
  predicate RegisterOnly(i: Instr) {
    i.Addi? || i.Addis? || i.Ori? || i.Mflr? || i.Mfctr? || i.Mtlr? || i.Mtctr? || i.Ld? || i.Rldicl?
  }

  lemma {:induction false} RegisterOnlyKeepsCode(cpu: Cpu, prog: seq<Instr>, c: Core, code: Region)
    requires forall i :: 0 <= i < |prog| ==> RegisterOnly(prog[i])
    ensures KeepsCode(cpu, prog, c, code) && StraightLine(prog)
    ensures ExecuteAll(cpu, prog, c).mem == c.mem
    decreases |prog|
  {
    if prog != [] {
      RegisterOnlyKeepsCode(cpu, prog[1..], Execute(cpu, prog[0], c), code);
      assert Execute(cpu, prog[0], c).mem == c.mem;
      forall i | 0 <= i < |prog|
        ensures !prog[i].IsBranch()
      {
        assert RegisterOnly(prog[i]);
      }
    }
  }
}
