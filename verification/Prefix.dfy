// The 49 instructions that run before the displaced ones: save, trap twice,
// restore, load the TOC pointer.
module Prefix {
  import opened Bits
  import opened Isa
  import opened Machine
  import opened Listing
  import opened Transparency

  function PrefixList(path: u32, toc: u32): (prog: seq<Instr>)
    ensures |prog| == 49
  {
    PrologueList() + (LoadModuleList(path) + ([Sc] + (StartModuleList() + ([Sc] + (EpilogueList() + LoadList(2, toc))))))
  }

  /**
   * A system call is foreign code that keeps r1, r13-r31, the 256 bytes above
   * the stack pointer and the program's code (section 3.2.1 of the 64-bit
   * PowerPC ELF ABI Supplement 1.9 for the registers).
   */
  ghost predicate TrapKeeps(c: Core, c': Core, code: Region) {
    Respects(c, c', c.gpr[1]) && Unchanged(c.mem, c'.mem, code)
  }

  /** The two calls of the payload are so behaved; nothing else is asked of the kernel. */
  ghost predicate KernelOk(cpu: Cpu, code: Region) {
    forall c: Core {:trigger cpu.kernel(c)} :: (c.gpr[11] == 480 || c.gpr[11] == 481) ==> TrapKeeps(c, cpu.kernel(c), code)
  }

  /** The machine at the first trap, entered from e. */
  ghost function FirstTrap(cpu: Cpu, path: u32, e: Core): Core {
    ExecuteAll(cpu, LoadModuleList(path), ExecuteAll(cpu, PrologueList(), e))
  }

  /** The machine at the second trap. */
  ghost function SecondTrap(cpu: Cpu, path: u32, e: Core): Core {
    ExecuteAll(cpu, StartModuleList(), cpu.kernel(FirstTrap(cpu, path, e)))
  }

  ghost function AfterTraps(cpu: Cpu, path: u32, e: Core): Core {
    cpu.kernel(SecondTrap(cpu, path, e))
  }

  lemma LiExecute(cpu: Cpu, r: Reg, v: i16, c: Core)
    requires v >= 0
    ensures Execute(cpu, Addi(r, 0, v), c) == c.(gpr := c.gpr[r := v])
  {
  }

  lemma {:induction false} LoadModuleExecute(cpu: Cpu, path: u32, c: Core)
    ensures ExecuteAll(cpu, LoadModuleList(path), c)
            == c.(gpr := c.gpr[3 := LoadedValue(cpu, path)][4 := 0][5 := 0][11 := 480])
  {
    hide Execute, ExecuteAll, LoadList, LoadedValue;
    LoadExecute(cpu, 3, path, c);
    var c1 := c.(gpr := c.gpr[3 := LoadedValue(cpu, path)]);
    var rest := [Addi(4, 0, 0)] + ([Addi(5, 0, 0)] + ([Addi(11, 0, 480)] + []));
    assert LoadModuleList(path) == LoadList(3, path) + rest;
    ExecuteAllAppend(cpu, LoadList(3, path), rest, c);
    ExecuteCons(cpu, Addi(4, 0, 0), [Addi(5, 0, 0)] + ([Addi(11, 0, 480)] + []), c1);
    LiExecute(cpu, 4, 0, c1);
    var c2 := c1.(gpr := c1.gpr[4 := 0]);
    ExecuteCons(cpu, Addi(5, 0, 0), [Addi(11, 0, 480)] + [], c2);
    LiExecute(cpu, 5, 0, c2);
    var c3 := c2.(gpr := c2.gpr[5 := 0]);
    ExecuteCons(cpu, Addi(11, 0, 480), [], c3);
    LiExecute(cpu, 11, 480, c3);
    ExecuteNothing(cpu, c3.(gpr := c3.gpr[11 := 480]));
  }

  /** li r, 0 for the registers rs in order. */
  function Zeros(rs: seq<Reg>): seq<Instr> {
    if rs == [] then [] else [Addi(rs[0], 0, 0)] + Zeros(rs[1..])
  }

  function Zeroed(g: Registers, rs: seq<Reg>): Registers
    decreases |rs|
  {
    if rs == [] then g else Zeroed(g[rs[0] := 0], rs[1..])
  }

  lemma {:induction false} ZerosExecute(cpu: Cpu, rs: seq<Reg>, c: Core)
    ensures ExecuteAll(cpu, Zeros(rs), c) == c.(gpr := Zeroed(c.gpr, rs))
    decreases |rs|
  {
    hide Execute;
    if rs != [] {
      LiExecute(cpu, rs[0], 0, c);
      ExecuteCons(cpu, Addi(rs[0], 0, 0), Zeros(rs[1..]), c);
      ZerosExecute(cpu, rs[1..], c.(gpr := c.gpr[rs[0] := 0]));
    }
  }

  lemma {:induction false} StartModuleExecute(cpu: Cpu, c: Core)
    ensures ExecuteAll(cpu, StartModuleList(), c)
            == c.(gpr := c.gpr[4 := 0][5 := 0][6 := 0][7 := 0][8 := 0][11 := 481])
  {
    hide Execute, ExecuteAll;
    var rs: seq<Reg> := [4, 5, 6, 7, 8];
    var call := [Addi(11, 0, 481)] + [];
    assert rs[1..] == [5, 6, 7, 8] && rs[1..][1..] == [6, 7, 8] && rs[1..][1..][1..] == [7, 8]
           && rs[1..][1..][1..][1..] == [8] && rs[1..][1..][1..][1..][1..] == [];
    assert Zeros([]) == [] && Zeros([8]) == [Addi(8, 0, 0)];
    assert Zeros([7, 8]) == [Addi(7, 0, 0), Addi(8, 0, 0)];
    assert Zeros([6, 7, 8]) == [Addi(6, 0, 0), Addi(7, 0, 0), Addi(8, 0, 0)];
    assert Zeros([5, 6, 7, 8]) == [Addi(5, 0, 0), Addi(6, 0, 0), Addi(7, 0, 0), Addi(8, 0, 0)];
    assert StartModuleList() == Zeros(rs) + call;
    ExecuteAllAppend(cpu, Zeros(rs), call, c);
    ZerosExecute(cpu, rs, c);
    var g := c.gpr[4 := 0][5 := 0][6 := 0][7 := 0][8 := 0];
    var g3 := c.gpr[4 := 0][5 := 0][6 := 0];
    assert Zeroed(g3, [7, 8]) == Zeroed(g3[7 := 0], [8]) == Zeroed(g, []) == g;
    assert Zeroed(c.gpr, rs) == Zeroed(c.gpr[4 := 0], [5, 6, 7, 8])
           == Zeroed(c.gpr[4 := 0][5 := 0], [6, 7, 8]) == Zeroed(g3, [7, 8]);
    var c1 := c.(gpr := g);
    ExecuteCons(cpu, Addi(11, 0, 481), [], c1);
    LiExecute(cpu, 11, 481, c1);
    ExecuteNothing(cpu, c1.(gpr := g[11 := 481]));
  }

  /**
   * System-call arguments. At the first trap r11 is 480, r3 the path pointer
   * and r4 = r5 = 0; at the second r11 is 481, r3 is what the first returned
   * and r4 .. r8 are 0. Up to the first trap only the new frame is written,
   * between the traps nothing is.
   */
  lemma {:induction false} TrapArguments(cpu: Cpu, path: u32, e: Core, code: Region)
    requires FrameClear(Wrap(e.gpr[1] as int - 256), code)
    ensures var t := FirstTrap(cpu, path, e);
            t.gpr[11] == 480 && t.gpr[3] == LoadedValue(cpu, path) && t.gpr[4] == 0 && t.gpr[5] == 0
            && t.gpr[1] == Wrap(e.gpr[1] as int - 256)
            && SameOutsideSlots(e.mem, t.mem, t.gpr[1])
    ensures var r, t := cpu.kernel(FirstTrap(cpu, path, e)), SecondTrap(cpu, path, e);
            t.gpr[11] == 481 && t.gpr[3] == r.gpr[3]
            && t.gpr[4] == 0 && t.gpr[5] == 0 && t.gpr[6] == 0 && t.gpr[7] == 0 && t.gpr[8] == 0
            && t.mem == r.mem
  {
    hide PrologueList, LoadModuleList, StartModuleList, ExecuteAll, SameOutsideSlots, KeepsCode, Saved, FrameClear;
    PrologueExecute(cpu, e, code);
    LoadModuleExecute(cpu, path, ExecuteAll(cpu, PrologueList(), e));
    StartModuleExecute(cpu, cpu.kernel(FirstTrap(cpu, path, e)));
  }

  lemma RespectsTrans(c1: Core, c2: Core, c3: Core, base: int)
    requires Respects(c1, c2, base) && Respects(c2, c3, base)
    ensures Respects(c1, c3, base)
  {
    forall a: u64 | InFrame(base, a)
      ensures ByteAt(c3.mem, a) == ByteAt(c1.mem, a)
    {
      assert ByteAt(c2.mem, a) == ByteAt(c1.mem, a);
    }
  }

  lemma RespectsRegisters(c1: Core, c2: Core, base: int)
    requires c2.gpr[1] == c1.gpr[1] && c2.gpr[13..] == c1.gpr[13..] && c2.mem == c1.mem
    ensures Respects(c1, c2, base)
  {
  }

  /** Between prologue and epilogue everything the epilogue needs is kept. */
  lemma {:induction false} TrapsRespect(cpu: Cpu, path: u32, e: Core, code: Region)
    requires FrameClear(Wrap(e.gpr[1] as int - 256), code) && KernelOk(cpu, code)
    ensures Respects(ExecuteAll(cpu, PrologueList(), e), AfterTraps(cpu, path, e), Wrap(e.gpr[1] as int - 256))
    ensures TrapKeeps(FirstTrap(cpu, path, e), cpu.kernel(FirstTrap(cpu, path, e)), code)
    ensures TrapKeeps(SecondTrap(cpu, path, e), AfterTraps(cpu, path, e), code)
  {
    hide PrologueList, LoadModuleList, StartModuleList, ExecuteAll, SameOutsideSlots, KeepsCode, Saved, FrameClear,
      Respects, Unchanged;
    var base: int := Wrap(e.gpr[1] as int - 256);
    PrologueExecute(cpu, e, code);
    var c1 := ExecuteAll(cpu, PrologueList(), e);
    LoadModuleExecute(cpu, path, c1);
    var t1 := FirstTrap(cpu, path, e);
    var r1 := cpu.kernel(t1);
    StartModuleExecute(cpu, r1);
    var t2 := SecondTrap(cpu, path, e);
    assert TrapKeeps(t1, r1, code);
    assert TrapKeeps(t2, cpu.kernel(t2), code);
    RespectsRegisters(c1, t1, base);
    RespectsRegisters(r1, t2, base);
    RespectsTrans(c1, t1, r1, base);
    assert t2.gpr[1] == base by { RespectsBase(c1, r1, base); }
    RespectsTrans(c1, r1, t2, base);
    RespectsTrans(c1, t2, cpu.kernel(t2), base);
  }

  lemma RespectsBase(c1: Core, c2: Core, base: int)
    requires Respects(c1, c2, base)
    ensures c2.gpr[1] == c1.gpr[1]
  {
  }

  /**
   * The whole prefix, for every behaviour of the two system calls: all
   * registers are back at their entry values, except r2, which has the TOC
   * value; CR, XER and memory are as the calls left them.
   */
  lemma {:induction false} PrefixExecute(cpu: Cpu, path: u32, toc: u32, e: Core, code: Region)
    requires FrameClear(Wrap(e.gpr[1] as int - 256), code) && KernelOk(cpu, code)
    ensures var a := AfterTraps(cpu, path, e);
            ExecuteAll(cpu, PrefixList(path, toc), e)
            == Core(e.gpr[2 := LoadedValue(cpu, toc)], e.lr, e.ctr, a.cr, a.xer, a.mem)
  {
    hide PrologueList, LoadModuleList, StartModuleList, EpilogueList, LoadList, ExecuteAll, Execute, Respects,
      KeepsCode, FrameClear, KernelOk, LoadedValue, TrapKeeps;
    var c1 := ExecuteAll(cpu, PrologueList(), e);
    var t1, t2, a := FirstTrap(cpu, path, e), SecondTrap(cpu, path, e), AfterTraps(cpu, path, e);
    var tail4 := EpilogueList() + LoadList(2, toc);
    var tail3 := StartModuleList() + ([Sc] + tail4);
    ExecuteAllAppend(cpu, PrologueList(), LoadModuleList(path) + ([Sc] + tail3), e);
    ExecuteAllAppend(cpu, LoadModuleList(path), [Sc] + tail3, c1);
    ScExecute(cpu, tail3, t1);
    ExecuteAllAppend(cpu, StartModuleList(), [Sc] + tail4, cpu.kernel(t1));
    ScExecute(cpu, tail4, t2);
    ExecuteAllAppend(cpu, EpilogueList(), LoadList(2, toc), a);
    TrapsRespect(cpu, path, e, code);
    SaveRestore(cpu, e, a, code);
    var c5 := Core(e.gpr[2 := a.gpr[2]], e.lr, e.ctr, a.cr, a.xer, a.mem);
    LoadExecute(cpu, 2, toc, c5);
    assert c5.gpr[2 := LoadedValue(cpu, toc)] == e.gpr[2 := LoadedValue(cpu, toc)];
  }

  lemma ScExecute(cpu: Cpu, rest: seq<Instr>, c: Core)
    ensures ExecuteAll(cpu, [Sc] + rest, c) == ExecuteAll(cpu, rest, cpu.kernel(c))
  {
    ExecuteCons(cpu, Sc, rest, c);
  }

  /** No instruction of the prefix writes to the code, and none branches. */
  lemma {:induction false} PrefixKeepsCode(cpu: Cpu, path: u32, toc: u32, e: Core, code: Region)
    requires FrameClear(Wrap(e.gpr[1] as int - 256), code) && KernelOk(cpu, code)
    ensures KeepsCode(cpu, PrefixList(path, toc), e, code) && StraightLine(PrefixList(path, toc))
  {
    hide ExecuteAll, Execute, KeepsCode, FrameClear, KernelOk, SaveList, RestoreList, PrologueList, EpilogueList,
      LoadList, LoadModuleList, StartModuleList, StraightLine, Respects, Unchanged;
    var c1 := ExecuteAll(cpu, PrologueList(), e);
    var t1, t2, a := FirstTrap(cpu, path, e), SecondTrap(cpu, path, e), AfterTraps(cpu, path, e);
    PrologueExecute(cpu, e, code);
    TrapsRespect(cpu, path, e, code);
    ListsRegisterOnly(path, toc);
    var epilogue := EpilogueList() + LoadList(2, toc);
    RegisterOnlyKeepsCode(cpu, epilogue, a, code);
    KeepsSc(cpu, epilogue, t2, code);
    RegisterOnlyKeepsCode(cpu, StartModuleList(), cpu.kernel(t1), code);
    KeepsCodeAppend(cpu, StartModuleList(), [Sc] + epilogue, cpu.kernel(t1), code);
    var tail3 := StartModuleList() + ([Sc] + epilogue);
    KeepsSc(cpu, tail3, t1, code);
    RegisterOnlyKeepsCode(cpu, LoadModuleList(path), c1, code);
    KeepsCodeAppend(cpu, LoadModuleList(path), [Sc] + tail3, c1, code);
    KeepsCodeAppend(cpu, PrologueList(), LoadModuleList(path) + ([Sc] + tail3), e, code);
    PrologueStraight();
    StraightAppend([Sc], epilogue);
    StraightAppend(StartModuleList(), [Sc] + epilogue);
    StraightAppend([Sc], tail3);
    StraightAppend(LoadModuleList(path), [Sc] + tail3);
    StraightAppend(PrologueList(), LoadModuleList(path) + ([Sc] + tail3));
  }

  lemma ListsRegisterOnly(path: u32, toc: u32)
    ensures forall i :: 0 <= i < |LoadModuleList(path)| ==> RegisterOnly(LoadModuleList(path)[i])
    ensures forall i :: 0 <= i < |StartModuleList()| ==> RegisterOnly(StartModuleList()[i])
    ensures var prog := EpilogueList() + LoadList(2, toc);
            forall i :: 0 <= i < |prog| ==> RegisterOnly(prog[i])
  {
  }

  lemma PrologueStraight()
    ensures StraightLine(PrologueList()) && StraightLine([Sc])
  {
    hide SaveList;
    assert StraightLine(SaveList(0)) by {
      forall i | 0 <= i < 10
        ensures !SaveList(0)[i].IsBranch()
      {
        assert SaveList(0)[i] == Std(3 + i, 1, 152 + 8 * i);
      }
    }
    var head := [Stdu(1, 1, -256), Std(0, 1, 128), Mflr(0), Std(0, 1, 136), Mfctr(0), Std(0, 1, 144)];
    StraightAppend(head, SaveList(0));
  }

  lemma StraightAppend(xs: seq<Instr>, ys: seq<Instr>)
    requires StraightLine(xs) && StraightLine(ys)
    ensures StraightLine(xs + ys)
  {
  }

  lemma KeepsSc(cpu: Cpu, rest: seq<Instr>, c: Core, code: Region)
    requires TrapKeeps(c, cpu.kernel(c), code) && KeepsCode(cpu, rest, cpu.kernel(c), code)
    ensures KeepsCode(cpu, [Sc] + rest, c, code)
  {
    hide Unchanged;
    assert ([Sc] + rest)[1..] == rest;
  }
}
