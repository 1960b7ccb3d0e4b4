// The displaced instructions at their new address simulate the originals.
module Simulation {
  import opened Bits
  import opened Bytes
  import opened Isa
  import opened Decode
  import opened Machine
  import opened Codegen

  /** Equal registers, and equal memory except possibly at the addresses in `apart`. */
  ghost predicate AgreeOutside(p: Core, o: Core, apart: iset<int>) {
    p.gpr == o.gpr && p.lr == o.lr && p.ctr == o.ctr && p.cr == o.cr && p.xer == o.xer
    && forall a: u64 {:trigger ByteAt(p.mem, a)} :: a !in apart ==> ByteAt(p.mem, a) == ByteAt(o.mem, a)
  }

  ghost predicate WordsAt(m: Memory, a: int, ws: seq<u32>) {
    forall i {:trigger ws[i]} :: 0 <= i < |ws| ==> FetchWord(m, a + 4 * i) == ws[i]
  }

  /**
   * Executed from c, the instruction leaves the window as it is, and from any
   * core that agrees with c outside `apart` it has the same effect and leaves
   * the blob as it is.
   */
  ghost predicate Quiet(cpu: Cpu, i: Instr, c: Core, apart: iset<int>, window: Region, blob: Region) {
    Unchanged(c.mem, Execute(cpu, i, c).mem, window)
    && forall d: Core {:trigger Execute(cpu, i, d)} :: AgreeOutside(d, c, apart) ==>
         AgreeOutside(Execute(cpu, i, d), Execute(cpu, i, c), apart)
         && Unchanged(d.mem, Execute(cpu, i, d).mem, blob)
  }

  /** An instruction that only moves register values is quiet anywhere. */
  lemma RegisterMovesAreQuiet(cpu: Cpu, i: Instr, c: Core, apart: iset<int>, window: Region, blob: Region)
    requires RegisterOnly(i) && !i.Ld?
    ensures Quiet(cpu, i, c, apart, window, blob)
  {
    hide Or, Pow2;
  }

  function BranchDisplacement(i: Instr): int {
    if i.IsRelative() then DisplacementOf(i) else 0
  }

  /**
   * What the original run must do from window index i on: no branch sets LR;
   * a branch that is taken leaves the window, and if relative its target is a
   * 32-bit address; every other instruction is quiet.
   */
  ghost predicate Displaceable(cpu: Cpu, o: State, apart: iset<int>, window: Region, count: nat, blob: Region)
    decreases count
  {
    count == 0 ||
    var i := InstrAt(o);
    !i.Links()
    && (if i.IsBranch()
        then (if Taken(i, o.core)
              then !window.Has(Target(i, o.pc, o.core)) && 0 <= o.pc + BranchDisplacement(i) < M32
              else Displaceable(cpu, Step(cpu, o), apart, window, count - 1, blob))
        else Quiet(cpu, i, o.core, apart, window, blob)
             && Displaceable(cpu, Step(cpu, o), apart, window, count - 1, blob))
  }

  /** The original and the relocated word differ at most in a relative displacement, which then has the same target. */
  ghost predicate SameEffect(i: Instr, j: Instr, originalAddr: u32, newAddr: u32) {
    if i.IsRelative() then
      Fits(CorrectedDisplacement(DisplacementOf(i), originalAddr, newAddr), i.Bc?)
      && j == WithDisplacement(i, CorrectedDisplacement(DisplacementOf(i), originalAddr, newAddr))
    else j == i
  }

  lemma RelocatedEffect(w: u32, originalAddr: u32, newAddr: u32)
    requires RelocateWord(w, originalAddr, newAddr).Some?
    ensures SameEffect(Disassemble(w), Disassemble(RelocateWord(w, originalAddr, newAddr).value), originalAddr, newAddr)
  {
    hide Disassemble, Classify, RelocateBranch;
    RelocateBranchSpec(w, originalAddr, newAddr);
  }

  /** A taken relocated branch goes where the original goes, from equal registers to equal registers. */
  lemma BranchSimulates(cpu: Cpu, i: Instr, j: Instr, o: State, p: State, apart: iset<int>)
    requires i.IsBranch() && !i.Links() && o.pc < M32 && p.pc < M32 && SameEffect(i, j, o.pc, p.pc)
    requires AgreeOutside(p.core, o.core, apart)
    ensures j.IsBranch() && !j.Links() && (Taken(j, p.core) <==> Taken(i, o.core))
    ensures StepWith(cpu, i, o).core == CoreAfterBranch(i, o.pc, o.core)
    ensures AgreeOutside(StepWith(cpu, j, p).core, StepWith(cpu, i, o).core, apart)
    ensures StepWith(cpu, j, p).core.mem == p.core.mem && StepWith(cpu, i, o).core.mem == o.core.mem
    ensures Taken(i, o.core) && 0 <= o.pc + BranchDisplacement(i) < M32 ==>
            Target(j, p.pc, p.core) == Target(i, o.pc, o.core)
  {
    hide CtrAfter, CondOk, CtrOk, Target, CorrectedDisplacement, Fits;
    if 0 <= o.pc + BranchDisplacement(i) < M32 {
      SameTarget(i, j, o, p);
    }
  }

  lemma SameTarget(i: Instr, j: Instr, o: State, p: State)
    requires i.IsBranch() && o.pc < M32 && p.pc < M32 && SameEffect(i, j, o.pc, p.pc)
    requires p.core.lr == o.core.lr && p.core.ctr == o.core.ctr && 0 <= o.pc + BranchDisplacement(i) < M32
    ensures j.IsBranch() && Target(j, p.pc, p.core) == Target(i, o.pc, o.core)
  {
    hide WordAligned, Fits;
  }

  /** LK = 1 is the exact obstacle: moved elsewhere, a linking branch always leaves a different LR. */
  lemma LinkingBranchDiffers(cpu: Cpu, i: Instr, j: Instr, o: State, p: State, apart: iset<int>)
    requires i.IsBranch() && o.pc < M32 && p.pc < M32 && o.pc != p.pc && SameEffect(i, j, o.pc, p.pc)
    requires AgreeOutside(p.core, o.core, apart)
    ensures j.IsBranch()
    ensures AgreeOutside(StepWith(cpu, j, p).core, StepWith(cpu, i, o).core, apart) <==> !i.Links()
  {
    hide CtrAfter, CondOk, CtrOk, Taken, Target, CorrectedDisplacement, Fits, Wrap;
    LinkAddress(o.pc);
    LinkAddress(p.pc);
  }

  lemma LinkAddress(pc: u64)
    requires pc < M32
    ensures Wrap(pc + 4) == pc + 4
  {
  }

  lemma WordsUnchanged(m: Memory, m': Memory, code: Region, a: int, ws: seq<u32>)
    requires Unchanged(m, m', code) && 0 <= code.lo <= a && a + 4 * |ws| <= code.hi <= M64 && WordsAt(m, a, ws)
    ensures WordsAt(m', a, ws)
  {
    hide FetchWord, Unchanged;
    forall i | 0 <= i < |ws|
      ensures FetchWord(m', a + 4 * i) == ws[i]
    {
      FetchUnchanged(m, m', code, a + 4 * i);
    }
  }

  /** Both runs have the code, and word i of the relocated list simulates word i of the original. */
  ghost predicate Placed(o: State, p: State, ws: seq<u32>, rel: seq<u32>, window: Region, blob: Region) {
    |rel| == |ws| && 0 <= window.lo <= o.pc && o.pc + 4 * |ws| == window.hi < M32
    && 0 <= blob.lo <= p.pc && p.pc + 4 * |ws| <= blob.hi < M32
    && WordsAt(o.core.mem, o.pc, ws) && WordsAt(p.core.mem, p.pc, rel)
    && forall i {:trigger ws[i]} :: 0 <= i < |ws| ==>
         SameEffect(Disassemble(ws[i]), Disassemble(rel[i]), o.pc + 4 * i, p.pc + 4 * i)
  }

  lemma PlacedNext(o: State, p: State, o': State, p': State, ws: seq<u32>, rel: seq<u32>, window: Region, blob: Region)
    requires Placed(o, p, ws, rel, window, blob) && ws != []
    requires o'.pc == o.pc + 4 && p'.pc == p.pc + 4
    requires Unchanged(o.core.mem, o'.core.mem, window) && Unchanged(p.core.mem, p'.core.mem, blob)
    ensures Placed(o', p', ws[1..], rel[1..], window, blob)
  {
    hide Disassemble, SameEffect, FetchWord, Unchanged;
    WordsUnchanged(o.core.mem, o'.core.mem, window, o.pc, ws);
    WordsUnchanged(p.core.mem, p'.core.mem, blob, p.pc, rel);
    forall i | 0 <= i < |ws[1..]|
      ensures FetchWord(o'.core.mem, o'.pc + 4 * i) == ws[1..][i]
              && SameEffect(Disassemble(ws[1..][i]), Disassemble(rel[1..][i]), o'.pc + 4 * i, p'.pc + 4 * i)
    {
      assert ws[1..][i] == ws[i + 1] && rel[1..][i] == rel[i + 1];
      assert o'.pc + 4 * i == o.pc + 4 * (i + 1) && p'.pc + 4 * i == p.pc + 4 * (i + 1);
    }
    forall i | 0 <= i < |rel[1..]|
      ensures FetchWord(p'.core.mem, p'.pc + 4 * i) == rel[1..][i]
    {
      assert rel[1..][i] == rel[i + 1] && p'.pc + 4 * i == p.pc + 4 * (i + 1);
    }
  }

  lemma PlacedHere(o: State, p: State, ws: seq<u32>, rel: seq<u32>, window: Region, blob: Region)
    requires Placed(o, p, ws, rel, window, blob) && ws != []
    ensures InstrAt(o) == Disassemble(ws[0]) && InstrAt(p) == Disassemble(rel[0])
    ensures SameEffect(InstrAt(o), InstrAt(p), o.pc, p.pc) && window.Has(o.pc)
  {
    hide Disassemble, SameEffect, FetchWord;
    assert o.pc + 4 * 0 == o.pc && p.pc + 4 * 0 == p.pc;
    assert FetchWord(o.core.mem, o.pc + 4 * 0) == ws[0];
    assert FetchWord(p.core.mem, p.pc + 4 * 0) == rel[0];
  }

  lemma SameMemory(m: Memory, code: Region)
    ensures Unchanged(m, m, code)
  {
  }

  /**
   * How a simulated pass over the window ends after the same n steps on both
   * sides, with registers and memory agreeing: either both runs have just left
   * by a branch to one address outside the window, or both are past their last
   * displaced instruction.
   */
  ghost predicate WindowDone(o: State, p: State, o': State, p': State, n: nat, count: nat, apart: iset<int>,
                             window: Region, blob: Region) {
    n <= count && AgreeOutside(p'.core, o'.core, apart)
    && (if n == count && o'.pc == window.hi && p'.pc == p.pc + 4 * count
        then Unchanged(p.core.mem, p'.core.mem, blob)
        else p'.pc == o'.pc && !window.Has(o'.pc))
  }

  /** Step simulation of a displaced sequence of any length. */
  lemma {:induction false} DisplacedSimulates(cpu: Cpu, o: State, p: State, ws: seq<u32>, rel: seq<u32>,
                                              apart: iset<int>, window: Region, blob: Region)
    returns (n: nat)
    requires Placed(o, p, ws, rel, window, blob) && AgreeOutside(p.core, o.core, apart)
    requires Displaceable(cpu, o, apart, window, |ws|, blob)
    ensures WindowDone(o, p, Run(cpu, o, n), Run(cpu, p, n), n, |ws|, apart, window, blob)
    decreases |ws|
  {
    hide Execute, Disassemble, FetchWord, SameEffect, AgreeOutside, Unchanged, Placed, Taken, Target, CoreAfterBranch;
    if ws == [] {
      n := 0;
      PlacedEmpty(o, p, ws, rel, window, blob);
      SameMemory(p.core.mem, blob);
      return;
    }
    PlacedHere(o, p, ws, rel, window, blob);
    PlacedBounds(o, p, ws, rel, window, blob);
    var i, j := InstrAt(o), InstrAt(p);
    var o1, p1 := Step(cpu, o), Step(cpu, p);
    if i.IsBranch() {
      BranchSimulates(cpu, i, j, o, p, apart);
      if Taken(i, o.core) {
        n := 1;
        SameMemory(p.core.mem, blob);
        assert Run(cpu, o, 1) == o1 && Run(cpu, p, 1) == p1;
        return;
      }
      SameMemory(p.core.mem, blob);
      SameMemory(o.core.mem, window);
    } else {
      StraightSimulates(cpu, i, j, o, p, apart, window, blob);
    }
    PlacedNext(o, p, o1, p1, ws, rel, window, blob);
    var m := DisplacedSimulates(cpu, o1, p1, ws[1..], rel[1..], apart, window, blob);
    n := m + 1;
    UnchangedTrans(p.core.mem, p1.core.mem, Run(cpu, p1, m).core.mem, blob);
  }

  lemma PlacedEmpty(o: State, p: State, ws: seq<u32>, rel: seq<u32>, window: Region, blob: Region)
    requires Placed(o, p, ws, rel, window, blob) && ws == []
    ensures o.pc == window.hi
  {
  }

  lemma PlacedBounds(o: State, p: State, ws: seq<u32>, rel: seq<u32>, window: Region, blob: Region)
    requires Placed(o, p, ws, rel, window, blob) && ws != []
    ensures o.pc + 4 <= window.hi < M32 && p.pc + 4 <= blob.hi < M32 && |rel| == |ws|
  {
  }

  lemma StraightSimulates(cpu: Cpu, i: Instr, j: Instr, o: State, p: State, apart: iset<int>, window: Region,
                          blob: Region)
    requires !i.IsBranch() && o.pc + 4 < M32 && p.pc + 4 < M32 && SameEffect(i, j, o.pc, p.pc)
    requires Quiet(cpu, i, o.core, apart, window, blob) && AgreeOutside(p.core, o.core, apart)
    ensures var o1, p1 := StepWith(cpu, i, o), StepWith(cpu, j, p);
            o1.pc == o.pc + 4 && p1.pc == p.pc + 4 && AgreeOutside(p1.core, o1.core, apart)
            && Unchanged(o.core.mem, o1.core.mem, window) && Unchanged(p.core.mem, p1.core.mem, blob)
  {
    hide Execute, AgreeOutside, Unchanged;
  }

  lemma UnchangedTrans(m1: Memory, m2: Memory, m3: Memory, code: Region)
    requires Unchanged(m1, m2, code)
    ensures Unchanged(m2, m3, code) ==> Unchanged(m1, m3, code)
  {
    if Unchanged(m2, m3, code) {
      forall a | code.Has(a)
        ensures ByteAt(m3, a) == ByteAt(m1, a)
      {
        assert ByteAt(m2, a) == ByteAt(m1, a);
      }
    }
  }

  // ---------------------------------------------------------- after the window

  /** None of the four bytes at pc is in `apart`. */
  ghost predicate FetchClear(pc: u64, apart: iset<int>) {
    forall a: u64 {:trigger a in apart} :: Wrap(a - pc) < 4 ==> a !in apart
  }

  /** For n steps the run fetches, loads and stores the same whatever stands at the addresses in `apart`. */
  ghost predicate StaysClear(cpu: Cpu, o: State, apart: iset<int>, n: nat)
    decreases n
  {
    n == 0 ||
    (FetchClear(o.pc, apart)
     && (InstrAt(o).IsBranch() || Quiet(cpu, InstrAt(o), o.core, apart, Region(0, 0), Region(0, 0)))
     && StaysClear(cpu, Step(cpu, o), apart, n - 1))
  }

  /** A program that loops in place outside `apart` stays clear of it for ever. */
  lemma {:induction false} LoopStaysClear(cpu: Cpu, o: State, apart: iset<int>, n: nat)
    requires InstrAt(o) == B(0, false, false) && FetchClear(o.pc, apart)
    ensures StaysClear(cpu, o, apart, n)
    decreases n
  {
    hide InstrAt, FetchClear, Quiet;
    if n > 0 {
      assert Step(cpu, o) == o;
      LoopStaysClear(cpu, o, apart, n - 1);
    }
  }

  lemma FetchOutside(p: State, o: State, apart: iset<int>)
    requires p.pc == o.pc && AgreeOutside(p.core, o.core, apart)
    requires FetchClear(o.pc, apart)
    ensures InstrAt(p) == InstrAt(o)
  {
    hide Disassemble, BeValue, Wrap;
    forall i | 0 <= i < 4
      ensures LoadBytes(p.core.mem, p.pc, 4)[i] == LoadBytes(o.core.mem, o.pc, 4)[i]
    {
      OffsetFrom(o.pc, i, o.pc);
      assert Wrap(o.pc + i) !in apart;
    }
    assert LoadBytes(p.core.mem, p.pc, 4) == LoadBytes(o.core.mem, o.pc, 4);
  }

  lemma SameBranchSimulates(cpu: Cpu, i: Instr, o: State, p: State, apart: iset<int>)
    requires i.IsBranch() && p.pc == o.pc && AgreeOutside(p.core, o.core, apart)
    ensures StepWith(cpu, i, p).pc == StepWith(cpu, i, o).pc
    ensures AgreeOutside(StepWith(cpu, i, p).core, StepWith(cpu, i, o).core, apart)
  {
    hide CtrAfter, CondOk, CtrOk;
  }

  /** Two runs that agree outside `apart` go on in step for as long as the original stays clear of it. */
  lemma {:induction false} RunsTogether(cpu: Cpu, o: State, p: State, apart: iset<int>, n: nat)
    requires p.pc == o.pc && AgreeOutside(p.core, o.core, apart) && StaysClear(cpu, o, apart, n)
    ensures Run(cpu, p, n).pc == Run(cpu, o, n).pc
    ensures AgreeOutside(Run(cpu, p, n).core, Run(cpu, o, n).core, apart)
    decreases n
  {
    hide Execute, AgreeOutside, InstrAt, CoreAfterBranch, Taken, Target, Unchanged, FetchClear;
    if n > 0 {
      FetchOutside(p, o, apart);
      var i := InstrAt(o);
      if i.IsBranch() {
        SameBranchSimulates(cpu, i, o, p, apart);
      }
      RunsTogether(cpu, Step(cpu, o), Step(cpu, p), apart, n - 1);
    }
  }
}
