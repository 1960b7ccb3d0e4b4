// Files the command accepts at which the patched program does not do what the
// original does: the instances behind Simulation.LinkingBranchDiffers,
// Patched.TargetInWindow, Patched.OneWayReach and AfterPatch.PlacedPastIff.
module Limits {
  import opened Bits
  import opened Encode
  import opened Isa
  import opened Decode
  import opened Machine
  import opened Codegen
  import opened Transparency
  import opened Trampoline
  import opened Simulation
  import opened Patched
  import opened PatchedFile
  import opened AfterPatch
  import opened WholePatch
  import opened Samples
  import opened Wrappers
  import P = Patcher

  const ENTRY: u32 := 0x1_0080
  const BLOB: u32 := 0x2_0000

  /** A branch at the entrypoint that the code relocates and assembles. */
  lemma {:induction false} BranchAccepted(li: int, lk: bool, toc: u32, path: seq<u8>)
    requires li % 4 == 0 && 0 <= li < 0x1000
    ensures EncodeBranch(li, false, lk).Some?
    ensures var w := EncodeBranch(li, false, lk).value;
            Disassemble(w) == B(li, false, lk) && Assemble(ENTRY, toc, BLOB, [w], path).Ok?
            && var rel := Relocated([w], ENTRY, BLOB + 204);
               rel.Ok? && |rel.value| == 1 && Disassemble(rel.value[0]) == B(ENTRY + li - (BLOB + 204), false, lk)
  {
    hide EncodeBranch, Disassemble, Relocated, Assemble, CodeWords, Padded, BytesOfWords, JumpIn;
    DisassembleBranch(li, false, lk);
    var w := EncodeBranch(li, false, lk).value;
    MovedBranch(w, li, lk);
    ResumeIs();
    AssembleLayout(ENTRY, toc, BLOB, [w], path);
  }

  lemma {:induction false} MovedBranch(w: u32, li: int, lk: bool)
    requires li % 4 == 0 && 0 <= li < 0x1000 && Disassemble(w) == B(li, false, lk)
    ensures var rel := Relocated([w], ENTRY, BLOB + 204);
            rel.Ok? && |rel.value| == 1 && Disassemble(rel.value[0]) == B(ENTRY + li - (BLOB + 204), false, lk)
  {
    hide Disassemble, Classify, RelocateBranch, Relocated, Fits, CorrectedDisplacement;
    MovedDisplacement(li);
    RelocateBranchSpec(w, ENTRY, BLOB + 204);
    RelocatedWords([w], ENTRY, BLOB + 204);
    SlotZero(w);
  }

  lemma MovedDisplacement(li: int)
    requires li % 4 == 0 && 0 <= li < 0x1000
    ensures var d := CorrectedDisplacement(li, ENTRY, BLOB + 204);
            d == ENTRY + li - (BLOB + 204) && Fits(d, false)
  {
    var q := li / 4;
    assert ENTRY + li - (BLOB + 204) == 4 * (q - 0x4013);
  }

  lemma ResumeIs()
    ensures ResumeAddr(BLOB) == BLOB + 204
  {
  }

  lemma SlotZero(w: u32)
    ensures RelocateWord([w][0], Wrap32(ENTRY + 4 * 0), Wrap32(BLOB + 204 + 4 * 0))
            == RelocateWord(w, ENTRY, BLOB + 204)
  {
    hide RelocateWord;
  }

  /**
   * `bl` 256 bytes ahead at the entrypoint is relocated without complaint, and
   * both programs call the same function; but there LR holds ENTRY + 4 in the
   * original and an address of the blob in the patched program.
   */
  lemma {:induction false} CallReturnsElsewhere(cpu: Cpu, o: State, p: State, toc: u32, path: seq<u8>) returns (w: u32)
    ensures Disassemble(w) == B(0x100, false, true) && Assemble(ENTRY, toc, BLOB, [w], path).Ok?
    ensures Relocated([w], ENTRY, BLOB + 204).Ok? && |Relocated([w], ENTRY, BLOB + 204).value| == 1
    ensures o.pc == ENTRY && InstrAt(o) == Disassemble(w)
            && p.pc == BLOB + 204 && InstrAt(p) == Disassemble(Relocated([w], ENTRY, BLOB + 204).value[0]) ==>
            Step(cpu, o).pc == Step(cpu, p).pc == ENTRY + 0x100
            && Step(cpu, o).core.lr == ENTRY + 4 && Step(cpu, p).core.lr == BLOB + 208
  {
    hide EncodeBranch, Disassemble, Relocated, Assemble, InstrAt;
    BranchAccepted(0x100, true, toc, path);
    w := EncodeBranch(0x100, false, true).value;
  }

  /**
   * A branch to itself at the entrypoint is relocated to go to the entrypoint.
   * There the original program would branch to itself again; the patched one
   * has the jump into the blob.
   */
  lemma {:induction false} LoopReentersBlob(cpu: Cpu, o: State, p: State, toc: u32, path: seq<u8>, apart: iset<int>)
    returns (w: u32)
    ensures Disassemble(w) == B(0, false, false) && Assemble(ENTRY, toc, BLOB, [w], path).Ok?
    ensures Relocated([w], ENTRY, BLOB + 204).Ok? && |Relocated([w], ENTRY, BLOB + 204).value| == 1
    ensures o.pc == ENTRY && InstrAt(o) == Disassemble(w)
            && p.pc == BLOB + 204 && InstrAt(p) == Disassemble(Relocated([w], ENTRY, BLOB + 204).value[0])
            && AgreeOutside(p.core, o.core, apart)
            && WordsAt(o.core.mem, ENTRY, [w]) && WordsAt(p.core.mem, ENTRY, JumpIn(ENTRY, BLOB)) ==>
            Step(cpu, o).pc == Step(cpu, p).pc == ENTRY
            && InstrAt(Step(cpu, o)) == B(0, false, false) && InstrAt(Step(cpu, p)) == B(BLOB + 8 - ENTRY, false, false)
  {
    hide EncodeBranch, Disassemble, Relocated, Assemble, FetchWord, JumpIn, AgreeOutside;
    BranchAccepted(0, false, toc, path);
    w := EncodeBranch(0, false, false).value;
    ShortJumpIn();
    assert WordsAt(o.core.mem, ENTRY, [w]) ==> FetchWord(o.core.mem, ENTRY + 4 * 0) == [w][0];
    assert WordsAt(p.core.mem, ENTRY, JumpIn(ENTRY, BLOB)) ==>
        FetchWord(p.core.mem, ENTRY + 4 * 0) == JumpIn(ENTRY, BLOB)[0];
  }

  lemma {:induction false} ShortJumpIn()
    ensures |JumpIn(ENTRY, BLOB)| == 1 && Disassemble(JumpIn(ENTRY, BLOB)[0]) == B(BLOB + 8 - ENTRY, false, false)
  {
    hide MakeMinimalJump, EncodeBranch, Disassemble, JumpIn;
    JumpInIs();
    MinimalJumpForm(0x1_0080, 0x2_0008);
    DisassembleBranch(0xFF88, false, false);
  }

  lemma JumpInIs()
    ensures JumpIn(ENTRY, BLOB) == MakeMinimalJump(0x1_0080, 0x2_0008)
  {
    hide MakeMinimalJump;
  }

  const FAR_ENTRY: u32 := 0x2_000C
  const FAR_BLOB: u32 := 0x202_0000

  /**
   * With the entrypoint at 0x2_000C and the blob at 0x202_0000, a 64 KB
   * multiple, the jump in is direct and the jump back is long: after the
   * registers were restored, r12 and CTR are overwritten.
   */
  lemma {:induction false} OneWayInstance(cpu: Cpu, p: State)
    ensures |JumpIn(FAR_ENTRY, FAR_BLOB)| == 1 && |JumpBack(FAR_ENTRY, FAR_BLOB, 1)| == 5
    ensures p.pc == FAR_BLOB + 208 && WordsAt(p.core.mem, p.pc, JumpBack(FAR_ENTRY, FAR_BLOB, 1)) ==>
            Run(cpu, p, 5) == State(FAR_ENTRY + 4, AfterJump(p.core, true, FAR_ENTRY + 4))
  {
    hide MakeMinimalJump, Run, WordsAt, LoadedValue;
    OneWayReach(FAR_ENTRY, FAR_BLOB);
    LayoutAddresses(FAR_ENTRY, FAR_BLOB, 1);
    if p.pc == FAR_BLOB + 208 && WordsAt(p.core.mem, p.pc, JumpBack(FAR_ENTRY, FAR_BLOB, 1)) {
      JumpRuns(cpu, p, FAR_ENTRY + 4);
      LowLoads(cpu);
    }
  }

  lemma LowLoads(cpu: Cpu)
    ensures LoadedValue(cpu, FAR_ENTRY + 4) == FAR_ENTRY + 4
  {
  }

  // ------------------------------------------------------------- the files

  /** The command writes an output for the sample, which has these addresses and displaces `words` words. */
  ghost predicate PatchedAt(x: Sample, p: Patch, out: seq<u8>, e: u32, t: u32, words: nat) {
    x.Valid() && P.Patched(File(x), PATH) == Ok(out) && Successful(p, File(x), PATH, out)
    && p.tramp.entryPatchAddr == e && p.tramp.trampolineAddr == t && |DisplacedWords(p)| == words
  }

  /**
   * A file that the command patches with a branch displaced: for li = 0x100 and
   * lk = true the one of CallReturnsElsewhere, for li = 0 and lk = false the
   * one of LoopReentersBlob.
   */
  lemma {:induction false} BranchFile(li: int, lk: bool) returns (x: Sample, p: Patch, out: seq<u8>)
    requires li % 4 == 0 && 0 <= li < 0x1000
    ensures PatchedAt(x, p, out, ENTRY, BLOB, 1)
    ensures |DisplacedWords(p)| == 1 && Disassemble(DisplacedWords(p)[0]) == B(li, false, lk)
  {
    hide File, Displaced, Successful, P.Patched, Disassemble, DisplacedWords, Relocated, Input, JumpIn, EncodeBranch,
      Assemble;
    BranchAccepted(li, lk, 0x2_8000, PATH);
    x := Sample(0x1_0000, 160, 0x2_8000, EncodeBranch(li, false, lk).value);
    ShortJumpIn();
    LowSample(x);
    p, out := SamplePatch(x);
  }

  lemma LowSample(x: Sample)
    requires x.base == 0x1_0000 && x.memsz == 160 && |JumpIn(ENTRY, BLOB)| == 1
    ensures x.Valid() && Entry(x) == ENTRY && Blob(x) == BLOB && Displaced(x) == [x.word]
    ensures ResumeAddr(BLOB) == BLOB + 204
  {
    hide JumpIn;
  }

  /** A file that the command patches with the addresses of OneWayInstance: 32 MB of memory after 160 bytes of file. */
  lemma {:induction false} OneWayFile() returns (x: Sample, p: Patch, out: seq<u8>)
    ensures PatchedAt(x, p, out, FAR_ENTRY, FAR_BLOB, 1)
    ensures |JumpIn(FAR_ENTRY, FAR_BLOB)| == 1 && |JumpBack(FAR_ENTRY, FAR_BLOB, |DisplacedWords(p)|)| == 5
  {
    hide File, Displaced, Successful, P.Patched, DisplacedWords, Relocated, Input, JumpIn, JumpBack;
    x := Sample(0x1_FF8C, 0x200_0000, 0x2_8000, 0);
    OneWayReach(FAR_ENTRY, FAR_BLOB);
    FarSample(x);
    ZerosStay([0], FAR_ENTRY, ResumeAddr(FAR_BLOB));
    p, out := SamplePatch(x);
  }

  lemma FarSample(x: Sample)
    requires x == Sample(0x1_FF8C, 0x200_0000, 0x2_8000, 0) && |JumpIn(FAR_ENTRY, FAR_BLOB)| == 1
    ensures x.Valid() && Entry(x) == FAR_ENTRY && Blob(x) == FAR_BLOB && Displaced(x) == [0]
  {
    hide JumpIn;
  }

  lemma {:induction false} ZerosStay(ws: seq<u32>, a: u32, b: u32)
    requires forall i :: 0 <= i < |ws| ==> ws[i] == 0
    ensures Relocated(ws, a, b).Ok?
  {
    hide Classify, RelocateBranch, Disassemble, Relocated;
    assert Disassemble(0) == Other(0) by { FieldsOf(0, 0, 0, 0, 0); }
    RelocateBranchSpec(0, a, b);
    RelocatedWords(ws, a, b);
  }

  /**
   * A file whose segment ends in the last 64 KB of the 32-bit space: the
   * command patches it, with the trampoline at address 0.
   */
  lemma {:induction false} AddressZeroFile() returns (x: Sample, p: Patch, out: seq<u8>)
    ensures PatchedAt(x, p, out, 0xFFFF_0080, 0, 5) && P.HighestEnd(p.input.phdrs) == 0xFFFF_00A0
  {
    hide File, Displaced, Successful, P.Patched, DisplacedWords, Relocated, Header, DescriptorBytes, BytesOfWords, JumpIn,
      P.AlignUp;
    x := Sample(0xFFFF_0000, 160, 0x2_8000, 0);
    LastSample(x);
    ZerosStay([0, 0, 0, 0, 0], 0xFFFF_0080, ResumeAddr(0));
    p, out := SamplePatch(x);
    var ps := p.input.phdrs;
    assert ps == [Segment(x)] && ps[..0] == [];
    assert P.HighestEnd([]) == 0;
  }

  lemma LastSample(x: Sample)
    requires x == Sample(0xFFFF_0000, 160, 0x2_8000, 0)
    ensures x.Valid() && Entry(x) == 0xFFFF_0080 && Blob(x) == 0 && Displaced(x) == [0, 0, 0, 0, 0]
  {
    hide MakeMinimalJump;
    AlignedForm(0xFFFF_0080, 8);
  }
}
