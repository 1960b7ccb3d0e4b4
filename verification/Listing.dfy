// What the emitted words disassemble to.
module Listing {
  import opened Bits
  import opened Encode
  import opened Isa
  import opened Syscalls
  import opened Codegen

  function DisassembleAll(ws: seq<u32>): (prog: seq<Instr>)
    ensures |prog| == |ws|
    ensures forall i {:trigger prog[i]} :: 0 <= i < |ws| ==> prog[i] == Disassemble(ws[i])
  {
    seq(|ws|, i requires 0 <= i < |ws| => Disassemble(ws[i]))
  }

  lemma DisassembleAppend(xs: seq<u32>, ys: seq<u32>)
    ensures DisassembleAll(xs + ys) == DisassembleAll(xs) + DisassembleAll(ys)
  {
  }

  /** std of r3+k .. r12 to their slots. */
  function SaveList(k: nat): (prog: seq<Instr>)
    requires k <= 10
    ensures |prog| == 10 - k
    ensures forall i {:trigger prog[i]} :: 0 <= i < 10 - k ==> prog[i] == Std(3 + k + i, 1, 152 + 8 * (k + i))
    decreases 10 - k
  {
    if k == 10 then [] else [Std(3 + k, 1, 152 + 8 * k)] + SaveList(k + 1)
  }

  /** ld of r3+k .. r12 from their slots. */
  function RestoreList(k: nat): (prog: seq<Instr>)
    requires k <= 10
    ensures |prog| == 10 - k
    ensures forall i {:trigger prog[i]} :: 0 <= i < 10 - k ==> prog[i] == Ld(3 + k + i, 1, 152 + 8 * (k + i))
    decreases 10 - k
  {
    if k == 10 then [] else [Ld(3 + k, 1, 152 + 8 * k)] + RestoreList(k + 1)
  }

  function PrologueList(): seq<Instr> {
    [Stdu(1, 1, -256), Std(0, 1, 128), Mflr(0), Std(0, 1, 136), Mfctr(0), Std(0, 1, 144)] + SaveList(0)
  }

  function EpilogueList(): seq<Instr> {
    [Ld(0, 1, 136), Mtlr(0), Ld(0, 1, 144), Mtctr(0)] + RestoreList(0) + [Ld(0, 1, 128), Addi(1, 1, 256)]
  }

  function LoadList(r: Reg, v: u32): seq<Instr> {
    [Addis(r, 0, Signed16(v / 0x1_0000)), Ori(r, r, v % 0x1_0000), Rldicl(r, r, 0, 32)]
  }

  /** Everything of sys_prx_load_module up to its trap. */
  function LoadModuleList(path: u32): seq<Instr> {
    LoadList(3, path) + [Addi(4, 0, 0), Addi(5, 0, 0), Addi(11, 0, 480)]
  }

  /** Everything of sys_prx_start_module up to its trap. */
  function StartModuleList(): seq<Instr> {
    [Addi(4, 0, 0), Addi(5, 0, 0), Addi(6, 0, 0), Addi(7, 0, 0), Addi(8, 0, 0), Addi(11, 0, 481)]
  }

  function JumpList(to: u32): seq<Instr> {
    LoadList(12, to) + [Mtctr(12), Bcctr(20, 0, false)]
  }

  /** The ten std words (or ld words) for r3 .. r12. */
  function SlotWords(load: bool): (ws: seq<u32>)
    ensures |ws| == 10
  {
    hide EncodeStdForm;
    seq(10, k requires 0 <= k < 10 =>
      if load then EncodeLd(3 + k, 1, 152 + 8 * k).value else EncodeStd(3 + k, 1, 152 + 8 * k).value)
  }

  lemma SlotListing()
    ensures DisassembleAll(SlotWords(false)) == SaveList(0)
    ensures DisassembleAll(SlotWords(true)) == RestoreList(0)
  {
    hide Disassemble, EncodeStdForm, SaveList, RestoreList;
    forall k: nat | k < 10
      ensures DisassembleAll(SlotWords(false))[k] == SaveList(0)[k]
      ensures DisassembleAll(SlotWords(true))[k] == RestoreList(0)[k]
    {
      DisassembleStd(3 + k, 1, 152 + 8 * k);
    }
  }

  /** The six words before the register saves. */
  function PrologueHead(): (ws: seq<u32>)
    ensures |ws| == 6
  {
    hide EncodeStdForm, EncodeMfspr;
    [EncodeStdu(1, 1, -256).value, EncodeStd(0, 1, 128).value, EncodeMflr(0), EncodeStd(0, 1, 136).value, EncodeMfctr(0),
     EncodeStd(0, 1, 144).value]
  }

  lemma PrologueHeadListing()
    ensures DisassembleAll(PrologueHead())
            == [Stdu(1, 1, -256), Std(0, 1, 128), Mflr(0), Std(0, 1, 136), Mfctr(0), Std(0, 1, 144)]
  {
    hide Disassemble, EncodeStdForm, EncodeMfspr, EncodeMtspr, DisassembleAll;
    DisassembleSpr(0);
    DisassembleStd(1, 1, -256);
    DisassembleStd(0, 1, 128);
    DisassembleStd(0, 1, 136);
    DisassembleStd(0, 1, 144);
  }

  lemma PrologueListing()
    ensures DisassembleAll(BuildPrologue()) == PrologueList()
  {
    hide Disassemble, EncodeStdForm, EncodeMfspr, EncodeMtspr, SaveList, DisassembleAll;
    var head := PrologueHead();
    PrologueHeadListing();
    assert BuildPrologue() == head + SlotWords(false);
    DisassembleAppend(head, SlotWords(false));
    SlotListing();
  }

  lemma EpilogueListing()
    ensures DisassembleAll(BuildEpilogue()) == EpilogueList()
  {
    hide Disassemble, EncodeStdForm, EncodeMfspr, EncodeMtspr, EncodeAddi, RestoreList, DisassembleAll;
    DisassembleSpr(0);
    DisassembleAddi(1, 1, 256);
    DisassembleStd(0, 1, 128);
    DisassembleStd(0, 1, 136);
    DisassembleStd(0, 1, 144);
    var head, tail := BuildEpilogue()[..4], BuildEpilogue()[14..];
    assert DisassembleAll(head) == [Ld(0, 1, 136), Mtlr(0), Ld(0, 1, 144), Mtctr(0)];
    assert DisassembleAll(tail) == [Ld(0, 1, 128), Addi(1, 1, 256)];
    assert BuildEpilogue() == head + SlotWords(true) + tail;
    DisassembleAppend(head, SlotWords(true));
    DisassembleAppend(head + SlotWords(true), tail);
    SlotListing();
  }

  lemma LoadListing(r: Reg, v: u32)
    ensures DisassembleAll(LoadImmediate32(r, v)) == LoadList(r, v)
  {
    hide Disassemble, EncodeAddis, EncodeOri, EncodeRldicl, Signed16, LoadImmediate32;
    LoadImmediateWords(r, v);
    DisassembleAddis(r, 0, Signed16(v / 0x1_0000));
    DisassembleOri(r, r, v % 0x1_0000);
    DisassembleRldicl(r, r, 0, 32);
  }

  lemma ScListing()
    ensures Disassemble(EncodeSc()) == Sc
  {
    hide EncodeSc;
  }

  lemma LoadModuleListing(path: u32)
    ensures DisassembleAll(LoadModuleCall(path)) == LoadModuleList(path) + [Sc]
  {
    hide Disassemble, EncodeAddi, LoadImmediate32, EncodeSc, LoadList, DisassembleAll;
    LoadListing(3, path);
    ArgumentListing();
    var tail := [EncodeLi(4, 0), EncodeLi(5, 0), EncodeLi(11, 480), EncodeSc()];
    assert LoadModuleCall(path) == LoadImmediate32(3, path) + tail;
    DisassembleAppend(LoadImmediate32(3, path), tail);
    assert DisassembleAll(tail) == [Addi(4, 0, 0), Addi(5, 0, 0), Addi(11, 0, 480), Sc];
  }

  lemma StartModuleListing()
    ensures DisassembleAll(StartModuleCall()) == StartModuleList() + [Sc]
  {
    hide Disassemble, EncodeAddi, EncodeSc, DisassembleAll;
    ArgumentListing();
    var zeros := [EncodeLi(4, 0), EncodeLi(5, 0), EncodeLi(6, 0), EncodeLi(7, 0), EncodeLi(8, 0)];
    var trap := [EncodeLi(11, 481), EncodeSc()];
    assert StartModuleCall() == zeros + trap;
    DisassembleAppend(zeros, trap);
    assert DisassembleAll(trap) == [Addi(11, 0, 481), Sc];
  }

  lemma ArgumentListing()
    ensures forall r: Reg :: Disassemble(EncodeLi(r, 0)) == Addi(r, 0, 0)
    ensures Disassemble(EncodeLi(11, 480)) == Addi(11, 0, 480) && Disassemble(EncodeLi(11, 481)) == Addi(11, 0, 481)
    ensures Disassemble(EncodeSc()) == Sc
  {
    hide Disassemble, EncodeAddi, EncodeSc;
    forall r: Reg
      ensures Disassemble(EncodeLi(r, 0)) == Addi(r, 0, 0)
    {
      DisassembleAddi(r, 0, 0);
    }
    DisassembleAddi(11, 0, 480);
    DisassembleAddi(11, 0, 481);
    ScListing();
  }

  /** The long jump in instructions; the short one is a single B. */
  lemma JumpListing(fromAddr: u32, toAddr: u32)
    ensures var ws := MakeMinimalJump(fromAddr, toAddr);
            if |ws| == 1 then
              (toAddr - fromAddr) % 4 == 0 && Near(fromAddr, toAddr)
              && DisassembleAll(ws) == [B(toAddr - fromAddr, false, false)]
            else DisassembleAll(ws) == JumpList(toAddr)
  {
    hide Disassemble, EncodeBranch, EncodeMfspr, EncodeMtspr, LoadImmediate32, EncodeBctr, LoadList, MakeMinimalJump,
      MakeAbsoluteJump, DisassembleAll;
    MinimalJumpForm(fromAddr, toAddr);
    if (toAddr - fromAddr) % 4 == 0 && Near(fromAddr, toAddr) {
      DisassembleBranch(toAddr - fromAddr, false, false);
    } else {
      LoadListing(12, toAddr);
      AbsoluteJumpWords(toAddr, 12);
      DisassembleSpr(12);
      DisassembleBctr();
      DisassembleAppend(LoadImmediate32(12, toAddr), [EncodeMtctr(12), EncodeBctr()]);
    }
  }
}
