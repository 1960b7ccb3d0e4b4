// Layout and assembly of the injected blob
// (ps3patch/include/ps3patch/trampoline.hpp, steps 1 and 3 to 9 of buildTrampoline).
module Trampoline {
  import opened Bits
  import opened Bytes
  import opened Wrappers
  import opened Encode
  import opened Isa
  import opened Syscalls
  import opened Codegen
  import opened Listing
  import opened Prefix

  /** "SP3PATCH" */
  const TRAMPOLINE_MAGIC: seq<u8> := [0x53, 0x50, 0x33, 0x50, 0x41, 0x54, 0x43, 0x48]

  const PREFIX_INSTR_COUNT: nat := 16 + SYSCALL_SEQUENCE_INSTR_COUNT + 16 + 3

  datatype TrampolineResult = TrampolineResult(
    blob: seq<u8>, entryPatchBytes: seq<u8>, trampolineAddr: u32, entryPatchAddr: u32, displacedInstructionCount: nat)

  function CodeBase(t: u32): u32 {
    Wrap32(t + |TRAMPOLINE_MAGIC|)
  }

  function JumpIn(e: u32, t: u32): (ws: seq<u32>)
    ensures |ws| == 1 || |ws| == 5
  {
    MakeMinimalJump(e, CodeBase(t))
  }

  function ResumeAddr(t: u32): u32 {
    Wrap32(CodeBase(t) + PREFIX_INSTR_COUNT * 4)
  }

  function RemainderAddr(e: u32, count: nat): u32 {
    Wrap32(e + count * 4)
  }

  function JumpBack(e: u32, t: u32, count: nat): (ws: seq<u32>)
    ensures |ws| == 1 || |ws| == 5
  {
    MakeMinimalJump(Wrap32(ResumeAddr(t) + count * 4), RemainderAddr(e, count))
  }

  function TotalInstrCount(e: u32, t: u32, count: nat): nat {
    PREFIX_INSTR_COUNT + count + |JumpBack(e, t, count)|
  }

  function PathAddress(e: u32, t: u32, count: nat): u32 {
    Wrap32(CodeBase(t) + TotalInstrCount(e, t, count) * 4)
  }

  /** Prologue, system calls, epilogue and TOC fixup, as words. */
  function PrefixWords(path: u32, toc: u32): seq<u32> {
    BuildPrologue() + (LoadModuleCall(path) + StartModuleCall()) + BuildEpilogue() + LoadImmediate32(2, toc)
  }

  /** Zero bytes up to a multiple of 4. */
  function Padded(b: seq<u8>): (r: seq<u8>)
    ensures |r| % 4 == 0 && b <= r && |r| < |b| + 4
  {
    b + seq((4 - |b| % 4) % 4, _ => 0)
  }

  /** Steps 3 to 9 of buildTrampoline, on the displaced words. */
  function Assemble(e: u32, toc: u32, t: u32, displaced: seq<u32>, path: seq<u8>): (r: Result<TrampolineResult>) {
    var count := |displaced|;
    match Relocated(displaced, e, ResumeAddr(t))
    case Err(c) => Err(c)
    case Ok(relocated) =>
      var jumpBack := JumpBack(e, t, count);
      var syscallInstrs := LoadModuleCall(PathAddress(e, t, count)) + StartModuleCall();
      if |syscallInstrs| != SYSCALL_SEQUENCE_INSTR_COUNT then Err(Unsupported)
      else
        var code := BuildPrologue() + syscallInstrs + BuildEpilogue() + LoadImmediate32(2, toc) + relocated + jumpBack;
        if |code| != TotalInstrCount(e, t, count) then Err(Unsupported)
        else
          Ok(TrampolineResult(Padded(TRAMPOLINE_MAGIC + BytesOfWords(code) + path + [0]),
                              BytesOfWords(JumpIn(e, t)), t, e, count))
  }

  lemma PrefixWordsCount(path: u32, toc: u32)
    ensures |PrefixWords(path, toc)| == PREFIX_INSTR_COUNT
    ensures |LoadModuleCall(path) + StartModuleCall()| == SYSCALL_SEQUENCE_INSTR_COUNT
  {
    hide BuildPrologue, BuildEpilogue, LoadImmediate32, EncodeAddi, EncodeSc;
  }

  /** The prefix words disassemble to the instructions of Prefix.PrefixList. */
  lemma {:induction false} PrefixListing(path: u32, toc: u32)
    ensures DisassembleAll(PrefixWords(path, toc)) == PrefixList(path, toc)
  {
    hide BuildPrologue, BuildEpilogue, LoadImmediate32, EncodeAddi, EncodeSc, LoadModuleCall, StartModuleCall,
      DisassembleAll, PrologueList, LoadModuleList, StartModuleList, EpilogueList, LoadList;
    PrologueListing();
    LoadModuleListing(path);
    StartModuleListing();
    EpilogueListing();
    LoadListing(2, toc);
    var w1, w2 := BuildPrologue(), LoadModuleCall(path) + StartModuleCall();
    DisassembleAppend(LoadModuleCall(path), StartModuleCall());
    DisassembleAppend(w1, w2);
    DisassembleAppend(w1 + w2, BuildEpilogue());
    DisassembleAppend(w1 + w2 + BuildEpilogue(), LoadImmediate32(2, toc));
    Regroup(PrologueList(), LoadModuleList(path), [Sc], StartModuleList(), [Sc], EpilogueList(), LoadList(2, toc));
  }

  lemma Regroup<T>(a: seq<T>, b: seq<T>, c: seq<T>, d: seq<T>, e: seq<T>, f: seq<T>, g: seq<T>)
    ensures a + ((b + c) + (d + e)) + f + g == a + (b + (c + (d + (e + (f + g)))))
  {
    assert (b + c) + (d + e) == b + (c + (d + e));
    var x := b + (c + (d + e));
    assert a + x + f + g == a + (x + (f + g));
    assert x + (f + g) == b + ((c + (d + e)) + (f + g));
    assert (c + (d + e)) + (f + g) == c + ((d + e) + (f + g));
    assert (d + e) + (f + g) == d + (e + (f + g));
  }

  /** The code of the blob: prefix, relocated instructions, jump back. */
  function CodeWords(e: u32, toc: u32, t: u32, relocated: seq<u32>): seq<u32> {
    PrefixWords(PathAddress(e, t, |relocated|), toc) + relocated + JumpBack(e, t, |relocated|)
  }

  /**
   * Assembly fails only in relocation: the two "internal inconsistency"
   * errors are unreachable. On success the planned layout is the real one.
   */
  lemma {:induction false} AssembleLayout(e: u32, toc: u32, t: u32, displaced: seq<u32>, path: seq<u8>)
    ensures var r := Assemble(e, toc, t, displaced, path);
            var rel := Relocated(displaced, e, ResumeAddr(t));
            if rel.Err? then r == Err(RelocationFailed)
            else
              |rel.value| == |displaced|
              && |CodeWords(e, toc, t, rel.value)| == TotalInstrCount(e, t, |displaced|)
              && r == Ok(TrampolineResult(
                           Padded(TRAMPOLINE_MAGIC + BytesOfWords(CodeWords(e, toc, t, rel.value)) + path + [0]),
                           BytesOfWords(JumpIn(e, t)), t, e, |displaced|))
  {
    hide BuildPrologue, BuildEpilogue, LoadImmediate32, LoadModuleCall, StartModuleCall, Relocated, JumpBack,
      BytesOfWords, JumpIn, Padded;
    RelocatedWords(displaced, e, ResumeAddr(t));
    PrefixWordsCount(PathAddress(e, t, |displaced|), toc);
  }

  /** All 32-bit layout sums are exact in the low part of the address space. */
  predicate RoomAt(t: u32) {
    t <= 0xFFFF_0000
  }

  /** Magic at 0, code word i at 8 + 4i, the NUL-terminated path after the code, zeros up to whole words. */
  ghost predicate LaidOut(blob: seq<u8>, code: seq<u32>, path: seq<u8>) {
    |blob| % 4 == 0 && 8 + 4 * |code| + |path| + 1 <= |blob| <= 8 + 4 * |code| + |path| + 4
    && blob[..8] == TRAMPOLINE_MAGIC
    && (forall i {:trigger code[i]} :: 0 <= i < |code| ==> blob[8 + 4 * i..12 + 4 * i] == BeBytes(code[i], 4))
    && blob[8 + 4 * |code|..8 + 4 * |code| + |path| + 1] == path + [0]
    && forall i {:trigger blob[i]} :: 8 + 4 * |code| + |path| <= i < |blob| ==> blob[i] == 0
  }

  lemma {:induction false} BlobParts(code: seq<u32>, path: seq<u8>)
    ensures LaidOut(Padded(TRAMPOLINE_MAGIC + BytesOfWords(code) + path + [0]), code, path)
  {
    hide BytesOfWords, BeBytes;
    var bytes := BytesOfWords(code);
    var front := TRAMPOLINE_MAGIC + bytes;
    var b0 := front + path + [0];
    var b := Padded(b0);
    assert b0 == front + (path + [0]);
    assert b[..|b0|] == b0;
    forall i | 0 <= i < |code|
      ensures b[8 + 4 * i..12 + 4 * i] == BeBytes(code[i], 4)
    {
      WordBytesAt(code, i);
      assert b[8 + 4 * i..12 + 4 * i] == bytes[4 * i..4 * i + 4];
    }
    assert b[8 + 4 * |code|..8 + 4 * |code| + |path| + 1] == (path + [0])[..];
    assert b[|b0| - 1] == b0[|b0| - 1] == 0;
  }

  /**
   * The resume, jump-back and path addresses computed before assembly are
   * where those parts really land, with no 32-bit sum wrapping.
   */
  lemma LayoutAddresses(e: u32, t: u32, count: nat)
    requires RoomAt(t) && count <= 5
    ensures CodeBase(t) == t + 8 && ResumeAddr(t) == t + 8 + 4 * 49
    ensures Wrap32(ResumeAddr(t) + count * 4) == t + 8 + 4 * (49 + count)
    ensures PathAddress(e, t, count) == t + 8 + 4 * (49 + count + |JumpBack(e, t, count)|)
    ensures 49 + count + |JumpBack(e, t, count)| <= 59
  {
    hide JumpBack;
  }

  /** What a successful assembly consists of. */
  lemma {:induction false} BlobLayout(e: u32, toc: u32, t: u32, displaced: seq<u32>, path: seq<u8>, r: TrampolineResult)
    requires Assemble(e, toc, t, displaced, path) == Ok(r)
    ensures Relocated(displaced, e, ResumeAddr(t)).Ok?
    ensures var relocated := Relocated(displaced, e, ResumeAddr(t)).value;
            |relocated| == |displaced| && LaidOut(r.blob, CodeWords(e, toc, t, relocated), path)
            && |CodeWords(e, toc, t, relocated)| == TotalInstrCount(e, t, |displaced|)
    ensures r.entryPatchBytes == BytesOfWords(JumpIn(e, t)) && r.displacedInstructionCount == |displaced|
    ensures r.trampolineAddr == t && r.entryPatchAddr == e
    ensures |displaced| <= 5 && |path| <= 1023 ==> |r.blob| <= 1268
  {
    hide Assemble, Relocated, CodeWords, JumpBack, JumpIn, BytesOfWords, Padded, LaidOut;
    AssembleLayout(e, toc, t, displaced, path);
    var code := CodeWords(e, toc, t, Relocated(displaced, e, ResumeAddr(t)).value);
    BlobParts(code, path);
    LaidOutSize(r.blob, code, path);
  }

  lemma LaidOutSize(blob: seq<u8>, code: seq<u32>, path: seq<u8>)
    requires LaidOut(blob, code, path)
    ensures |blob| % 4 == 0 && 8 + 4 * |code| + |path| + 1 <= |blob| <= 8 + 4 * |code| + |path| + 4
  {
  }
}
