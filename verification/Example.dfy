// One executable that is patched and run: the hypotheses of
// WholePatch.PatchPreservesMeaning can all be met at once.
module Example {
  import opened Bits
  import opened Bytes
  import opened Wrappers
  import opened Isa
  import opened Decode
  import opened Machine
  import opened Codegen
  import opened Transparency
  import opened Prefix
  import opened Trampoline
  import opened Simulation
  import opened Accesses
  import opened Patched
  import opened ElfImage
  import opened ElfEdits
  import opened ElfFiles
  import opened PatchedFile
  import opened AfterPatch
  import opened WholePatch
  import opened Samples
  import P = Patcher

  /** stdu r1, -112(r1): the push that functions begin with. */
  const PUSH: u32 := 0xF821_FF91

  /** The file, loaded at 0x1_0000; its trampoline goes to 0x2_0000. */
  const FILE := Sample(0x1_0000, 160, 0x2_8000, PUSH)

  // -------------------------------------------------------------- the patch

  lemma {:induction false} Addresses()
    ensures FILE.Valid() && Entry(FILE) == 0x1_0080 && Blob(FILE) == 0x2_0000 && Displaced(FILE) == [PUSH]
  {
    hide JumpIn;
    ShortIn();
  }

  lemma ShortIn()
    ensures |JumpIn(0x1_0080, 0x2_0000)| == 1
  {
    hide MakeMinimalJump;
    AlignedForm(0x1_0080, 0x2_0008);
  }

  lemma {:induction false} PushStays(a: u32, b: u32)
    ensures Relocated([PUSH], a, b) == Ok([PUSH]) && Disassemble(PUSH) == Stdu(1, 1, -112)
  {
    hide Classify, RelocateBranch, Disassemble;
    FieldsOf(PUSH, 62, 1, 1, 0xFF91);
    RelocateBranchSpec(PUSH, a, b);
    RelocatedWords([PUSH], a, b);
    assert RelocateWord([PUSH][0], Wrap32(a + 4 * 0), Wrap32(b + 4 * 0)) == Some(PUSH);
    assert Relocated([PUSH], a, b).value == [PUSH];
  }

  // ---------------------------------------------------------------- the run

  /** Memory that holds an image and nothing else. */
  ghost function MemoryOf(img: Image): Memory {
    map a: int | 0 <= a < M64 && Resolve(img, a).Ok? && Resolve(img, a).value < |img.raw| :: img.raw[Resolve(img, a).value]
  }

  lemma MemoryLoaded(img: Image)
    ensures Loaded(MemoryOf(img), img)
  {
    hide Resolve;
  }

  /** A kernel that does nothing at all. */
  const IDLE := Cpu((w: u32, c: Core) => c, c => c, false)

  lemma IdleKernel(code: Region)
    ensures KernelOk(IDLE, code)
  {
  }

  lemma StackClear(code: Region)
    requires 0 <= code.lo && code.hi < 0x1000_0000
    ensures FrameClear(Wrap(0x8000_0000 - 256), code)
  {
    forall a | code.Has(a)
      ensures !InFrame(0x7FFF_FF00, a)
    {
      OffsetModulo(a - 0x7FFF_FF00, 0);
    }
  }

  lemma {:induction false} PushHarmless(c: Core, apart: iset<int>, window: Region, blob: Region)
    requires c.gpr[1] == 0x8000_0000 && InSpace(window) && InSpace(blob) && window.hi < 0x1000_0000 && blob.hi < 0x1000_0000
    ensures StoreHarmless(Stdu(1, 1, -112), c, apart, window, blob)
  {
    hide BeBytes, ByteAfter;
    var i := Stdu(1, 1, -112);
    forall a: u64 | Touches(i, c, a)
      ensures a >= 0x1000_0000
    {
      StackByte(a);
    }
  }

  lemma StackByte(a: u64)
    requires Wrap(a - (0x8000_0000 - 112)) < 8
    ensures a >= 0x1000_0000
  {
    if a < 0x1000_0000 {
      OffsetModulo(a - (0x8000_0000 - 112), 0);
    }
  }

  lemma {:induction false} PushDisplaceable(c: Core, e: u32, toc: u32, t: u32, mem: Memory, apart: iset<int>, blob: Region)
    requires c.gpr[1] == 0x8000_0000 && e < 0x10_0000 && InSpace(blob) && blob.hi < 0x1000_0000
    requires WordsAt(mem, e, [PUSH])
    ensures Displaceable(IDLE, OriginalStart(IDLE, c, e, toc, t, 1, mem), apart, WindowRegion(e, 1), 1, blob)
  {
    hide AfterTraps, Quiet, Disassemble, FetchWord, Execute, PathAddress, Entered, StoreHarmless, Taken, Target,
      CoreAfterBranch, PUSH;
    var o := OriginalStart(IDLE, c, e, toc, t, 1, mem);
    EnteredStack(c, e, t);
    assert FetchWord(o.core.mem, e + 4 * 0) == [PUSH][0];
    PushStays(e, e);
    assert InstrAt(o) == Stdu(1, 1, -112);
    PushHarmless(o.core, apart, WindowRegion(e, 1), blob);
    StoreQuietIff(IDLE, Stdu(1, 1, -112), o.core, apart, WindowRegion(e, 1), blob);
  }

  lemma {:induction false} PushRunnable(p: Patch, c: Core, mem: Memory)
    requires c.gpr[1] == 0x8000_0000
    requires p.entry.tocValue == 0x2_8000 && p.tramp.entryPatchAddr == 0x1_0080 && p.tramp.trampolineAddr == 0x2_0000
    requires |p.tramp.blob| <= 1268 && DisplacedWords(p) == [PUSH] && WordsAt(mem, 0x1_0080, [PUSH])
    ensures Runnable(IDLE, c, p, mem)
  {
    hide DisplacedWords, KernelOk, FrameClear, Displaceable, OriginalStart, Apart, AllLoad, WordsAt;
    IdleKernel(BlobRegion(p.tramp));
    StackClear(BlobRegion(p.tramp));
    PushDisplaceable(c, 0x1_0080, 0x2_8000, 0x2_0000, mem, ApartFrom(IDLE, c, p, mem), BlobRegion(p.tramp));
    LowAddressesLoad();
  }

  lemma LowAddressesLoad()
    ensures AllLoad(IDLE, 0x1_0080, 0x2_8000, 0x2_0000, 1)
  {
    hide JumpIn, JumpBack;
  }

  /**
   * Everything WholePatch.PatchPreservesMeaning asks for, at once, with a store
   * displaced, on a machine that decodes as the architecture does.
   */
  lemma {:induction false} TheoremApplies() returns (cpu: Cpu, p: Patch, out: seq<u8>, s: State, mem: Memory)
    ensures FILE.Valid() && !cpu.mbInOrder && P.Patched(File(FILE), PATH) == Ok(out)
    ensures Successful(p, File(FILE), PATH, out)
    ensures LowSegments(p.input) && WindowContiguous(p) && DisplacedWords(p) == [PUSH]
    ensures Loaded(s.core.mem, Reread(p, out)) && s.pc == p.entry.codeAddress
    ensures Loaded(mem, p.input) && Runnable(cpu, s.core, p, mem)
  {
    hide File, P.Patched, Successful, LowSegments, WindowContiguous, Loaded, MemoryOf, DisplacedWords, Runnable, Entry,
      Blob, Displaced, Input, Relocated, PUSH, EditedImage, WithSegment, PatchFits, WordsAt;
    Addresses();
    PushStays(0x1_0080, ResumeAddr(0x2_0000));
    p, out := SamplePatch(FILE);
    WindowOk(FILE, p);
    cpu := IDLE;
    MemoryLoaded(Reread(p, out));
    MemoryLoaded(p.input);
    mem := MemoryOf(p.input);
    var g: Registers := seq(32, _ => 0x8000_0000);
    s := State(0x1_0080, Core(g, 0, 0, 0, 0, MemoryOf(Reread(p, out))));
    LoadedWindow(p, File(FILE), PATH, out, mem);
    PushRunnable(p, s.core, mem);
  }
}
