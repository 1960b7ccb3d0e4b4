// From file to machine: the patched executable, loaded and run, simulates the
// original one.
module WholePatch {
  import opened Bits
  import opened Bytes
  import opened Wrappers
  import opened Machine
  import opened Codegen
  import opened Transparency
  import opened Prefix
  import opened Trampoline
  import opened Simulation
  import opened Patched
  import opened ElfTypes
  import opened ElfImage
  import opened ElfEdits
  import opened ElfFiles
  import opened Toc
  import opened PatchedFile
  import opened AfterPatch
  import P = Patcher

  /** Memory in which every file-backed address of the image holds its file byte. */
  ghost predicate Loaded(m: Memory, img: Image) {
    forall a: u64 {:trigger ByteAt(m, a)} ::
      Resolve(img, a).Ok? && Resolve(img, a).value < |img.raw| ==> ByteAt(m, a) == img.raw[Resolve(img, a).value]
  }

  /** The displaced window lies in one run of file bytes. */
  ghost predicate WindowContiguous(p: Patch) {
    p.entry.codeAddress + |p.tramp.entryPatchBytes| < M64
    && forall a: u64 {:trigger Resolve(p.input, a)} ::
         p.entry.codeAddress <= a < p.entry.codeAddress + |p.tramp.entryPatchBytes| ==>
           Resolve(p.input, a) == Ok(p.offset + (a - p.entry.codeAddress))
  }

  /** The words the patch displaces, as the input file has them (none if its window leaves the file). */
  function DisplacedWords(p: Patch): seq<u32> {
    var count := |p.tramp.entryPatchBytes| / 4;
    if p.offset + 4 * count <= |p.input.raw| then WordsOfBytes(p.input.raw[p.offset..p.offset + 4 * count], count) else []
  }

  /** An address that resolves lies below every bound on the segments. */
  lemma {:induction false} ResolvedIsLow(img: Image, a: u64, i: nat)
    requires LowSegments(img) && i <= |img.phdrs| && ResolveFrom(img, a, i).Ok?
    ensures a < 0xFFFF_0000
    decreases |img.phdrs| - i
  {
    var ph := img.phdrs[i];
    if !(ph.ptype == PT_LOAD && ph.vaddr <= a < Wrap(ph.vaddr + ph.filesz)) {
      ResolvedIsLow(img, a, i + 1);
    } else {
      assert ph.vaddr + ph.filesz <= 0xFFFF_0000;
    }
  }

  /** Reading the window of a parsed file gives the words that the build displaced. */
  lemma {:induction false} BuiltFromWindow(img: Image, entry: EntryDescriptor, t: u32, path: seq<u8>, off: nat, n: nat,
                                           tramp: TrampolineResult)
    requires P.Built(img, entry, t, path) == Ok(tramp) && Resolve(img, entry.codeAddress) == Ok(off)
    requires n == |JumpIn(Wrap32(entry.codeAddress), t)|
    ensures off + 4 * n <= |img.raw| && |tramp.entryPatchBytes| == 4 * n && |path| <= 1023
    ensures t % 4 == 0 && entry.codeAddress % 4 == 0
    ensures AssembledFrom(entry, t, WordsOfBytes(img.raw[off..off + 4 * n], n), path, tramp)
  {
    hide P.Built, Resolve, Assemble, JumpIn, P.AlreadyMarked, WordsOfBytes;
    P.BuiltParts(img, entry, t, path);
    P.BuiltSize(img, entry, t, path);
  }

  ghost predicate AssembledFrom(entry: EntryDescriptor, t: u32, displaced: seq<u32>, path: seq<u8>,
                                tramp: TrampolineResult) {
    Assemble(Wrap32(entry.codeAddress), Wrap32(entry.tocValue), t, displaced, path) == Ok(tramp)
  }

  lemma {:induction false} PatchBuilt(p: Patch, bytes: seq<u8>, path: seq<u8>)
    requires IsPatchOf(p, bytes, path)
    ensures P.Built(p.input, p.entry, p.tramp.trampolineAddr, path) == Ok(p.tramp)
  {
    hide P.Built, Parsed, Descriptor, Resolve, P.TrampolineAddress, ParsedAny;
  }

  /** How a successful patch was assembled. */
  lemma {:induction false} PatchAssembly(p: Patch, bytes: seq<u8>, path: seq<u8>)
    requires IsPatchOf(p, bytes, path)
    ensures p.entry.codeAddress < M32 && p.entry.tocValue < M32
    ensures p.entry.codeAddress % 4 == 0 && p.tramp.trampolineAddr % 4 == 0 && |path| <= 1023
    ensures |p.tramp.entryPatchBytes| % 4 == 0 && p.offset + |p.tramp.entryPatchBytes| <= |p.input.raw|
    ensures |p.tramp.entryPatchBytes| == 4 * |JumpIn(p.entry.codeAddress, p.tramp.trampolineAddr)|
    ensures |DisplacedWords(p)| == |JumpIn(p.entry.codeAddress, p.tramp.trampolineAddr)|
    ensures Assemble(p.entry.codeAddress, p.entry.tocValue, p.tramp.trampolineAddr, DisplacedWords(p), path) == Ok(p.tramp)
  {
    hide IsPatchOf, P.Built, Resolve, Assemble, JumpIn, WordsOfBytes;
    PatchAddress(p, bytes, path);
    PatchBuilt(p, bytes, path);
    Wrap32Same(p.entry.codeAddress);
    Wrap32Same(p.entry.tocValue);
    BuiltFromWindow(p.input, p.entry, p.tramp.trampolineAddr, path, p.offset,
                    |JumpIn(Wrap32(p.entry.codeAddress), p.tramp.trampolineAddr)|, p.tramp);
  }

  lemma Wrap32Same(v: u64)
    requires v < M32
    ensures Wrap32(v) == v
  {
  }

  /** Loading the output puts the jump at the entrypoint and the blob at its address. */
  lemma {:induction false} LoadedCode(p: Patch, bytes: seq<u8>, path: seq<u8>, out: seq<u8>, m: Memory)
    requires Successful(p, bytes, path, out) && LowSegments(p.input) && WindowContiguous(p)
    requires Loaded(m, Reread(p, out))
    ensures Holds(m, p.entry.codeAddress, p.tramp.entryPatchBytes)
    ensures Holds(m, p.tramp.trampolineAddr, p.tramp.blob)
  {
    hide IsPatchOf, WellPlaced, Serialized, Resolve, EditedImage, Framed, LowSegments;
    PatchInput(p, bytes, path);
    PatchAddress(p, bytes, path);
    RereadRaw(p, out);
    forall i | 0 <= i < |p.tramp.entryPatchBytes|
      ensures ByteAt(m, p.entry.codeAddress + i) == p.tramp.entryPatchBytes[i]
    {
      var a: u64 := p.entry.codeAddress + i;
      OldAddressesStable(p, bytes, path, out, a);
      PatchedByte(p, bytes, path, out, i);
      assert ByteAt(m, a) == out[p.offset + i];
    }
    forall j | 0 <= j < |p.tramp.blob|
      ensures ByteAt(m, p.tramp.trampolineAddr + j) == p.tramp.blob[j]
    {
      var a: u64 := p.tramp.trampolineAddr + j;
      NewAddressesResolve(p, bytes, path, out, a);
      assert ByteAt(m, a) == out[|bytes| + j];
    }
  }

  lemma RereadRaw(p: Patch, out: seq<u8>)
    requires PatchFits(p.Added(), p.offset, |p.tramp.entryPatchBytes|)
    ensures Reread(p, out).raw == out
  {
  }

  lemma {:induction false} PatchedByte(p: Patch, bytes: seq<u8>, path: seq<u8>, out: seq<u8>, i: nat)
    requires Successful(p, bytes, path, out) && i < |p.tramp.entryPatchBytes|
    ensures p.offset + i < |out| && out[p.offset + i] == p.tramp.entryPatchBytes[i]
  {
    hide IsPatchOf, WellPlaced, Serialized, PhBytes, EditedImage;
    OutputFrame(p, bytes, path);
    PatchInput(p, bytes, path);
    assert out[p.offset + i] == FramedByte(p, p.offset + i);
  }

  /**
   * The memory image changes only where intended: at every address the input
   * file backs, the loaded output has the input's byte, unless that byte of
   * the file is in the patch window or one of the two edited header fields.
   */
  lemma {:induction false} MemoryImageFrame(p: Patch, bytes: seq<u8>, path: seq<u8>, out: seq<u8>, m: Memory, m': Memory,
                                            a: u64)
    requires Successful(p, bytes, path, out) && Loaded(m, p.input) && Loaded(m', Reread(p, out))
    requires Resolve(p.input, a).Ok? && Resolve(p.input, a).value < |bytes| && Untouched(p, Resolve(p.input, a).value)
    ensures ByteAt(m', a) == ByteAt(m, a)
  {
    hide IsPatchOf, WellPlaced, Serialized, Resolve, EditedImage, Untouched;
    PatchInput(p, bytes, path);
    RereadRaw(p, out);
    OldAddressesStable(p, bytes, path, out, a);
    UntouchedByte(p, bytes, path, out, Resolve(p.input, a).value);
  }

  // -------------------------------------------------------------- the runs

  /** The input program loaded in `mem`, started as Patched.OriginalStart says. */
  ghost function Original(cpu: Cpu, c: Core, p: Patch, mem: Memory): State {
    OriginalStart(cpu, c, p.tramp.entryPatchAddr, Wrap32(p.entry.tocValue), p.tramp.trampolineAddr, |DisplacedWords(p)|,
                  mem)
  }

  /** It starts at the address and with the TOC pointer that the descriptor's eight bytes in the input file name. */
  lemma {:induction false} StartsAsDescribed(cpu: Cpu, bytes: seq<u8>, path: seq<u8>, p: Patch, c: Core, mem: Memory, d: nat)
    requires IsPatchOf(p, bytes, path) && Resolve(p.input, Wrap(p.input.header.entry)) == Ok(d)
    ensures d + 8 <= |bytes|
    ensures Original(cpu, c, p, mem).pc == p.entry.codeAddress == BeValue(bytes[d..d + 4])
    ensures Original(cpu, c, p, mem).core.gpr[2] == BeValue(bytes[d + 4..d + 8])
  {
    hide IsPatchOf, Resolve, BeValue, BeBytes, Descriptor, Entered, Called, DisplacedWords;
    PatchAddress(p, bytes, path);
    PatchInput(p, bytes, path);
    PatchDescriptor(p, bytes, path);
    DescriptorOutcome(p.input, d, p.entry);
    WordBytes(bytes[d..d + 4], p.entry.codeAddress);
    WordBytes(bytes[d + 4..d + 8], p.entry.tocValue);
    Wrap32Same(p.entry.tocValue);
  }

  lemma PatchDescriptor(p: Patch, bytes: seq<u8>, path: seq<u8>)
    requires IsPatchOf(p, bytes, path)
    ensures Descriptor(p.input) == Ok(p.entry)
  {
    hide P.Built, Parsed, Descriptor, Resolve, P.TrampolineAddress, ParsedAny;
  }

  /** Where the patched memory, after the calls, is not the input program's. */
  ghost function ApartFrom(cpu: Cpu, c: Core, p: Patch, mem: Memory): iset<int> {
    Apart(cpu, c, p.tramp.entryPatchAddr, p.tramp.trampolineAddr, |DisplacedWords(p)|, mem)
  }

  function Window(p: Patch): Region {
    WindowRegion(p.tramp.entryPatchAddr, |DisplacedWords(p)|)
  }

  /**
   * What the run must meet: the kernel keeps the frame and the blob across the
   * two calls; the new frame does not overlap the blob; the constants load;
   * and the displaced instructions, run by the input program from its own
   * loaded memory, are ones that can be moved.
   */
  ghost predicate Runnable(cpu: Cpu, c: Core, p: Patch, mem: Memory) {
    KernelOk(cpu, BlobRegion(p.tramp)) && FrameClear(Wrap(c.gpr[1] as int - 256), BlobRegion(p.tramp))
    && AllLoad(cpu, p.tramp.entryPatchAddr, Wrap32(p.entry.tocValue), p.tramp.trampolineAddr, |DisplacedWords(p)|)
    && Displaceable(cpu, Original(cpu, c, p, mem), ApartFrom(cpu, c, p, mem), Window(p), |DisplacedWords(p)|,
                    BlobRegion(p.tramp))
  }

  /** Loaded and started at the entrypoint, the patched program is installed as Patched.Installed says. */
  lemma {:induction false} LoadedIsInstalled(p: Patch, bytes: seq<u8>, path: seq<u8>, out: seq<u8>, s: State)
    requires Successful(p, bytes, path, out) && LowSegments(p.input) && WindowContiguous(p)
    requires Loaded(s.core.mem, Reread(p, out)) && s.pc == p.entry.codeAddress
    ensures Installed(s, p.tramp.entryPatchAddr, Wrap32(p.entry.tocValue), p.tramp.trampolineAddr, DisplacedWords(p), path,
                      p.tramp)
  {
    hide IsPatchOf, WellPlaced, Serialized, EditedImage, LowSegments, WindowContiguous, Assemble, JumpIn, DisplacedWords,
      Holds, Loaded, P.TrampolineAddress, Resolve;
    PatchAssembly(p, bytes, path);
    PatchAddress(p, bytes, path);
    LoadedCode(p, bytes, path, out, s.core.mem);
    RoomForBlob(p.input);
    WindowIsLow(p);
  }

  lemma RoomForBlob(img: Image)
    requires LowSegments(img)
    ensures RoomAt(P.TrampolineAddress(img))
  {
    hide P.TrampolineAddress, P.HighestEnd, LowSegments;
    PlacedPastEverything(img);
  }

  lemma {:induction false} WindowIsLow(p: Patch)
    requires LowSegments(p.input) && WindowContiguous(p) && |p.tramp.entryPatchBytes| > 0
    ensures p.entry.codeAddress + |p.tramp.entryPatchBytes| <= 0xFFFF_0000
  {
    hide LowSegments, ResolveFrom;
    var last: u64 := p.entry.codeAddress + |p.tramp.entryPatchBytes| - 1;
    assert Resolve(p.input, last).Ok?;
    ResolvedIsLow(p.input, last, 0);
  }

  /** The loaded input has the displaced words in the window. */
  lemma {:induction false} LoadedWindow(p: Patch, bytes: seq<u8>, path: seq<u8>, out: seq<u8>, mem: Memory)
    requires Successful(p, bytes, path, out) && WindowContiguous(p) && Loaded(mem, p.input)
    ensures WordsAt(mem, p.tramp.entryPatchAddr, DisplacedWords(p))
  {
    hide IsPatchOf, WellPlaced, Serialized, EditedImage, Resolve, JumpIn, Assemble, BytesOfWords, WordsOfBytes;
    PatchAddress(p, bytes, path);
    PatchAssembly(p, bytes, path);
    var e, n := p.tramp.entryPatchAddr, |p.tramp.entryPatchBytes|;
    var window := p.input.raw[p.offset..p.offset + n];
    forall i | 0 <= i < n
      ensures ByteAt(mem, e + i) == window[i]
    {
      var a: u64 := e + i;
      assert Resolve(p.input, a) == Ok(p.offset + i);
    }
    BytesRoundTrip(window, n / 4);
    HeldWords(mem, e, DisplacedWords(p));
  }

  /**
   * The patcher preserves meaning, end to end. Take any input and path for
   * which the command writes an output. Load the output in one machine and
   * start it at its resolved entrypoint; load the input, any way that puts its
   * bytes where its segments say, in another and start it as `Original` says.
   * The patched run reaches a state that the input program reaches: same
   * address outside the displaced window, same registers (r12 and CTR aside
   * after a long jump back), and the same memory at every address but those
   * that already differed when the two calls had returned, which
   * ApartExplained accounts for. HandOver places that state after both calls
   * and says exactly when a long jump back was taken.
   */
  lemma {:induction false} PatchPreservesMeaning(cpu: Cpu, bytes: seq<u8>, path: seq<u8>, p: Patch, s: State, mem: Memory)
    returns (n: nat, m: nat, viaLongJump: bool)
    requires P.Patched(bytes, path).Ok? && Successful(p, bytes, path, P.Patched(bytes, path).value)
    requires LowSegments(p.input) && WindowContiguous(p)
    requires Loaded(s.core.mem, Reread(p, P.Patched(bytes, path).value)) && s.pc == p.entry.codeAddress
    requires Loaded(mem, p.input) && Runnable(cpu, s.core, p, mem)
    ensures SameProgramState(Run(cpu, s, n), Run(cpu, Original(cpu, s.core, p, mem), m),
                             ApartFrom(cpu, s.core, p, mem), Window(p), viaLongJump)
    ensures HandOver(cpu, s, Original(cpu, s.core, p, mem), p.tramp.entryPatchAddr, p.tramp.trampolineAddr,
                     |DisplacedWords(p)|, n, m, viaLongJump)
  {
    hide P.Patched, Successful, LowSegments, WindowContiguous, Loaded, Installed, AllLoad, KernelOk, FrameClear,
      Displaceable, SameProgramState, Run, DisplacedWords, OriginalStart, Apart, JumpBack, WordsAt, HandOver;
    LoadedIsInstalled(p, bytes, path, P.Patched(bytes, path).value, s);
    LoadedWindow(p, bytes, path, P.Patched(bytes, path).value, mem);
    n, m, viaLongJump := PatchedRunSimulates(cpu, s, p.tramp.entryPatchAddr, Wrap32(p.entry.tocValue),
                                             p.tramp.trampolineAddr, DisplacedWords(p), path, p.tramp, mem);
  }

  // ------------------------------------------------------- what may differ

  /** The core at the first and at the second call. */
  ghost function CallCores(cpu: Cpu, c: Core, p: Patch): (Core, Core) {
    var e, t, k := p.tramp.entryPatchAddr, p.tramp.trampolineAddr, |DisplacedWords(p)|;
    (FirstTrap(cpu, PathAddress(e, t, k), Entered(c, e, t)), SecondTrap(cpu, PathAddress(e, t, k), Entered(c, e, t)))
  }

  ghost predicate CallWrites(cpu: Cpu, c: Core, a: int) {
    ByteAt(cpu.kernel(c).mem, a) != ByteAt(c.mem, a)
  }

  /** The file byte that backs a is one the patch edits: e_phoff, e_phnum or a byte of the window. */
  predicate EditedFileByte(p: Patch, a: u64) {
    Resolve(p.input, a).Ok? && Resolve(p.input, a).value < |p.input.raw| && !Untouched(p, Resolve(p.input, a).value)
  }

  predicate Backed(img: Image, a: u64) {
    Resolve(img, a).Ok? && Resolve(img, a).value < |img.raw|
  }

  /**
   * Everything that may differ between the memories of the two programs: what
   * the calls wrote, the back chain and save slots of the new frame, addresses
   * backed by an edited byte of the file (the window itself, and wherever a
   * segment maps the header fields or the window's bytes a second time), and
   * addresses that the input does not back at all and that the two were loaded
   * with different bytes at (the new segment).
   */
  lemma {:induction false} ApartExplained(cpu: Cpu, bytes: seq<u8>, path: seq<u8>, p: Patch, out: seq<u8>, c: Core,
                                          mem: Memory, a: u64)
    requires Successful(p, bytes, path, out) && Loaded(c.mem, Reread(p, out)) && Loaded(mem, p.input)
    requires FrameClear(Wrap(c.gpr[1] as int - 256), BlobRegion(p.tramp))
    requires a in ApartFrom(cpu, c, p, mem)
    ensures CallWrites(cpu, CallCores(cpu, c, p).0, a) || CallWrites(cpu, CallCores(cpu, c, p).1, a)
            || InSlots(Wrap(c.gpr[1] as int - 256), a)
            || EditedFileByte(p, a)
            || (!Backed(p.input, a) && ByteAt(c.mem, a) != ByteAt(mem, a))
  {
    hide Successful, Loaded, FrameClear, FirstTrap, DisplacedWords, PathAddress, Entered, Resolve, Untouched, InSlots;
    var e, t, pathAddr := p.tramp.entryPatchAddr, p.tramp.trampolineAddr,
                          PathAddress(p.tramp.entryPatchAddr, p.tramp.trampolineAddr, |DisplacedWords(p)|);
    EnteredStack(c, e, t);
    TrapArguments(cpu, pathAddr, Entered(c, e, t), BlobRegion(p.tramp));
    if Backed(p.input, a) && !EditedFileByte(p, a) {
      InputSize(p, bytes, path, out);
      MemoryImageFrame(p, bytes, path, out, mem, c.mem, a);
    }
  }

  lemma InputSize(p: Patch, bytes: seq<u8>, path: seq<u8>, out: seq<u8>)
    requires Successful(p, bytes, path, out)
    ensures p.input.raw == bytes
  {
    hide IsPatchOf, WellPlaced, Serialized, EditedImage;
    PatchInput(p, bytes, path);
  }

  /**
   * And it goes on so: from that hand-over on, k steps later for every k, the
   * patched run is where the original one is, with equal registers and equal
   * memory but for those addresses, as long as the original neither fetches
   * nor loads from them (system calls and instructions outside the modelled
   * subset included: StaysClear). After a long jump back the original is taken
   * to go on with r12 and CTR as that jump left them.
   */
  lemma {:induction false} PatchPreservesRun(cpu: Cpu, bytes: seq<u8>, path: seq<u8>, p: Patch, s: State, mem: Memory)
    returns (n: nat, m: nat, viaLongJump: bool)
    requires P.Patched(bytes, path).Ok? && Successful(p, bytes, path, P.Patched(bytes, path).value)
    requires LowSegments(p.input) && WindowContiguous(p)
    requires Loaded(s.core.mem, Reread(p, P.Patched(bytes, path).value)) && s.pc == p.entry.codeAddress
    requires Loaded(mem, p.input) && Runnable(cpu, s.core, p, mem)
    ensures SameProgramState(Run(cpu, s, n), Run(cpu, Original(cpu, s.core, p, mem), m),
                             ApartFrom(cpu, s.core, p, mem), Window(p), viaLongJump)
    ensures HandOver(cpu, s, Original(cpu, s.core, p, mem), p.tramp.entryPatchAddr, p.tramp.trampolineAddr,
                     |DisplacedWords(p)|, n, m, viaLongJump)
    ensures forall k: nat ::
              GoesOn(cpu, Run(cpu, s, n), Resumed(Run(cpu, Original(cpu, s.core, p, mem), m), viaLongJump),
                     ApartFrom(cpu, s.core, p, mem), k)
    ensures forall k: nat :: Run(cpu, Run(cpu, s, n), k) == Run(cpu, s, n + k)
  {
    hide P.Patched, Successful, LowSegments, WindowContiguous, Loaded, Runnable, Original, GoesOn, SameProgramState, Run,
      DisplacedWords, JumpBack, ApartFrom, HandOver;
    n, m, viaLongJump := PatchPreservesMeaning(cpu, bytes, path, p, s, mem);
    forall k: nat
      ensures GoesOn(cpu, Run(cpu, s, n), Resumed(Run(cpu, Original(cpu, s.core, p, mem), m), viaLongJump),
                     ApartFrom(cpu, s.core, p, mem), k)
      ensures Run(cpu, Run(cpu, s, n), k) == Run(cpu, s, n + k)
    {
      SameStateGoesOn(cpu, Run(cpu, s, n), Run(cpu, Original(cpu, s.core, p, mem), m), ApartFrom(cpu, s.core, p, mem),
                      Window(p), viaLongJump, k);
      RunAdd(cpu, s, n, k);
    }
  }

  /**
   * The two system calls of the loaded output: it reaches both, and loads and
   * starts the module the path names, provided the addresses it must build are
   * ones that load.
   */
  lemma {:induction false} OutputMakesCalls(cpu: Cpu, bytes: seq<u8>, path: seq<u8>, p: Patch, out: seq<u8>, s: State)
    requires Successful(p, bytes, path, out) && LowSegments(p.input) && WindowContiguous(p)
    requires Loaded(s.core.mem, Reread(p, out)) && s.pc == p.entry.codeAddress
    requires KernelOk(cpu, BlobRegion(p.tramp)) && FrameClear(Wrap(s.core.gpr[1] as int - 256), BlobRegion(p.tramp))
    requires |JumpIn(p.tramp.entryPatchAddr, p.tramp.trampolineAddr)| == 5 ==> Loads(cpu, CodeBase(p.tramp.trampolineAddr))
    ensures var j := |JumpIn(p.tramp.entryPatchAddr, p.tramp.trampolineAddr)|;
            FirstCall(cpu, s.core.mem, Run(cpu, s, j + 22),
                      PathAddress(p.tramp.entryPatchAddr, p.tramp.trampolineAddr, |DisplacedWords(p)|), path)
            && SecondCall(cpu, Run(cpu, s, j + 22), Run(cpu, s, j + 29))
  {
    hide Successful, LowSegments, WindowContiguous, Loaded, Installed, KernelOk, FrameClear, Run, DisplacedWords, JumpIn,
      FirstCall, SecondCall, PathAddress;
    LoadedIsInstalled(p, bytes, path, out, s);
    TrapsInRun(cpu, s, p.tramp.entryPatchAddr, Wrap32(p.entry.tocValue), p.tramp.trampolineAddr, DisplacedWords(p), path,
               p.tramp);
  }
}
