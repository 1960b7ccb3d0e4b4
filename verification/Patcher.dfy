// The patcher: trampoline construction over a file, and the command's
// parse - place - build - add - patch - serialize sequence
// (ps3patch/include/ps3patch/trampoline.hpp and ps3patch/src/main.cpp).
module Patcher {
  import opened Bits
  import opened Bytes
  import opened Wrappers
  import opened Encode
  import opened Syscalls
  import opened Codegen
  import opened Trampoline
  import opened ElfTypes
  import opened ElfImage
  import opened ElfEdits
  import opened ElfFiles
  import opened Toc

  // ------------------------------------------------------ idempotency guard

  predicate HasMagic(img: Image, i: nat)
    requires i < |img.phdrs|
  {
    var ph := img.phdrs[i];
    ph.ptype == PT_LOAD && ph.filesz >= |TRAMPOLINE_MAGIC|
    && ReadBytes(img, ph.offset, |TRAMPOLINE_MAGIC|) == Ok(TRAMPOLINE_MAGIC)
  }

  /** Some PT_LOAD segment starts with the magic. */
  predicate AlreadyMarked(img: Image) {
    exists i :: 0 <= i < |img.phdrs| && HasMagic(img, i)
  }

  method IsAlreadyPatched(file: ElfFile) returns (r: bool)
    requires file.Valid()
    ensures r <==> AlreadyMarked(file.View())
  {
    for i := 0 to |file.phdrs|
      invariant forall j :: 0 <= j < i ==> !HasMagic(file.View(), j)
    {
      var ph := file.phdrs[i];
      if ph.ptype != PT_LOAD {
        continue;
      }
      if ph.filesz < |TRAMPOLINE_MAGIC| {
        continue;
      }
      SegmentFieldsFit(file.fmt, ph);
      var bytesResult := file.ReadAt(ph.offset, |TRAMPOLINE_MAGIC|);
      if bytesResult.Err? {
        continue;
      }
      if bytesResult.value == TRAMPOLINE_MAGIC {
        assert HasMagic(file.View(), i);
        return true;
      }
    }
    return false;
  }

  // ------------------------------------------------------------ buildTrampoline

  const MAX_PATH_LENGTH: nat := 1023

  function Built(img: Image, entry: EntryDescriptor, t: u32, path: seq<u8>): (r: Result<TrampolineResult>) {
    if path == [] then Err(InvalidArgument)
    else if |path| > MAX_PATH_LENGTH then Err(InvalidArgument)
    else if t % 4 != 0 then Err(InvalidArgument)
    else if entry.codeAddress % 4 != 0 then Err(InvalidArgument)
    else if AlreadyMarked(img) then Err(AlreadyPatched)
    else
      var e := Wrap32(entry.codeAddress);
      var count := |JumpIn(e, t)|;
      match Resolve(img, entry.codeAddress)
      case Err(_) => Err(OffsetOutOfBounds)
      case Ok(offset) =>
        match ReadBytes(img, offset, 4 * count)
        case Err(_) => Err(TruncatedFile)
        case Ok(b) => Assemble(e, Wrap32(entry.tocValue), t, WordsOfBytes(b, count), path)
  }

  lemma {:induction false} WordOfBytes(b: seq<u8>)
    requires |b| == 4
    ensures Or(Or(Or(Shl32(b[0], 24), Shl32(b[1], 16)), Shl32(b[2], 8)), b[3]) == BeValue(b)
  {
    hide Or, Shl32, Pow2, BeValue;
    Powers();
    BeValue4(b);
    ShlIs(b[0], 24, 0x100_0000);
    ShlIs(b[1], 16, 0x1_0000);
    ShlIs(b[2], 8, 0x100);
    var x0, x1, x2: int := b[0], b[1], b[2];
    OrField(x0, 24, 0x100_0000, x1 * 0x1_0000);
    OrField(x0 * 0x100 + x1, 16, 0x1_0000, x2 * 0x100);
    OrField(x0 * 0x1_0000 + x1 * 0x100 + x2, 8, 0x100, b[3]);
  }

  /** The inline word reader of step 2. */
  method ReadInstructions(bytes: seq<u8>, count: nat) returns (ws: seq<u32>)
    requires |bytes| == 4 * count
    ensures ws == WordsOfBytes(bytes, count)
  {
    hide Or, Shl32, BeValue;
    ws := [];
    for i := 0 to count
      invariant ws == WordsOfBytes(bytes[..4 * i], i)
    {
      var b := bytes[4 * i..4 * i + 4];
      WordOfBytes(b);
      BeValueBound(b);
      Powers256();
      var w := Or(Or(Or(Shl32(bytes[i * 4 + 0], 24), Shl32(bytes[i * 4 + 1], 16)), Shl32(bytes[i * 4 + 2], 8)),
                  bytes[i * 4 + 3]);
      ws := ws + [w];
      var read := bytes[..4 * (i + 1)];
      assert read[..4 * i] == bytes[..4 * i] && read[4 * i..] == b;
    }
    assert bytes[..4 * count] == bytes;
  }

  /** Steps 8 and 9: append the parts, the path and its terminator, then zeros to a whole word. */
  method AssembleBlob(code: seq<u32>, path: seq<u8>) returns (blob: seq<u8>)
    ensures blob == Padded(TRAMPOLINE_MAGIC + BytesOfWords(code) + path + [0])
  {
    hide BytesOfWords;
    blob := TRAMPOLINE_MAGIC;
    var codeBytes := ToBigEndianBytes(code);
    blob := blob + codeBytes;
    blob := blob + path;
    blob := blob + [0];
    blob := PadToWord(blob);
  }

  method PadToWord(whole: seq<u8>) returns (blob: seq<u8>)
    ensures blob == Padded(whole)
  {
    blob := whole;
    ghost var missing := (4 - |whole| % 4) % 4;
    ghost var zeros := 0;
    while |blob| % 4 != 0
      invariant zeros <= missing && blob == whole + seq(zeros, _ => 0)
      decreases missing - zeros
    {
      StillMissing(|whole|, zeros);
      blob := blob + [0];
      zeros := zeros + 1;
    }
    StillMissing(|whole|, zeros);
  }

  /** Zeros are missing exactly while the length is not a multiple of 4. */
  lemma StillMissing(length: nat, zeros: nat)
    requires zeros <= (4 - length % 4) % 4
    ensures (length + zeros) % 4 != 0 <==> zeros < (4 - length % 4) % 4
  {
    var q, r := length / 4, length % 4;
    assert length + zeros == 4 * q + (r + zeros) && r + zeros <= 4;
  }

  method BuildTrampoline(file: ElfFile, entry: EntryDescriptor, t: u32, path: seq<u8>)
    returns (r: Result<TrampolineResult>)
    requires file.Valid()
    ensures r == Built(file.View(), entry, t, path)
  {
    hide Consistent, JumpIn, Relocated, MakeMinimalJump, LoadModuleCall, StartModuleCall, BuildPrologue, BuildEpilogue,
      LoadImmediate32, Padded, BytesOfWords, WordsOfBytes, Resolve, AlreadyMarked;
    if path == [] {
      return Err(InvalidArgument);
    }
    if |path| > MAX_PATH_LENGTH {
      return Err(InvalidArgument);
    }
    if t % 4 != 0 {
      return Err(InvalidArgument);
    }
    if entry.codeAddress % 4 != 0 {
      return Err(InvalidArgument);
    }
    var marked := IsAlreadyPatched(file);
    if marked {
      return Err(AlreadyPatched);
    }
    var e := Wrap32(entry.codeAddress);
    var jumpIn := JumpIn(e, t);
    var displacedCount := |jumpIn|;
    var entryOffsetResult := file.VaddrToFileOffset(entry.codeAddress);
    if entryOffsetResult.Err? {
      return Err(OffsetOutOfBounds);
    }
    var entryBytesResult := file.ReadAt(entryOffsetResult.value, 4 * displacedCount);
    if entryBytesResult.Err? {
      return Err(TruncatedFile);
    }
    var displaced := ReadInstructions(entryBytesResult.value, displacedCount);
    r := AssembleTrampoline(e, Wrap32(entry.tocValue), t, displaced, path);
  }

  method AssembleTrampoline(e: u32, toc: u32, t: u32, displaced: seq<u32>, path: seq<u8>)
    returns (r: Result<TrampolineResult>)
    ensures r == Assemble(e, toc, t, displaced, path)
  {
    hide JumpIn, JumpBack, Relocated, LoadModuleCall, StartModuleCall, BuildPrologue, BuildEpilogue, LoadImmediate32,
      Padded, BytesOfWords;
    var relocated := RelocateDisplacedInstructions(displaced, e, ResumeAddr(t));
    if relocated.Err? {
      return Err(relocated.code);
    }
    var jumpBack := JumpBack(e, t, |displaced|);
    var totalCodeInstrCount := PREFIX_INSTR_COUNT + |displaced| + |jumpBack|;
    var pathAddress := Wrap32(CodeBase(t) + totalCodeInstrCount * 4);
    var syscallInstrs := MakeLoadAndStartModule(pathAddress);
    if |syscallInstrs| != SYSCALL_SEQUENCE_INSTR_COUNT {
      return Err(Unsupported);
    }
    var code := BuildPrologue();
    code := code + syscallInstrs;
    code := code + BuildEpilogue();
    code := code + LoadImmediate32(2, toc);
    code := code + relocated.value;
    code := code + jumpBack;
    if |code| != totalCodeInstrCount {
      return Err(Unsupported);
    }
    var blob := AssembleBlob(code, path);
    var entryPatchBytes := ToBigEndianBytes(JumpIn(e, t));
    return Ok(TrampolineResult(blob, entryPatchBytes, t, e, |displaced|));
  }

  // ------------------------------------------------------------ the command

  function AlignUp(value: u64, align: u64): u64 {
    if align == 0 then value else Wrap(Wrap(value + align - 1) / align * align)
  }

  function SegmentEnd(ph: Phdr): u64 {
    Wrap(ph.vaddr + ph.memsz)
  }

  /** The largest end of a PT_LOAD segment among the first n, as main's loop computes it. */
  function HighestEnd(ps: seq<Phdr>): u64 {
    if ps == [] then 0
    else
      var n := |ps| - 1;
      var below := HighestEnd(ps[..n]);
      if ps[n].ptype == PT_LOAD && SegmentEnd(ps[n]) > below then SegmentEnd(ps[n]) else below
  }

  function TrampolineAddress(img: Image): u32 {
    Wrap32(AlignUp(HighestEnd(img.phdrs), 0x1_0000))
  }

  /** The image with the trampoline added and the entrypoint overwritten. */
  function Edited(img: Image, tramp: TrampolineResult): (r: Result<Image>) {
    var added := WithSegment(img, tramp.trampolineAddr, tramp.blob, PF_R + PF_X, 0x1_0000);
    match Resolve(added, tramp.entryPatchAddr)
    case Err(code) => Err(code)
    case Ok(offset) =>
      if PatchFits(added, offset, |tramp.entryPatchBytes|)
      then Ok(WithPatch(added, offset, tramp.entryPatchBytes))
      else Err(OffsetOutOfBounds)
  }

  /** The file ps3patch writes, or why it writes none. */
  function Patched(bytes: seq<u8>, path: seq<u8>): (r: Result<seq<u8>>) {
    match ParsedAny(bytes)
    case Err(code) => Err(code)
    case Ok(img) =>
      if img.fmt != ELF64_BE then Err(Unsupported)
      else
        match Descriptor(img)
        case Err(code) => Err(code)
        case Ok(entry) =>
          if AlreadyMarked(img) then Err(AlreadyPatched)
          else
            match Built(img, entry, TrampolineAddress(img), path)
            case Err(code) => Err(code)
            case Ok(tramp) =>
              match Edited(img, tramp)
              case Err(code) => Err(code)
              case Ok(edited) => Ok(Serialized(edited))
  }

  method PatchExecutable(bytes: seq<u8>, path: seq<u8>) returns (r: Result<seq<u8>>)
    requires |bytes| < MAX_BYTES - 0x1_0000
    ensures r == Patched(bytes, path)
  {
    hide Consistent, Descriptor, ParsedAny, Built, AlreadyMarked, Resolve, AlignUp, Serialized;
    var parsed := ParseAny(bytes);
    if parsed.Err? {
      return Err(parsed.code);
    }
    var file := parsed.value;
    if file.fmt != ELF64_BE {
      return Err(Unsupported);
    }
    var entryResult := ResolveEntryDescriptor(file);
    if entryResult.Err? {
      return Err(entryResult.code);
    }
    var entry := entryResult.value;
    var marked := IsAlreadyPatched(file);
    if marked {
      return Err(AlreadyPatched);
    }
    var highestEnd := FindHighestEnd(file);
    var t := Wrap32(AlignUp(highestEnd, 0x1_0000));
    var trampolineResult := BuildTrampoline(file, entry, t, path);
    if trampolineResult.Err? {
      return Err(trampolineResult.code);
    }
    var tramp := trampolineResult.value;
    BuiltSize(file.View(), entry, t, path);
    ParsedRaw(bytes);
    var _ := file.AddLoadSegment(tramp.trampolineAddr, tramp.blob, PF_R + PF_X, 0x1_0000);
    var entryOffsetResult := file.VaddrToFileOffset(tramp.entryPatchAddr);
    if entryOffsetResult.Err? {
      return Err(entryOffsetResult.code);
    }
    var patchResult := file.PatchBytesAt(entryOffsetResult.value, tramp.entryPatchBytes);
    if patchResult.Err? {
      return Err(patchResult.code);
    }
    var out := file.Serialize();
    return Ok(out);
  }

  method FindHighestEnd(file: ElfFile) returns (highestEnd: u64)
    ensures highestEnd == HighestEnd(file.phdrs)
  {
    highestEnd := 0;
    for i := 0 to |file.phdrs|
      invariant highestEnd == HighestEnd(file.phdrs[..i])
    {
      var ph := file.phdrs[i];
      assert file.phdrs[..i + 1][..i] == file.phdrs[..i];
      if ph.ptype == PT_LOAD {
        var end := Wrap(ph.vaddr + ph.memsz);
        if end > highestEnd {
          highestEnd := end;
        }
      }
    }
    assert file.phdrs[..|file.phdrs|] == file.phdrs;
  }

  lemma {:induction false} ParsedRaw(bytes: seq<u8>)
    requires ParsedAny(bytes).Ok?
    ensures ParsedAny(bytes).value.raw == bytes
  {
    hide Parsed, FormatOf;
    ParsedFormat(FormatOf(bytes).value, bytes);
  }

  /** What a successful build was built from. */
  lemma {:induction false} BuiltParts(img: Image, entry: EntryDescriptor, t: u32, path: seq<u8>)
    requires Built(img, entry, t, path).Ok?
    ensures 0 < |path| <= MAX_PATH_LENGTH && t % 4 == 0 && entry.codeAddress % 4 == 0 && !AlreadyMarked(img)
    ensures var e := Wrap32(entry.codeAddress);
            var count := |JumpIn(e, t)|;
            Resolve(img, entry.codeAddress).Ok?
            && Resolve(img, entry.codeAddress).value + 4 * count <= |img.raw|
            && var off := Resolve(img, entry.codeAddress).value;
               Assemble(e, Wrap32(entry.tocValue), t, WordsOfBytes(img.raw[off..off + 4 * count], count), path)
               == Built(img, entry, t, path)
  {
    hide JumpIn, Resolve, AlreadyMarked, Assemble, WordsOfBytes;
  }

  lemma {:induction false} BuiltSize(img: Image, entry: EntryDescriptor, t: u32, path: seq<u8>)
    requires Built(img, entry, t, path).Ok?
    ensures var tramp := Built(img, entry, t, path).value;
            8 <= |tramp.blob| <= 1268 && tramp.blob[..8] == TRAMPOLINE_MAGIC
            && |tramp.entryPatchBytes| == 4 * |JumpIn(Wrap32(entry.codeAddress), t)|
            && tramp.entryPatchAddr == Wrap32(entry.codeAddress) && tramp.trampolineAddr == t
  {
    hide Built, Assemble, JumpIn, Resolve, AlreadyMarked, WordsOfBytes, BytesOfWords, CodeWords, Relocated;
    BuiltParts(img, entry, t, path);
    var e := Wrap32(entry.codeAddress);
    var count := |JumpIn(e, t)|;
    var off := Resolve(img, entry.codeAddress).value;
    BlobLayout(e, Wrap32(entry.tocValue), t, WordsOfBytes(img.raw[off..off + 4 * count], count), path,
               Built(img, entry, t, path).value);
  }
}
