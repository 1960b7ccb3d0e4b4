// Which builds succeed and which files the command patches: the exact
// conditions, in terms of bytes, segments and addresses.
module Acceptance {
  import opened Bits
  import opened Bytes
  import opened Wrappers
  import opened Isa
  import opened Decode
  import opened Codegen
  import opened Trampoline
  import opened ElfTypes
  import opened ElfImage
  import opened ElfEdits
  import opened ElfFiles
  import opened ElfLayout
  import opened Toc
  import opened PatchedFile
  import P = Patcher

  // ------------------------------------------------------------- conditions

  /** A PT_LOAD segment of at least 8 file bytes that begin with "SP3PATCH". */
  predicate StartsWithMagic(ph: Phdr, raw: seq<u8>) {
    ph.ptype == 1 && ph.filesz >= 8 && ph.offset + 8 <= |raw|
    && raw[ph.offset..ph.offset + 8] == [0x53, 0x50, 0x33, 0x50, 0x41, 0x54, 0x43, 0x48]
  }

  predicate Marked(img: Image) {
    exists i {:trigger img.phdrs[i]} :: 0 <= i < |img.phdrs| && StartsWithMagic(img.phdrs[i], img.raw)
  }

  /** The idempotency guard looks for just that. */
  lemma {:induction false} MarkedIff(img: Image)
    ensures P.AlreadyMarked(img) <==> Marked(img)
  {
    forall i | 0 <= i < |img.phdrs|
      ensures P.HasMagic(img, i) <==> StartsWithMagic(img.phdrs[i], img.raw)
    {
    }
    if Marked(img) {
      var i :| 0 <= i < |img.phdrs| && StartsWithMagic(img.phdrs[i], img.raw);
      assert P.HasMagic(img, i);
    }
  }

  predicate ArgumentsOk(codeAddress: u64, t: u32, path: seq<u8>) {
    0 < |path| <= 1023 && t % 4 == 0 && codeAddress % 4 == 0
  }

  /** How many words a jump from `from` to `to` takes, and so how many it displaces. */
  function JumpLength(from: u32, to: u32): nat {
    if (to - from) % 4 == 0 && -0x200_0000 <= to - from <= 0x1FF_FFFC then 1 else 5
  }

  lemma MinimalLength(from: u32, to: u32)
    ensures |MakeMinimalJump(from, to)| == JumpLength(from, to)
  {
    hide MakeMinimalJump;
    MinimalJumpForm(from, to);
  }

  lemma {:induction false} JumpLengthIs(e: u32, t: u32)
    ensures |JumpIn(e, t)| == JumpLength(e, (t + 8) % M32)
  {
    hide MakeMinimalJump, JumpLength;
    MinimalLength(e, (t + 8) % M32);
  }

  /** A relative branch that cannot be corrected for its new address. */
  predicate OutOfReach(w: u32, from: u32, to: u32) {
    var i := Disassemble(w);
    i.IsRelative() && !Fits((from + DisplacementOf(i)) % M32 - to, i.Bc?)
  }

  /** Word i of the words that begin at file offset `off`. */
  function RawWord(raw: seq<u8>, off: nat, i: nat): (w: u32)
    requires off + 4 * i + 4 <= |raw|
  {
    BeValueBound(raw[off + 4 * i..off + 4 * i + 4]);
    Powers256();
    BeValue(raw[off + 4 * i..off + 4 * i + 4])
  }

  /** None of the n words at file offset `off` is out of reach when moved from address e to address r. */
  ghost predicate AllMovable(raw: seq<u8>, off: nat, n: nat, e: u32, r: u32) {
    off + 4 * n <= |raw|
    && forall i {:trigger RawWord(raw, off, i)} :: 0 <= i < n ==>
         !OutOfReach(RawWord(raw, off, i), (e + 4 * i) % M32, (r + 4 * i) % M32)
  }

  // ------------------------------------------------------------- building

  lemma {:induction false} WindowWord(raw: seq<u8>, off: nat, n: nat, i: nat)
    requires off + 4 * n <= |raw| && i < n
    ensures WordsOfBytes(raw[off..off + 4 * n], n)[i] == RawWord(raw, off, i)
  {
    hide BeValue;
    WordAt(raw[off..off + 4 * n], n, i);
    SliceWithin(raw, off, 4 * n, 4 * i, 4 * i + 4);
  }

  /** Relocating a list succeeds exactly when no word of it is out of reach. */
  lemma {:induction false} RelocatedUnless(ws: seq<u32>, e: u32, r: u32)
    ensures Relocated(ws, e, r).Ok?
            <==> forall i {:trigger ws[i]} :: 0 <= i < |ws| ==>
                   !OutOfReach(ws[i], (e + 4 * i) % M32, (r + 4 * i) % M32)
  {
    hide Relocated, Disassemble, Fits;
    RelocationRefusedIff(ws, e, r);
    RefusalCode(ws, e, r);
  }

  /** Relocating the words of a window fails exactly when one of them is out of reach. */
  lemma {:induction false} RelocatedIff(raw: seq<u8>, off: nat, n: nat, e: u32, r: u32)
    requires off + 4 * n <= |raw|
    ensures Relocated(WordsOfBytes(raw[off..off + 4 * n], n), e, r).Ok? <==> AllMovable(raw, off, n, e, r)
  {
    hide Relocated, WordsOfBytes, OutOfReach, RawWord;
    var ws := WordsOfBytes(raw[off..off + 4 * n], n);
    RelocatedUnless(ws, e, r);
    if Relocated(ws, e, r).Ok? {
      forall i {:trigger RawWord(raw, off, i)} | 0 <= i < n
        ensures !OutOfReach(RawWord(raw, off, i), (e + 4 * i) % M32, (r + 4 * i) % M32)
      {
        WindowWord(raw, off, n, i);
        assert !OutOfReach(ws[i], (e + 4 * i) % M32, (r + 4 * i) % M32);
      }
    }
    if AllMovable(raw, off, n, e, r) {
      forall i | 0 <= i < |ws|
        ensures !OutOfReach(ws[i], (e + 4 * i) % M32, (r + 4 * i) % M32)
      {
        WindowWord(raw, off, n, i);
        assert !OutOfReach(RawWord(raw, off, i), (e + 4 * i) % M32, (r + 4 * i) % M32);
      }
    }
  }

  lemma {:induction false} RefusalCode(ws: seq<u32>, e: u32, r: u32)
    ensures Relocated(ws, e, r).Err? ==> Relocated(ws, e, r) == Err(RelocationFailed)
  {
    hide Relocated, RelocateWord;
    RelocatedWords(ws, e, r);
  }

  /**
   * buildTrampoline, every outcome: the first of these obstacles is its error,
   * and without any of them it succeeds.
   */
  lemma {:induction false} BuildOutcome(img: Image, entry: EntryDescriptor, t: u32, path: seq<u8>)
    ensures var r := P.Built(img, entry, t, path);
            var e, resume := entry.codeAddress % M32, (t + 204) % M32;
            var n := JumpLength(e, (t + 8) % M32);
            if !ArgumentsOk(entry.codeAddress, t, path) then r == Err(InvalidArgument)
            else if Marked(img) then r == Err(AlreadyPatched)
            else if Resolve(img, entry.codeAddress).Err? then r == Err(OffsetOutOfBounds)
            else
              var off := Resolve(img, entry.codeAddress).value;
              if off + 4 * n > |img.raw| then r == Err(TruncatedFile)
              else if !AllMovable(img.raw, off, n, e, resume) then r == Err(RelocationFailed)
              else r.Ok?
  {
    hide JumpIn, Resolve, P.AlreadyMarked, Marked, Assemble, WordsOfBytes, JumpLength, AllMovable, Relocated, CodeWords,
      Padded, BytesOfWords;
    MarkedIff(img);
    var e: u32 := Wrap32(entry.codeAddress);
    JumpLengthIs(e, t);
    ResumeIs(t);
    var n := |JumpIn(e, t)|;
    if Resolve(img, entry.codeAddress).Ok? && Resolve(img, entry.codeAddress).value + 4 * n <= |img.raw| {
      var off := Resolve(img, entry.codeAddress).value;
      var ws := WordsOfBytes(img.raw[off..off + 4 * n], n);
      RelocatedIff(img.raw, off, n, e, ResumeAddr(t));
      RefusalCode(ws, e, ResumeAddr(t));
      AssembleLayout(e, Wrap32(entry.tocValue), t, ws, path);
    }
  }

  /** The words the jump from e to the code at t + 8 displaces are in the file, and all can be moved. */
  ghost predicate WindowMovable(img: Image, e: u32, t: u32) {
    Resolve(img, e).Ok?
    && var off, n := Resolve(img, e).value, JumpLength(e, (t + 8) % M32);
       off + 4 * n <= |img.raw| && AllMovable(img.raw, off, n, e, (t + 204) % M32)
  }

  /** In one condition: when the build succeeds. */
  lemma {:induction false} BuildSucceedsIff(img: Image, entry: EntryDescriptor, t: u32, path: seq<u8>)
    requires entry.codeAddress < M32
    ensures P.Built(img, entry, t, path).Ok?
            <==> 0 < |path| <= 1023 && t % 4 == 0 && entry.codeAddress % 4 == 0 && !Marked(img)
                 && WindowMovable(img, entry.codeAddress, t)
  {
    hide P.Built, Resolve, Marked, AllMovable, JumpLength;
    SmallRest(entry.codeAddress);
    BuildOutcome(img, entry, t, path);
  }

  lemma SmallRest(e: u64)
    requires e < M32
    ensures e % M32 == e
  {
  }

  lemma ResumeIs(t: u32)
    ensures ResumeAddr(t) == (t + 204) % M32
  {
    QuotientUnique(Wrap32(t + 8) + 196, M32, (t + 204) / M32 - (t + 8) / M32, (t + 204) % M32);
  }

  // ------------------------------------------------------------ the command

  /** The bytes are those of an ELF64 big-endian file that parse accepts. */
  predicate Elf64File(bytes: seq<u8>) {
    64 <= |bytes| && bytes[..4] == [0x7F, 0x45, 0x4C, 0x46] && bytes[4] == 2 && bytes[5] == 2
    && BeValue(bytes[52..54]) == 64
    && (BeValue(bytes[56..58]) > 0 ==> BeValue(bytes[54..56]) == 56)
    && (BeValue(bytes[60..62]) > 0 ==> BeValue(bytes[58..60]) == 64 && BeValue(bytes[62..64]) < BeValue(bytes[60..62]))
    && BeValue(bytes[32..40]) + BeValue(bytes[56..58]) * 56 <= |bytes|
    && BeValue(bytes[40..48]) + BeValue(bytes[60..62]) * 64 <= |bytes|
  }

  lemma {:induction false} Elf64FileIff(bytes: seq<u8>)
    ensures Elf64File(bytes) <==> ParsedAny(bytes).Ok? && ParsedAny(bytes).value.fmt == ELF64_BE
    ensures Elf64File(bytes) ==> StandsIn(ParsedAny(bytes).value, bytes) && ParsedAny(bytes).value.raw == bytes
  {
    hide ParsedAny, StandsIn, BeValue;
    NoObjection(bytes);
    ParseAnyOutcome(bytes);
  }

  lemma NoObjection(bytes: seq<u8>)
    ensures Elf64File(bytes) <==> Objection(ELF64_BE, bytes) == None
    ensures Elf64File(bytes) ==> bytes[..4] == [0x7F, 0x45, 0x4C, 0x46] && bytes[4] == 2 && bytes[5] == 2 && 16 <= |bytes|
    ensures Objection(ELF64_BE, bytes) == None ==> 16 <= |bytes|
  {
    hide BeValue;
  }

  /** The trampoline address is a multiple of 4 whatever the segments. */
  lemma {:induction false} PlacedAligned(img: Image)
    ensures P.TrampolineAddress(img) % 4 == 0
  {
    hide P.HighestEnd;
    var v: u64 := P.HighestEnd(img.phdrs);
    var q := Wrap(v + 0x1_0000 - 1) / 0x1_0000;
    var r := P.AlignUp(v, 0x1_0000);
    assert Wrap(v + 0x1_0000 - 1) == q * 0x1_0000 + Wrap(v + 0x1_0000 - 1) % 0x1_0000;
    Multiple(Wrap32(Wrap(q * 0x1_0000)), 4, 0x4000 * q - 0x4000_0000 * (q * 0x1_0000 / M64 * M32 + Wrap(q * 0x1_0000) / M32));
  }

  /** Once the trampoline is built, both edits succeed. */
  lemma {:induction false} EditsSucceed(img: Image, entry: EntryDescriptor, t: u32, path: seq<u8>)
    requires P.Built(img, entry, t, path).Ok? && entry.codeAddress < M32
    ensures P.Edited(img, P.Built(img, entry, t, path).value).Ok?
  {
    hide P.Built, Resolve, WithSegment;
    BuiltFacts(img, entry, t, path);
    var tramp := P.Built(img, entry, t, path).value;
    ResolveAfterAdd(img, t, tramp.blob, PF_R + PF_X, 0x1_0000, entry.codeAddress);
    AddedLonger(img, t, tramp.blob);
  }

  lemma AddedLonger(img: Image, vaddr: u64, data: seq<u8>)
    ensures |img.raw| <= |WithSegment(img, vaddr, data, PF_R + PF_X, 0x1_0000).raw|
  {
  }

  /** What the descriptor of a file says, by its bytes. */
  function CodeWord(img: Image): (v: u32)
    requires Resolve(img, Wrap(img.header.entry)).Ok? && Resolve(img, Wrap(img.header.entry)).value + 8 <= |img.raw|
  {
    RawWord(img.raw, Resolve(img, Wrap(img.header.entry)).value, 0)
  }

  /**
   * The conditions under which a parsed file is patched with a path: machine
   * 21, a descriptor in the file, no magic, a path that fits, an aligned
   * entrypoint whose window is in the file, and no displaced branch out of
   * reach.
   */
  ghost predicate Patchable(img: Image, path: seq<u8>) {
    img.header.machine == 21
    && Resolve(img, Wrap(img.header.entry)).Ok? && Resolve(img, Wrap(img.header.entry)).value + 8 <= |img.raw|
    && !Marked(img) && 0 < |path| <= 1023
    && CodeWord(img) % 4 == 0 && WindowMovable(img, CodeWord(img), P.TrampolineAddress(img))
  }

  /** The command's outcomes for a parsed file of the right kind, in the order it meets them. */
  lemma {:induction false} ParsedOutcome(bytes: seq<u8>, path: seq<u8>)
    requires Elf64File(bytes) && ParsedAny(bytes).Ok?
    ensures var img, r := ParsedAny(bytes).value, P.Patched(bytes, path);
            if img.header.machine != 21 then r == Err(Unsupported)
            else if Resolve(img, Wrap(img.header.entry)).Err? then r == Err(OffsetOutOfBounds)
            else if Resolve(img, Wrap(img.header.entry)).value + 8 > |img.raw| then r == Err(TruncatedFile)
            else if Marked(img) then r == Err(AlreadyPatched)
            else
              var entry := EntryDescriptor(CodeWord(img), RawWord(img.raw, Resolve(img, Wrap(img.header.entry)).value, 1), 0);
              var b := P.Built(img, entry, P.TrampolineAddress(img), path);
              (r.Ok? <==> b.Ok?) && (r.Err? ==> b == Err(r.code))
  {
    hide ParsedAny, Resolve, Marked, P.AlreadyMarked, P.Built, P.Edited, P.TrampolineAddress, Descriptor, Serialized,
      RawWord, BeValue;
    Elf64FileIff(bytes);
    var img := ParsedAny(bytes).value;
    MarkedIff(img);
    if Resolve(img, Wrap(img.header.entry)).Ok? {
      var d := Resolve(img, Wrap(img.header.entry)).value;
      DescriptorOutcome(img, d, EntryDescriptor(0, 0, 0));
      if img.header.machine == 21 && d + 8 <= |img.raw| {
        DescriptorByWords(img, d);
        var entry := Descriptor(img).value;
        if P.Built(img, entry, P.TrampolineAddress(img), path).Ok? {
          EditsSucceed(img, entry, P.TrampolineAddress(img), path);
        }
      }
    } else {
      DescriptorOutcome(img, 0, EntryDescriptor(0, 0, 0));
    }
  }

  lemma {:induction false} DescriptorByWords(img: Image, d: nat)
    requires img.header.machine == 21 && DescriptorAt(img, d)
    ensures Descriptor(img) == Ok(EntryDescriptor(RawWord(img.raw, d, 0), RawWord(img.raw, d, 1), 0))
  {
    hide Resolve, BeBytes, BeValue, Descriptor;
    var entry := EntryDescriptor(RawWord(img.raw, d, 0), RawWord(img.raw, d, 1), 0);
    WordBytes(img.raw[d..d + 4], entry.codeAddress);
    WordBytes(img.raw[d + 4..d + 8], entry.tocValue);
    assert img.raw[d + 4 * 0..d + 4 * 0 + 4] == img.raw[d..d + 4];
    assert img.raw[d + 4 * 1..d + 4 * 1 + 4] == img.raw[d + 4..d + 8];
    DescriptorOutcome(img, d, entry);
  }

  /**
   * The command writes an output exactly for the ELF64 big-endian files that
   * are Patchable: nothing else is asked, and nothing later can fail.
   */
  lemma {:induction false} CommandAcceptsIff(bytes: seq<u8>, path: seq<u8>)
    ensures P.Patched(bytes, path).Ok?
            <==> Elf64File(bytes) && ParsedAny(bytes).Ok? && Patchable(ParsedAny(bytes).value, path)
  {
    hide ParsedAny, Elf64File, Resolve, Marked, P.Built, P.TrampolineAddress, WindowMovable, RawWord, P.Patched;
    Elf64FileIff(bytes);
    OtherKinds(bytes, path);
    if Elf64File(bytes) {
      var img := ParsedAny(bytes).value;
      ParsedOutcome(bytes, path);
      PlacedAligned(img);
      if Resolve(img, Wrap(img.header.entry)).Ok? && Resolve(img, Wrap(img.header.entry)).value + 8 <= |img.raw| {
        var d := Resolve(img, Wrap(img.header.entry)).value;
        BuildSucceedsIff(img, EntryDescriptor(CodeWord(img), RawWord(img.raw, d, 1), 0), P.TrampolineAddress(img), path);
      }
    }
  }

  /** Every other file is refused: with parse's error, or as not the right kind. */
  lemma {:induction false} OtherKinds(bytes: seq<u8>, path: seq<u8>)
    ensures !Elf64File(bytes) ==>
              P.Patched(bytes, path) == Err(if ParsedAny(bytes).Err? then ParsedAny(bytes).code else Unsupported)
  {
    hide ParsedAny, Elf64File, P.Built, P.TrampolineAddress, Descriptor, P.Edited, P.AlreadyMarked, Serialized;
    Elf64FileIff(bytes);
  }
}
