// What the command's output file is: its bytes, and what parsing it gives.
module PatchedFile {
  import opened Bits
  import opened Bytes
  import opened Wrappers
  import opened Codegen
  import opened Trampoline
  import opened ElfTypes
  import opened ElfImage
  import opened ElfEdits
  import opened ElfFiles
  import opened Toc
  import P = Patcher

  /** Everything a successful run of the command computed on the way. */
  datatype Patch = Patch(input: Image, entry: EntryDescriptor, tramp: TrampolineResult, offset: nat) {
    /** The input with the segment added. */
    function Added(): Image {
      WithSegment(input, tramp.trampolineAddr, tramp.blob, PF_R + PF_X, 0x1_0000)
    }

    predicate InWindow(i: int) {
      offset <= i < offset + |tramp.entryPatchBytes|
    }
  }

  function EditedImage(p: Patch): Image
    requires PatchFits(p.Added(), p.offset, |p.tramp.entryPatchBytes|)
  {
    WithPatch(p.Added(), p.offset, p.tramp.entryPatchBytes)
  }

  /** p is what patching these bytes with this path computed. */
  ghost predicate IsPatchOf(p: Patch, bytes: seq<u8>, path: seq<u8>) {
    Parsed(ELF64_BE, bytes) == Ok(p.input) && ParsedAny(bytes) == Ok(p.input) && Descriptor(p.input) == Ok(p.entry)
    && P.Built(p.input, p.entry, P.TrampolineAddress(p.input), path) == Ok(p.tramp)
    && Resolve(p.input, p.entry.codeAddress) == Ok(p.offset)
    && p.offset + |p.tramp.entryPatchBytes| <= |bytes| && 8 <= |p.tramp.blob| <= 1268
    && p.tramp.blob[..8] == TRAMPOLINE_MAGIC
    && p.tramp.entryPatchAddr == p.entry.codeAddress
    && p.tramp.trampolineAddr == P.TrampolineAddress(p.input)
    && p.input.fmt == ELF64_BE && p.input.raw == bytes
  }

  /** A successful run patches the very bytes it displaced: both lookups of the entrypoint agree. */
  lemma {:induction false} PatchParts(bytes: seq<u8>, path: seq<u8>) returns (p: Patch)
    requires P.Patched(bytes, path).Ok?
    ensures IsPatchOf(p, bytes, path)
    ensures PatchFits(p.Added(), p.offset, |p.tramp.entryPatchBytes|)
    ensures P.Patched(bytes, path) == Ok(Serialized(EditedImage(p)))
  {
    hide Descriptor, P.Built, P.AlreadyMarked, P.TrampolineAddress, P.Patched, Resolve, Parsed, Serialized, ReadBytes,
      Assemble, WordsOfBytes, ParsedAny, JumpIn;
    PatchedSteps(bytes, path);
    var img := ParsedAny(bytes).value;
    ParsedRawBytes(bytes);
    var entry := Descriptor(img).value;
    DescriptorFields(img);
    var t := P.TrampolineAddress(img);
    var tramp := P.Built(img, entry, t, path).value;
    BuiltFacts(img, entry, t, path);
    var off := Resolve(img, entry.codeAddress).value;
    ResolveAfterAdd(img, t, tramp.blob, PF_R + PF_X, 0x1_0000, entry.codeAddress);
    p := Patch(img, entry, tramp, off);
  }

  /** The steps of a successful run. */
  lemma {:induction false} PatchedSteps(bytes: seq<u8>, path: seq<u8>)
    requires P.Patched(bytes, path).Ok?
    ensures ParsedAny(bytes).Ok? && ParsedAny(bytes).value.fmt == ELF64_BE
    ensures var img := ParsedAny(bytes).value;
            Descriptor(img).Ok? && !P.AlreadyMarked(img)
            && P.Built(img, Descriptor(img).value, P.TrampolineAddress(img), path).Ok?
            && var tramp := P.Built(img, Descriptor(img).value, P.TrampolineAddress(img), path).value;
               P.Edited(img, tramp).Ok? && P.Patched(bytes, path) == Ok(Serialized(P.Edited(img, tramp).value))
  {
    hide Descriptor, P.Built, P.AlreadyMarked, P.TrampolineAddress, P.Edited, Serialized, ParsedAny;
  }

  lemma {:induction false} BuiltFacts(img: Image, entry: EntryDescriptor, t: u32, path: seq<u8>)
    requires P.Built(img, entry, t, path).Ok? && entry.codeAddress < M32
    ensures Resolve(img, entry.codeAddress).Ok?
    ensures var tramp := P.Built(img, entry, t, path).value;
            Resolve(img, entry.codeAddress).value + |tramp.entryPatchBytes| <= |img.raw| && 8 <= |tramp.blob| <= 1268
            && tramp.blob[..8] == TRAMPOLINE_MAGIC
            && tramp.entryPatchAddr == entry.codeAddress && tramp.trampolineAddr == t
  {
    hide P.Built, P.AlreadyMarked, Resolve, Assemble, WordsOfBytes, JumpIn;
    P.BuiltParts(img, entry, t, path);
    P.BuiltSize(img, entry, t, path);
  }

  lemma {:induction false} ParsedRawBytes(bytes: seq<u8>)
    requires ParsedAny(bytes).Ok?
    ensures var img := ParsedAny(bytes).value;
            img.raw == bytes && Parsed(img.fmt, bytes) == Ok(img)
  {
    hide Parsed, FormatOf;
    ParsedFormat(FormatOf(bytes).value, bytes);
  }

  lemma ResolveAfterAdd(img: Image, vaddr: u64, data: seq<u8>, flags: u32, align: u64, a: u64)
    requires Resolve(img, a).Ok?
    ensures Resolve(WithSegment(img, vaddr, data, flags, align), a) == Resolve(img, a)
  {
    hide ResolveFrom, WithSegment;
    ResolveStable(img, vaddr, data, flags, align, a, 0);
  }

  // ------------------------------------------------------------ hypotheses

  /** Header, section table and patch window occupy disjoint ranges of the file, and the segment count does not wrap. */
  ghost predicate WellPlaced(p: Patch) {
    var h := p.input.header;
    var end := p.offset + |p.tramp.entryPatchBytes|;
    SectionsClearOfHeader(p.input)
    && EhdrSize(p.input.fmt) <= p.offset
    && (p.input.shdrs != [] ==> end <= h.shoff || h.shoff + |p.input.shdrs| * ShdrSize(p.input.fmt) <= p.offset)
    && |p.input.phdrs| < 0xFFFF && |p.input.raw| < MAX_BYTES - 0x1_0000
  }

  // --------------------------------------------------------- bytes of a header

  lemma {:induction false} HeaderOffsets(fmt: Format)
    requires fmt.is64
    ensures Sum(EhdrLayout(fmt)[..4]) == 16 && EhdrLayout(fmt)[4] == 8
    ensures Sum(EhdrLayout(fmt)[..9]) == 40 && EhdrLayout(fmt)[9] == 2
  {
    hide Sum;
    var l := EhdrLayout(fmt);
    Sum4(2, 2, 4, 8);
    Sum4(8, 8, 4, 2);
    SumCons(2, []);
    SumNothing();
    assert [2] + [] == [2];
    assert l[..4] == [2, 2, 4, 8];
    assert l[..9] == [2, 2, 4, 8] + [8, 8, 4, 2] + [2];
    SumAppend([2, 2, 4, 8], [8, 8, 4, 2]);
    SumAppend([2, 2, 4, 8] + [8, 8, 4, 2], [2]);
  }

  /** Changing e_phnum and e_phoff changes at most bytes 56-57 and 32-39 of an ELF64 header. */
  lemma {:induction false} HeaderEditBytes(fmt: Format, h: Ehdr, phnum: nat, phoff: nat, i: nat)
    requires fmt.is64 && i < 64
    ensures var before, after := EncodeEhdr(fmt, h), EncodeEhdr(fmt, h.(phnum := phnum, phoff := phoff));
            after[i] == if 32 <= i < 40 then ToBytes(fmt.big, phoff, 8)[i - 32]
                        else if 56 <= i < 58 then ToBytes(fmt.big, phnum, 2)[i - 56]
                        else before[i]
  {
    hide EncodeFields, ToBytes, EhdrLayout, Sum;
    RecordSizes(fmt);
    HeaderOffsets(fmt);
    var l, f := EhdrLayout(fmt), EhdrFields(h);
    var f1: seq<nat> := f[9 := phnum];
    var f2: seq<nat> := f1[4 := phoff];
    FieldUpdateBytes(fmt.big, l, f, 9, phnum);
    FieldUpdateBytes(fmt.big, l, f1, 4, phoff);
    assert EhdrFields(h.(phnum := phnum, phoff := phoff)) == f2;
    var b0, b1, b2 := EncodeFields(fmt.big, l, f), EncodeFields(fmt.big, l, f1), EncodeFields(fmt.big, l, f2);
    if i >= 16 {
      SplicedAt(b0, b1, 40, 42, ToBytes(fmt.big, phnum, 2), i - 16);
      SplicedAt(b1, b2, 16, 24, ToBytes(fmt.big, phoff, 8), i - 16);
    }
  }

  lemma SplicedAt(before: seq<u8>, after: seq<u8>, lo: nat, hi: nat, mid: seq<u8>, i: nat)
    requires Spliced(before, after, lo, hi, mid) && |mid| == hi - lo && i < |before|
    ensures |after| == |before|
    ensures after[i] == if lo <= i < hi then mid[i - lo] else before[i]
  {
  }

  // ----------------------------------------------------------- output frame

  /** The new program header table, as the header points at it. */
  function NewTableOffset(p: Patch): nat {
    |p.input.raw| + |p.tramp.blob|
  }

  /** Byte i of the output below the input's length. */
  function FramedByte(p: Patch, i: nat): u8
    requires i < |p.input.raw| && |p.tramp.entryPatchBytes| + p.offset <= |p.input.raw|
  {
    if p.InWindow(i) then p.tramp.entryPatchBytes[i - p.offset]
    else if 32 <= i < 40 then ToBytes(true, NewTableOffset(p), 8)[i - 32]
    else if 56 <= i < 58 then ToBytes(true, |p.input.phdrs| + 1, 2)[i - 56]
    else p.input.raw[i]
  }

  lemma {:induction false} AddedFields(p: Patch, bytes: seq<u8>, path: seq<u8>)
    requires IsPatchOf(p, bytes, path) && WellPlaced(p)
    ensures var h := p.Added().header;
            h == p.input.header.(phnum := |p.input.phdrs| + 1, phoff := NewTableOffset(p))
    ensures p.Added().raw == bytes + p.tramp.blob && p.Added().fmt == ELF64_BE
    ensures p.Added().phdrs == p.input.phdrs
              + [Phdr(PT_LOAD, PF_R + PF_X, |bytes|, p.tramp.trampolineAddr, p.tramp.trampolineAddr,
                      |p.tramp.blob|, |p.tramp.blob|, 0x1_0000)]
  {
    hide P.Built, Parsed, Descriptor, Resolve, P.TrampolineAddress, NewSegment, ParsedAny;
    NewSegment64(p.input, p.tramp.trampolineAddr, |p.tramp.blob|, PF_R + PF_X, 0x1_0000);
  }

  /** The edited image satisfies the round-trip invariant, wherever its old program header table lay. */
  lemma {:induction false} EditedSound(p: Patch, bytes: seq<u8>, path: seq<u8>)
    requires IsPatchOf(p, bytes, path) && WellPlaced(p)
    requires PatchFits(p.Added(), p.offset, |p.tramp.entryPatchBytes|)
    ensures Sound(EditedImage(p)) && EditedImage(p).header.phentsize == PhdrSize(ELF64_BE)
    ensures |EditedImage(p).phdrs| == |p.input.phdrs| + 1 < 0x1_0000
  {
    hide P.Built, Parsed, Descriptor, P.TrampolineAddress, NewSegment, ParsedAny, WfEhdr, WfPhdr, HeaderError;
    var img := p.input;
    ParsedConsistent(ELF64_BE, bytes);
    HeaderGoodIfNoError(ELF64_BE, img.header, |bytes|);
    HeaderEditFits(img.fmt, img.header, |img.phdrs| + 1, NewTableOffset(p));
    NewSegmentFits(img, p.tramp.trampolineAddr, |p.tramp.blob|, PF_R + PF_X, 0x1_0000);
    AddedFields(p, bytes, path);
    EntrySizeRight(ELF64_BE, img.header, |bytes|);
  }

  lemma EntrySizeRight(fmt: Format, h: Ehdr, size: nat)
    requires HeaderError(fmt, h, size) == None && h.phnum > 0
    ensures h.phentsize == PhdrSize(fmt)
  {
  }

  lemma OverlayAt(buf: seq<u8>, offset: nat, data: seq<u8>, i: nat)
    requires i < |Overlay(buf, offset, data)| && (i < |buf| || offset <= i)
    ensures offset <= i < offset + |data| ==> Overlay(buf, offset, data)[i] == data[i - offset]
    ensures !(offset <= i < offset + |data|) ==> i < |buf| && Overlay(buf, offset, data)[i] == buf[i]
  {
  }

  /** Header and tables of an accepted file are the bytes at their offsets. */
  lemma {:induction false} ParsedBytes(fmt: Format, bytes: seq<u8>)
    requires Parsed(fmt, bytes).Ok?
    ensures var img := Parsed(fmt, bytes).value;
            var h := img.header;
            var P, S := PhBytes(fmt, img.phdrs), ShBytes(fmt, img.shdrs);
            EhdrSize(fmt) <= |bytes| && bytes[..EhdrSize(fmt)] == EncodeEhdr(fmt, h)
            && h.phoff + |P| <= |bytes| && bytes[h.phoff..h.phoff + |P|] == P
            && h.shoff + |S| <= |bytes| && bytes[h.shoff..h.shoff + |S|] == S
            && |P| == |img.phdrs| * PhdrSize(fmt) && |S| == |img.shdrs| * ShdrSize(fmt)
  {
    hide Parsed, DecodeEhdr, EncodeEhdr, PhTable, ShTable, PhBytes, ShBytes, HeaderError, EhdrSize, PhdrSize, ShdrSize;
    ParsedParts(fmt, bytes);
    var h := DecodeEhdr(fmt, bytes[..EhdrSize(fmt)]);
    EhdrCodec(fmt, h, bytes[..EhdrSize(fmt)]);
    PhBytesOfTable(fmt, bytes[h.phoff..h.phoff + h.phnum * PhdrSize(fmt)], h.phnum);
    ShBytesOfTable(fmt, bytes[h.shoff..h.shoff + h.shnum * ShdrSize(fmt)], h.shnum);
  }

  /** The output's three parts: the framed input, the blob, the new program header table. */
  ghost predicate Framed(p: Patch, out: seq<u8>) {
    var n, b := |p.input.raw|, |p.tramp.blob|;
    p.offset + |p.tramp.entryPatchBytes| <= n
    && |out| == n + b + 56 * (|p.input.phdrs| + 1)
    && (forall i {:trigger out[i]} :: 0 <= i < n ==> out[i] == FramedByte(p, i))
    && out[n..n + b] == p.tramp.blob
    && out[n + b..] == PhBytes(ELF64_BE, p.Added().phdrs)
  }

  /** Raw bytes after both edits. */
  lemma {:induction false} EditedRaw(p: Patch, bytes: seq<u8>, path: seq<u8>, i: nat)
    requires IsPatchOf(p, bytes, path) && WellPlaced(p)
    requires PatchFits(p.Added(), p.offset, |p.tramp.entryPatchBytes|)
    ensures var raw := EditedImage(p).raw;
            |raw| == |bytes| + |p.tramp.blob|
            && (i < |bytes| ==> raw[i] == if p.InWindow(i) then p.tramp.entryPatchBytes[i - p.offset] else bytes[i])
            && raw[|bytes|..] == p.tramp.blob
  {
    hide IsPatchOf, WellPlaced;
    AddedRaw(p, bytes, path);
  }

  lemma AddedRaw(p: Patch, bytes: seq<u8>, path: seq<u8>)
    requires IsPatchOf(p, bytes, path)
    ensures p.Added().raw == bytes + p.tramp.blob && p.offset + |p.tramp.entryPatchBytes| <= |bytes|
  {
    hide P.Built, Parsed, Descriptor, Resolve, P.TrampolineAddress, NewSegment, ParsedAny;
  }

  /** One byte of the output below the input's length. */
  lemma {:induction false} OutputByte(p: Patch, bytes: seq<u8>, path: seq<u8>, i: nat)
    requires IsPatchOf(p, bytes, path) && WellPlaced(p) && i < |bytes|
    requires PatchFits(p.Added(), p.offset, |p.tramp.entryPatchBytes|)
    ensures i < |Serialized(EditedImage(p))| && Serialized(EditedImage(p))[i] == FramedByte(p, i)
  {
    hide P.Built, Parsed, Descriptor, Resolve, P.TrampolineAddress, ParsedAny, EncodeEhdr, PhBytes, ShBytes, Overlay,
      ToBytes;
    var img, ed := p.input, EditedImage(p);
    AddedFields(p, bytes, path);
    EditedRaw(p, bytes, path, i);
    ParsedBytes(ELF64_BE, bytes);
    EmptyTables(ELF64_BE, img.phdrs, img.shdrs);
    var E, T, S := EncodeEhdr(ELF64_BE, ed.header), PhBytes(ELF64_BE, ed.phdrs), ShBytes(ELF64_BE, img.shdrs);
    var a := Overlay(ed.raw, 0, E);
    var b := Overlay(a, |ed.raw|, T);
    var h := img.header;
    OverlayAt(ed.raw, 0, E, i);
    OverlayAt(a, |ed.raw|, T, i);
    OverlayAt(b, h.shoff, S, i);
    if i < 64 {
      HeaderEditBytes(ELF64_BE, h, |img.phdrs| + 1, NewTableOffset(p), i);
      assert bytes[..64][i] == bytes[i];
    } else if h.shoff <= i < h.shoff + |S| {
      assert bytes[h.shoff..h.shoff + |S|][i - h.shoff] == bytes[i];
    }
  }

  /**
   * The output file, byte for byte: below the input's length it is the input
   * except e_phoff, e_phnum and the patch window; then the blob; then the old
   * program headers and one more.
   */
  lemma {:induction false} OutputFrame(p: Patch, bytes: seq<u8>, path: seq<u8>)
    requires IsPatchOf(p, bytes, path) && WellPlaced(p)
    requires PatchFits(p.Added(), p.offset, |p.tramp.entryPatchBytes|)
    ensures Framed(p, Serialized(EditedImage(p)))
  {
    hide IsPatchOf, WellPlaced, Serialized, PhBytes, FramedByte, EditedImage;
    AddedRaw(p, bytes, path);
    OutputTail(p, bytes, path);
    var out := Serialized(EditedImage(p));
    PatchInput(p, bytes, path);
    forall i | 0 <= i < |bytes|
      ensures out[i] == FramedByte(p, i)
    {
      OutputByte(p, bytes, path, i);
    }
  }

  lemma PatchInput(p: Patch, bytes: seq<u8>, path: seq<u8>)
    requires IsPatchOf(p, bytes, path)
    ensures p.input.raw == bytes && p.offset + |p.tramp.entryPatchBytes| <= |bytes|
  {
    hide P.Built, Parsed, Descriptor, Resolve, P.TrampolineAddress, ParsedAny;
  }

  lemma {:induction false} OutputTail(p: Patch, bytes: seq<u8>, path: seq<u8>)
    requires IsPatchOf(p, bytes, path) && WellPlaced(p)
    requires PatchFits(p.Added(), p.offset, |p.tramp.entryPatchBytes|)
    ensures var out := Serialized(EditedImage(p));
            var n, b := |bytes|, |p.tramp.blob|;
            |out| == n + b + 56 * (|p.input.phdrs| + 1) && out[n..n + b] == p.tramp.blob
            && out[n + b..] == PhBytes(ELF64_BE, p.Added().phdrs)
  {
    hide P.Built, Parsed, Descriptor, Resolve, P.TrampolineAddress, ParsedAny, EncodeEhdr, PhBytes, ShBytes, Overlay;
    var img, ed := p.input, EditedImage(p);
    AddedFields(p, bytes, path);
    EditedRaw(p, bytes, path, 0);
    ParsedBytes(ELF64_BE, bytes);
    EmptyTables(ELF64_BE, ed.phdrs, img.shdrs);
    var E, T, S := EncodeEhdr(ELF64_BE, ed.header), PhBytes(ELF64_BE, ed.phdrs), ShBytes(ELF64_BE, img.shdrs);
    var n, end := |bytes|, |ed.raw|;
    var a := Overlay(ed.raw, 0, E);
    var b := Overlay(a, end, T);
    OverlayKeeps(ed.raw, 0, E, n, end);
    OverlayKeeps(a, end, T, n, end);
    OverlayKeeps(b, img.header.shoff, S, n, end);
    OverlayRead(a, end, T);
    OverlayKeeps(b, img.header.shoff, S, end, end + |T|);
    var out := Overlay(b, img.header.shoff, S);
    assert b[end..end + |T|] == T && out[end..end + |T|] == T && |out| == end + |T|;
    assert out[end..] == out[end..end + |T|];
  }
}
