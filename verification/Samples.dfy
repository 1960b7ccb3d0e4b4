// A family of small executables that the command accepts: one segment with
// an entry descriptor and eight words of code.
module Samples {
  import opened Bits
  import opened Bytes
  import opened Wrappers
  import opened Codegen
  import opened Trampoline
  import opened ElfTypes
  import opened ElfImage
  import opened ElfEdits
  import opened ElfFiles
  import opened Toc
  import opened PatchedFile
  import opened AfterPatch
  import opened WholePatch
  import opened Acceptance
  import P = Patcher

  /** Where the segment lies, how long it is in memory, the TOC value, and the first word of the code. */
  datatype Sample = Sample(base: u32, memsz: u32, toc: u32, word: u32) {
    predicate Valid() {
      base % 4 == 0 && 160 <= memsz && base + memsz <= M32
    }
  }

  const PATH: seq<u8> := [0x41]

  /** The entrypoint. */
  function Entry(x: Sample): u32
    requires x.Valid()
  {
    x.base + 0x80
  }

  /** What the descriptor says. */
  function Pair(x: Sample): EntryDescriptor
    requires x.Valid()
  {
    EntryDescriptor(Entry(x), x.toc, 0)
  }

  /** The image's descriptor, with the entrypoint at file offset 128. */
  ghost predicate EntryIs(img: Image, entry: EntryDescriptor) {
    Descriptor(img) == Ok(entry) && Resolve(img, entry.codeAddress) == Ok(128)
  }

  /** Where the command puts the trampoline. */
  function Blob(x: Sample): u32
    requires x.Valid()
  {
    Wrap32(P.AlignUp(x.base + x.memsz, 0x1_0000))
  }

  /** One program header, no sections. */
  function Header(x: Sample): Ehdr
    requires x.Valid()
  {
    Ehdr(ELF_MAGIC + [2, 2] + seq(10, _ => 0), 2, EM_PPC64, 1, x.base + 0x78, 64, 0, 0, 64, 56, 1, 0, 0, 0)
  }

  function Segment(x: Sample): Phdr {
    Phdr(PT_LOAD, PF_R + PF_X, 0, x.base, x.base, 160, x.memsz, 0x1_0000)
  }

  function DescriptorBytes(x: Sample): (b: seq<u8>)
    requires x.Valid()
    ensures |b| == 8
  {
    BeBytes(Entry(x), 4) + BeBytes(x.toc, 4)
  }

  function Code(x: Sample): (ws: seq<u32>)
    ensures |ws| == 8
  {
    [x.word, 0, 0, 0, 0, 0, 0, 0]
  }

  function Unwritten(x: Sample): Image
    requires x.Valid()
  {
    Image(ELF64_BE, Header(x), [Segment(x)], [], seq(120, _ => 0) + DescriptorBytes(x) + BytesOfWords(Code(x)))
  }

  /** The file, 160 bytes. */
  function File(x: Sample): seq<u8>
    requires x.Valid()
  {
    Serialized(Unwritten(x))
  }

  function Input(x: Sample): Image
    requires x.Valid()
  {
    Unwritten(x).(raw := File(x))
  }

  function Displaced(x: Sample): seq<u32>
    requires x.Valid()
  {
    Code(x)[..|JumpIn(Entry(x), Blob(x))|]
  }

  // ------------------------------------------------------------- the file

  lemma {:induction false} FieldsInRange(x: Sample)
    requires x.Valid()
    ensures WfEhdr(ELF64_BE, Header(x)) && WfPhdr(ELF64_BE, Segment(x))
  {
    Powers256();
  }

  lemma {:induction false} UnwrittenSound(x: Sample)
    requires x.Valid()
    ensures Sound(Unwritten(x))
  {
    hide WfEhdr, WfPhdr, BytesOfWords;
    FieldsInRange(x);
  }

  lemma {:induction false} Accepted(x: Sample)
    requires x.Valid()
    ensures Parsed(ELF64_BE, File(x)) == Ok(Input(x)) && ParsedAny(File(x)) == Ok(Input(x))
  {
    hide Sound, Serialized, Parsed, ParsedAny, DescriptorBytes, BytesOfWords;
    UnwrittenSound(x);
    RoundTripIff(Unwritten(x));
    ParseAnyComplete(ELF64_BE, File(x));
  }

  lemma {:induction false} FileParts(x: Sample)
    requires x.Valid()
    ensures |File(x)| == 160 && File(x)[120..128] == DescriptorBytes(x) && File(x)[128..160] == BytesOfWords(Code(x))
    ensures File(x)[0] == 0x7F
  {
    hide EncodeEhdr, EncodePhdr, PhBytes, BytesOfWords, DescriptorBytes, Overlay, Header, Segment;
    var raw := Unwritten(x).raw;
    var E, T := EncodeEhdr(ELF64_BE, Header(x)), PhBytes(ELF64_BE, [Segment(x)]);
    var a := Overlay(raw, 0, E);
    var b := Overlay(a, 64, T);
    assert File(x) == b by {
      TablesAt(x);
      assert Overlay(b, 0, []) == b;
    }
    OverlayKeeps(raw, 0, E, 120, 128);
    OverlayKeeps(a, 64, T, 120, 128);
    OverlayKeeps(raw, 0, E, 128, 160);
    OverlayKeeps(a, 64, T, 128, 160);
    OverlayRead(raw, 0, E);
    OverlayKeeps(a, 64, T, 0, 64);
    assert b[0..64][0] == E[0] == 0x7F by { HeaderStart(x); }
    assert raw[120..128] == DescriptorBytes(x) && raw[128..160] == BytesOfWords(Code(x));
  }

  lemma TablesAt(x: Sample)
    requires x.Valid()
    ensures Header(x).phoff == 64 && Header(x).shoff == 0
  {
  }

  lemma HeaderStart(x: Sample)
    requires x.Valid()
    ensures EncodeEhdr(ELF64_BE, Header(x))[0] == 0x7F
  {
    hide EncodeFields;
  }

  lemma {:induction false} Resolves(x: Sample, a: u64)
    requires x.Valid() && x.base <= a < x.base + 160
    ensures Resolve(Input(x), a) == Ok(a - x.base)
  {
    hide File, Header, DescriptorBytes, BytesOfWords;
    FileParts(x);
    assert Input(x).phdrs[0] == Segment(x);
    FirstHit(Input(x), a, 0);
  }

  lemma {:induction false} EntryFound(x: Sample)
    requires x.Valid()
    ensures EntryIs(Input(x), Pair(x))
  {
    hide BeValue, BeBytes, File, Resolve, BytesOfWords;
    FileParts(x);
    NoWrap(x.base + 0x78);
    Resolves(x, x.base + 0x78);
    Resolves(x, Entry(x));
    var d := File(x)[120..128];
    assert d[..4] == BeBytes(Entry(x), 4) && d[4..8] == BeBytes(x.toc, 4);
    Powers256();
    BeValueOfBytes(Entry(x), 4);
    BeValueOfBytes(x.toc, 4);
  }

  lemma {:induction false} NotMarked(x: Sample)
    requires x.Valid()
    ensures !P.AlreadyMarked(Input(x))
  {
    hide File, DescriptorBytes, BytesOfWords;
    FileParts(x);
    assert ReadBytes(Input(x), 0, 8).value[0] == 0x7F;
  }

  lemma {:induction false} Placement(x: Sample)
    requires x.Valid()
    ensures P.TrampolineAddress(Input(x)) == Blob(x)
  {
    hide File, Header, P.AlignUp;
    var ps := Input(x).phdrs;
    assert ps == [Segment(x)] && ps[..0] == [];
    assert P.HighestEnd([]) == 0;
    NoWrap(x.base + x.memsz);
    assert P.HighestEnd(ps) == x.base + x.memsz;
  }

  // -------------------------------------------------------------- the patch

  lemma {:induction false} BytesPrefix(ws: seq<u32>, n: nat)
    requires n <= |ws|
    ensures BytesOfWords(ws)[..4 * n] == BytesOfWords(ws[..n])
    decreases |ws|
  {
    hide BeBytes;
    if n < |ws| {
      BytesPrefix(ws[..|ws| - 1], n);
      assert ws[..|ws| - 1][..n] == ws[..n];
    } else {
      assert ws[..n] == ws;
    }
  }

  lemma {:induction false} WindowWords(x: Sample)
    requires x.Valid()
    ensures var n := |JumpIn(Entry(x), Blob(x))|;
            |File(x)| == 160 && WordsOfBytes(File(x)[128..128 + 4 * n], n) == Displaced(x)
  {
    hide BytesOfWords, WordsOfBytes, File, JumpIn, Code;
    FileParts(x);
    var n := |JumpIn(Entry(x), Blob(x))|;
    BytesPrefix(Code(x), n);
    WordsRoundTrip(Displaced(x));
    SliceHead(File(x), 128, 160, 4 * n);
  }

  lemma SliceHead(s: seq<u8>, lo: nat, hi: nat, k: nat)
    requires lo + k <= hi <= |s|
    ensures s[lo..hi][..k] == s[lo..lo + k]
  {
  }

  lemma {:induction false} Builds(x: Sample)
    requires x.Valid() && Relocated(Displaced(x), Entry(x), ResumeAddr(Blob(x))).Ok?
    ensures P.Built(Input(x), Pair(x), Blob(x), PATH).Ok?
  {
    hide File, Resolve, P.AlreadyMarked, Assemble, WordsOfBytes, JumpIn, Displaced, Blob, Relocated, CodeWords, Padded,
      BytesOfWords, Header, DescriptorBytes;
    EntryFound(x);
    NotMarked(x);
    WindowWords(x);
    AddressesAligned(x);
    AssembleLayout(Entry(x), x.toc, Blob(x), Displaced(x), PATH);
  }

  lemma AddressesAligned(x: Sample)
    requires x.Valid()
    ensures Entry(x) % 4 == 0 && Blob(x) % 4 == 0 && Wrap32(Entry(x)) == Entry(x) && Wrap32(x.toc) == x.toc
  {
    hide P.AlignUp;
    Multiple(Entry(x), 4, x.base / 4 + 0x20);
    AlignUpIs(x.base + x.memsz, 0x1_0000);
    CutMultiple(P.AlignUp(x.base + x.memsz, 0x1_0000));
    Wrap32Same(Entry(x));
    Wrap32Same(x.toc);
  }

  lemma CutMultiple(r: u64)
    requires r % 0x1_0000 == 0
    ensures Wrap32(r) % 4 == 0
  {
    var q := r / 0x1_0000;
    Multiple(Wrap32(r), 4, 0x4000 * q - 0x4000_0000 * (r / M32));
  }

  /** Every sample whose displaced words can be relocated is patched. */
  lemma {:induction false} IsPatched(x: Sample)
    requires x.Valid() && Relocated(Displaced(x), Entry(x), ResumeAddr(Blob(x))).Ok?
    ensures P.Patched(File(x), PATH).Ok?
  {
    hide File, Resolve, P.AlreadyMarked, P.Built, P.TrampolineAddress, P.Edited, Descriptor, ParsedAny, Relocated,
      Displaced, Blob, Header, DescriptorBytes, BytesOfWords;
    Accepted(x);
    EntryFound(x);
    NotMarked(x);
    Placement(x);
    Builds(x);
    FileParts(x);
    var entry := Pair(x);
    EditsSucceed(Input(x), entry, Blob(x), PATH);
  }

  /** The numbers of a sample's patch. */
  ghost predicate PatchOf(x: Sample, p: Patch)
    requires x.Valid()
  {
    p.input == Input(x) && p.entry == Pair(x) && p.offset == 128
    && p.tramp.entryPatchAddr == Entry(x) && p.tramp.trampolineAddr == Blob(x)
    && |p.tramp.entryPatchBytes| == 4 * |Displaced(x)| && |p.tramp.blob| <= 1268
    && DisplacedWords(p) == Displaced(x)
  }

  /** And every such patch is a successful one, with these numbers. */
  lemma {:induction false} SamplePatch(x: Sample) returns (p: Patch, out: seq<u8>)
    requires x.Valid() && Relocated(Displaced(x), Entry(x), ResumeAddr(Blob(x))).Ok?
    ensures P.Patched(File(x), PATH) == Ok(out) && Successful(p, File(x), PATH, out)
    ensures PatchFits(p.Added(), p.offset, |p.tramp.entryPatchBytes|)
    ensures PatchOf(x, p)
  {
    hide File, P.Patched, IsPatchOf, WellPlaced, Relocated, Displaced, Blob, DisplacedWords;
    IsPatched(x);
    p := SuccessfulRun(File(x), PATH);
    out := P.Patched(File(x), PATH).value;
    PatchNumbers(x, p);
    PlacedWell(x, p);
  }

  lemma {:induction false} PatchNumbers(x: Sample, p: Patch)
    requires x.Valid() && IsPatchOf(p, File(x), PATH)
    ensures PatchOf(x, p)
  {
    hide File, IsPatchOf, JumpIn, Resolve, P.TrampolineAddress, Descriptor, Header, DescriptorBytes, BytesOfWords, Blob,
      WordsOfBytes, Assemble;
    PatchIdentity(x, p);
    EntryFound(x);
    Placement(x);
    PatchAddress(p, File(x), PATH);
    PatchAssembly(p, File(x), PATH);
    WindowWords(x);
  }

  lemma {:induction false} PatchIdentity(x: Sample, p: Patch)
    requires x.Valid() && IsPatchOf(p, File(x), PATH)
    ensures p.input == Input(x) && Descriptor(Input(x)) == Ok(p.entry)
  {
    hide File, P.Built, Parsed, ParsedAny, Descriptor, Resolve, P.TrampolineAddress, Header, DescriptorBytes;
    Accepted(x);
  }

  lemma PlacedWell(x: Sample, p: Patch)
    requires x.Valid() && PatchOf(x, p)
    ensures WellPlaced(p)
  {
    hide File, DescriptorBytes, BytesOfWords, DisplacedWords, Blob, JumpIn;
    FileParts(x);
  }

  /** The window lies in the file-backed part of the one segment. */
  lemma {:induction false} WindowOk(x: Sample, p: Patch)
    requires x.Valid() && PatchOf(x, p)
    ensures WindowContiguous(p) && (x.base + x.memsz <= 0xFFFF_0000 ==> LowSegments(p.input))
  {
    hide File, Resolve, DescriptorBytes, BytesOfWords, DisplacedWords, Header, JumpIn, Blob;
    forall a: u64 | Entry(x) <= a < Entry(x) + |p.tramp.entryPatchBytes|
      ensures Resolve(p.input, a) == Ok(128 + (a - Entry(x)))
    {
      Resolves(x, a);
    }
  }
}
