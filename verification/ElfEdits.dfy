// Edits of an ELF image, and what survives any sequence of them.
module ElfEdits {
  import opened Bits
  import opened Bytes
  import opened Wrappers
  import opened ElfTypes
  import opened ElfImage

  // ------------------------------------------------------------------ edits

  /** Program header of a segment appended with addLoadSegment; class-sized fields are cut to the class. */
  function NewSegment(img: Image, vaddr: u64, size: nat, flags: u32, align: u64): Phdr {
    var l := WordLimit(img.fmt);
    Phdr(PT_LOAD, flags, |img.raw| % l, vaddr % l, vaddr % l, size % l, size % l, align % l)
  }

  function WithSegment(img: Image, vaddr: u64, data: seq<u8>, flags: u32, align: u64): (r: Image)
    ensures r.fmt == img.fmt && r.header.ident == img.header.ident
  {
    Image(img.fmt,
          img.header.(phnum := (|img.phdrs| + 1) % 0x1_0000, phoff := (|img.raw| + |data|) % WordLimit(img.fmt)),
          img.phdrs + [NewSegment(img, vaddr, |data|, flags, align)], img.shdrs, img.raw + data)
  }

  predicate PatchFits(img: Image, offset: nat, size: nat) {
    offset + size <= |img.raw|
  }

  function WithPatch(img: Image, offset: nat, bytes: seq<u8>): Image
    requires PatchFits(img, offset, |bytes|)
  {
    img.(raw := img.raw[..offset] + bytes + img.raw[offset + |bytes|..])
  }

  function WithEntry(img: Image, addr: u64): Image {
    img.(header := img.header.(entry := addr % WordLimit(img.fmt)))
  }

  /** Values a class-sized field of the file can hold are those below this bound. */
  function FieldLimit(img: Image): nat {
    if img.fmt.is64 then 0x1_0000_0000_0000_0000 else 0x1_0000_0000
  }

  /** What addLoadSegment does, field by field. */
  ghost predicate SegmentAppended(img: Image, r: Image, vaddr: u64, data: seq<u8>, flags: u32, align: u64) {
    var n, l := |img.phdrs|, FieldLimit(img);
    r.fmt == img.fmt && r.shdrs == img.shdrs && r.raw == img.raw + data
    && |r.phdrs| == n + 1 && r.phdrs[..n] == img.phdrs
    && r.phdrs[n].ptype == 1 && r.phdrs[n].flags == flags
    && r.phdrs[n].offset == |img.raw| % l
    && r.phdrs[n].vaddr == r.phdrs[n].paddr == vaddr % l
    && r.phdrs[n].filesz == r.phdrs[n].memsz == |data| % l
    && r.phdrs[n].align == align % l
    && r.header.phnum == (n + 1) % 0x1_0000 && r.header.phoff == (|img.raw| + |data|) % l
    && r.header == img.header.(phnum := r.header.phnum, phoff := r.header.phoff)
  }

  lemma SegmentAppendedIs(img: Image, vaddr: u64, data: seq<u8>, flags: u32, align: u64)
    ensures SegmentAppended(img, WithSegment(img, vaddr, data, flags, align), vaddr, data, flags, align)
  {
  }

  /** What patchBytesAt does, byte by byte. */
  ghost predicate BytesPatched(img: Image, r: Image, offset: nat, bytes: seq<u8>) {
    r.fmt == img.fmt && r.header == img.header && r.phdrs == img.phdrs && r.shdrs == img.shdrs
    && |r.raw| == |img.raw|
    && forall i {:trigger r.raw[i]} :: 0 <= i < |img.raw| ==>
         r.raw[i] == if offset <= i < offset + |bytes| then bytes[i - offset] else img.raw[i]
  }

  lemma BytesPatchedIs(img: Image, offset: nat, bytes: seq<u8>)
    requires PatchFits(img, offset, |bytes|)
    ensures BytesPatched(img, WithPatch(img, offset, bytes), offset, bytes)
  {
  }

  /** What setEntry does. */
  ghost predicate EntrySet(img: Image, r: Image, addr: u64) {
    r.fmt == img.fmt && r.phdrs == img.phdrs && r.shdrs == img.shdrs && r.raw == img.raw
    && r.header.entry == addr % FieldLimit(img) && r.header == img.header.(entry := r.header.entry)
  }

  lemma EntrySetIs(img: Image, addr: u64)
    ensures EntrySet(img, WithEntry(img, addr), addr)
  {
  }

  datatype Op =
    | AddLoadSegment(vaddr: u64, data: seq<u8>, segmentFlags: u32, align: u64)
    | PatchBytesAt(offset: u64, bytes: seq<u8>)
    | SetEntry(addr: u64)

  /** A patch that does not fit is refused and changes nothing. */
  function Apply(img: Image, op: Op): (r: Image)
    ensures r.fmt == img.fmt && r.header.ident == img.header.ident
  {
    match op
    case AddLoadSegment(vaddr, data, flags, align) => WithSegment(img, vaddr, data, flags, align)
    case PatchBytesAt(offset, bytes) =>
      if PatchFits(img, offset, |bytes|) then WithPatch(img, offset, bytes) else img
    case SetEntry(addr) => WithEntry(img, addr)
  }

  function ApplyAll(img: Image, ops: seq<Op>): (r: Image)
    ensures r.fmt == img.fmt && r.header.ident == img.header.ident
    decreases |ops|
  {
    if ops == [] then img else ApplyAll(Apply(img, ops[0]), ops[1..])
  }

  predicate AddsSegment(ops: seq<Op>) {
    exists i :: 0 <= i < |ops| && ops[i].AddLoadSegment?
  }

  // ------------------------------------------------------------- round trip

  /** The header checks of parse that do not depend on the file's length. */
  ghost predicate HeaderGood(fmt: Format, h: Ehdr) {
    h.ident[..4] == ELF_MAGIC && h.ident[4] == ClassByte(fmt) && h.ident[5] == DataByte(fmt)
    && h.ehsize == EhdrSize(fmt)
    && (h.shnum > 0 ==> h.shentsize == ShdrSize(fmt) && h.shstrndx < h.shnum)
  }

  /** Header, program header table and section header table occupy disjoint ranges. */
  predicate TablesDisjoint(img: Image) {
    var h := img.header;
    var phEnd, shEnd := h.phoff + |img.phdrs| * PhdrSize(img.fmt), h.shoff + |img.shdrs| * ShdrSize(img.fmt);
    (img.phdrs != [] ==> EhdrSize(img.fmt) <= h.phoff)
    && (img.shdrs != [] ==> EhdrSize(img.fmt) <= h.shoff)
    && (img.phdrs != [] && img.shdrs != [] ==> phEnd <= h.shoff || shEnd <= h.phoff)
  }

  /** Section header table and header do not overlap. */
  predicate SectionsClearOfHeader(img: Image) {
    img.shdrs != [] ==> EhdrSize(img.fmt) <= img.header.shoff
  }

  /** The size of the file stays within what the class's offset fields can hold. */
  predicate SizeFits(img: Image) {
    |img.raw| < WordLimit(img.fmt)
  }

  /** Sound but for the place of the program header table. */
  ghost predicate NearlySound(img: Image) {
    Consistent(img) && HeaderGood(img.fmt, img.header) && SectionsClearOfHeader(img)
  }

  /** The invariant of an editing session, for any e_phentsize. */
  ghost predicate Sound(img: Image) {
    Consistent(img) && HeaderGood(img.fmt, img.header) && TablesDisjoint(img)
  }

  /** serialize leaves header and tables readable where the header says they are. */
  lemma {:induction false} SerializedParts(img: Image)
    requires Sound(img)
    ensures var out, h := Serialized(img), img.header;
            var P, S := PhBytes(img.fmt, img.phdrs), ShBytes(img.fmt, img.shdrs);
            |img.raw| <= |out| && out[..EhdrSize(img.fmt)] == EncodeEhdr(img.fmt, h)
            && h.phoff + |P| <= |out| && out[h.phoff..h.phoff + |P|] == P
            && h.shoff + |S| <= |out| && out[h.shoff..h.shoff + |S|] == S
  {
    hide EncodeEhdr, PhBytes, ShBytes, Overlay, WfEhdr, WfPhdrs, WfShdrs;
    var fmt, h := img.fmt, img.header;
    var E, P, S := EncodeEhdr(fmt, h), PhBytes(fmt, img.phdrs), ShBytes(fmt, img.shdrs);
    EmptyTables(fmt, img.phdrs, img.shdrs);
    var a := Overlay(img.raw, 0, E);
    var b := Overlay(a, h.phoff, P);
    var out := Overlay(b, h.shoff, S);
    OverlayRead(img.raw, 0, E);
    OverlayKeeps(a, h.phoff, P, 0, |E|);
    OverlayKeeps(b, h.shoff, S, 0, |E|);
    if P != [] {
      OverlayRead(a, h.phoff, P);
      OverlayKeeps(b, h.shoff, S, h.phoff, h.phoff + |P|);
    }
    if S != [] {
      OverlayRead(b, h.shoff, S);
    }
  }

  lemma EmptyTables(fmt: Format, ps: seq<Phdr>, ss: seq<Shdr>)
    ensures (PhBytes(fmt, ps) == [] <==> ps == []) && (ShBytes(fmt, ss) == [] <==> ss == [])
  {
    hide PhBytes, ShBytes;
    if ps != [] {
      TableStep(|ps|, PhdrSize(fmt));
    }
    if ss != [] {
      TableStep(|ss|, ShdrSize(fmt));
    }
  }

  /**
   * Reading a serialized image back gives the image exactly when the header's
   * count of segments is right (fewer than 65536 of them) and, if there are
   * segments, e_phentsize is the size of a program header.
   */
  lemma {:induction false} RoundTripIff(img: Image)
    requires Sound(img)
    ensures Parsed(img.fmt, Serialized(img)) == Ok(img.(raw := Serialized(img)))
            <==> |img.phdrs| < 0x1_0000 && (img.phdrs != [] ==> img.header.phentsize == PhdrSize(img.fmt))
  {
    hide EncodeEhdr, DecodeEhdr, PhBytes, ShBytes, PhTable, ShTable, Serialized, WfEhdr, WfPhdrs, WfShdrs;
    var fmt, h, out := img.fmt, img.header, Serialized(img);
    SerializedParts(img);
    EhdrCodec(fmt, h, out[..EhdrSize(fmt)]);
    assert DecodeEhdr(fmt, out[..EhdrSize(fmt)]) == h;
    if |img.phdrs| < 0x1_0000 {
      PhTableOfBytes(fmt, img.phdrs);
      ShTableOfBytes(fmt, img.shdrs);
    }
  }

  // -------------------------------------------------------------- invariant

  lemma FieldsStillFit(layout: seq<nat>, vals: seq<nat>, j: nat, v: nat)
    requires FieldsFit(layout, vals) && j < |layout| && v < Pow256(layout[j])
    ensures FieldsFit(layout, vals[j := v])
  {
  }

  lemma {:induction false} HeaderEditFits(fmt: Format, h: Ehdr, phnum: nat, word: nat)
    requires WfEhdr(fmt, h) && phnum < 0x1_0000 && word < WordLimit(fmt)
    ensures WfEhdr(fmt, h.(phnum := phnum, phoff := word)) && WfEhdr(fmt, h.(entry := word))
  {
    hide FieldsFit;
    Powers256();
    var l, f := EhdrLayout(fmt), EhdrFields(h);
    var f1: seq<nat> := f[9 := phnum];
    FieldsStillFit(l, f, 9, phnum);
    FieldsStillFit(l, f1, 4, word);
    FieldsStillFit(l, f, 3, word);
    assert EhdrFields(h.(phnum := phnum, phoff := word)) == f1[4 := word];
    assert EhdrFields(h.(entry := word)) == f[3 := word];
  }

  lemma NewSegmentFits(img: Image, vaddr: u64, size: nat, flags: u32, align: u64)
    ensures WfPhdr(img.fmt, NewSegment(img, vaddr, size, flags, align))
  {
    Powers256();
  }

  lemma {:induction false} AddKeepsConsistent(img: Image, vaddr: u64, data: seq<u8>, flags: u32, align: u64)
    requires Consistent(img)
    ensures Consistent(WithSegment(img, vaddr, data, flags, align))
  {
    hide WfEhdr, WfPhdr, NewSegment;
    HeaderEditFits(img.fmt, img.header, (|img.phdrs| + 1) % 0x1_0000, (|img.raw| + |data|) % WordLimit(img.fmt));
    NewSegmentFits(img, vaddr, |data|, flags, align);
  }

  /** The table moves past all raw data, so it meets neither header nor section table, wherever it was. */
  lemma {:induction false} AddKeepsSound(img: Image, vaddr: u64, data: seq<u8>, flags: u32, align: u64)
    requires NearlySound(img) && SizeFits(WithSegment(img, vaddr, data, flags, align))
    ensures var r := WithSegment(img, vaddr, data, flags, align);
            Sound(r) && r.header.phentsize == img.header.phentsize && |r.phdrs| == |img.phdrs| + 1
            && |img.raw| <= |r.raw|
  {
    hide WfEhdr, WfPhdrs, WfShdrs, NewSegment;
    AddKeepsConsistent(img, vaddr, data, flags, align);
  }

  lemma {:induction false} PatchKeepsSound(img: Image, offset: nat, bytes: seq<u8>)
    requires Sound(img) && PatchFits(img, offset, |bytes|)
    ensures var r := WithPatch(img, offset, bytes);
            Sound(r) && r.header == img.header && r.phdrs == img.phdrs && |r.raw| == |img.raw|
  {
    hide WfEhdr, WfPhdrs, WfShdrs;
  }

  lemma {:induction false} EntryKeepsSound(img: Image, addr: u64)
    requires Sound(img)
    ensures var r := WithEntry(img, addr);
            Sound(r) && r.header.phentsize == img.header.phentsize && r.phdrs == img.phdrs && r.raw == img.raw
  {
    hide WfEhdr, WfPhdrs, WfShdrs;
    HeaderEditFits(img.fmt, img.header, 0, addr % WordLimit(img.fmt));
  }

  /** Every edit keeps the invariant. */
  lemma {:induction false} ApplyKeepsSound(img: Image, op: Op)
    requires Sound(img) && SizeFits(Apply(img, op))
    ensures Sound(Apply(img, op))
    ensures Apply(img, op).header.phentsize == img.header.phentsize
    ensures |Apply(img, op).phdrs| == |img.phdrs| + (if op.AddLoadSegment? then 1 else 0)
    ensures |img.raw| <= |Apply(img, op).raw|
  {
    hide Sound, NearlySound, WithSegment, WithPatch, WithEntry;
    SoundIsNearly(img);
    match op
    case AddLoadSegment(vaddr, data, flags, align) => AddKeepsSound(img, vaddr, data, flags, align);
    case PatchBytesAt(offset, bytes) =>
      if PatchFits(img, offset, |bytes|) {
        PatchKeepsSound(img, offset, bytes);
      }
    case SetEntry(addr) => EntryKeepsSound(img, addr);
  }

  lemma RawOnlyGrows(img: Image, ops: seq<Op>)
    ensures |img.raw| <= |ApplyAll(img, ops).raw| && |img.phdrs| <= |ApplyAll(img, ops).phdrs|
    decreases |ops|
  {
    if ops != [] {
      RawOnlyGrows(Apply(img, ops[0]), ops[1..]);
    }
  }

  lemma {:induction false} ApplyAllKeepsSound(img: Image, ops: seq<Op>)
    requires Sound(img) && SizeFits(ApplyAll(img, ops))
    ensures Sound(ApplyAll(img, ops)) && ApplyAll(img, ops).header.phentsize == img.header.phentsize
    decreases |ops|
  {
    hide Sound, Apply;
    if ops != [] {
      RawOnlyGrows(Apply(img, ops[0]), ops[1..]);
      ApplyKeepsSound(img, ops[0]);
      ApplyAllKeepsSound(Apply(img, ops[0]), ops[1..]);
    }
  }

  lemma {:induction false} ApplyKeepsNearlySound(img: Image, op: Op)
    requires NearlySound(img) && SizeFits(Apply(img, op))
    ensures NearlySound(Apply(img, op)) && (op.AddLoadSegment? ==> Sound(Apply(img, op)))
    ensures Apply(img, op).header.phentsize == img.header.phentsize
  {
    hide WfEhdr, WfPhdrs, WfShdrs, WithSegment, Sound, HeaderGood;
    match op
    case AddLoadSegment(vaddr, data, flags, align) =>
      assert Apply(img, op) == WithSegment(img, vaddr, data, flags, align);
      AddKeepsSound(img, vaddr, data, flags, align);
      SoundIsNearly(WithSegment(img, vaddr, data, flags, align));
    case PatchBytesAt(offset, bytes) =>
    case SetEntry(addr) =>
      HeaderEditFits(img.fmt, img.header, 0, addr % WordLimit(img.fmt));
      SameChecks(img.fmt, img.header, addr % WordLimit(img.fmt));
  }

  lemma SoundIsNearly(img: Image)
    requires Sound(img)
    ensures NearlySound(img)
  {
    hide Consistent, HeaderGood;
  }

  lemma SameChecks(fmt: Format, h: Ehdr, entry: nat)
    requires HeaderGood(fmt, h)
    ensures HeaderGood(fmt, h.(entry := entry))
  {
  }

  /** The first addLoadSegment establishes the whole invariant. */
  lemma {:induction false} AddMakesSound(img: Image, ops: seq<Op>)
    requires NearlySound(img) && SizeFits(ApplyAll(img, ops)) && AddsSegment(ops)
    ensures Sound(ApplyAll(img, ops)) && ApplyAll(img, ops).header.phentsize == img.header.phentsize
    decreases |ops|
  {
    hide Sound, NearlySound, Apply;
    var next := Apply(img, ops[0]);
    RawOnlyGrows(next, ops[1..]);
    ApplyKeepsNearlySound(img, ops[0]);
    if ops[0].AddLoadSegment? {
      ApplyAllKeepsSound(next, ops[1..]);
    } else {
      var i :| 0 <= i < |ops| && ops[i].AddLoadSegment?;
      assert ops[1..][i - 1] == ops[i];
      AddMakesSound(next, ops[1..]);
    }
  }

  lemma {:induction false} ParsedSound(fmt: Format, bytes: seq<u8>)
    requires Parsed(fmt, bytes).Ok? && TablesDisjoint(Parsed(fmt, bytes).value)
    ensures Sound(Parsed(fmt, bytes).value)
  {
    hide Parsed, Consistent, TablesDisjoint;
    ParsedConsistent(fmt, bytes);
    ParsedFormat(fmt, bytes);
    HeaderGoodIfNoError(fmt, Parsed(fmt, bytes).value.header, |bytes|);
  }

  lemma {:induction false} ParsedNearlySound(fmt: Format, bytes: seq<u8>)
    requires Parsed(fmt, bytes).Ok? && SectionsClearOfHeader(Parsed(fmt, bytes).value)
    ensures NearlySound(Parsed(fmt, bytes).value)
  {
    hide Parsed, Consistent, SectionsClearOfHeader;
    ParsedConsistent(fmt, bytes);
    ParsedFormat(fmt, bytes);
    HeaderGoodIfNoError(fmt, Parsed(fmt, bytes).value.header, |bytes|);
  }

  lemma HeaderGoodIfNoError(fmt: Format, h: Ehdr, size: nat)
    requires HeaderError(fmt, h, size) == None
    ensures HeaderGood(fmt, h)
  {
  }

  /**
   * The editing session round trip. Parse a file whose header and tables are
   * disjoint, edit it in any way and any number of times: as long as the file
   * fits its class, serializing and parsing again gives the edited header and
   * tables back exactly when there are fewer than 65536 segments and, if there
   * are any, e_phentsize was right. Once a segment is added, the place of the
   * old program header table no longer matters.
   */
  lemma {:induction false} EditedRoundTrip(fmt: Format, bytes: seq<u8>, ops: seq<Op>)
    requires Parsed(fmt, bytes).Ok?
    requires TablesDisjoint(Parsed(fmt, bytes).value)
             || (AddsSegment(ops) && SectionsClearOfHeader(Parsed(fmt, bytes).value))
    requires SizeFits(ApplyAll(Parsed(fmt, bytes).value, ops))
    ensures var img := Parsed(fmt, bytes).value;
            var edited := ApplyAll(img, ops);
            Parsed(fmt, Serialized(edited)) == Ok(edited.(raw := Serialized(edited)))
            <==> |edited.phdrs| < 0x1_0000 && (edited.phdrs != [] ==> img.header.phentsize == PhdrSize(fmt))
  {
    hide Parsed, Serialized, Sound, NearlySound, TablesDisjoint, SectionsClearOfHeader, ApplyAll, AddsSegment;
    var img := Parsed(fmt, bytes).value;
    ParsedFormat(fmt, bytes);
    if TablesDisjoint(img) {
      ParsedSound(fmt, bytes);
      ApplyAllKeepsSound(img, ops);
    } else {
      ParsedNearlySound(fmt, bytes);
      AddMakesSound(img, ops);
    }
    RoundTripIff(ApplyAll(img, ops));
  }

  /** An ELF64 big-endian file of 64 bytes: a header with no tables and e_phentsize 0. */
  const BARE_HEADER := Ehdr(ELF_MAGIC + [2, 2] + seq(10, _ => 0), 2, EM_PPC64, 1, 0, 0, 0, 0, 64, 0, 0, 0, 0, 0)

  /** For one, that file is accepted, but after one addLoadSegment serialize writes a file that does not read back. */
  lemma {:induction false} BareHeaderBreaks()
    ensures var bytes := EncodeEhdr(ELF64_BE, BARE_HEADER);
            var img := Image(ELF64_BE, BARE_HEADER, [], [], bytes);
            Parsed(ELF64_BE, bytes) == Ok(img)
            && var added := WithSegment(img, 0x1_0000, [0], PF_R + PF_X, 0x1_0000);
               Parsed(ELF64_BE, Serialized(added)) != Ok(added.(raw := Serialized(added)))
  {
    hide EncodeEhdr, DecodeEhdr, PhBytes, ShBytes, Serialized, Parsed, WfEhdr, Overlay;
    var bytes := EncodeEhdr(ELF64_BE, BARE_HEADER);
    BareHeaderParses(bytes);
    var img := Image(ELF64_BE, BARE_HEADER, [], [], bytes);
    var op := AddLoadSegment(0x1_0000, [0], PF_R + PF_X, 0x1_0000);
    ParsedSound(ELF64_BE, bytes);
    ApplyKeepsSound(img, op);
    RoundTripIff(Apply(img, op));
  }

  lemma {:induction false} BareHeaderFits()
    ensures WfEhdr(ELF64_BE, BARE_HEADER)
  {
    Powers256();
  }

  lemma {:induction false} BareHeaderParses(bytes: seq<u8>)
    requires bytes == EncodeEhdr(ELF64_BE, BARE_HEADER)
    ensures Parsed(ELF64_BE, bytes) == Ok(Image(ELF64_BE, BARE_HEADER, [], [], bytes))
  {
    hide EncodeEhdr, DecodeEhdr, FieldsFit;
    BareHeaderFits();
    EhdrCodec(ELF64_BE, BARE_HEADER, bytes);
    assert bytes[..64] == bytes;
  }

  lemma {:induction false} ParsedFormat(fmt: Format, bytes: seq<u8>)
    requires Parsed(fmt, bytes).Ok?
    ensures var img := Parsed(fmt, bytes).value;
            img.fmt == fmt && img.raw == bytes
  {
    hide DecodeEhdr, PhTable, ShTable;
  }
}
