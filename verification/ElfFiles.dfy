// The ElfFile class (libelf/include/elf/file.hpp): a mutable object holding
// the decoded header and tables beside the raw bytes.
module ElfFiles {
  import opened Bits
  import opened Bytes
  import opened Wrappers
  import opened ElfTypes
  import opened ElfImage
  import opened ElfEdits

  /** Byte vectors hold fewer than 2^63 elements. */
  const MAX_BYTES: int := 0x8000_0000_0000_0000

  // ------------------------------------------------------------- lookups

  /** The first file-backed PT_LOAD segment from index i on that contains the address decides. */
  function ResolveFrom(img: Image, a: u64, i: nat): (r: Result<u64>)
    requires i <= |img.phdrs|
    decreases |img.phdrs| - i
  {
    if i == |img.phdrs| then Err(OffsetOutOfBounds)
    else
      var ph := img.phdrs[i];
      if ph.ptype == PT_LOAD && ph.vaddr <= a < Wrap(ph.vaddr + ph.filesz) then
        var offset := Wrap(ph.offset + (a - ph.vaddr));
        if offset > |img.raw| then Err(OffsetOutOfBounds) else Ok(offset)
      else ResolveFrom(img, a, i + 1)
  }

  function Resolve(img: Image, a: u64): Result<u64> {
    ResolveFrom(img, a, 0)
  }

  function ReadBytes(img: Image, offset: nat, length: nat): (r: Result<seq<u8>>) {
    if offset + length <= |img.raw| then Ok(img.raw[offset..offset + length]) else Err(OffsetOutOfBounds)
  }

  function SegmentBytes(img: Image, index: nat): Result<seq<u8>> {
    if index >= |img.phdrs| then Err(IndexOutOfBounds)
    else ReadBytes(img, img.phdrs[index].offset, img.phdrs[index].filesz)
  }

  /** The file-backed part of the segment contains the address; its end is a wrapping 64-bit sum. */
  predicate Covers(ph: Phdr, a: u64) {
    ph.ptype == 1 && ph.vaddr <= a < (ph.vaddr + ph.filesz) % 0x1_0000_0000_0000_0000
  }

  /** No segment before index i covers the address. */
  ghost predicate NoneBefore(img: Image, a: u64, i: nat) {
    forall j {:trigger img.phdrs[j]} :: 0 <= j < i && j < |img.phdrs| ==> !Covers(img.phdrs[j], a)
  }

  lemma {:induction false} ResolveSkips(img: Image, a: u64, i: nat)
    requires i <= |img.phdrs| && NoneBefore(img, a, i)
    ensures Resolve(img, a) == ResolveFrom(img, a, i)
  {
    hide Wrap;
    if i > 0 {
      ResolveSkips(img, a, i - 1);
      assert !Covers(img.phdrs[i - 1], a);
      WrapIs(img.phdrs[i - 1].vaddr + img.phdrs[i - 1].filesz);
    }
  }

  lemma WrapIs(x: int)
    ensures Wrap(x) == x % 0x1_0000_0000_0000_0000
  {
  }

  /** The first segment that covers the address decides, and without one there is no offset. */
  lemma {:induction false} ResolveOutcome(img: Image, a: u64, i: nat)
    ensures i < |img.phdrs| && Covers(img.phdrs[i], a) && NoneBefore(img, a, i) ==>
              var offset := (img.phdrs[i].offset + (a - img.phdrs[i].vaddr)) % 0x1_0000_0000_0000_0000;
              Resolve(img, a) == if offset <= |img.raw| then Ok(offset) else Err(OffsetOutOfBounds)
    ensures NoneBefore(img, a, |img.phdrs|) ==> Resolve(img, a) == Err(OffsetOutOfBounds)
  {
    hide Wrap;
    if i < |img.phdrs| && Covers(img.phdrs[i], a) && NoneBefore(img, a, i) {
      ResolveSkips(img, a, i);
      WrapIs(img.phdrs[i].vaddr + img.phdrs[i].filesz);
      WrapIs(img.phdrs[i].offset + (a - img.phdrs[i].vaddr));
    }
    if NoneBefore(img, a, |img.phdrs|) {
      ResolveSkips(img, a, |img.phdrs|);
    }
  }

  // ---------------------------------------------------------- buffer writes

  /** Where entry i of a table begins. */
  function EntryOffset(offset: nat, i: nat, size: nat): (r: nat)
    ensures r >= offset
  {
    offset + i * size
  }

  method EnsureCapacity(buf: seq<u8>, requiredSize: nat) returns (r: seq<u8>)
    ensures r == if requiredSize > |buf| then buf + seq(requiredSize - |buf|, _ => 0) else buf
  {
    r := buf;
    if requiredSize > |r| {
      r := r + seq(requiredSize - |r|, _ => 0);
    }
  }

  method WriteStruct(buf: seq<u8>, offset: nat, value: seq<u8>) returns (r: seq<u8>)
    requires value != []
    ensures r == Overlay(buf, offset, value)
  {
    r := EnsureCapacity(buf, offset + |value|);
    r := r[..offset] + value + r[offset + |value|..];
  }

  method WritePhdrTable(fmt: Format, buf: seq<u8>, offset: nat, items: seq<Phdr>) returns (r: seq<u8>)
    ensures r == Overlay(buf, offset, PhBytes(fmt, items))
  {
    hide EncodePhdr, Overlay, PhdrSize, PhBytes;
    r := buf;
    PhBytesStart(fmt);
    for i := 0 to |items|
      invariant r == Overlay(buf, offset, PhBytes(fmt, items[..i]))
    {
      PhBytesStep(fmt, items, i, offset);
      r := WriteStruct(r, EntryOffset(offset, i, PhdrSize(fmt)), EncodePhdr(fmt, items[i]));
      OverlayAppend(buf, offset, PhBytes(fmt, items[..i]), EncodePhdr(fmt, items[i]));
    }
    assert items[..|items|] == items;
  }

  method WriteShdrTable(fmt: Format, buf: seq<u8>, offset: nat, items: seq<Shdr>) returns (r: seq<u8>)
    ensures r == Overlay(buf, offset, ShBytes(fmt, items))
  {
    hide EncodeShdr, Overlay, ShdrSize, ShBytes;
    r := buf;
    ShBytesStart(fmt);
    for i := 0 to |items|
      invariant r == Overlay(buf, offset, ShBytes(fmt, items[..i]))
    {
      ShBytesStep(fmt, items, i, offset);
      r := WriteStruct(r, EntryOffset(offset, i, ShdrSize(fmt)), EncodeShdr(fmt, items[i]));
      OverlayAppend(buf, offset, ShBytes(fmt, items[..i]), EncodeShdr(fmt, items[i]));
    }
    assert items[..|items|] == items;
  }

  lemma PhBytesStart(fmt: Format)
    ensures PhBytes(fmt, []) == []
  {
  }

  lemma {:induction false} PhBytesStep(fmt: Format, items: seq<Phdr>, i: nat, offset: nat)
    requires i < |items|
    ensures PhBytes(fmt, items[..i + 1]) == PhBytes(fmt, items[..i]) + EncodePhdr(fmt, items[i])
    ensures EntryOffset(offset, i, PhdrSize(fmt)) == offset + |PhBytes(fmt, items[..i])|
  {
    hide EncodePhdr, PhdrSize;
    assert items[..i + 1][..i] == items[..i];
  }

  lemma ShBytesStart(fmt: Format)
    ensures ShBytes(fmt, []) == []
  {
  }

  lemma {:induction false} ShBytesStep(fmt: Format, items: seq<Shdr>, i: nat, offset: nat)
    requires i < |items|
    ensures ShBytes(fmt, items[..i + 1]) == ShBytes(fmt, items[..i]) + EncodeShdr(fmt, items[i])
    ensures EntryOffset(offset, i, ShdrSize(fmt)) == offset + |ShBytes(fmt, items[..i])|
  {
    hide EncodeShdr, ShdrSize;
    assert items[..i + 1][..i] == items[..i];
  }

  /** The first i program headers of the table at `offset`, which end at `end`. */
  ghost predicate PhdrsRead(fmt: Format, bytes: seq<u8>, offset: nat, i: nat, end: nat, ps: seq<Phdr>) {
    offset <= end <= |bytes| && end - offset == i * PhdrSize(fmt) && ps == PhTable(fmt, bytes[offset..end], i)
  }

  lemma PhdrsReadNone(fmt: Format, bytes: seq<u8>, offset: nat)
    requires offset <= |bytes|
    ensures PhdrsRead(fmt, bytes, offset, 0, offset, [])
  {
  }

  lemma {:induction false} PhdrsReadNext(fmt: Format, bytes: seq<u8>, offset: nat, count: nat, i: nat, end: nat,
                                         ps: seq<Phdr>)
    requires PhdrsRead(fmt, bytes, offset, i, end, ps) && i < count && EntryOffset(offset, count, PhdrSize(fmt)) <= |bytes|
    ensures EntryOffset(offset, i, PhdrSize(fmt)) == end && end + PhdrSize(fmt) <= |bytes|
    ensures PhdrsRead(fmt, bytes, offset, i + 1, end + PhdrSize(fmt),
                      ps + [DecodePhdr(fmt, bytes[end..end + PhdrSize(fmt)])])
  {
    hide DecodePhdr, PhdrSize, PhTable;
    TableStep(i + 1, PhdrSize(fmt));
    MoreRows(i + 1, count, PhdrSize(fmt));
    var rows, row := bytes[offset..end], bytes[end..end + PhdrSize(fmt)];
    assert bytes[offset..end + PhdrSize(fmt)] == rows + row;
    PhTableStep(fmt, rows, row, i);
  }

  lemma {:induction false} PhTableStep(fmt: Format, rows: seq<u8>, row: seq<u8>, i: nat)
    requires |rows| == i * PhdrSize(fmt) && |row| == PhdrSize(fmt)
    ensures |rows + row| == (i + 1) * PhdrSize(fmt)
    ensures PhTable(fmt, rows + row, i + 1) == PhTable(fmt, rows, i) + [DecodePhdr(fmt, row)]
  {
    hide DecodePhdr, PhdrSize;
    TableStep(i + 1, PhdrSize(fmt));
    assert (rows + row)[..|rows|] == rows && (rows + row)[|rows|..] == row;
  }

  lemma PhdrsReadAll(fmt: Format, bytes: seq<u8>, offset: nat, count: nat, end: nat, ps: seq<Phdr>)
    requires PhdrsRead(fmt, bytes, offset, count, end, ps)
    ensures EntryOffset(offset, count, PhdrSize(fmt)) == end && ps == PhTable(fmt, bytes[offset..end], count)
  {
    hide PhdrSize, PhTable;
  }

  lemma ShdrsReadAll(fmt: Format, bytes: seq<u8>, offset: nat, count: nat, end: nat, ss: seq<Shdr>)
    requires ShdrsRead(fmt, bytes, offset, count, end, ss)
    ensures EntryOffset(offset, count, ShdrSize(fmt)) == end && ss == ShTable(fmt, bytes[offset..end], count)
  {
    hide ShdrSize, ShTable;
  }

  /** The same for section headers. */
  ghost predicate ShdrsRead(fmt: Format, bytes: seq<u8>, offset: nat, i: nat, end: nat, ss: seq<Shdr>) {
    offset <= end <= |bytes| && end - offset == i * ShdrSize(fmt) && ss == ShTable(fmt, bytes[offset..end], i)
  }

  lemma ShdrsReadNone(fmt: Format, bytes: seq<u8>, offset: nat)
    requires offset <= |bytes|
    ensures ShdrsRead(fmt, bytes, offset, 0, offset, [])
  {
  }

  lemma {:induction false} ShdrsReadNext(fmt: Format, bytes: seq<u8>, offset: nat, count: nat, i: nat, end: nat,
                                         ss: seq<Shdr>)
    requires ShdrsRead(fmt, bytes, offset, i, end, ss) && i < count && EntryOffset(offset, count, ShdrSize(fmt)) <= |bytes|
    ensures EntryOffset(offset, i, ShdrSize(fmt)) == end && end + ShdrSize(fmt) <= |bytes|
    ensures ShdrsRead(fmt, bytes, offset, i + 1, end + ShdrSize(fmt),
                      ss + [DecodeShdr(fmt, bytes[end..end + ShdrSize(fmt)])])
  {
    hide DecodeShdr, ShdrSize, ShTable;
    TableStep(i + 1, ShdrSize(fmt));
    MoreRows(i + 1, count, ShdrSize(fmt));
    var rows, row := bytes[offset..end], bytes[end..end + ShdrSize(fmt)];
    assert bytes[offset..end + ShdrSize(fmt)] == rows + row;
    ShTableStep(fmt, rows, row, i);
  }

  lemma {:induction false} ShTableStep(fmt: Format, rows: seq<u8>, row: seq<u8>, i: nat)
    requires |rows| == i * ShdrSize(fmt) && |row| == ShdrSize(fmt)
    ensures |rows + row| == (i + 1) * ShdrSize(fmt)
    ensures ShTable(fmt, rows + row, i + 1) == ShTable(fmt, rows, i) + [DecodeShdr(fmt, row)]
  {
    hide DecodeShdr, ShdrSize;
    TableStep(i + 1, ShdrSize(fmt));
    assert (rows + row)[..|rows|] == rows && (rows + row)[|rows|..] == row;
  }

  method ReadStruct(bytes: seq<u8>, offset: u64, size: nat) returns (r: Result<seq<u8>>)
    ensures r == if offset + size <= |bytes| then Ok(bytes[offset..offset + size]) else Err(TruncatedFile)
  {
    if offset > |bytes| || |bytes| - offset < size {
      return Err(TruncatedFile);
    }
    return Ok(bytes[offset..offset + size]);
  }

  // ------------------------------------------------------------------ class

  class ElfFile {
    const fmt: Format
    var header: Ehdr
    var phdrs: seq<Phdr>
    var shdrs: seq<Shdr>
    var raw: seq<u8>

    /** The object as a value. */
    function View(): Image
      reads this
    {
      Image(fmt, header, phdrs, shdrs, raw)
    }

    /** Buffer and tables agree as far as every edit keeps them agreeing. */
    ghost predicate Valid()
      reads this
    {
      Consistent(View()) && |raw| < MAX_BYTES
    }

    constructor (fmt: Format, header: Ehdr, phdrs: seq<Phdr>, shdrs: seq<Shdr>, raw: seq<u8>)
      ensures View() == Image(fmt, header, phdrs, shdrs, raw)
    {
      this.fmt := fmt;
      this.header := header;
      this.phdrs := phdrs;
      this.shdrs := shdrs;
      this.raw := raw;
    }

    static method Parse(fmt: Format, bytes: seq<u8>) returns (r: Result<ElfFile>)
      requires |bytes| < MAX_BYTES
      ensures r.Ok? <==> Parsed(fmt, bytes).Ok?
      ensures r.Err? ==> r == Err(Parsed(fmt, bytes).code)
      ensures r.Ok? ==> fresh(r.value) && r.value.View() == Parsed(fmt, bytes).value && r.value.Valid()
    {
      hide DecodeEhdr, PhTable, ShTable, Consistent, WfEhdr, EhdrSize, PhdrSize, ShdrSize;
      var headerResult := ReadStruct(bytes, 0, EhdrSize(fmt));
      if headerResult.Err? {
        return Err(headerResult.code);
      }
      var h := DecodeEhdr(fmt, headerResult.value);
      EhdrCodec(fmt, h, headerResult.value);
      HalfwordFields(fmt, h);
      Powers256();
      if h.ident[0] != 0x7F || h.ident[1] != 0x45 || h.ident[2] != 0x4C || h.ident[3] != 0x46 {
        return Err(BadMagic);
      }
      assert h.ident[..4] == ELF_MAGIC;
      if h.ident[4] != ClassByte(fmt) {
        return Err(UnsupportedClass);
      }
      if h.ident[5] != DataByte(fmt) {
        return Err(UnsupportedDataEncoding);
      }
      if h.ehsize != EhdrSize(fmt) {
        return Err(InconsistentHeaderSize);
      }
      if h.phnum > 0 && h.phentsize != PhdrSize(fmt) {
        return Err(InconsistentHeaderSize);
      }
      if h.shnum > 0 && h.shentsize != ShdrSize(fmt) {
        return Err(InconsistentHeaderSize);
      }
      if !RegionFits(|bytes|, h.phoff, h.phnum, PhdrSize(fmt)) {
        return Err(OffsetOutOfBounds);
      }
      if !RegionFits(|bytes|, h.shoff, h.shnum, ShdrSize(fmt)) {
        return Err(OffsetOutOfBounds);
      }
      var phdrs := ReadPhdrs(fmt, bytes, h.phoff, h.phnum);
      var shdrs := ReadShdrs(fmt, bytes, h.shoff, h.shnum);
      if h.shnum > 0 && h.shstrndx >= h.shnum {
        return Err(IndexOutOfBounds);
      }
      ParsedConsistent(fmt, bytes);
      var file := new ElfFile(fmt, h, phdrs, shdrs, bytes);
      return Ok(file);
    }

    /** The program header loop of parse: after the region check no read fails. */
    static method ReadPhdrs(fmt: Format, bytes: seq<u8>, offset: nat, count: nat) returns (phdrs: seq<Phdr>)
      requires |bytes| < MAX_BYTES && EntryOffset(offset, count, PhdrSize(fmt)) <= |bytes|
      ensures phdrs == PhTable(fmt, bytes[offset..EntryOffset(offset, count, PhdrSize(fmt))], count)
    {
      hide DecodePhdr, PhdrSize, PhTable, PhdrsRead, EntryOffset;
      phdrs := [];
      ghost var end: nat := offset;
      PhdrsReadNone(fmt, bytes, offset);
      for i := 0 to count
        invariant PhdrsRead(fmt, bytes, offset, i, end, phdrs)
      {
        PhdrsReadNext(fmt, bytes, offset, count, i, end, phdrs);
        var r := ReadStruct(bytes, EntryOffset(offset, i, PhdrSize(fmt)), PhdrSize(fmt));
        phdrs := phdrs + [DecodePhdr(fmt, r.value)];
        end := end + PhdrSize(fmt);
      }
      PhdrsReadAll(fmt, bytes, offset, count, end, phdrs);
    }

    static method ReadShdrs(fmt: Format, bytes: seq<u8>, offset: nat, count: nat) returns (shdrs: seq<Shdr>)
      requires |bytes| < MAX_BYTES && EntryOffset(offset, count, ShdrSize(fmt)) <= |bytes|
      ensures shdrs == ShTable(fmt, bytes[offset..EntryOffset(offset, count, ShdrSize(fmt))], count)
    {
      hide DecodeShdr, ShdrSize, ShTable, ShdrsRead, EntryOffset;
      shdrs := [];
      ghost var end: nat := offset;
      ShdrsReadNone(fmt, bytes, offset);
      for i := 0 to count
        invariant ShdrsRead(fmt, bytes, offset, i, end, shdrs)
      {
        ShdrsReadNext(fmt, bytes, offset, count, i, end, shdrs);
        var r := ReadStruct(bytes, EntryOffset(offset, i, ShdrSize(fmt)), ShdrSize(fmt));
        shdrs := shdrs + [DecodeShdr(fmt, r.value)];
        end := end + ShdrSize(fmt);
      }
      ShdrsReadAll(fmt, bytes, offset, count, end, shdrs);
    }

    method SetEntry(addr: u64)
      requires Valid()
      modifies this`header
      ensures Valid() && View() == WithEntry(old(View()), addr) && EntrySet(old(View()), View(), addr)
    {
      EntrySetIs(View(), addr);
      HeaderEditFits(fmt, header, 0, addr % WordLimit(fmt));
      header := header.(entry := addr % WordLimit(fmt));
    }

    method PatchBytesAt(offset: u64, newBytes: seq<u8>) returns (r: Result<()>)
      requires Valid() && |newBytes| < MAX_BYTES
      modifies this`raw
      ensures Valid()
      ensures if PatchFits(old(View()), offset, |newBytes|)
              then r == Ok(()) && View() == WithPatch(old(View()), offset, newBytes)
              else r == Err(OffsetOutOfBounds) && View() == old(View())
      ensures r.Ok? <==> offset + |newBytes| <= |old(raw)|
      ensures r.Ok? ==> BytesPatched(old(View()), View(), offset, newBytes)
    {
      if !RegionFits(|raw|, offset, |newBytes|, 1) {
        return Err(OffsetOutOfBounds);
      }
      BytesPatchedIs(View(), offset, newBytes);
      raw := raw[..offset] + newBytes + raw[offset + |newBytes|..];
      return Ok(());
    }

    method AddLoadSegment(vaddr: u64, data: seq<u8>, segmentFlags: u32, align: u64) returns (r: Result<()>)
      requires Valid() && |raw| + |data| < MAX_BYTES
      modifies this`raw, this`phdrs, this`header
      ensures Valid() && r == Ok(()) && View() == WithSegment(old(View()), vaddr, data, segmentFlags, align)
      ensures SegmentAppended(old(View()), View(), vaddr, data, segmentFlags, align)
    {
      SegmentAppendedIs(View(), vaddr, data, segmentFlags, align);
      hide Consistent;
      AddKeepsConsistent(View(), vaddr, data, segmentFlags, align);
      var l := WordLimit(fmt);
      var newOffset := |raw|;
      raw := raw + data;
      var ph := Phdr(PT_LOAD, segmentFlags, newOffset % l, vaddr % l, vaddr % l, |data| % l, |data| % l, align % l);
      phdrs := phdrs + [ph];
      header := header.(phnum := |phdrs| % 0x1_0000);
      header := header.(phoff := |raw| % l);
      return Ok(());
    }

    method ReadAt(offset: u64, length: u64) returns (r: Result<seq<u8>>)
      requires Valid()
      ensures r == ReadBytes(View(), offset, length)
      ensures r == if offset + length <= |raw| then Ok(raw[offset..offset + length]) else Err(OffsetOutOfBounds)
    {
      if !RegionFits(|raw|, offset, length, 1) {
        return Err(OffsetOutOfBounds);
      }
      return Ok(raw[offset..offset + length]);
    }

    method VaddrToFileOffset(vaddr: u64) returns (r: Result<u64>)
      requires Valid()
      ensures r == Resolve(View(), vaddr)
    {
      hide Consistent;
      for i := 0 to |phdrs|
        invariant Resolve(View(), vaddr) == ResolveFrom(View(), vaddr, i)
      {
        var ph := phdrs[i];
        if ph.ptype != PT_LOAD {
          continue;
        }
        var vstart := ph.vaddr;
        var vend := Wrap(vstart + ph.filesz);
        if vaddr >= vstart && vaddr < vend {
          var delta := vaddr - vstart;
          var offset := Wrap(ph.offset + delta);
          if offset > |raw| {
            return Err(OffsetOutOfBounds);
          }
          return Ok(offset);
        }
      }
      return Err(OffsetOutOfBounds);
    }

    method SegmentData(index: u64) returns (r: Result<seq<u8>>)
      requires Valid()
      ensures r == SegmentBytes(View(), index)
      ensures index >= |phdrs| ==> r == Err(IndexOutOfBounds)
      ensures index < |phdrs| ==>
                var offset, filesz := phdrs[index].offset, phdrs[index].filesz;
                r == if offset + filesz <= |raw| then Ok(raw[offset..offset + filesz]) else Err(OffsetOutOfBounds)
    {
      if index >= |phdrs| {
        return Err(IndexOutOfBounds);
      }
      var ph := phdrs[index];
      SegmentFieldsFit(fmt, ph);
      if !RegionFits(|raw|, ph.offset, ph.filesz, 1) {
        return Err(OffsetOutOfBounds);
      }
      return Ok(raw[ph.offset..ph.offset + ph.filesz]);
    }

    method Serialize() returns (out: seq<u8>)
      requires Valid()
      ensures out == Serialized(View())
    {
      hide EncodeEhdr, Overlay, PhBytes, ShBytes;
      out := raw;
      out := WriteStruct(out, 0, EncodeEhdr(fmt, header));
      out := WritePhdrTable(fmt, out, header.phoff, phdrs);
      out := WriteShdrTable(fmt, out, header.shoff, shdrs);
    }
  }

  lemma MoreRows(i: nat, n: nat, s: nat)
    requires i <= n
    ensures i * s <= n * s
  {
  }

  lemma SegmentFieldsFit(fmt: Format, ph: Phdr)
    requires WfPhdr(fmt, ph)
    ensures ph.offset < M64 && ph.filesz < M64 && ph.vaddr < M64 && ph.memsz < M64
  {
    Powers256();
    var f, l := PhdrFields(fmt, ph), PhdrLayout(fmt);
    if fmt.is64 {
      assert f[2] == ph.offset && f[5] == ph.filesz && f[3] == ph.vaddr && f[6] == ph.memsz;
    } else {
      assert f[1] == ph.offset && f[4] == ph.filesz && f[2] == ph.vaddr && f[5] == ph.memsz;
    }
  }

  // ---------------------------------------------------------------- dispatch

  /** The instantiation that e_ident selects. */
  function FormatOf(bytes: seq<u8>): (r: Result<Format>) {
    if |bytes| < EI_NIDENT then Err(TruncatedFile)
    else if bytes[..4] != ELF_MAGIC then Err(BadMagic)
    else if bytes[4] != 1 && bytes[4] != 2 then Err(UnsupportedClass)
    else if bytes[5] != 1 && bytes[5] != 2 then Err(UnsupportedDataEncoding)
    else Ok(Format(bytes[4] == 2, bytes[5] == 2))
  }

  function ParsedAny(bytes: seq<u8>): Result<Image> {
    match FormatOf(bytes)
    case Err(code) => Err(code)
    case Ok(fmt) => Parsed(fmt, bytes)
  }

  method ParseAny(bytes: seq<u8>) returns (r: Result<ElfFile>)
    requires |bytes| < MAX_BYTES
    ensures r.Ok? <==> ParsedAny(bytes).Ok?
    ensures r.Err? ==> r == Err(ParsedAny(bytes).code)
    ensures r.Ok? ==> fresh(r.value) && r.value.View() == ParsedAny(bytes).value && r.value.Valid()
  {
    hide Parsed, Consistent;
    if |bytes| < EI_NIDENT {
      return Err(TruncatedFile);
    }
    if bytes[0] != 0x7F || bytes[1] != 0x45 || bytes[2] != 0x4C || bytes[3] != 0x46 {
      return Err(BadMagic);
    }
    assert bytes[..4] == ELF_MAGIC;
    var elfClass, elfData := bytes[4], bytes[5];
    if elfClass != 1 && elfClass != 2 {
      return Err(UnsupportedClass);
    }
    if elfData != 1 && elfData != 2 {
      return Err(UnsupportedDataEncoding);
    }
    if elfClass == 1 && elfData == 1 {
      r := ElfFile.Parse(Format(false, false), bytes);
    } else if elfClass == 1 && elfData == 2 {
      r := ElfFile.Parse(Format(false, true), bytes);
    } else if elfClass == 2 && elfData == 1 {
      r := ElfFile.Parse(Format(true, false), bytes);
    } else {
      r := ElfFile.Parse(Format(true, true), bytes);
    }
  }

  /** parseAny accepts exactly what some instantiation accepts, and always the right one. */
  lemma {:induction false} ParseAnyComplete(fmt: Format, bytes: seq<u8>)
    requires Parsed(fmt, bytes).Ok?
    ensures ParsedAny(bytes) == Parsed(fmt, bytes)
  {
    hide DecodeFields, EhdrLayout, PhTable, ShTable;
    var b := bytes[..EhdrSize(fmt)];
    var h := DecodeEhdr(fmt, b);
    assert h.ident == b[..EI_NIDENT] == bytes[..EI_NIDENT];
    assert bytes[..4] == h.ident[..4] && bytes[4] == h.ident[4] && bytes[5] == h.ident[5];
  }

  // ------------------------------------------------------- address translation

  /**
   * Adding a segment disturbs no translation: an address that resolved before
   * resolves to the same offset after.
   */
  lemma {:induction false} ResolveStable(img: Image, vaddr: u64, data: seq<u8>, flags: u32, align: u64, a: u64, i: nat)
    requires i <= |img.phdrs| && ResolveFrom(img, a, i).Ok?
    ensures ResolveFrom(WithSegment(img, vaddr, data, flags, align), a, i) == ResolveFrom(img, a, i)
    decreases |img.phdrs| - i
  {
    var img' := WithSegment(img, vaddr, data, flags, align);
    assert i < |img.phdrs| && img'.phdrs[i] == img.phdrs[i];
    var ph := img.phdrs[i];
    if !(ph.ptype == PT_LOAD && ph.vaddr <= a < Wrap(ph.vaddr + ph.filesz)) {
      ResolveStable(img, vaddr, data, flags, align, a, i + 1);
    }
  }

  /** No PT_LOAD segment reaches the address with its file-backed part. */
  ghost predicate ClearOf(img: Image, a: u64) {
    forall i {:trigger img.phdrs[i]} :: 0 <= i < |img.phdrs| && img.phdrs[i].ptype == PT_LOAD ==>
      !(img.phdrs[i].vaddr <= a < Wrap(img.phdrs[i].vaddr + img.phdrs[i].filesz))
  }

  /** Every byte of a new 64-bit segment that no earlier segment covers resolves to its own place at the file's old end. */
  lemma {:induction false} ResolveNewSegment(img: Image, vaddr: u64, data: seq<u8>, flags: u32, align: u64, j: nat, i: nat)
    requires img.fmt.is64 && |img.raw| + |data| < MAX_BYTES && vaddr + |data| < M64
    requires i <= |img.phdrs| && j < |data| && ClearOf(img, vaddr + j)
    ensures ResolveFrom(WithSegment(img, vaddr, data, flags, align), vaddr + j, i) == Ok(|img.raw| + j)
    decreases |img.phdrs| - i
  {
    hide NewSegment, Wrap;
    var img' := WithSegment(img, vaddr, data, flags, align);
    if i < |img.phdrs| {
      assert img'.phdrs[i] == img.phdrs[i];
      ResolveNewSegment(img, vaddr, data, flags, align, j, i + 1);
    } else {
      NewSegment64(img, vaddr, |data|, flags, align);
      assert img'.phdrs[i] == NewSegment(img, vaddr, |data|, flags, align);
      FirstHit(img', vaddr + j, i);
    }
  }

  /** A segment that contains the address, with no sum wrapping, resolves it. */
  lemma FirstHit(img: Image, a: u64, i: nat)
    requires i < |img.phdrs| && img.phdrs[i].ptype == PT_LOAD
    requires var ph := img.phdrs[i];
             ph.vaddr <= a < ph.vaddr + ph.filesz < M64 && ph.offset + ph.filesz <= |img.raw| < M64
    ensures ResolveFrom(img, a, i) == Ok(img.phdrs[i].offset + (a - img.phdrs[i].vaddr))
  {
    NoWrap(img.phdrs[i].vaddr + img.phdrs[i].filesz);
    NoWrap(img.phdrs[i].offset + (a - img.phdrs[i].vaddr));
  }

  lemma NoWrap(x: int)
    requires 0 <= x < M64
    ensures Wrap(x) == x
  {
  }

  lemma NewSegment64(img: Image, vaddr: u64, size: nat, flags: u32, align: u64)
    requires img.fmt.is64 && |img.raw| < M64 && size < M64
    ensures NewSegment(img, vaddr, size, flags, align)
            == Phdr(PT_LOAD, flags, |img.raw|, vaddr, vaddr, size, size, align)
  {
  }
}
