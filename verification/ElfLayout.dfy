// Where every named field stands in a file, in bytes: the positions the ELF
// records have in libelf/include/elf/types.hpp, and which files parse accepts.
module ElfLayout {
  import opened Bits
  import opened Bytes
  import opened Wrappers
  import opened ElfTypes
  import opened ElfImage
  import opened ElfFiles

  /** The unsigned number in bytes lo to hi, most significant byte first or last. */
  function Number(big: bool, b: seq<u8>, lo: nat, hi: nat): nat
    requires lo <= hi <= |b|
  {
    if big then BeValue(b[lo..hi]) else BeValue(Reverse(b[lo..hi]))
  }

  // ------------------------------------------------------ fields of a record

  /** `starts` are the offsets at which the fields of a layout begin. */
  predicate Starts(layout: seq<nat>, starts: seq<nat>) {
    |starts| == |layout|
    && (forall k {:trigger starts[k]} :: 0 <= k < |starts| ==> k == 0 ==> starts[k] == 0)
    && forall k {:trigger starts[k]} :: 0 < k < |starts| ==> starts[k] == starts[k - 1] + layout[k - 1]
  }

  lemma {:induction false} StartIsSum(layout: seq<nat>, starts: seq<nat>, k: nat)
    requires Starts(layout, starts) && k < |layout|
    ensures Sum(layout[..k]) == starts[k]
  {
    if k == 0 {
      assert layout[..0] == [];
    } else {
      StartIsSum(layout, starts, k - 1);
      assert layout[..k] == layout[..k - 1] + [layout[k - 1]];
      SumAppend(layout[..k - 1], [layout[k - 1]]);
      SumCons(layout[k - 1], []);
      assert [layout[k - 1]] + [] == [layout[k - 1]];
    }
  }

  /** Field k is the number in its own bytes. */
  lemma {:induction false} FieldAt(big: bool, layout: seq<nat>, b: seq<u8>, k: nat)
    requires |b| == Sum(layout) && k < |layout|
    ensures Sum(layout[..k]) + layout[k] <= |b|
    ensures DecodeFields(big, layout, b)[k] == Number(big, b, Sum(layout[..k]), Sum(layout[..k]) + layout[k])
    decreases k
  {
    hide Number, FromBytes, DecodeFields, Sum;
    FirstField(big, layout, b);
    if k > 0 {
      var rest, tail := layout[1..], b[layout[0]..];
      FieldAt(big, rest, tail, k - 1);
      LaterStart(layout, k);
      NumberInTail(big, b, layout[0], Sum(rest[..k - 1]), Sum(rest[..k - 1]) + layout[k]);
    }
  }

  /** The first field and the rest of a record. */
  lemma {:induction false} FirstField(big: bool, layout: seq<nat>, b: seq<u8>)
    requires |b| == Sum(layout) && 0 < |layout|
    ensures Sum(layout[..0]) == 0 && layout[0] <= |b| && |b[layout[0]..]| == Sum(layout[1..])
    ensures DecodeFields(big, layout, b)[0] == Number(big, b, 0, layout[0])
    ensures DecodeFields(big, layout, b)[1..] == DecodeFields(big, layout[1..], b[layout[0]..])
  {
    hide BeValue;
    assert layout[..0] == [];
  }

  lemma LaterStart(layout: seq<nat>, k: nat)
    requires 0 < k < |layout|
    ensures Sum(layout[..k]) == layout[0] + Sum(layout[1..][..k - 1])
  {
    assert layout[..k][1..] == layout[1..][..k - 1];
  }

  lemma NumberInTail(big: bool, b: seq<u8>, k: nat, lo: nat, hi: nat)
    requires k <= |b| && lo <= hi <= |b| - k
    ensures Number(big, b[k..], lo, hi) == Number(big, b, k + lo, k + hi)
  {
    hide BeValue;
    SliceWithin(b, k, |b| - k, lo, hi);
    assert b[k..k + (|b| - k)] == b[k..];
  }

  /** A slice of a slice holds the same number. */
  lemma NumberWithin(big: bool, bytes: seq<u8>, base: nat, size: nat, lo: nat, hi: nat)
    requires base + size <= |bytes| && lo <= hi <= size
    ensures Number(big, bytes[base..base + size], lo, hi) == Number(big, bytes, base + lo, base + hi)
  {
    hide BeValue;
    SliceWithin(bytes, base, size, lo, hi);
  }

  lemma SliceWithin(bytes: seq<u8>, base: nat, size: nat, lo: nat, hi: nat)
    requires base + size <= |bytes| && lo <= hi <= size
    ensures bytes[base..base + size][lo..hi] == bytes[base + lo..base + hi]
  {
    var a, b := bytes[base..base + size][lo..hi], bytes[base + lo..base + hi];
    assert |a| == |b|;
    forall i | 0 <= i < |a|
      ensures a[i] == b[i]
    {
    }
  }

  /** Every field of a record that stands at `base`. */
  ghost predicate FieldsStandAt(big: bool, layout: seq<nat>, starts: seq<nat>, f: seq<nat>, bytes: seq<u8>, base: nat) {
    |f| == |starts| == |layout|
    && forall k {:trigger f[k]} :: 0 <= k < |f| ==>
         base + starts[k] + layout[k] <= |bytes|
         && f[k] == Number(big, bytes, base + starts[k], base + starts[k] + layout[k])
  }

  lemma {:induction false} FieldsAt(big: bool, layout: seq<nat>, starts: seq<nat>, bytes: seq<u8>, base: nat)
    requires Starts(layout, starts) && base + Sum(layout) <= |bytes|
    ensures FieldsStandAt(big, layout, starts, DecodeFields(big, layout, bytes[base..base + Sum(layout)]), bytes, base)
  {
    hide DecodeFields, Sum, Number;
    var b := bytes[base..base + Sum(layout)];
    var f := DecodeFields(big, layout, b);
    forall k | 0 <= k < |f|
      ensures base + starts[k] + layout[k] <= |bytes|
      ensures f[k] == Number(big, bytes, base + starts[k], base + starts[k] + layout[k])
    {
      FieldAt(big, layout, b, k);
      StartIsSum(layout, starts, k);
      NumberWithin(big, bytes, base, Sum(layout), starts[k], starts[k] + layout[k]);
    }
  }

  // ------------------------------------------------------- program headers

  /** The program header p stands in the file from `base` on, field by field. */
  predicate PhdrAt(fmt: Format, p: Phdr, bytes: seq<u8>, base: nat)
    requires base + PhdrSize(fmt) <= |bytes|
  {
    var e := fmt.big;
    if fmt.is64 then
      p.ptype == Number(e, bytes, base, base + 4)
      && p.flags == Number(e, bytes, base + 4, base + 8)
      && p.offset == Number(e, bytes, base + 8, base + 16)
      && p.vaddr == Number(e, bytes, base + 16, base + 24)
      && p.paddr == Number(e, bytes, base + 24, base + 32)
      && p.filesz == Number(e, bytes, base + 32, base + 40)
      && p.memsz == Number(e, bytes, base + 40, base + 48)
      && p.align == Number(e, bytes, base + 48, base + 56)
    else
      p.ptype == Number(e, bytes, base, base + 4)
      && p.offset == Number(e, bytes, base + 4, base + 8)
      && p.vaddr == Number(e, bytes, base + 8, base + 12)
      && p.paddr == Number(e, bytes, base + 12, base + 16)
      && p.filesz == Number(e, bytes, base + 16, base + 20)
      && p.memsz == Number(e, bytes, base + 20, base + 24)
      && p.flags == Number(e, bytes, base + 24, base + 28)
      && p.align == Number(e, bytes, base + 28, base + 32)
  }

  lemma {:induction false} PhdrPositions(fmt: Format, bytes: seq<u8>, base: nat)
    requires base + PhdrSize(fmt) <= |bytes|
    ensures PhdrAt(fmt, DecodePhdr(fmt, bytes[base..base + PhdrSize(fmt)]), bytes, base)
  {
    hide Number, DecodeFields, Sum, FieldsStandAt;
    RecordSizes(fmt);
    var f := DecodeFields(fmt.big, PhdrLayout(fmt), bytes[base..base + PhdrSize(fmt)]);
    if fmt.is64 {
      FieldsAt(fmt.big, PhdrLayout(fmt), [0, 4, 8, 16, 24, 32, 40, 48], bytes, base);
      Phdr64Numbers(fmt, f, bytes, base);
    } else {
      FieldsAt(fmt.big, PhdrLayout(fmt), [0, 4, 8, 12, 16, 20, 24, 28], bytes, base);
      Phdr32Numbers(fmt, f, bytes, base);
    }
  }

  lemma Phdr64Numbers(fmt: Format, f: seq<nat>, bytes: seq<u8>, base: nat)
    requires fmt.is64 && base + 56 <= |bytes|
    requires FieldsStandAt(fmt.big, PhdrLayout(fmt), [0, 4, 8, 16, 24, 32, 40, 48], f, bytes, base)
    ensures PhdrAt(fmt, PhdrOf(fmt, f), bytes, base)
  {
    hide Number;
  }

  lemma Phdr32Numbers(fmt: Format, f: seq<nat>, bytes: seq<u8>, base: nat)
    requires !fmt.is64 && base + 32 <= |bytes|
    requires FieldsStandAt(fmt.big, PhdrLayout(fmt), [0, 4, 8, 12, 16, 20, 24, 28], f, bytes, base)
    ensures PhdrAt(fmt, PhdrOf(fmt, f), bytes, base)
  {
    hide Number;
  }

  // ------------------------------------------------------- section headers

  predicate ShdrAt(fmt: Format, s: Shdr, bytes: seq<u8>, base: nat)
    requires base + ShdrSize(fmt) <= |bytes|
  {
    var e := fmt.big;
    if fmt.is64 then
      s.name == Number(e, bytes, base, base + 4)
      && s.stype == Number(e, bytes, base + 4, base + 8)
      && s.flags == Number(e, bytes, base + 8, base + 16)
      && s.addr == Number(e, bytes, base + 16, base + 24)
      && s.offset == Number(e, bytes, base + 24, base + 32)
      && s.size == Number(e, bytes, base + 32, base + 40)
      && s.link == Number(e, bytes, base + 40, base + 44)
      && s.info == Number(e, bytes, base + 44, base + 48)
      && s.addralign == Number(e, bytes, base + 48, base + 56)
      && s.entsize == Number(e, bytes, base + 56, base + 64)
    else
      s.name == Number(e, bytes, base, base + 4)
      && s.stype == Number(e, bytes, base + 4, base + 8)
      && s.flags == Number(e, bytes, base + 8, base + 12)
      && s.addr == Number(e, bytes, base + 12, base + 16)
      && s.offset == Number(e, bytes, base + 16, base + 20)
      && s.size == Number(e, bytes, base + 20, base + 24)
      && s.link == Number(e, bytes, base + 24, base + 28)
      && s.info == Number(e, bytes, base + 28, base + 32)
      && s.addralign == Number(e, bytes, base + 32, base + 36)
      && s.entsize == Number(e, bytes, base + 36, base + 40)
  }

  lemma {:induction false} ShdrPositions(fmt: Format, bytes: seq<u8>, base: nat)
    requires base + ShdrSize(fmt) <= |bytes|
    ensures ShdrAt(fmt, DecodeShdr(fmt, bytes[base..base + ShdrSize(fmt)]), bytes, base)
  {
    hide Number, DecodeFields, Sum, FieldsStandAt;
    RecordSizes(fmt);
    var f := DecodeFields(fmt.big, ShdrLayout(fmt), bytes[base..base + ShdrSize(fmt)]);
    if fmt.is64 {
      FieldsAt(fmt.big, ShdrLayout(fmt), [0, 4, 8, 16, 24, 32, 40, 44, 48, 56], bytes, base);
      Shdr64Numbers(fmt, f, bytes, base);
    } else {
      FieldsAt(fmt.big, ShdrLayout(fmt), [0, 4, 8, 12, 16, 20, 24, 28, 32, 36], bytes, base);
      Shdr32Numbers(fmt, f, bytes, base);
    }
  }

  lemma Shdr64Numbers(fmt: Format, f: seq<nat>, bytes: seq<u8>, base: nat)
    requires fmt.is64 && base + 64 <= |bytes|
    requires FieldsStandAt(fmt.big, ShdrLayout(fmt), [0, 4, 8, 16, 24, 32, 40, 44, 48, 56], f, bytes, base)
    ensures ShdrAt(fmt, ShdrOf(f), bytes, base)
  {
    hide Number;
  }

  lemma Shdr32Numbers(fmt: Format, f: seq<nat>, bytes: seq<u8>, base: nat)
    requires !fmt.is64 && base + 40 <= |bytes|
    requires FieldsStandAt(fmt.big, ShdrLayout(fmt), [0, 4, 8, 12, 16, 20, 24, 28, 32, 36], f, bytes, base)
    ensures ShdrAt(fmt, ShdrOf(f), bytes, base)
  {
    hide Number;
  }

  // ------------------------------------------------------------ file header

  /** The file header stands at the start of the file, e_ident first. */
  predicate EhdrAt(fmt: Format, h: Ehdr, bytes: seq<u8>)
    requires EhdrSize(fmt) <= |bytes|
  {
    var e := fmt.big;
    h.ident == bytes[..16]
    && h.etype == Number(e, bytes, 16, 18)
    && h.machine == Number(e, bytes, 18, 20)
    && h.version == Number(e, bytes, 20, 24)
    && (if fmt.is64 then
          h.entry == Number(e, bytes, 24, 32)
          && h.phoff == Number(e, bytes, 32, 40)
          && h.shoff == Number(e, bytes, 40, 48)
          && h.flags == Number(e, bytes, 48, 52)
          && h.ehsize == Number(e, bytes, 52, 54)
          && h.phentsize == Number(e, bytes, 54, 56)
          && h.phnum == Number(e, bytes, 56, 58)
          && h.shentsize == Number(e, bytes, 58, 60)
          && h.shnum == Number(e, bytes, 60, 62)
          && h.shstrndx == Number(e, bytes, 62, 64)
        else
          h.entry == Number(e, bytes, 24, 28)
          && h.phoff == Number(e, bytes, 28, 32)
          && h.shoff == Number(e, bytes, 32, 36)
          && h.flags == Number(e, bytes, 36, 40)
          && h.ehsize == Number(e, bytes, 40, 42)
          && h.phentsize == Number(e, bytes, 42, 44)
          && h.phnum == Number(e, bytes, 44, 46)
          && h.shentsize == Number(e, bytes, 46, 48)
          && h.shnum == Number(e, bytes, 48, 50)
          && h.shstrndx == Number(e, bytes, 50, 52))
  }

  lemma {:induction false} EhdrPositions(fmt: Format, bytes: seq<u8>)
    requires EhdrSize(fmt) <= |bytes|
    ensures EhdrAt(fmt, DecodeEhdr(fmt, bytes[..EhdrSize(fmt)]), bytes)
  {
    hide Number, DecodeFields, Sum, FieldsStandAt;
    RecordSizes(fmt);
    var b := bytes[..EhdrSize(fmt)];
    assert b[16..] == bytes[16..16 + Sum(EhdrLayout(fmt))] && b[..16] == bytes[..16];
    var f := DecodeFields(fmt.big, EhdrLayout(fmt), b[16..]);
    if fmt.is64 {
      FieldsAt(fmt.big, EhdrLayout(fmt), [0, 2, 4, 8, 16, 24, 32, 36, 38, 40, 42, 44, 46], bytes, 16);
      Ehdr64Numbers(fmt, b[..16], f, bytes);
    } else {
      FieldsAt(fmt.big, EhdrLayout(fmt), [0, 2, 4, 8, 12, 16, 20, 24, 26, 28, 30, 32, 34], bytes, 16);
      Ehdr32Numbers(fmt, b[..16], f, bytes);
    }
  }

  lemma Ehdr64Numbers(fmt: Format, ident: Ident, f: seq<nat>, bytes: seq<u8>)
    requires fmt.is64 && 64 <= |bytes| && ident == bytes[..16]
    requires FieldsStandAt(fmt.big, EhdrLayout(fmt), [0, 2, 4, 8, 16, 24, 32, 36, 38, 40, 42, 44, 46], f, bytes, 16)
    ensures EhdrAt(fmt, EhdrOf(ident, f), bytes)
  {
    hide Number;
  }

  lemma Ehdr32Numbers(fmt: Format, ident: Ident, f: seq<nat>, bytes: seq<u8>)
    requires !fmt.is64 && 52 <= |bytes| && ident == bytes[..16]
    requires FieldsStandAt(fmt.big, EhdrLayout(fmt), [0, 2, 4, 8, 12, 16, 20, 24, 26, 28, 30, 32, 34], f, bytes, 16)
    ensures EhdrAt(fmt, EhdrOf(ident, f), bytes)
  {
    hide Number;
  }

  // ------------------------------------------------------------ whole files

  lemma {:induction false} PhTableEntry(fmt: Format, b: seq<u8>, n: nat, i: nat)
    requires |b| == n * PhdrSize(fmt) && i < n
    ensures EntryOffset(0, i, PhdrSize(fmt)) + PhdrSize(fmt) <= |b|
    ensures PhTable(fmt, b, n)[i]
            == DecodePhdr(fmt, b[EntryOffset(0, i, PhdrSize(fmt))..EntryOffset(0, i, PhdrSize(fmt)) + PhdrSize(fmt)])
    decreases n
  {
    hide DecodePhdr, PhdrSize;
    var size := PhdrSize(fmt);
    TableStep(n, size);
    var k := (n - 1) * size;
    if i < n - 1 {
      PhTableEntry(fmt, b[..k], n - 1, i);
      SliceOfFront(b, k, i * size, i * size + size);
    } else {
      assert b[k..] == b[k..k + size];
    }
  }

  lemma {:induction false} ShTableEntry(fmt: Format, b: seq<u8>, n: nat, i: nat)
    requires |b| == n * ShdrSize(fmt) && i < n
    ensures EntryOffset(0, i, ShdrSize(fmt)) + ShdrSize(fmt) <= |b|
    ensures ShTable(fmt, b, n)[i]
            == DecodeShdr(fmt, b[EntryOffset(0, i, ShdrSize(fmt))..EntryOffset(0, i, ShdrSize(fmt)) + ShdrSize(fmt)])
    decreases n
  {
    hide DecodeShdr, ShdrSize;
    var size := ShdrSize(fmt);
    TableStep(n, size);
    var k := (n - 1) * size;
    if i < n - 1 {
      ShTableEntry(fmt, b[..k], n - 1, i);
      SliceOfFront(b, k, i * size, i * size + size);
    } else {
      assert b[k..] == b[k..k + size];
    }
  }

  lemma SliceOfFront(b: seq<u8>, k: nat, lo: nat, hi: nat)
    requires lo <= hi <= k <= |b|
    ensures b[..k][lo..hi] == b[lo..hi]
  {
  }

  /** The header and both tables of an image stand in the file where the header says. */
  ghost predicate StandsIn(img: Image, bytes: seq<u8>) {
    EhdrSize(img.fmt) <= |bytes| && EhdrAt(img.fmt, img.header, bytes)
    && |img.phdrs| == img.header.phnum && |img.shdrs| == img.header.shnum
    && (forall i {:trigger img.phdrs[i]} :: 0 <= i < |img.phdrs| ==>
          var base := img.header.phoff + i * PhdrSize(img.fmt);
          0 <= base && base + PhdrSize(img.fmt) <= |bytes| && PhdrAt(img.fmt, img.phdrs[i], bytes, base))
    && forall i {:trigger img.shdrs[i]} :: 0 <= i < |img.shdrs| ==>
         var base := img.header.shoff + i * ShdrSize(img.fmt);
         0 <= base && base + ShdrSize(img.fmt) <= |bytes| && ShdrAt(img.fmt, img.shdrs[i], bytes, base)
  }

  /** Every named field of an accepted file, at its place in the bytes. */
  lemma {:induction false} ParsedPositions(fmt: Format, bytes: seq<u8>)
    requires Parsed(fmt, bytes).Ok?
    ensures Parsed(fmt, bytes).value.fmt == fmt && Parsed(fmt, bytes).value.raw == bytes
    ensures StandsIn(Parsed(fmt, bytes).value, bytes)
  {
    hide Parsed, HeaderError, DecodeEhdr, PhTable, ShTable, EhdrAt, PhdrAt, ShdrAt, EhdrSize, PhdrSize, ShdrSize;
    ParsedParts(fmt, bytes);
    EhdrPositions(fmt, bytes);
    var img := Parsed(fmt, bytes).value;
    forall i | 0 <= i < |img.phdrs|
      ensures 0 <= img.header.phoff + i * PhdrSize(fmt)
      ensures img.header.phoff + i * PhdrSize(fmt) + PhdrSize(fmt) <= |bytes|
      ensures PhdrAt(fmt, img.phdrs[i], bytes, img.header.phoff + i * PhdrSize(fmt))
    {
      PhdrEntryAt(fmt, bytes, img.header.phoff, img.header.phnum, i);
    }
    forall i | 0 <= i < |img.shdrs|
      ensures 0 <= img.header.shoff + i * ShdrSize(fmt)
      ensures img.header.shoff + i * ShdrSize(fmt) + ShdrSize(fmt) <= |bytes|
      ensures ShdrAt(fmt, img.shdrs[i], bytes, img.header.shoff + i * ShdrSize(fmt))
    {
      ShdrEntryAt(fmt, bytes, img.header.shoff, img.header.shnum, i);
    }
  }

  lemma {:induction false} PhdrEntryAt(fmt: Format, bytes: seq<u8>, offset: nat, n: nat, i: nat)
    requires 0 <= n * PhdrSize(fmt) && offset + n * PhdrSize(fmt) <= |bytes| && i < n
    ensures 0 <= offset + i * PhdrSize(fmt) && offset + i * PhdrSize(fmt) + PhdrSize(fmt) <= |bytes|
    ensures PhdrAt(fmt, PhTable(fmt, bytes[offset..offset + n * PhdrSize(fmt)], n)[i], bytes,
                   offset + i * PhdrSize(fmt))
  {
    hide DecodePhdr, PhTable, PhdrAt, PhdrSize;
    var size := PhdrSize(fmt);
    var table := bytes[offset..offset + n * size];
    PhTableEntry(fmt, table, n, i);
    TableStep(i + 1, size);
    SliceWithin(bytes, offset, n * size, i * size, i * size + size);
    PhdrPositions(fmt, bytes, offset + i * size);
  }

  lemma {:induction false} ShdrEntryAt(fmt: Format, bytes: seq<u8>, offset: nat, n: nat, i: nat)
    requires 0 <= n * ShdrSize(fmt) && offset + n * ShdrSize(fmt) <= |bytes| && i < n
    ensures 0 <= offset + i * ShdrSize(fmt) && offset + i * ShdrSize(fmt) + ShdrSize(fmt) <= |bytes|
    ensures ShdrAt(fmt, ShTable(fmt, bytes[offset..offset + n * ShdrSize(fmt)], n)[i], bytes,
                   offset + i * ShdrSize(fmt))
  {
    hide DecodeShdr, ShTable, ShdrAt, ShdrSize;
    var size := ShdrSize(fmt);
    var table := bytes[offset..offset + n * size];
    ShTableEntry(fmt, table, n, i);
    TableStep(i + 1, size);
    SliceWithin(bytes, offset, n * size, i * size, i * size + size);
    ShdrPositions(fmt, bytes, offset + i * size);
  }

  /** A segment of a file of the patched kind, in bytes. */
  lemma {:induction false} SegmentInFile(bytes: seq<u8>, i: nat)
    requires Parsed(ELF64_BE, bytes).Ok? && i < |Parsed(ELF64_BE, bytes).value.phdrs|
    ensures var img := Parsed(ELF64_BE, bytes).value;
            var base := img.header.phoff + 56 * i;
            64 <= |bytes| && base + 56 <= |bytes|
            && img.header.machine == BeValue(bytes[18..20]) && img.header.entry == BeValue(bytes[24..32])
            && img.header.phoff == BeValue(bytes[32..40]) && |img.phdrs| == BeValue(bytes[56..58])
            && img.phdrs[i].ptype == BeValue(bytes[base..base + 4])
            && img.phdrs[i].flags == BeValue(bytes[base + 4..base + 8])
            && img.phdrs[i].offset == BeValue(bytes[base + 8..base + 16])
            && img.phdrs[i].vaddr == BeValue(bytes[base + 16..base + 24])
            && img.phdrs[i].paddr == BeValue(bytes[base + 24..base + 32])
            && img.phdrs[i].filesz == BeValue(bytes[base + 32..base + 40])
            && img.phdrs[i].memsz == BeValue(bytes[base + 40..base + 48])
            && img.phdrs[i].align == BeValue(bytes[base + 48..base + 56])
  {
    hide Parsed, BeValue, PhdrAt, EhdrAt;
    ParsedPositions(ELF64_BE, bytes);
    var img := Parsed(ELF64_BE, bytes).value;
    assert PhdrAt(ELF64_BE, img.phdrs[i], bytes, img.header.phoff + i * 56);
    Header64(img.header, bytes);
    Segment64(img.phdrs[i], bytes, img.header.phoff + 56 * i);
  }

  lemma Header64(h: Ehdr, bytes: seq<u8>)
    requires 64 <= |bytes| && EhdrAt(ELF64_BE, h, bytes)
    ensures h.machine == BeValue(bytes[18..20]) && h.entry == BeValue(bytes[24..32]) && h.phoff == BeValue(bytes[32..40])
    ensures h.phnum == BeValue(bytes[56..58])
  {
    hide BeValue;
  }

  lemma Segment64(p: Phdr, bytes: seq<u8>, base: nat)
    requires base + 56 <= |bytes| && PhdrAt(ELF64_BE, p, bytes, base)
    ensures p.ptype == BeValue(bytes[base..base + 4]) && p.flags == BeValue(bytes[base + 4..base + 8])
    ensures p.offset == BeValue(bytes[base + 8..base + 16]) && p.vaddr == BeValue(bytes[base + 16..base + 24])
    ensures p.paddr == BeValue(bytes[base + 24..base + 32]) && p.filesz == BeValue(bytes[base + 32..base + 40])
    ensures p.memsz == BeValue(bytes[base + 40..base + 48]) && p.align == BeValue(bytes[base + 48..base + 56])
  {
    hide BeValue;
  }

  // ------------------------------------------------------- what is accepted

  /** Why parse refuses these bytes for an instantiation, read off the bytes alone; None if it does not. */
  function Objection(fmt: Format, bytes: seq<u8>): Option<ErrorCode> {
    var e := fmt.big;
    if |bytes| < (if fmt.is64 then 64 else 52) then Some(TruncatedFile)
    else if bytes[..4] != [0x7F, 0x45, 0x4C, 0x46] then Some(BadMagic)
    else if bytes[4] != (if fmt.is64 then 2 else 1) then Some(UnsupportedClass)
    else if bytes[5] != (if e then 2 else 1) then Some(UnsupportedDataEncoding)
    else if fmt.is64 then
      TablesObjection(|bytes|, Number(e, bytes, 52, 54) == 64, Number(e, bytes, 32, 40), Number(e, bytes, 56, 58),
                      Number(e, bytes, 54, 56), 56, Number(e, bytes, 40, 48), Number(e, bytes, 60, 62),
                      Number(e, bytes, 58, 60), 64, Number(e, bytes, 62, 64))
    else
      TablesObjection(|bytes|, Number(e, bytes, 40, 42) == 52, Number(e, bytes, 28, 32), Number(e, bytes, 44, 46),
                      Number(e, bytes, 42, 44), 32, Number(e, bytes, 32, 36), Number(e, bytes, 48, 50),
                      Number(e, bytes, 46, 48), 40, Number(e, bytes, 50, 52))
  }

  /** Sizes first, then program header table, section header table and section name index. */
  function TablesObjection(size: nat, ehsizeOk: bool, phoff: nat, phnum: nat, phentsize: nat, phdrSize: nat,
                           shoff: nat, shnum: nat, shentsize: nat, shdrSize: nat, shstrndx: nat): Option<ErrorCode> {
    if !ehsizeOk || (phnum > 0 && phentsize != phdrSize) || (shnum > 0 && shentsize != shdrSize)
    then Some(InconsistentHeaderSize)
    else if phoff + phnum * phdrSize > size || shoff + shnum * shdrSize > size then Some(OffsetOutOfBounds)
    else if shnum > 0 && shstrndx >= shnum then Some(IndexOutOfBounds)
    else None
  }

  /** parse accepts exactly the bytes without objection, and gives the objection as its error. */
  lemma {:induction false} ParseOutcome(fmt: Format, bytes: seq<u8>)
    ensures Parsed(fmt, bytes).Ok? <==> Objection(fmt, bytes) == None
    ensures Parsed(fmt, bytes).Err? ==> Objection(fmt, bytes) == Some(Parsed(fmt, bytes).code)
  {
    hide DecodeEhdr, PhTable, ShTable, Number;
    if EhdrSize(fmt) <= |bytes| {
      EhdrPositions(fmt, bytes);
      var h := DecodeEhdr(fmt, bytes[..EhdrSize(fmt)]);
      assert h.ident == bytes[..16];
      assert h.ident[..4] == bytes[..4] && h.ident[4] == bytes[4] && h.ident[5] == bytes[5];
      ObjectionIs(fmt, h, bytes);
    }
  }

  lemma {:induction false} ObjectionIs(fmt: Format, h: Ehdr, bytes: seq<u8>)
    requires EhdrSize(fmt) <= |bytes| && EhdrAt(fmt, h, bytes)
    requires h.ident[..4] == bytes[..4] && h.ident[4] == bytes[4] && h.ident[5] == bytes[5]
    ensures HeaderError(fmt, h, |bytes|) == Objection(fmt, bytes)
  {
    hide Number;
  }

  /** parseAny looks at 16 bytes of e_ident and then asks the instantiation they name. */
  lemma {:induction false} ParseAnyOutcome(bytes: seq<u8>)
    ensures var r := ParsedAny(bytes);
            if |bytes| < 16 then r == Err(TruncatedFile)
            else if bytes[..4] != [0x7F, 0x45, 0x4C, 0x46] then r == Err(BadMagic)
            else if bytes[4] != 1 && bytes[4] != 2 then r == Err(UnsupportedClass)
            else if bytes[5] != 1 && bytes[5] != 2 then r == Err(UnsupportedDataEncoding)
            else
              var fmt := Format(bytes[4] == 2, bytes[5] == 2);
              (r.Ok? <==> Objection(fmt, bytes) == None)
              && (r.Ok? ==> r.value.fmt == fmt && r.value.raw == bytes && StandsIn(r.value, bytes))
              && (r.Err? ==> Objection(fmt, bytes) == Some(r.code))
  {
    hide Parsed, Objection, StandsIn;
    if |bytes| >= 16 {
      var fmt := Format(bytes[4] == 2, bytes[5] == 2);
      ParseOutcome(fmt, bytes);
      if Parsed(fmt, bytes).Ok? {
        ParsedPositions(fmt, bytes);
      }
    }
  }
}
