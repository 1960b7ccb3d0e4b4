// On-disk records of ELF32 and ELF64 (libelf/include/elf/types.hpp).
//
// A record is a list of unsigned fields of given widths in the file's byte
// order; the C++ structs are these lists with names.
module ElfTypes {
  import opened Bits
  import opened Bytes

  /** Which ElfFile<Is64, E> instantiation. */
  datatype Format = Format(is64: bool, big: bool)

  const ELF64_BE := Format(true, true)

  const PT_LOAD: nat := 1
  const EM_PPC64: nat := 21
  const PF_X: nat := 1
  const PF_R: nat := 4
  const EI_NIDENT: nat := 16

  // ------------------------------------------------------- generic records

  function Sum(layout: seq<nat>): nat {
    if layout == [] then 0 else layout[0] + Sum(layout[1..])
  }

  ghost predicate FieldsFit(layout: seq<nat>, vals: seq<nat>) {
    |vals| == |layout| && forall i {:trigger vals[i]} :: 0 <= i < |vals| ==> vals[i] < Pow256(layout[i])
  }

  function EncodeFields(big: bool, layout: seq<nat>, vals: seq<nat>): (b: seq<u8>)
    requires |vals| == |layout|
    ensures |b| == Sum(layout)
  {
    if layout == [] then [] else ToBytes(big, vals[0], layout[0]) + EncodeFields(big, layout[1..], vals[1..])
  }

  function DecodeFields(big: bool, layout: seq<nat>, b: seq<u8>): (vals: seq<nat>)
    requires |b| == Sum(layout)
    ensures |vals| == |layout|
    decreases |layout|
  {
    if layout == [] then []
    else [FromBytes(big, b[..layout[0]])] + DecodeFields(big, layout[1..], b[layout[0]..])
  }

  lemma {:induction false} DecodedFit(big: bool, layout: seq<nat>, b: seq<u8>)
    requires |b| == Sum(layout)
    ensures FieldsFit(layout, DecodeFields(big, layout, b))
    decreases |layout|
  {
    if layout != [] {
      FromBytesBound(big, b[..layout[0]]);
      DecodedFit(big, layout[1..], b[layout[0]..]);
      var vals := DecodeFields(big, layout, b);
      forall i | 0 <= i < |vals|
        ensures vals[i] < Pow256(layout[i])
      {
        if i > 0 {
          assert vals[i] == DecodeFields(big, layout[1..], b[layout[0]..])[i - 1];
        }
      }
    }
  }

  lemma {:induction false} DecodeEncodeFields(big: bool, layout: seq<nat>, vals: seq<nat>)
    requires FieldsFit(layout, vals)
    ensures DecodeFields(big, layout, EncodeFields(big, layout, vals)) == vals
    decreases |layout|
  {
    if layout != [] {
      FromToBytes(big, vals[0], layout[0]);
      assert FieldsFit(layout[1..], vals[1..]) by {
        forall i | 0 <= i < |vals[1..]|
          ensures vals[1..][i] < Pow256(layout[1..][i])
        {
          assert vals[1..][i] == vals[i + 1];
        }
      }
      DecodeEncodeFields(big, layout[1..], vals[1..]);
      var b := EncodeFields(big, layout, vals);
      assert b[..layout[0]] == ToBytes(big, vals[0], layout[0]);
      assert b[layout[0]..] == EncodeFields(big, layout[1..], vals[1..]);
    }
  }

  lemma {:induction false} EncodeDecodeFields(big: bool, layout: seq<nat>, b: seq<u8>)
    requires |b| == Sum(layout)
    ensures EncodeFields(big, layout, DecodeFields(big, layout, b)) == b
    decreases |layout|
  {
    if layout != [] {
      ToFromBytes(big, b[..layout[0]]);
      EncodeDecodeFields(big, layout[1..], b[layout[0]..]);
      assert b == b[..layout[0]] + b[layout[0]..];
    }
  }

  /** `after` is `before` with the bytes from lo to hi replaced by `mid`. */
  ghost predicate Spliced(before: seq<u8>, after: seq<u8>, lo: nat, hi: nat, mid: seq<u8>) {
    lo <= hi <= |before| && after == before[..lo] + mid + before[hi..]
  }

  /** Changing field j changes at most the bytes of field j. */
  lemma {:induction false} FieldUpdateBytes(big: bool, layout: seq<nat>, vals: seq<nat>, j: nat, v: nat)
    requires |vals| == |layout| && j < |layout|
    ensures Spliced(EncodeFields(big, layout, vals), EncodeFields(big, layout, vals[j := v]),
                    Sum(layout[..j]), Sum(layout[..j]) + layout[j], ToBytes(big, v, layout[j]))
    decreases |layout|
  {
    hide ToBytes, Spliced;
    if j == 0 {
      FirstUpdateBytes(big, layout, vals, v);
    } else {
      FieldUpdateBytes(big, layout[1..], vals[1..], j - 1, v);
      LaterUpdateBytes(big, layout, vals, j, v);
    }
  }

  lemma {:induction false} FirstUpdateBytes(big: bool, layout: seq<nat>, vals: seq<nat>, v: nat)
    requires |vals| == |layout| && 0 < |layout|
    ensures Spliced(EncodeFields(big, layout, vals), EncodeFields(big, layout, vals[0 := v]),
                    Sum(layout[..0]), Sum(layout[..0]) + layout[0], ToBytes(big, v, layout[0]))
  {
    hide ToBytes;
    assert layout[..0] == [] && vals[0 := v][1..] == vals[1..];
  }

  lemma {:induction false} LaterUpdateBytes(big: bool, layout: seq<nat>, vals: seq<nat>, j: nat, v: nat)
    requires |vals| == |layout| && 0 < j < |layout|
    requires Spliced(EncodeFields(big, layout[1..], vals[1..]), EncodeFields(big, layout[1..], vals[1..][j - 1 := v]),
                     Sum(layout[1..][..j - 1]), Sum(layout[1..][..j - 1]) + layout[j], ToBytes(big, v, layout[j]))
    ensures Spliced(EncodeFields(big, layout, vals), EncodeFields(big, layout, vals[j := v]),
                    Sum(layout[..j]), Sum(layout[..j]) + layout[j], ToBytes(big, v, layout[j]))
  {
    hide ToBytes, Spliced;
    var rest := vals[1..];
    assert vals[j := v][1..] == rest[j - 1 := v];
    assert layout[..j][1..] == layout[1..][..j - 1];
    var lo := Sum(layout[1..][..j - 1]);
    SpliceAfter(ToBytes(big, vals[0], layout[0]), EncodeFields(big, layout[1..], rest),
                EncodeFields(big, layout[1..], rest[j - 1 := v]), lo, lo + layout[j], ToBytes(big, v, layout[j]));
  }

  lemma SpliceAfter(first: seq<u8>, before: seq<u8>, after: seq<u8>, lo: nat, hi: nat, mid: seq<u8>)
    requires Spliced(before, after, lo, hi, mid)
    ensures Spliced(first + before, first + after, |first| + lo, |first| + hi, mid)
  {
    assert (first + before)[..|first| + lo] == first + before[..lo];
    assert (first + before)[|first| + hi..] == before[hi..];
  }

  // -------------------------------------------------------------- records

  type Ident = s: seq<u8> | |s| == EI_NIDENT witness seq(16, _ => 0)

  datatype Ehdr = Ehdr(
    ident: Ident, etype: nat, machine: nat, version: nat, entry: nat, phoff: nat, shoff: nat, flags: nat,
    ehsize: nat, phentsize: nat, phnum: nat, shentsize: nat, shnum: nat, shstrndx: nat)

  datatype Phdr = Phdr(
    ptype: nat, flags: nat, offset: nat, vaddr: nat, paddr: nat, filesz: nat, memsz: nat, align: nat)

  datatype Shdr = Shdr(
    name: nat, stype: nat, flags: nat, addr: nat, offset: nat, size: nat, link: nat, info: nat,
    addralign: nat, entsize: nat)

  function WordSize(fmt: Format): nat {
    if fmt.is64 then 8 else 4
  }

  /** Values a class-sized field can hold are those below this bound. */
  function WordLimit(fmt: Format): (l: nat)
    ensures l == Pow256(WordSize(fmt))
  {
    Powers256();
    if fmt.is64 then M64 else M32
  }

  function EhdrSize(fmt: Format): (n: nat)
    ensures 0 < n < 0x100
  {
    if fmt.is64 then 64 else 52
  }

  function PhdrSize(fmt: Format): (n: nat)
    ensures 0 < n < 0x100
  {
    if fmt.is64 then 56 else 32
  }

  function ShdrSize(fmt: Format): (n: nat)
    ensures 0 < n < 0x100
  {
    if fmt.is64 then 64 else 40
  }

  /** The fields after e_ident. */
  function EhdrLayout(fmt: Format): (l: seq<nat>)
    ensures |l| == 13
  {
    var w := WordSize(fmt);
    [2, 2, 4, w, w, w, 4, 2, 2, 2, 2, 2, 2]
  }

  /** p_flags comes second in ELF64 and seventh in ELF32. */
  function PhdrLayout(fmt: Format): (l: seq<nat>)
    ensures |l| == 8
  {
    if fmt.is64 then [4, 4, 8, 8, 8, 8, 8, 8] else [4, 4, 4, 4, 4, 4, 4, 4]
  }

  function ShdrLayout(fmt: Format): (l: seq<nat>)
    ensures |l| == 10
  {
    var w := WordSize(fmt);
    [4, 4, w, w, w, w, 4, 4, w, w]
  }

  lemma {:induction false} SumCons(x: nat, rest: seq<nat>)
    ensures Sum([x] + rest) == x + Sum(rest)
  {
    assert ([x] + rest)[1..] == rest;
  }

  lemma {:induction false} SumAppend(xs: seq<nat>, ys: seq<nat>)
    ensures Sum(xs + ys) == Sum(xs) + Sum(ys)
    decreases |xs|
  {
    if xs == [] {
      assert xs + ys == ys;
    } else {
      assert (xs + ys)[1..] == xs[1..] + ys;
      SumAppend(xs[1..], ys);
    }
  }

  lemma {:induction false} Sum4(a: nat, b: nat, c: nat, d: nat)
    ensures Sum([a, b, c, d]) == a + b + c + d
  {
    SumCons(a, [b, c, d]);
    SumCons(b, [c, d]);
    SumCons(c, [d]);
    SumCons(d, []);
    assert [a] + [b, c, d] == [a, b, c, d] && [b] + [c, d] == [b, c, d] && [c] + [d] == [c, d] && [d] + [] == [d];
  }

  /** The struct sizes that types.hpp asserts. */
  lemma {:induction false} RecordSizes(fmt: Format)
    ensures EI_NIDENT + Sum(EhdrLayout(fmt)) == EhdrSize(fmt)
    ensures Sum(PhdrLayout(fmt)) == PhdrSize(fmt)
    ensures Sum(ShdrLayout(fmt)) == ShdrSize(fmt)
  {
    hide Sum;
    var w := WordSize(fmt);
    Sum4(2, 2, 4, w);
    Sum4(w, w, 4, 2);
    Sum4(2, 2, 2, 2);
    SumCons(2, []);
    SumNothing();
    assert [2] + [] == [2];
    SumAppend([2, 2, 4, w], [w, w, 4, 2]);
    SumAppend([2, 2, 4, w] + [w, w, 4, 2], [2, 2, 2, 2]);
    SumAppend([2, 2, 4, w] + [w, w, 4, 2] + [2, 2, 2, 2], [2]);
    assert EhdrLayout(fmt) == [2, 2, 4, w] + [w, w, 4, 2] + [2, 2, 2, 2] + [2];
    Sum4(4, 4, w, w);
    Sum4(w, w, w, w);
    SumAppend([4, 4, w, w], [w, w, w, w]);
    assert PhdrLayout(fmt) == [4, 4, w, w] + [w, w, w, w];
    Sum4(w, w, 4, 4);
    SumCons(w, [w]);
    SumCons(w, []);
    assert [w] + [w] == [w, w] && [w] + [] == [w];
    SumAppend([4, 4, w, w], [w, w, 4, 4]);
    SumAppend([4, 4, w, w] + [w, w, 4, 4], [w, w]);
    assert ShdrLayout(fmt) == [4, 4, w, w] + [w, w, 4, 4] + [w, w];
  }

  lemma SumNothing()
    ensures Sum([]) == 0
  {
  }

  function EhdrFields(h: Ehdr): (f: seq<nat>)
    ensures |f| == 13
  {
    [h.etype, h.machine, h.version, h.entry, h.phoff, h.shoff, h.flags, h.ehsize, h.phentsize, h.phnum, h.shentsize,
     h.shnum, h.shstrndx]
  }

  function EhdrOf(ident: Ident, f: seq<nat>): Ehdr
    requires |f| == 13
  {
    Ehdr(ident, f[0], f[1], f[2], f[3], f[4], f[5], f[6], f[7], f[8], f[9], f[10], f[11], f[12])
  }

  function PhdrFields(fmt: Format, p: Phdr): (f: seq<nat>)
    ensures |f| == 8
  {
    if fmt.is64 then [p.ptype, p.flags, p.offset, p.vaddr, p.paddr, p.filesz, p.memsz, p.align]
    else [p.ptype, p.offset, p.vaddr, p.paddr, p.filesz, p.memsz, p.flags, p.align]
  }

  function PhdrOf(fmt: Format, f: seq<nat>): Phdr
    requires |f| == 8
  {
    if fmt.is64 then Phdr(f[0], f[1], f[2], f[3], f[4], f[5], f[6], f[7])
    else Phdr(f[0], f[6], f[1], f[2], f[3], f[4], f[5], f[7])
  }

  function ShdrFields(s: Shdr): (f: seq<nat>)
    ensures |f| == 10
  {
    [s.name, s.stype, s.flags, s.addr, s.offset, s.size, s.link, s.info, s.addralign, s.entsize]
  }

  function ShdrOf(f: seq<nat>): Shdr
    requires |f| == 10
  {
    Shdr(f[0], f[1], f[2], f[3], f[4], f[5], f[6], f[7], f[8], f[9])
  }

  ghost predicate WfEhdr(fmt: Format, h: Ehdr) {
    FieldsFit(EhdrLayout(fmt), EhdrFields(h))
  }

  ghost predicate WfPhdr(fmt: Format, p: Phdr) {
    FieldsFit(PhdrLayout(fmt), PhdrFields(fmt, p))
  }

  ghost predicate WfShdr(fmt: Format, s: Shdr) {
    FieldsFit(ShdrLayout(fmt), ShdrFields(s))
  }

  function EncodeEhdr(fmt: Format, h: Ehdr): (b: seq<u8>)
    ensures |b| == EhdrSize(fmt)
  {
    hide EhdrFields, EhdrLayout;
    RecordSizes(fmt);
    h.ident + EncodeFields(fmt.big, EhdrLayout(fmt), EhdrFields(h))
  }

  function DecodeEhdr(fmt: Format, b: seq<u8>): (h: Ehdr)
    requires |b| == EhdrSize(fmt)
  {
    hide EhdrLayout;
    RecordSizes(fmt);
    EhdrOf(b[..EI_NIDENT], DecodeFields(fmt.big, EhdrLayout(fmt), b[EI_NIDENT..]))
  }

  function EncodePhdr(fmt: Format, p: Phdr): (b: seq<u8>)
    ensures |b| == PhdrSize(fmt)
  {
    hide PhdrFields, PhdrLayout;
    RecordSizes(fmt);
    EncodeFields(fmt.big, PhdrLayout(fmt), PhdrFields(fmt, p))
  }

  function DecodePhdr(fmt: Format, b: seq<u8>): Phdr
    requires |b| == PhdrSize(fmt)
  {
    hide PhdrLayout;
    RecordSizes(fmt);
    PhdrOf(fmt, DecodeFields(fmt.big, PhdrLayout(fmt), b))
  }

  function EncodeShdr(fmt: Format, s: Shdr): (b: seq<u8>)
    ensures |b| == ShdrSize(fmt)
  {
    hide ShdrFields, ShdrLayout;
    RecordSizes(fmt);
    EncodeFields(fmt.big, ShdrLayout(fmt), ShdrFields(s))
  }

  function DecodeShdr(fmt: Format, b: seq<u8>): Shdr
    requires |b| == ShdrSize(fmt)
  {
    hide ShdrLayout;
    RecordSizes(fmt);
    ShdrOf(DecodeFields(fmt.big, ShdrLayout(fmt), b))
  }

  /** Each record codec is a bijection between byte blocks and well-formed records. */
  lemma {:induction false} EhdrCodec(fmt: Format, h: Ehdr, b: seq<u8>)
    requires |b| == EhdrSize(fmt)
    ensures WfEhdr(fmt, h) ==> DecodeEhdr(fmt, EncodeEhdr(fmt, h)) == h
    ensures WfEhdr(fmt, DecodeEhdr(fmt, b)) && EncodeEhdr(fmt, DecodeEhdr(fmt, b)) == b
  {
    hide EhdrLayout, EncodeFields, DecodeFields, Sum, FieldsFit;
    RecordSizes(fmt);
    var layout := EhdrLayout(fmt);
    if WfEhdr(fmt, h) {
      DecodeEncodeFields(fmt.big, layout, EhdrFields(h));
      var e := EncodeEhdr(fmt, h);
      assert e[..EI_NIDENT] == h.ident && e[EI_NIDENT..] == EncodeFields(fmt.big, layout, EhdrFields(h));
    }
    var tail := b[EI_NIDENT..];
    var f := DecodeFields(fmt.big, layout, tail);
    EncodeDecodeFields(fmt.big, layout, tail);
    DecodedFit(fmt.big, layout, tail);
    assert EhdrFields(EhdrOf(b[..EI_NIDENT], f)) == f;
    assert b[..EI_NIDENT] + tail == b;
  }

  lemma {:induction false} PhdrCodec(fmt: Format, p: Phdr, b: seq<u8>)
    requires |b| == PhdrSize(fmt)
    ensures WfPhdr(fmt, p) ==> DecodePhdr(fmt, EncodePhdr(fmt, p)) == p
    ensures WfPhdr(fmt, DecodePhdr(fmt, b)) && EncodePhdr(fmt, DecodePhdr(fmt, b)) == b
  {
    hide PhdrLayout, EncodeFields, DecodeFields, Sum, FieldsFit;
    RecordSizes(fmt);
    var layout := PhdrLayout(fmt);
    if WfPhdr(fmt, p) {
      DecodeEncodeFields(fmt.big, layout, PhdrFields(fmt, p));
    }
    var f := DecodeFields(fmt.big, layout, b);
    EncodeDecodeFields(fmt.big, layout, b);
    DecodedFit(fmt.big, layout, b);
    assert PhdrFields(fmt, PhdrOf(fmt, f)) == f;
  }

  lemma {:induction false} ShdrCodec(fmt: Format, s: Shdr, b: seq<u8>)
    requires |b| == ShdrSize(fmt)
    ensures WfShdr(fmt, s) ==> DecodeShdr(fmt, EncodeShdr(fmt, s)) == s
    ensures WfShdr(fmt, DecodeShdr(fmt, b)) && EncodeShdr(fmt, DecodeShdr(fmt, b)) == b
  {
    hide ShdrLayout, EncodeFields, DecodeFields, Sum, FieldsFit;
    RecordSizes(fmt);
    var layout := ShdrLayout(fmt);
    if WfShdr(fmt, s) {
      DecodeEncodeFields(fmt.big, layout, ShdrFields(s));
    }
    var f := DecodeFields(fmt.big, layout, b);
    EncodeDecodeFields(fmt.big, layout, b);
    DecodedFit(fmt.big, layout, b);
    assert ShdrFields(ShdrOf(f)) == f;
  }
}
