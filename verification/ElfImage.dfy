// The value of an ElfFile (libelf/include/elf/file.hpp): header, tables and
// raw bytes, with parse, serialize and the edits as functions on it.
module ElfImage {
  import opened Bits
  import opened Bytes
  import opened Wrappers
  import opened ElfTypes

  datatype Image = Image(fmt: Format, header: Ehdr, phdrs: seq<Phdr>, shdrs: seq<Shdr>, raw: seq<u8>)

  // ---------------------------------------------------------------- regions

  /**
   * "Does [offset, offset + count * elemSize) fit", on 64-bit machine
   * arithmetic: it is the test on unbounded integers.
   */
  function RegionFits(bufferSize: u64, offset: u64, count: u64, elemSize: u64): (r: bool)
    ensures r <==> offset + count * elemSize <= bufferSize
  {
    if count != 0 && elemSize > (M64 - 1) / count then
      ProductOverflows(count, elemSize);
      false
    else
      ProductFits(count, elemSize);
      var span := Wrap(count * elemSize);
      if offset > bufferSize then false
      else if span > bufferSize - offset then false
      else true
  }

  lemma ProductOverflows(count: u64, elemSize: u64)
    requires count != 0 && elemSize > (M64 - 1) / count
    ensures count * elemSize >= M64
  {
    var q := (M64 - 1) / count;
    assert M64 - 1 == count * q + (M64 - 1) % count;
    assert count * elemSize >= count * (q + 1);
  }

  lemma ProductFits(count: u64, elemSize: u64)
    requires count == 0 || elemSize <= (M64 - 1) / count
    ensures 0 <= count * elemSize < M64
  {
    if count != 0 {
      var q := (M64 - 1) / count;
      assert M64 - 1 == count * q + (M64 - 1) % count;
      assert count * elemSize <= count * q;
    }
  }

  /** Write data at an offset, growing the buffer with zeros when it is too short. */
  function Overlay(buf: seq<u8>, offset: nat, data: seq<u8>): (r: seq<u8>)
    ensures data != [] ==> |r| == if offset + |data| > |buf| then offset + |data| else |buf|
    ensures data == [] ==> r == buf
  {
    if data == [] then buf
    else
      var grown := if offset + |data| > |buf| then buf + seq(offset + |data| - |buf|, _ => 0) else buf;
      grown[..offset] + data + grown[offset + |data|..]
  }

  /** One byte of the result: new data, an old byte, or filling. */
  lemma OverlayByte(buf: seq<u8>, offset: nat, data: seq<u8>, i: nat)
    requires i < |Overlay(buf, offset, data)|
    ensures Overlay(buf, offset, data)[i]
            == if offset <= i < offset + |data| then data[i - offset] else if i < |buf| then buf[i] else 0
  {
  }

  lemma OverlayRead(buf: seq<u8>, offset: nat, data: seq<u8>)
    requires data != []
    ensures Overlay(buf, offset, data)[offset..offset + |data|] == data
  {
  }

  /** Bytes inside the buffer and outside the written range stay. */
  lemma OverlayKeeps(buf: seq<u8>, offset: nat, data: seq<u8>, lo: nat, hi: nat)
    requires lo <= hi <= |buf| && (data == [] || hi <= offset || offset + |data| <= lo)
    ensures hi <= |Overlay(buf, offset, data)| && Overlay(buf, offset, data)[lo..hi] == buf[lo..hi]
  {
  }

  /** Writing what is already there changes nothing. */
  lemma OverlaySame(buf: seq<u8>, offset: nat, data: seq<u8>)
    requires offset + |data| <= |buf| && buf[offset..offset + |data|] == data
    ensures Overlay(buf, offset, data) == buf
  {
  }

  /** Two adjacent writes are one. */
  lemma OverlayAppend(buf: seq<u8>, offset: nat, xs: seq<u8>, ys: seq<u8>)
    requires ys != []
    ensures Overlay(Overlay(buf, offset, xs), offset + |xs|, ys) == Overlay(buf, offset, xs + ys)
  {
    hide Overlay;
    var once := Overlay(buf, offset, xs);
    var a, b := Overlay(once, offset + |xs|, ys), Overlay(buf, offset, xs + ys);
    assert |a| == |b|;
    forall i | 0 <= i < |a|
      ensures a[i] == b[i]
    {
      OverlayByte(once, offset + |xs|, ys, i);
      OverlayByte(buf, offset, xs + ys, i);
      if i < |once| {
        OverlayByte(buf, offset, xs, i);
      }
    }
  }

  // ----------------------------------------------------------------- tables

  function PhBytes(fmt: Format, ps: seq<Phdr>): (b: seq<u8>)
    ensures |b| == |ps| * PhdrSize(fmt)
  {
    if ps == [] then []
    else
      TableStep(|ps|, PhdrSize(fmt));
      PhBytes(fmt, ps[..|ps| - 1]) + EncodePhdr(fmt, ps[|ps| - 1])
  }

  function ShBytes(fmt: Format, ss: seq<Shdr>): (b: seq<u8>)
    ensures |b| == |ss| * ShdrSize(fmt)
  {
    if ss == [] then []
    else
      TableStep(|ss|, ShdrSize(fmt));
      ShBytes(fmt, ss[..|ss| - 1]) + EncodeShdr(fmt, ss[|ss| - 1])
  }

  lemma TableStep(n: nat, size: nat)
    requires n > 0
    ensures (n - 1) * size + size == n * size && (n - 1) * size >= 0
  {
  }

  function PhTable(fmt: Format, b: seq<u8>, n: nat): (ps: seq<Phdr>)
    requires |b| == n * PhdrSize(fmt)
    ensures |ps| == n
  {
    if n == 0 then []
    else
      TableStep(n, PhdrSize(fmt));
      var k := (n - 1) * PhdrSize(fmt);
      PhTable(fmt, b[..k], n - 1) + [DecodePhdr(fmt, b[k..])]
  }

  function ShTable(fmt: Format, b: seq<u8>, n: nat): (ss: seq<Shdr>)
    requires |b| == n * ShdrSize(fmt)
    ensures |ss| == n
  {
    if n == 0 then []
    else
      TableStep(n, ShdrSize(fmt));
      var k := (n - 1) * ShdrSize(fmt);
      ShTable(fmt, b[..k], n - 1) + [DecodeShdr(fmt, b[k..])]
  }

  ghost predicate WfPhdrs(fmt: Format, ps: seq<Phdr>) {
    forall i {:trigger ps[i]} :: 0 <= i < |ps| ==> WfPhdr(fmt, ps[i])
  }

  ghost predicate WfShdrs(fmt: Format, ss: seq<Shdr>) {
    forall i {:trigger ss[i]} :: 0 <= i < |ss| ==> WfShdr(fmt, ss[i])
  }

  lemma {:induction false} PhTableOfBytes(fmt: Format, ps: seq<Phdr>)
    requires WfPhdrs(fmt, ps)
    ensures PhTable(fmt, PhBytes(fmt, ps), |ps|) == ps
  {
    hide EncodePhdr, DecodePhdr, WfPhdr, PhdrSize;
    if ps != [] {
      var n := |ps| - 1;
      TableStep(|ps|, PhdrSize(fmt));
      PhTableOfBytes(fmt, ps[..n]);
      var b := PhBytes(fmt, ps);
      assert b[..n * PhdrSize(fmt)] == PhBytes(fmt, ps[..n]);
      assert b[n * PhdrSize(fmt)..] == EncodePhdr(fmt, ps[n]);
      PhdrCodec(fmt, ps[n], EncodePhdr(fmt, ps[n]));
      assert WfPhdr(fmt, ps[n]);
    }
  }

  lemma {:induction false} PhBytesOfTable(fmt: Format, b: seq<u8>, n: nat)
    requires |b| == n * PhdrSize(fmt)
    ensures PhBytes(fmt, PhTable(fmt, b, n)) == b && WfPhdrs(fmt, PhTable(fmt, b, n))
  {
    hide EncodePhdr, DecodePhdr, WfPhdr, PhdrSize;
    if n > 0 {
      TableStep(n, PhdrSize(fmt));
      var k := (n - 1) * PhdrSize(fmt);
      PhBytesOfTable(fmt, b[..k], n - 1);
      var ps := PhTable(fmt, b, n);
      assert ps[..n - 1] == PhTable(fmt, b[..k], n - 1);
      PhdrCodec(fmt, ps[n - 1], b[k..]);
      assert b == b[..k] + b[k..];
      forall i | 0 <= i < n
        ensures WfPhdr(fmt, ps[i])
      {
        if i < n - 1 {
          assert ps[i] == PhTable(fmt, b[..k], n - 1)[i];
        }
      }
    }
  }

  lemma {:induction false} ShTableOfBytes(fmt: Format, ss: seq<Shdr>)
    requires WfShdrs(fmt, ss)
    ensures ShTable(fmt, ShBytes(fmt, ss), |ss|) == ss
  {
    hide EncodeShdr, DecodeShdr, WfShdr, ShdrSize;
    if ss != [] {
      var n := |ss| - 1;
      TableStep(|ss|, ShdrSize(fmt));
      ShTableOfBytes(fmt, ss[..n]);
      var b := ShBytes(fmt, ss);
      assert b[..n * ShdrSize(fmt)] == ShBytes(fmt, ss[..n]);
      assert b[n * ShdrSize(fmt)..] == EncodeShdr(fmt, ss[n]);
      ShdrCodec(fmt, ss[n], EncodeShdr(fmt, ss[n]));
      assert WfShdr(fmt, ss[n]);
    }
  }

  lemma {:induction false} ShBytesOfTable(fmt: Format, b: seq<u8>, n: nat)
    requires |b| == n * ShdrSize(fmt)
    ensures ShBytes(fmt, ShTable(fmt, b, n)) == b && WfShdrs(fmt, ShTable(fmt, b, n))
  {
    hide EncodeShdr, DecodeShdr, WfShdr, ShdrSize;
    if n > 0 {
      TableStep(n, ShdrSize(fmt));
      var k := (n - 1) * ShdrSize(fmt);
      ShBytesOfTable(fmt, b[..k], n - 1);
      var ss := ShTable(fmt, b, n);
      assert ss[..n - 1] == ShTable(fmt, b[..k], n - 1);
      ShdrCodec(fmt, ss[n - 1], b[k..]);
      assert b == b[..k] + b[k..];
      forall i | 0 <= i < n
        ensures WfShdr(fmt, ss[i])
      {
        if i < n - 1 {
          assert ss[i] == ShTable(fmt, b[..k], n - 1)[i];
        }
      }
    }
  }

  // -------------------------------------------------- parse and serialize

  /** 0x7F 'E' 'L' 'F' */
  const ELF_MAGIC: seq<u8> := [0x7F, 0x45, 0x4C, 0x46]

  function ClassByte(fmt: Format): u8 { if fmt.is64 then 2 else 1 }

  function DataByte(fmt: Format): u8 { if fmt.big then 2 else 1 }

  /** The checks of parse on the header alone, in order. */
  function HeaderError(fmt: Format, h: Ehdr, size: nat): Option<ErrorCode>
  {
    if h.ident[..4] != ELF_MAGIC then Some(BadMagic)
    else if h.ident[4] != ClassByte(fmt) then Some(UnsupportedClass)
    else if h.ident[5] != DataByte(fmt) then Some(UnsupportedDataEncoding)
    else if h.ehsize != EhdrSize(fmt) then Some(InconsistentHeaderSize)
    else if h.phnum > 0 && h.phentsize != PhdrSize(fmt) then Some(InconsistentHeaderSize)
    else if h.shnum > 0 && h.shentsize != ShdrSize(fmt) then Some(InconsistentHeaderSize)
    else if h.phoff + h.phnum * PhdrSize(fmt) > size then Some(OffsetOutOfBounds)
    else if h.shoff + h.shnum * ShdrSize(fmt) > size then Some(OffsetOutOfBounds)
    else if h.shnum > 0 && h.shstrndx >= h.shnum then Some(IndexOutOfBounds)
    else None
  }

  function Parsed(fmt: Format, bytes: seq<u8>): (r: Result<Image>) {
    if |bytes| < EhdrSize(fmt) then Err(TruncatedFile)
    else
      var h := DecodeEhdr(fmt, bytes[..EhdrSize(fmt)]);
      match HeaderError(fmt, h, |bytes|)
      case Some(code) => Err(code)
      case None =>
        Ok(Image(fmt, h,
                 PhTable(fmt, bytes[h.phoff..h.phoff + h.phnum * PhdrSize(fmt)], h.phnum),
                 ShTable(fmt, bytes[h.shoff..h.shoff + h.shnum * ShdrSize(fmt)], h.shnum), bytes))
  }

  /** Header, then program header table, then section header table, over the raw bytes. */
  function Serialized(img: Image): (out: seq<u8>)
  {
    Overlay(Overlay(Overlay(img.raw, 0, EncodeEhdr(img.fmt, img.header)),
                    img.header.phoff, PhBytes(img.fmt, img.phdrs)),
            img.header.shoff, ShBytes(img.fmt, img.shdrs))
  }

  /** What stands at offset i when `data` was written at `offset` over something that has `below` there. */
  function Written(offset: nat, data: seq<u8>, i: nat, below: u8): u8 {
    if offset <= i < offset + |data| then data[i - offset] else below
  }

  function AtLeast(size: nat, offset: nat, data: seq<u8>): nat {
    if data != [] && offset + |data| > size then offset + |data| else size
  }

  /**
   * Every byte serialize writes, also where tables overlap: the section header
   * table lies over the program header table, that over the header, and that
   * over the raw bytes; gaps beyond them are zero.
   */
  lemma {:induction false} SerializedByte(img: Image, i: nat)
    ensures var out, h := Serialized(img), img.header;
            var E, P, S := EncodeEhdr(img.fmt, h), PhBytes(img.fmt, img.phdrs), ShBytes(img.fmt, img.shdrs);
            |out| == AtLeast(AtLeast(AtLeast(|img.raw|, 0, E), h.phoff, P), h.shoff, S)
            && (i < |out| ==>
                  out[i] == Written(h.shoff, S, i, Written(h.phoff, P, i, Written(0, E, i, if i < |img.raw| then img.raw[i] else 0))))
  {
    hide Overlay, EncodeEhdr, PhBytes, ShBytes;
    var h := img.header;
    var E, P, S := EncodeEhdr(img.fmt, h), PhBytes(img.fmt, img.phdrs), ShBytes(img.fmt, img.shdrs);
    var a := Overlay(img.raw, 0, E);
    var b := Overlay(a, h.phoff, P);
    OverlayIs(img.raw, 0, E, i);
    OverlayIs(a, h.phoff, P, i);
    OverlayIs(b, h.shoff, S, i);
  }

  lemma OverlayIs(buf: seq<u8>, offset: nat, data: seq<u8>, i: nat)
    ensures |Overlay(buf, offset, data)| == AtLeast(|buf|, offset, data)
    ensures i < |Overlay(buf, offset, data)| ==>
              Overlay(buf, offset, data)[i] == Written(offset, data, i, if i < |buf| then buf[i] else 0)
    ensures |Overlay(buf, offset, data)| <= i ==> Written(offset, data, i, 0) == 0
  {
    if i < |Overlay(buf, offset, data)| {
      OverlayByte(buf, offset, data, i);
    }
  }

  /** What holds of every ElfFile object: fields fit, the counts are the tables' lengths, offsets lie in the file. */
  ghost predicate Consistent(img: Image) {
    WfEhdr(img.fmt, img.header) && WfPhdrs(img.fmt, img.phdrs) && WfShdrs(img.fmt, img.shdrs)
    && EhdrSize(img.fmt) <= |img.raw|
    && img.header.phnum == |img.phdrs| % 0x1_0000 && img.header.shnum == |img.shdrs|
    && img.header.phoff <= |img.raw| && img.header.shoff + |img.shdrs| * ShdrSize(img.fmt) <= |img.raw|
  }

  /** Every accepted file satisfies the invariant, and its header passes the checks. */
  lemma {:induction false} ParsedConsistent(fmt: Format, bytes: seq<u8>)
    requires Parsed(fmt, bytes).Ok?
    ensures var img := Parsed(fmt, bytes).value;
            img.fmt == fmt && img.raw == bytes && Consistent(img) && |img.phdrs| == img.header.phnum < 0x1_0000
            && HeaderError(fmt, img.header, |bytes|) == None
  {
    hide Parsed, DecodeEhdr, EncodeEhdr, PhTable, ShTable, PhBytes, ShBytes, Consistent, WfEhdr, WfPhdrs, WfShdrs,
      HeaderError, PhdrSize, ShdrSize, EhdrSize;
    ParsedParts(fmt, bytes);
    var head := bytes[..EhdrSize(fmt)];
    var h := DecodeEhdr(fmt, head);
    EhdrCodec(fmt, h, head);
    PhBytesOfTable(fmt, bytes[h.phoff..h.phoff + h.phnum * PhdrSize(fmt)], h.phnum);
    ShBytesOfTable(fmt, bytes[h.shoff..h.shoff + h.shnum * ShdrSize(fmt)], h.shnum);
    HalfwordFields(fmt, h);
    ConsistentFrom(Parsed(fmt, bytes).value);
  }

  lemma ConsistentFrom(img: Image)
    requires WfEhdr(img.fmt, img.header) && WfPhdrs(img.fmt, img.phdrs) && WfShdrs(img.fmt, img.shdrs)
    requires EhdrSize(img.fmt) <= |img.raw| && img.header.phnum == |img.phdrs| < 0x1_0000
    requires img.header.shnum == |img.shdrs|
    requires img.header.phoff <= |img.raw| && img.header.shoff + |img.shdrs| * ShdrSize(img.fmt) <= |img.raw|
    ensures Consistent(img)
  {
    hide WfEhdr, WfPhdrs, WfShdrs;
  }

  /** The parts of a parsed file. */
  lemma {:induction false} ParsedParts(fmt: Format, bytes: seq<u8>)
    requires Parsed(fmt, bytes).Ok?
    ensures EhdrSize(fmt) <= |bytes|
    ensures var h := DecodeEhdr(fmt, bytes[..EhdrSize(fmt)]);
            HeaderError(fmt, h, |bytes|) == None
            && h.phoff + h.phnum * PhdrSize(fmt) <= |bytes| && h.shoff + h.shnum * ShdrSize(fmt) <= |bytes|
            && h.phnum * PhdrSize(fmt) >= 0 && h.shnum * ShdrSize(fmt) >= 0
            && Parsed(fmt, bytes).value
               == Image(fmt, h, PhTable(fmt, bytes[h.phoff..h.phoff + h.phnum * PhdrSize(fmt)], h.phnum),
                        ShTable(fmt, bytes[h.shoff..h.shoff + h.shnum * ShdrSize(fmt)], h.shnum), bytes)
  {
    hide DecodeEhdr, PhTable, ShTable;
  }

  lemma HalfwordFields(fmt: Format, h: Ehdr)
    requires WfEhdr(fmt, h)
    ensures h.phnum < 0x1_0000 && h.shnum < 0x1_0000 && h.phentsize < 0x1_0000
    ensures h.phoff < WordLimit(fmt) && h.shoff < WordLimit(fmt) && h.entry < WordLimit(fmt)
  {
    Powers256();
    var f, l := EhdrFields(h), EhdrLayout(fmt);
    assert f[9] == h.phnum && f[11] == h.shnum && f[8] == h.phentsize;
    assert f[4] == h.phoff && f[5] == h.shoff && f[3] == h.entry;
  }

  /** An unmodified file serializes to the bytes it was parsed from, however its tables lie. */
  lemma {:induction false} SerializeOfParse(fmt: Format, bytes: seq<u8>)
    requires Parsed(fmt, bytes).Ok?
    ensures Serialized(Parsed(fmt, bytes).value) == bytes
  {
    hide Parsed, HeaderError, DecodeEhdr, EncodeEhdr, PhTable, ShTable, PhBytes, ShBytes, Overlay;
    ParsedParts(fmt, bytes);
    var img := Parsed(fmt, bytes).value;
    var h := img.header;
    var head := bytes[..EhdrSize(fmt)];
    EhdrCodec(fmt, h, head);
    PhBytesOfTable(fmt, bytes[h.phoff..h.phoff + h.phnum * PhdrSize(fmt)], h.phnum);
    ShBytesOfTable(fmt, bytes[h.shoff..h.shoff + h.shnum * ShdrSize(fmt)], h.shnum);
    OverlaySame(bytes, 0, EncodeEhdr(fmt, h));
    OverlaySame(bytes, h.phoff, PhBytes(fmt, img.phdrs));
    OverlaySame(bytes, h.shoff, ShBytes(fmt, img.shdrs));
  }
}
