// Resolving the entrypoint through its function descriptor
// (ps3patch/include/ps3patch/toc.hpp).
module Toc {
  import opened Bits
  import opened Bytes
  import opened Wrappers
  import opened ElfTypes
  import opened ElfImage
  import opened ElfFiles

  datatype EntryDescriptor = EntryDescriptor(codeAddress: u64, tocValue: u64, envPointer: u64)

  method ReadBigEndian32(bytes: seq<u8>, offset: nat) returns (v: u32)
    requires offset + 4 <= |bytes|
    ensures v == BeValue(bytes[offset..offset + 4])
  {
    hide Or, Shl32;
    v := 0;
    for i := 0 to 4
      invariant v == BeValue(bytes[offset..offset + i])
    {
      var read := bytes[offset..offset + i + 1];
      assert read[..i] == bytes[offset..offset + i];
      BeValueBound(read[..i]);
      PowersBelow4(i);
      ShiftIn(v, bytes[offset + i]);
      v := Or(Shl32(v, 8), bytes[offset + i]);
    }
  }

  lemma PowersBelow4(i: nat)
    requires i < 4
    ensures Pow256(i) <= 0x100_0000
  {
    assert Pow256(0) == 1 && Pow256(1) == 0x100 && Pow256(2) == 0x1_0000 && Pow256(3) == 0x100_0000;
  }

  lemma {:induction false} ShiftIn(v: u32, b: u8)
    requires v < 0x100_0000
    ensures Or(Shl32(v, 8), b) == v * 0x100 + b
  {
    hide Or, Shl32, Pow2;
    Powers();
    ShlIs(v, 8, 0x100);
    OrField(v, 8, 0x100, b);
  }

  /** The (code address, TOC value) pair that e_entry points at: two big-endian words. */
  function Descriptor(img: Image): (r: Result<EntryDescriptor>) {
    if img.header.machine != EM_PPC64 then Err(Unsupported)
    else
      match Resolve(img, Wrap(img.header.entry))
      case Err(_) => Err(OffsetOutOfBounds)
      case Ok(offset) =>
        match ReadBytes(img, offset, 8)
        case Err(_) => Err(TruncatedFile)
        case Ok(b) =>
          BeValueBound(b[..4]);
          BeValueBound(b[4..8]);
          Powers256();
          Ok(EntryDescriptor(BeValue(b[..4]), BeValue(b[4..8]), 0))
  }

  /** The eight bytes of the descriptor lie in the file from d on, where e_entry resolves to. */
  predicate DescriptorAt(img: Image, d: nat) {
    Resolve(img, Wrap(img.header.entry)) == Ok(d) && d + 8 <= |img.raw|
  }

  /** The descriptor's two words in the file are the code address and the TOC value. */
  ghost predicate Describes(img: Image, d: nat, entry: EntryDescriptor) {
    d + 8 <= |img.raw|
    && entry.codeAddress < M32 && img.raw[d..d + 4] == BeBytes(entry.codeAddress, 4)
    && entry.tocValue < M32 && img.raw[d + 4..d + 8] == BeBytes(entry.tocValue, 4)
    && entry.envPointer == 0
  }

  /**
   * The descriptor that is resolved is the one whose bytes stand where e_entry
   * points, for every image and every descriptor; otherwise the first obstacle
   * is the error.
   */
  lemma {:induction false} DescriptorOutcome(img: Image, d: nat, entry: EntryDescriptor)
    ensures DescriptorAt(img, d) && img.header.machine == 21 ==>
              (Descriptor(img) == Ok(entry) <==> Describes(img, d, entry))
    ensures img.header.machine != 21 ==> Descriptor(img) == Err(Unsupported)
    ensures img.header.machine == 21 && Resolve(img, Wrap(img.header.entry)).Err? ==>
              Descriptor(img) == Err(OffsetOutOfBounds)
    ensures img.header.machine == 21 && Resolve(img, Wrap(img.header.entry)) == Ok(d) && d + 8 > |img.raw| ==>
              Descriptor(img) == Err(TruncatedFile)
    ensures Descriptor(img).Ok? ==>
              Resolve(img, Wrap(img.header.entry)).Ok?
              && DescriptorAt(img, Resolve(img, Wrap(img.header.entry)).value)
  {
    hide Resolve, BeValue, BeBytes;
    if DescriptorAt(img, d) && img.header.machine == 21 {
      var b := img.raw[d..d + 8];
      assert b[..4] == img.raw[d..d + 4] && b[4..8] == img.raw[d + 4..d + 8];
      WordBytes(b[..4], entry.codeAddress);
      WordBytes(b[4..8], entry.tocValue);
    }
  }

  /** Four bytes and the word they encode. */
  lemma {:induction false} WordBytes(b: seq<u8>, v: u64)
    requires |b| == 4
    ensures BeValue(b) == v <==> v < M32 && b == BeBytes(v, 4)
  {
    hide BeValue, BeBytes;
    Powers256();
    BeValueBound(b);
    BeBytesOfValue(b);
    if v < M32 {
      BeValueOfBytes(v, 4);
    }
  }

  method ValidatePs3Executable(file: ElfFile) returns (r: Result<()>)
    ensures r == if file.header.machine == 21 then Ok(()) else Err(Unsupported)
  {
    if file.header.machine != EM_PPC64 {
      return Err(Unsupported);
    }
    return Ok(());
  }

  method ResolveEntryDescriptor(file: ElfFile) returns (r: Result<EntryDescriptor>)
    requires file.Valid() && file.fmt == ELF64_BE
    ensures r == Descriptor(file.View())
    ensures r.Ok? ==> exists d: nat {:trigger Describes(file.View(), d, r.value)} ::
              DescriptorAt(file.View(), d) && Describes(file.View(), d, r.value)
    ensures r.Ok? <==> file.header.machine == 21
                       && exists d: nat {:trigger DescriptorAt(file.View(), d)} :: DescriptorAt(file.View(), d)
  {
    hide Consistent, BeValue, Describes, DescriptorAt;
    DescriptorReadable(file.View());
    var validated := ValidatePs3Executable(file);
    if validated.Err? {
      return Err(validated.code);
    }
    EntryFits(file.View());
    var descriptorVaddr := file.header.entry;
    var offsetResult := file.VaddrToFileOffset(descriptorVaddr);
    if offsetResult.Err? {
      return Err(OffsetOutOfBounds);
    }
    var bytesResult := file.ReadAt(offsetResult.value, 8);
    if bytesResult.Err? {
      return Err(TruncatedFile);
    }
    var bytes := bytesResult.value;
    var code := ReadBigEndian32(bytes, 0);
    var toc := ReadBigEndian32(bytes, 4);
    return Ok(EntryDescriptor(code, toc, 0));
  }

  /** A descriptor is resolved exactly when its bytes can be read, and then it is the one they are. */
  lemma {:induction false} DescriptorReadable(img: Image)
    ensures var r := Descriptor(img);
            (r.Ok? ==> exists d: nat {:trigger Describes(img, d, r.value)} ::
                         DescriptorAt(img, d) && Describes(img, d, r.value))
            && (r.Ok? <==> img.header.machine == 21
                           && exists d: nat {:trigger DescriptorAt(img, d)} :: DescriptorAt(img, d))
  {
    hide Resolve, BeValue, Descriptor, Describes;
    var r := Descriptor(img);
    if r.Ok? {
      DescriptorOutcome(img, 0, r.value);
      DescriptorOutcome(img, Resolve(img, Wrap(img.header.entry)).value, r.value);
      assert Describes(img, Resolve(img, Wrap(img.header.entry)).value, r.value);
    }
    if img.header.machine == 21 && exists d: nat {:trigger DescriptorAt(img, d)} :: DescriptorAt(img, d) {
      var d: nat :| DescriptorAt(img, d);
      Reads(img, d);
    }
  }

  lemma Reads(img: Image, d: nat)
    requires img.header.machine == 21 && DescriptorAt(img, d)
    ensures Descriptor(img).Ok?
  {
    hide Resolve, BeValue;
  }

  lemma EntryFits(img: Image)
    requires Consistent(img)
    ensures img.header.entry < M64
  {
    HalfwordFields(img.fmt, img.header);
    Powers256();
  }

  lemma DescriptorFields(img: Image)
    requires Descriptor(img).Ok?
    ensures Descriptor(img).value.codeAddress < M32 && Descriptor(img).value.tocValue < M32
  {
    hide Resolve;
    var b := ReadBytes(img, Resolve(img, Wrap(img.header.entry)).value, 8).value;
    BeValueBound(b[..4]);
    BeValueBound(b[4..8]);
    Powers256();
  }
}
