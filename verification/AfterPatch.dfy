// Reading the patched file back: round trip, idempotency guard, address
// translation and placement of the new segment.
module AfterPatch {
  import opened Bits
  import opened Bytes
  import opened Wrappers
  import opened Trampoline
  import opened ElfTypes
  import opened ElfImage
  import opened ElfEdits
  import opened ElfFiles
  import opened ElfLayout
  import opened Toc
  import opened PatchedFile
  import P = Patcher

  /** The facts about a successful patch that the theorems below start from. */
  ghost predicate Successful(p: Patch, bytes: seq<u8>, path: seq<u8>, out: seq<u8>) {
    IsPatchOf(p, bytes, path) && WellPlaced(p)
    && PatchFits(p.Added(), p.offset, |p.tramp.entryPatchBytes|)
    && out == Serialized(EditedImage(p))
  }

  /** Every well-placed successful run of the command is such a patch. */
  lemma {:induction false} SuccessfulRun(bytes: seq<u8>, path: seq<u8>) returns (p: Patch)
    requires P.Patched(bytes, path).Ok?
    ensures IsPatchOf(p, bytes, path)
    ensures WellPlaced(p) ==> Successful(p, bytes, path, P.Patched(bytes, path).value)
  {
    hide P.Patched, IsPatchOf, WellPlaced, Serialized;
    p := PatchParts(bytes, path);
  }

  // ------------------------------------------------------------- round trip

  /** The image that parsing the output gives. */
  ghost function Reread(p: Patch, out: seq<u8>): Image
    requires PatchFits(p.Added(), p.offset, |p.tramp.entryPatchBytes|)
  {
    EditedImage(p).(raw := out)
  }

  /** The output parses, to the edited header and tables. */
  lemma {:induction false} OutputParses(p: Patch, bytes: seq<u8>, path: seq<u8>, out: seq<u8>)
    requires Successful(p, bytes, path, out)
    ensures Parsed(ELF64_BE, out) == Ok(Reread(p, out)) && ParsedAny(out) == Ok(Reread(p, out))
  {
    hide IsPatchOf, WellPlaced, Serialized, Parsed, ParsedAny, Sound;
    EditedSound(p, bytes, path);
    RoundTripIff(EditedImage(p));
    EditedFormat(p, bytes, path);
    ParseAnyComplete(ELF64_BE, out);
  }

  lemma EditedFormat(p: Patch, bytes: seq<u8>, path: seq<u8>)
    requires IsPatchOf(p, bytes, path) && PatchFits(p.Added(), p.offset, |p.tramp.entryPatchBytes|)
    ensures EditedImage(p).fmt == ELF64_BE && EditedImage(p).phdrs == p.Added().phdrs
    ensures p.input.raw == bytes
    ensures EditedImage(p).header.machine == p.input.header.machine
    ensures EditedImage(p).header.entry == p.input.header.entry
  {
    hide P.Built, Parsed, Descriptor, Resolve, P.TrampolineAddress, NewSegment, ParsedAny;
  }

  /**
   * The new segment in the output, by its bytes: e_phoff and e_phnum name the
   * table at the end, and its last header is that of a PT_LOAD segment with
   * flags R and X that holds the blob.
   */
  lemma {:induction false} NewSegmentInFile(p: Patch, bytes: seq<u8>, path: seq<u8>, out: seq<u8>)
    requires Successful(p, bytes, path, out)
    ensures var n, end := |p.input.phdrs|, |bytes| + |p.tramp.blob|;
            var base := end + 56 * n;
            base + 56 == |out|
            && BeValue(out[32..40]) == end && BeValue(out[56..58]) == n + 1
            && BeValue(out[base..base + 4]) == 1 && BeValue(out[base + 4..base + 8]) == 5
            && BeValue(out[base + 8..base + 16]) == |bytes|
            && BeValue(out[base + 16..base + 24]) == p.tramp.trampolineAddr
            && BeValue(out[base + 24..base + 32]) == p.tramp.trampolineAddr
            && BeValue(out[base + 32..base + 40]) == |p.tramp.blob|
            && BeValue(out[base + 40..base + 48]) == |p.tramp.blob|
            && BeValue(out[base + 48..base + 56]) == 0x1_0000
  {
    hide IsPatchOf, WellPlaced, Serialized, Parsed, ParsedAny, BeValue, FramedByte, PhBytes, WithSegment;
    var n := |p.input.phdrs|;
    OutputParses(p, bytes, path, out);
    OutputFrame(p, bytes, path);
    AddedFields(p, bytes, path);
    EditedFormat(p, bytes, path);
    assert Reread(p, out).phdrs[n] == p.Added().phdrs[n];
    SegmentInFile(out, n);
  }

  /** segmentData of the last segment of the re-read output is the blob. */
  lemma {:induction false} LastSegmentIsBlob(p: Patch, bytes: seq<u8>, path: seq<u8>, out: seq<u8>)
    requires Successful(p, bytes, path, out)
    ensures SegmentBytes(Reread(p, out), |p.input.phdrs|) == Ok(p.tramp.blob)
  {
    hide IsPatchOf, WellPlaced, Serialized, FramedByte, PhBytes, WithSegment;
    OutputFrame(p, bytes, path);
    AddedFields(p, bytes, path);
    EditedFormat(p, bytes, path);
    assert Reread(p, out).phdrs[|p.input.phdrs|] == p.Added().phdrs[|p.input.phdrs|];
  }

  // --------------------------------------------------------- idempotency guard

  /** The appended magic survives the entry patch and serialization. */
  lemma {:induction false} OutputIsMarked(p: Patch, bytes: seq<u8>, path: seq<u8>, out: seq<u8>)
    requires Successful(p, bytes, path, out)
    ensures P.AlreadyMarked(Reread(p, out))
  {
    hide IsPatchOf, WellPlaced, Serialized, FramedByte, PhBytes;
    OutputFrame(p, bytes, path);
    AddedFields(p, bytes, path);
    EditedFormat(p, bytes, path);
    MagicFirst(p, bytes, path);
    var img := Reread(p, out);
    var last := |p.input.phdrs|;
    var n, b := |bytes|, |p.tramp.blob|;
    assert img.phdrs[last].offset == n && img.phdrs[last].filesz == b;
    assert out[n..n + 8] == out[n..n + b][..8];
    assert P.HasMagic(img, last);
  }

  lemma MagicFirst(p: Patch, bytes: seq<u8>, path: seq<u8>)
    requires IsPatchOf(p, bytes, path)
    ensures 8 <= |p.tramp.blob| && p.tramp.blob[..8] == TRAMPOLINE_MAGIC && |p.tramp.blob| <= 1268
  {
    hide P.Built, Parsed, Descriptor, Resolve, P.TrampolineAddress, ParsedAny;
  }

  /**
   * A patched file cannot be patched again: the command refuses it whatever
   * the new path, and buildTrampoline refuses it for every descriptor, address
   * and path, with AlreadyPatched whenever those arguments are valid.
   */
  lemma {:induction false} PatchedTwiceRefused(p: Patch, bytes: seq<u8>, path: seq<u8>, out: seq<u8>, path2: seq<u8>,
                                               entry2: EntryDescriptor, t2: u32)
    requires Successful(p, bytes, path, out)
    ensures P.Patched(out, path2).Err?
    ensures P.Built(Reread(p, out), entry2, t2, path2)
            == if path2 == [] || |path2| > 1023 || t2 % 4 != 0 || entry2.codeAddress % 4 != 0
               then Err(InvalidArgument) else Err(AlreadyPatched)
  {
    hide IsPatchOf, WellPlaced, Serialized, P.AlreadyMarked, ParsedAny, Parsed, Descriptor, Resolve, Assemble,
      P.TrampolineAddress, EditedImage;
    OutputParses(p, bytes, path, out);
    OutputIsMarked(p, bytes, path, out);
  }

  // ------------------------------------------------------- address translation

  /** Resolution looks at the program headers and the file's length only. */
  lemma {:induction false} ResolveIgnoresBytes(a: Image, b: Image, address: u64, i: nat)
    requires a.phdrs == b.phdrs && |a.raw| <= |b.raw| && i <= |a.phdrs| && ResolveFrom(a, address, i).Ok?
    ensures ResolveFrom(b, address, i) == ResolveFrom(a, address, i)
    decreases |a.phdrs| - i
  {
    var ph := a.phdrs[i];
    if !(ph.ptype == PT_LOAD && ph.vaddr <= address < Wrap(ph.vaddr + ph.filesz)) {
      ResolveIgnoresBytes(a, b, address, i + 1);
    }
  }

  lemma {:induction false} RereadResolves(p: Patch, bytes: seq<u8>, path: seq<u8>, out: seq<u8>, a: u64)
    requires Successful(p, bytes, path, out) && Resolve(p.Added(), a).Ok?
    ensures Resolve(Reread(p, out), a) == Resolve(p.Added(), a)
  {
    hide IsPatchOf, WellPlaced, Serialized, ResolveFrom, FramedByte, PhBytes;
    EditedFormat(p, bytes, path);
    OutputFrame(p, bytes, path);
    AddedRaw(p, bytes, path);
    ResolveIgnoresBytes(p.Added(), Reread(p, out), a, 0);
  }

  /** Every address that the input resolves, the output resolves to the same offset. */
  lemma {:induction false} OldAddressesStable(p: Patch, bytes: seq<u8>, path: seq<u8>, out: seq<u8>, a: u64)
    requires Successful(p, bytes, path, out) && Resolve(p.input, a).Ok?
    ensures Resolve(Reread(p, out), a) == Resolve(p.input, a)
  {
    hide IsPatchOf, WellPlaced, Serialized, Resolve, EditedImage, WithSegment;
    ResolveAfterAdd(p.input, p.tramp.trampolineAddr, p.tramp.blob, PF_R + PF_X, 0x1_0000, a);
    RereadResolves(p, bytes, path, out, a);
  }

  /** The file offsets of the output that may differ from the input. */
  predicate Untouched(p: Patch, i: int) {
    !p.InWindow(i) && !(32 <= i < 40) && !(56 <= i < 58)
  }

  lemma {:induction false} UntouchedByte(p: Patch, bytes: seq<u8>, path: seq<u8>, out: seq<u8>, i: nat)
    requires Successful(p, bytes, path, out) && i < |bytes| && Untouched(p, i)
    ensures i < |out| && out[i] == bytes[i]
  {
    hide IsPatchOf, WellPlaced, Serialized, PhBytes, EditedImage;
    OutputFrame(p, bytes, path);
    PatchInput(p, bytes, path);
    assert out[i] == FramedByte(p, i);
  }

  /** The entry descriptor reads the same from the patched file when its 8 bytes are not edited ones. */
  lemma {:induction false} DescriptorStable(p: Patch, bytes: seq<u8>, path: seq<u8>, out: seq<u8>, d: u64)
    requires Successful(p, bytes, path, out) && Resolve(p.input, Wrap(p.input.header.entry)) == Ok(d)
    requires forall i :: d <= i < d + 8 ==> Untouched(p, i)
    ensures Descriptor(Reread(p, out)) == Descriptor(p.input)
  {
    hide IsPatchOf, WellPlaced, Serialized, Resolve, EditedImage, Untouched;
    OldAddressesStable(p, bytes, path, out, Wrap(p.input.header.entry));
    EditedFormat(p, bytes, path);
    DescriptorInFile(p, bytes, path, d);
    forall i | d <= i < d + 8
      ensures i < |out| && out[i] == bytes[i]
    {
      UntouchedByte(p, bytes, path, out, i);
    }
    UntouchedByte(p, bytes, path, out, d + 7);
    assert out[d..d + 8] == bytes[d..d + 8];
  }

  lemma DescriptorInFile(p: Patch, bytes: seq<u8>, path: seq<u8>, d: u64)
    requires IsPatchOf(p, bytes, path) && Resolve(p.input, Wrap(p.input.header.entry)) == Ok(d)
    ensures d + 8 <= |bytes| && p.input.header.machine == EM_PPC64
  {
    hide P.Built, Parsed, Resolve, P.TrampolineAddress, ParsedAny, BeValue;
  }

  // ---------------------------------------------------------------- placement

  /** No PT_LOAD segment wraps or ends above 2^32 - 2^16, and none is longer in the file than in memory. */
  ghost predicate LowSegments(img: Image) {
    forall i {:trigger img.phdrs[i]} :: 0 <= i < |img.phdrs| && img.phdrs[i].ptype == PT_LOAD ==>
      img.phdrs[i].vaddr + img.phdrs[i].memsz <= 0xFFFF_0000 && img.phdrs[i].filesz <= img.phdrs[i].memsz
  }

  /** alignUp gives the least multiple not below its argument, and no alignment leaves it. */
  lemma AlignUpIs(value: u64, align: u64)
    requires value + align <= M64
    ensures var r := P.AlignUp(value, align);
            if align == 0 then r == value else r % align == 0 && value <= r < value + align
  {
    if align == 0 {
      return;
    }
    var x := value + align - 1;
    assert Wrap(x) == x;
    var q := x / align;
    assert x == q * align + x % align;
    assert Wrap(q * align) == q * align;
    QuotientUnique(q * align, align, q, 0);
  }

  lemma {:induction false} HighestEndBounds(ps: seq<Phdr>, i: nat)
    requires i < |ps|
    ensures ps[i].ptype == PT_LOAD ==> P.SegmentEnd(ps[i]) <= P.HighestEnd(ps)
    decreases |ps|
  {
    var n := |ps| - 1;
    if i < n {
      HighestEndBounds(ps[..n], i);
      assert ps[..n][i] == ps[i];
    }
  }

  lemma {:induction false} HighestEndBelow(ps: seq<Phdr>, bound: nat)
    requires forall i {:trigger ps[i]} :: 0 <= i < |ps| && ps[i].ptype == PT_LOAD ==> P.SegmentEnd(ps[i]) <= bound
    ensures P.HighestEnd(ps) <= bound
    decreases |ps|
  {
    if ps != [] {
      var n := |ps| - 1;
      forall i | 0 <= i < n && ps[..n][i].ptype == PT_LOAD
        ensures P.SegmentEnd(ps[..n][i]) <= bound
      {
        assert ps[..n][i] == ps[i];
      }
      HighestEndBelow(ps[..n], bound);
    }
  }

  /** The end of a segment in memory, on 64-bit arithmetic. */
  function EndOf(ph: Phdr): nat {
    (ph.vaddr + ph.memsz) % 0x1_0000_0000_0000_0000
  }

  /** The loop's result is the largest end of a PT_LOAD segment, or 0. */
  lemma {:induction false} HighestEndIs(ps: seq<Phdr>, i: nat)
    ensures i < |ps| && ps[i].ptype == 1 ==> EndOf(ps[i]) <= P.HighestEnd(ps)
    ensures P.HighestEnd(ps) > 0 ==>
              exists k {:trigger ps[k]} :: 0 <= k < |ps| && ps[k].ptype == 1 && EndOf(ps[k]) == P.HighestEnd(ps)
    decreases |ps|
  {
    hide Wrap;
    if ps != [] {
      var n := |ps| - 1;
      WrapIs(ps[n].vaddr + ps[n].memsz);
      HighestEndIs(ps[..n], i);
      if i < n {
        assert ps[..n][i] == ps[i];
      }
      if P.HighestEnd(ps[..n]) > 0 {
        var k :| 0 <= k < n && ps[..n][k].ptype == 1 && EndOf(ps[..n][k]) == P.HighestEnd(ps[..n]);
        assert ps[..n][k] == ps[k];
      }
    }
  }

  /** Ascending p_vaddr order of the PT_LOAD entries (chapter 5, Program Header, of the System V gABI). */
  ghost predicate LoadsAscend(ps: seq<Phdr>) {
    forall i, j {:trigger ps[i], ps[j]} :: 0 <= i < j < |ps| && ps[i].ptype == PT_LOAD && ps[j].ptype == PT_LOAD ==>
      ps[i].vaddr <= ps[j].vaddr
  }

  /**
   * The trampoline segment is placed at the first multiple of 64 KB at or past
   * the end of every PT_LOAD segment, in the 32-bit space with room to spare.
   */
  lemma {:induction false} PlacedPastEverything(img: Image)
    requires LowSegments(img)
    ensures var t := P.TrampolineAddress(img);
            t % 0x1_0000 == 0 && RoomAt(t) && P.HighestEnd(img.phdrs) <= t < P.HighestEnd(img.phdrs) + 0x1_0000
            && forall i {:trigger img.phdrs[i]} :: 0 <= i < |img.phdrs| && img.phdrs[i].ptype == PT_LOAD ==>
                 img.phdrs[i].vaddr + img.phdrs[i].memsz <= t
  {
    hide P.AlignUp;
    forall i | 0 <= i < |img.phdrs| && img.phdrs[i].ptype == PT_LOAD
      ensures P.SegmentEnd(img.phdrs[i]) <= 0xFFFF_0000
    {
    }
    HighestEndBelow(img.phdrs, 0xFFFF_0000);
    var end := P.HighestEnd(img.phdrs);
    AlignUpIs(end, 0x1_0000);
    MultipleBelow(P.AlignUp(end, 0x1_0000));
    forall i | 0 <= i < |img.phdrs| && img.phdrs[i].ptype == PT_LOAD
      ensures img.phdrs[i].vaddr + img.phdrs[i].memsz <= P.TrampolineAddress(img)
    {
      HighestEndBounds(img.phdrs, i);
    }
  }

  /**
   * The cut of the address to 32 bits: the segment lies at or past every
   * PT_LOAD end exactly when the highest end, as the loop computes it, leaves
   * a 64 KB multiple below 2^32.
   */
  lemma {:induction false} PlacedPastIff(img: Image)
    ensures P.TrampolineAddress(img) >= P.HighestEnd(img.phdrs) <==> P.HighestEnd(img.phdrs) <= 0xFFFF_0000
  {
    hide P.AlignUp;
    var end: u64 := P.HighestEnd(img.phdrs);
    if end + 0x1_0000 <= M64 {
      AlignUpIs(end, 0x1_0000);
      if end < M32 {
        MultipleBelow(P.AlignUp(end, 0x1_0000));
      }
    }
  }

  /** For one, a segment that ends in the last 64 KB of the 32-bit space puts the trampoline at address 0. */
  lemma {:induction false} PlacedAtZero(img: Image)
    requires img.phdrs == [Phdr(PT_LOAD, PF_R, 0, 0xFFFF_0000, 0xFFFF_0000, 16, 16, 0x1_0000)]
    ensures P.HighestEnd(img.phdrs) == 0xFFFF_0010 && P.TrampolineAddress(img) == 0
  {
    assert img.phdrs[..0] == [];
    assert P.HighestEnd([]) == 0;
  }

  lemma MultipleBelow(r: nat)
    requires r % 0x1_0000 == 0 && r < 0x1_0000_0000 + 0x1_0000
    ensures r < 0x1_0000_0000 ==> r <= 0xFFFF_0000
    ensures r >= 0x1_0000_0000 ==> r == 0x1_0000_0000
  {
  }

  /** Adding it overlaps no PT_LOAD segment and keeps their order. */
  lemma {:induction false} PlacementKeepsOrder(p: Patch, bytes: seq<u8>, path: seq<u8>)
    requires IsPatchOf(p, bytes, path) && WellPlaced(p) && LowSegments(p.input)
    ensures LoadsAscend(p.input.phdrs) ==> LoadsAscend(p.Added().phdrs)
    ensures forall i {:trigger p.input.phdrs[i]} :: 0 <= i < |p.input.phdrs| && p.input.phdrs[i].ptype == PT_LOAD ==>
              p.input.phdrs[i].vaddr + p.input.phdrs[i].memsz <= p.Added().phdrs[|p.input.phdrs|].vaddr
  {
    hide IsPatchOf, WellPlaced, P.TrampolineAddress, NewSegment;
    PatchAddress(p, bytes, path);
    PlacedPastEverything(p.input);
    AddedFields(p, bytes, path);
    var ps, n := p.Added().phdrs, |p.input.phdrs|;
    assert forall i {:trigger ps[i]} :: 0 <= i < n ==> ps[i] == p.input.phdrs[i];
    if LoadsAscend(p.input.phdrs) {
      forall i, j | 0 <= i < j < |ps| && ps[i].ptype == PT_LOAD && ps[j].ptype == PT_LOAD
        ensures ps[i].vaddr <= ps[j].vaddr
      {
        assert ps[i] == p.input.phdrs[i];
        if j < n {
          assert ps[j] == p.input.phdrs[j];
        }
      }
    }
  }

  lemma PatchAddress(p: Patch, bytes: seq<u8>, path: seq<u8>)
    requires IsPatchOf(p, bytes, path)
    ensures p.tramp.trampolineAddr == P.TrampolineAddress(p.input) && |p.tramp.blob| <= 1268
    ensures p.tramp.entryPatchAddr == p.entry.codeAddress < M32 && p.entry.tocValue < M32
    ensures Resolve(p.input, p.entry.codeAddress) == Ok(p.offset) && p.input.fmt.is64
  {
    hide P.Built, Parsed, Descriptor, Resolve, P.TrampolineAddress, ParsedAny;
    DescriptorFields(p.input);
  }

  /** Past every segment's end no segment reaches. */
  lemma {:induction false} ClearPast(img: Image, a: u64)
    requires LowSegments(img) && a >= P.TrampolineAddress(img)
    ensures ClearOf(img, a)
  {
    hide P.TrampolineAddress;
    PlacedPastEverything(img);
    forall i | 0 <= i < |img.phdrs| && img.phdrs[i].ptype == PT_LOAD
      ensures !(img.phdrs[i].vaddr <= a < Wrap(img.phdrs[i].vaddr + img.phdrs[i].filesz))
    {
      assert img.phdrs[i].vaddr + img.phdrs[i].memsz <= a;
    }
  }

  /** Every address of the new segment resolves to its own blob byte in the output. */
  lemma {:induction false} NewAddressesResolve(p: Patch, bytes: seq<u8>, path: seq<u8>, out: seq<u8>, a: u64)
    requires Successful(p, bytes, path, out) && LowSegments(p.input)
    requires p.tramp.trampolineAddr <= a < p.tramp.trampolineAddr + |p.tramp.blob|
    ensures var j := a - p.tramp.trampolineAddr;
            Resolve(Reread(p, out), a) == Ok(|bytes| + j)
            && |bytes| + j < |out| && out[|bytes| + j] == p.tramp.blob[j]
  {
    hide IsPatchOf, WellPlaced, Serialized, P.TrampolineAddress, EditedImage, ResolveFrom, WithSegment, ClearOf,
      LowSegments, Framed;
    PatchAddress(p, bytes, path);
    PatchInput(p, bytes, path);
    RawBounded(p);
    var t := p.tramp.trampolineAddr;
    var j := a - t;
    ClearPast(p.input, a);
    ResolveNewSegment(p.input, t, p.tramp.blob, PF_R + PF_X, 0x1_0000, j, 0);
    RereadResolves(p, bytes, path, out, a);
    OutputFrame(p, bytes, path);
    FramedBlob(p, out, j);
  }

  lemma FramedBlob(p: Patch, out: seq<u8>, j: nat)
    requires Framed(p, out) && j < |p.tramp.blob|
    ensures |p.input.raw| + j < |out| && out[|p.input.raw| + j] == p.tramp.blob[j]
  {
    hide FramedByte, PhBytes;
    var n, b := |p.input.raw|, |p.tramp.blob|;
    assert out[n..n + b][j] == out[n + j];
  }

  lemma RawBounded(p: Patch)
    requires WellPlaced(p)
    ensures |p.input.raw| < MAX_BYTES - 0x1_0000
  {
  }
}
