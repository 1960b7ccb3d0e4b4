// Which loads and stores can be displaced: the exact condition, byte by byte.
module Accesses {
  import opened Bits
  import opened Bytes
  import opened Isa
  import opened Machine
  import opened Simulation

  predicate IsStore(i: Instr) {
    i.Std? || i.Stdu?
  }

  /** Where the instruction loads or stores its doubleword, before wrapping. */
  function EffectiveAddress(i: Instr, c: Core): int
    requires IsStore(i) || i.Ld?
  {
    if i.Stdu? then c.gpr[i.ra] + i.d else RegOrZero(c, i.ra) + i.d
  }

  function StoredBytes(i: Instr, c: Core): (s: seq<u8>)
    requires IsStore(i)
    ensures |s| == 8
  {
    BeBytes(c.gpr[i.rs], 8)
  }

  /** A region of the 64-bit address space. */
  predicate InSpace(r: Region) {
    0 <= r.lo && r.hi <= M64
  }

  /** What a store leaves at a. */
  function ByteAfter(i: Instr, c: Core, a: u64): u8
    requires IsStore(i)
  {
    var offset := Wrap(a - EffectiveAddress(i, c));
    if offset < 8 then StoredBytes(i, c)[offset] else ByteAt(c.mem, a)
  }

  predicate Touches(i: Instr, c: Core, a: u64)
    requires IsStore(i) || i.Ld?
  {
    Wrap(a - EffectiveAddress(i, c)) < 8
  }

  /**
   * No byte stored lies in the window or the blob, except one that is there
   * already: in the blob, known to be there in both runs.
   */
  ghost predicate StoreHarmless(i: Instr, c: Core, apart: iset<int>, window: Region, blob: Region)
    requires IsStore(i)
  {
    forall a: u64 {:trigger Touches(i, c, a)} :: Touches(i, c, a) ==>
      (window.Has(a) ==> ByteAfter(i, c, a) == ByteAt(c.mem, a))
      && (blob.Has(a) ==> a !in apart && ByteAfter(i, c, a) == ByteAt(c.mem, a))
  }

  lemma {:induction false} AddressBack(x: u64, ea: int)
    ensures Wrap(ea + Wrap(x - ea)) == x
  {
    assert Wrap(x - ea) == x - ea - (x - ea) / M64 * M64;
    OffsetModulo(x, -((x - ea) / M64));
  }

  /** A store changes its own eight bytes and no other. */
  lemma {:induction false} StoreByte(cpu: Cpu, i: Instr, c: Core, x: u64)
    requires IsStore(i)
    ensures ByteAt(Execute(cpu, i, c).mem, x) == ByteAfter(i, c, x)
  {
    hide StoreBytes, BeBytes, Wrap;
    ByteAfterStore(c.mem, EffectiveAddress(i, c), StoredBytes(i, c), x);
  }

  /** From agreeing cores a store goes to the same address with the same bytes, and the cores agree after it. */
  lemma {:induction false} StoresAgree(cpu: Cpu, i: Instr, c: Core, d: Core, apart: iset<int>)
    requires IsStore(i) && AgreeOutside(d, c, apart)
    ensures EffectiveAddress(i, d) == EffectiveAddress(i, c) && StoredBytes(i, d) == StoredBytes(i, c)
    ensures AgreeOutside(Execute(cpu, i, d), Execute(cpu, i, c), apart)
  {
    hide StoreDoubleword, BeBytes, Wrap;
    var c', d' := Execute(cpu, i, c), Execute(cpu, i, d);
    forall a: u64 | a !in apart
      ensures ByteAt(d'.mem, a) == ByteAt(c'.mem, a)
    {
      StoreByte(cpu, i, c, a);
      StoreByte(cpu, i, d, a);
    }
  }

  /** A region keeps its bytes exactly when every byte stored into it is the one it has. */
  lemma {:induction false} StoreKeepsIff(cpu: Cpu, i: Instr, c: Core, code: Region)
    requires IsStore(i) && InSpace(code)
    ensures Unchanged(c.mem, Execute(cpu, i, c).mem, code)
            <==> forall a: u64 {:trigger Touches(i, c, a)} :: Touches(i, c, a) && code.Has(a) ==>
                   ByteAfter(i, c, a) == ByteAt(c.mem, a)
  {
    hide Execute, StoredBytes, Wrap, EffectiveAddress;
    forall a: u64
      ensures ByteAt(Execute(cpu, i, c).mem, a) == ByteAfter(i, c, a)
      ensures !Touches(i, c, a) ==> ByteAfter(i, c, a) == ByteAt(c.mem, a)
    {
      StoreByte(cpu, i, c, a);
    }
  }

  function OtherByte(b: u8): (r: u8)
    ensures r != b
  {
    if b == 0 then 1 else 0
  }

  /** c with byte b at x. */
  function Disturbed(c: Core, x: u64, b: u8): Core {
    c.(mem := c.mem[x := b])
  }

  lemma DisturbedAgrees(c: Core, x: u64, b: u8, apart: iset<int>)
    requires x in apart
    ensures AgreeOutside(Disturbed(c, x, b), c, apart)
  {
  }

  /** std and stdu can be displaced exactly when they are harmless. */
  lemma {:induction false} StoreQuietIff(cpu: Cpu, i: Instr, c: Core, apart: iset<int>, window: Region, blob: Region)
    requires IsStore(i) && InSpace(window) && InSpace(blob)
    ensures Quiet(cpu, i, c, apart, window, blob) <==> StoreHarmless(i, c, apart, window, blob)
  {
    hide Execute, Unchanged, AgreeOutside, ByteAfter, Touches;
    StoreKeepsIff(cpu, i, c, window);
    if StoreHarmless(i, c, apart, window, blob) {
      forall d: Core | AgreeOutside(d, c, apart)
        ensures AgreeOutside(Execute(cpu, i, d), Execute(cpu, i, c), apart)
        ensures Unchanged(d.mem, Execute(cpu, i, d).mem, blob)
      {
        StoresAgree(cpu, i, c, d, apart);
        BlobKept(cpu, i, c, d, apart, window, blob);
      }
    }
    if Quiet(cpu, i, c, apart, window, blob) {
      forall a: u64 | Touches(i, c, a) && blob.Has(a)
        ensures a !in apart && ByteAfter(i, c, a) == ByteAt(c.mem, a)
      {
        BlobByteHarmless(cpu, i, c, apart, window, blob, a);
      }
    }
  }

  lemma {:induction false} BlobKept(cpu: Cpu, i: Instr, c: Core, d: Core, apart: iset<int>, window: Region, blob: Region)
    requires IsStore(i) && InSpace(blob) && StoreHarmless(i, c, apart, window, blob) && AgreeOutside(d, c, apart)
    ensures Unchanged(d.mem, Execute(cpu, i, d).mem, blob)
  {
    hide Execute, Unchanged, StoredBytes, EffectiveAddress, Wrap;
    StoreKeepsIff(cpu, i, d, blob);
    StoresAgree(cpu, i, c, d, apart);
    forall a: u64 | Touches(i, d, a) && blob.Has(a)
      ensures ByteAfter(i, d, a) == ByteAt(d.mem, a)
    {
      assert Touches(i, c, a) && ByteAfter(i, d, a) == ByteAfter(i, c, a);
      assert ByteAt(d.mem, a) == ByteAt(c.mem, a);
    }
  }

  lemma {:induction false} BlobByteHarmless(cpu: Cpu, i: Instr, c: Core, apart: iset<int>, window: Region, blob: Region,
                                            a: u64)
    requires IsStore(i) && InSpace(blob) && Quiet(cpu, i, c, apart, window, blob)
    requires Touches(i, c, a) && blob.Has(a)
    ensures a !in apart && ByteAfter(i, c, a) == ByteAt(c.mem, a)
  {
    hide Execute, Unchanged, AgreeOutside, StoredBytes, EffectiveAddress, Wrap;
    SelfAgrees(c, apart);
    KeptUnder(cpu, i, c, c, apart, window, blob);
    StoreKeepsIff(cpu, i, c, blob);
    if a in apart {
      var d := Disturbed(c, a, OtherByte(ByteAt(c.mem, a)));
      DisturbedAgrees(c, a, OtherByte(ByteAt(c.mem, a)), apart);
      StoreSees(cpu, i, c, d, blob, a);
      KeptUnder(cpu, i, c, d, apart, window, blob);
      assert false;
    }
  }

  /** Storing what one core has changes the other, which has something else there. */
  lemma {:induction false} StoreSees(cpu: Cpu, i: Instr, c: Core, d: Core, code: Region, a: u64)
    requires IsStore(i) && InSpace(code) && code.Has(a) && Touches(i, c, a) && d.gpr == c.gpr
    requires ByteAfter(i, c, a) == ByteAt(c.mem, a) != ByteAt(d.mem, a)
    ensures !Unchanged(d.mem, Execute(cpu, i, d).mem, code)
  {
    hide Execute, Unchanged, BeBytes, Wrap;
    StoreKeepsIff(cpu, i, d, code);
    assert Touches(i, d, a) && ByteAfter(i, d, a) == ByteAfter(i, c, a);
  }

  lemma KeptUnder(cpu: Cpu, i: Instr, c: Core, d: Core, apart: iset<int>, window: Region, blob: Region)
    requires Quiet(cpu, i, c, apart, window, blob) && AgreeOutside(d, c, apart)
    ensures Unchanged(d.mem, Execute(cpu, i, d).mem, blob)
    ensures AgreeOutside(Execute(cpu, i, d), Execute(cpu, i, c), apart)
  {
    hide Execute, Unchanged, AgreeOutside;
  }

  lemma SelfAgrees(c: Core, apart: iset<int>)
    ensures AgreeOutside(c, c, apart)
  {
  }

  /** ld can be displaced exactly when none of its eight bytes may differ between the runs. */
  lemma {:induction false} LoadQuietIff(cpu: Cpu, i: Instr, c: Core, apart: iset<int>, window: Region, blob: Region)
    requires i.Ld?
    ensures Quiet(cpu, i, c, apart, window, blob)
            <==> forall a: u64 {:trigger Touches(i, c, a)} :: Touches(i, c, a) ==> a !in apart
  {
    hide LoadDoubleword, AgreeOutside, Touches;
    if forall a: u64 {:trigger Touches(i, c, a)} :: Touches(i, c, a) ==> a !in apart {
      forall d: Core | AgreeOutside(d, c, apart)
        ensures AgreeOutside(Execute(cpu, i, d), Execute(cpu, i, c), apart)
      {
        SameLoad(d, c, i, apart);
        SameRegister(d, c, i.rt, LoadDoubleword(c.mem, EffectiveAddress(i, c)), apart);
      }
    }
    if Quiet(cpu, i, c, apart, window, blob) {
      forall a: u64 | Touches(i, c, a)
        ensures a !in apart
      {
        if a in apart {
          var other := OtherByte(ByteAt(c.mem, a));
          var d := Disturbed(c, a, other);
          DisturbedAgrees(c, a, other, apart);
          KeptUnder(cpu, i, c, d, apart, window, blob);
          LoadSees(c, d, i, a);
          RegistersAgree(Execute(cpu, i, d), Execute(cpu, i, c), i.rt, apart);
          assert false;
        }
      }
    }
  }

  lemma RegistersAgree(e: Core, c: Core, r: Reg, apart: iset<int>)
    requires AgreeOutside(e, c, apart)
    ensures e.gpr[r] == c.gpr[r] && e.gpr == c.gpr
  {
  }

  lemma SameRegister(e: Core, c: Core, r: Reg, v: u64, apart: iset<int>)
    requires AgreeOutside(e, c, apart)
    ensures AgreeOutside(e.(gpr := e.gpr[r := v]), c.(gpr := c.gpr[r := v]), apart)
    ensures e.gpr == c.gpr
  {
  }

  lemma {:induction false} SameLoad(d: Core, c: Core, i: Instr, apart: iset<int>)
    requires i.Ld? && AgreeOutside(d, c, apart)
    requires forall a: u64 {:trigger Touches(i, c, a)} :: Touches(i, c, a) ==> a !in apart
    ensures EffectiveAddress(i, d) == EffectiveAddress(i, c)
    ensures LoadDoubleword(d.mem, EffectiveAddress(i, c)) == LoadDoubleword(c.mem, EffectiveAddress(i, c))
  {
    hide BeValue, Wrap;
    var ea := EffectiveAddress(i, c);
    forall k | 0 <= k < 8
      ensures LoadBytes(d.mem, ea, 8)[k] == LoadBytes(c.mem, ea, 8)[k]
    {
      OffsetFrom(ea, k, ea);
      assert Touches(i, c, Wrap(ea + k));
    }
    assert LoadBytes(d.mem, ea, 8) == LoadBytes(c.mem, ea, 8);
  }

  /** Memories that differ in one of its bytes load differently. */
  lemma {:induction false} LoadSees(c: Core, d: Core, i: Instr, a: u64)
    requires i.Ld? && Touches(i, c, a) && ByteAt(d.mem, a) != ByteAt(c.mem, a)
    ensures LoadDoubleword(d.mem, EffectiveAddress(i, c)) != LoadDoubleword(c.mem, EffectiveAddress(i, c))
  {
    hide BeValue, BeBytes, Wrap;
    var ea := EffectiveAddress(i, c);
    var k := Wrap(a - ea);
    AddressBack(a, ea);
    assert LoadBytes(d.mem, ea, 8)[k] != LoadBytes(c.mem, ea, 8)[k];
    BeBytesOfValue(LoadBytes(c.mem, ea, 8));
    BeBytesOfValue(LoadBytes(d.mem, ea, 8));
  }
}
