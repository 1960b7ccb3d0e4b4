// The pieces of the injected code (ps3patch/include/ps3patch/trampoline.hpp):
// prologue, epilogue, jumps and relocation of the displaced instructions.
module Codegen {
  import opened Bits
  import opened Bytes
  import opened Wrappers
  import opened Encode
  import opened Isa
  import opened Decode

  const FRAME_SIZE: int := 256
  const SAVE_BASE: int := 128

  /** The sixteen prologue words; every encoder call succeeds. */
  function BuildPrologue(): (ws: seq<u32>)
    ensures |ws| == 16
  {
    hide EncodeStdForm, EncodeMfspr;
    [EncodeStdu(1, 1, -FRAME_SIZE).value,
     EncodeStd(0, 1, SAVE_BASE + 0).value,
     EncodeMflr(0), EncodeStd(0, 1, SAVE_BASE + 8).value,
     EncodeMfctr(0), EncodeStd(0, 1, SAVE_BASE + 16).value,
     EncodeStd(3, 1, SAVE_BASE + 24).value, EncodeStd(4, 1, SAVE_BASE + 32).value,
     EncodeStd(5, 1, SAVE_BASE + 40).value, EncodeStd(6, 1, SAVE_BASE + 48).value,
     EncodeStd(7, 1, SAVE_BASE + 56).value, EncodeStd(8, 1, SAVE_BASE + 64).value,
     EncodeStd(9, 1, SAVE_BASE + 72).value, EncodeStd(10, 1, SAVE_BASE + 80).value,
     EncodeStd(11, 1, SAVE_BASE + 88).value, EncodeStd(12, 1, SAVE_BASE + 96).value]
  }

  function BuildEpilogue(): (ws: seq<u32>)
    ensures |ws| == 16
  {
    hide EncodeStdForm, EncodeMtspr, EncodeAddi;
    [EncodeLd(0, 1, SAVE_BASE + 8).value, EncodeMtlr(0),
     EncodeLd(0, 1, SAVE_BASE + 16).value, EncodeMtctr(0),
     EncodeLd(3, 1, SAVE_BASE + 24).value, EncodeLd(4, 1, SAVE_BASE + 32).value,
     EncodeLd(5, 1, SAVE_BASE + 40).value, EncodeLd(6, 1, SAVE_BASE + 48).value,
     EncodeLd(7, 1, SAVE_BASE + 56).value, EncodeLd(8, 1, SAVE_BASE + 64).value,
     EncodeLd(9, 1, SAVE_BASE + 72).value, EncodeLd(10, 1, SAVE_BASE + 80).value,
     EncodeLd(11, 1, SAVE_BASE + 88).value, EncodeLd(12, 1, SAVE_BASE + 96).value,
     EncodeLd(0, 1, SAVE_BASE + 0).value,
     EncodeAddi(1, 1, FRAME_SIZE)]
  }

  /** One direct branch if it reaches, else the long jump through r12 and CTR. */
  function MakeMinimalJump(fromAddr: u32, toAddr: u32): (ws: seq<u32>)
    ensures |ws| == 1 || |ws| == 5
  {
    var disp := toAddr - fromAddr;
    if disp % 4 == 0 && disp >= -33554432 && disp <= 33554428 then
      (match EncodeBranch(disp, false, false)
       case Some(w) => [w]
       case None => MakeAbsoluteJump(toAddr))
    else MakeAbsoluteJump(toAddr)
  }

  predicate Near(fromAddr: int, toAddr: int) {
    -0x200_0000 <= toAddr - fromAddr <= 0x1FF_FFFC
  }

  /** The short form is chosen exactly for aligned displacements in reach; its encoder never throws. */
  lemma MinimalJumpForm(fromAddr: u32, toAddr: u32)
    ensures |MakeMinimalJump(fromAddr, toAddr)| == 1 <==> (toAddr - fromAddr) % 4 == 0 && Near(fromAddr, toAddr)
    ensures (toAddr - fromAddr) % 4 == 0 && Near(fromAddr, toAddr) ==>
            EncodeBranch(toAddr - fromAddr, false, false).Some?
            && MakeMinimalJump(fromAddr, toAddr) == [EncodeBranch(toAddr - fromAddr, false, false).value]
    ensures !((toAddr - fromAddr) % 4 == 0 && Near(fromAddr, toAddr)) ==>
            MakeMinimalJump(fromAddr, toAddr) == MakeAbsoluteJump(toAddr)
  {
    hide EncodeBranch, MakeAbsoluteJump;
  }

  // --------------------------------------------------------- bytes of words

  /** The big-endian bytes of a list of instruction words. */
  function BytesOfWords(ws: seq<u32>): (bytes: seq<u8>)
    ensures |bytes| == 4 * |ws|
  {
    if ws == [] then [] else BytesOfWords(ws[..|ws| - 1]) + BeBytes(ws[|ws| - 1], 4)
  }

  /** The instruction words in a run of bytes. */
  function WordsOfBytes(bytes: seq<u8>, n: nat): (ws: seq<u32>)
    requires |bytes| == 4 * n
    ensures |ws| == n
  {
    if n == 0 then []
    else
      BeValueBound(bytes[4 * n - 4..]);
      Powers256();
      WordsOfBytes(bytes[..4 * n - 4], n - 1) + [BeValue(bytes[4 * n - 4..])]
  }

  lemma {:induction false} WordBytesAt(ws: seq<u32>, i: nat)
    requires i < |ws|
    ensures BytesOfWords(ws)[4 * i..4 * i + 4] == BeBytes(ws[i], 4)
    decreases |ws|
  {
    hide BeBytes;
    var n := |ws| - 1;
    var front, last := BytesOfWords(ws[..n]), BeBytes(ws[n], 4);
    assert BytesOfWords(ws) == front + last;
    if i < n {
      WordBytesAt(ws[..n], i);
      FrontSlice(front, last, 4 * i, 4 * i + 4);
    } else {
      assert (front + last)[4 * n..4 * n + 4] == last;
    }
  }

  lemma FrontSlice(front: seq<u8>, last: seq<u8>, lo: nat, hi: nat)
    requires lo <= hi <= |front|
    ensures (front + last)[lo..hi] == front[lo..hi]
  {
  }

  /** Word i of a run of bytes is the big-endian value of its own four bytes. */
  lemma {:induction false} WordAt(bytes: seq<u8>, n: nat, i: nat)
    requires |bytes| == 4 * n && i < n
    ensures WordsOfBytes(bytes, n)[i] == BeValue(bytes[4 * i..4 * i + 4])
    decreases n
  {
    hide BeValue;
    var front, last := bytes[..4 * n - 4], bytes[4 * n - 4..];
    if i < n - 1 {
      WordAt(front, n - 1, i);
      FrontSlice(front, last, 4 * i, 4 * i + 4);
      assert front + last == bytes;
    } else {
      assert bytes[4 * i..4 * i + 4] == last;
    }
  }

  /** Decoding the bytes of any instruction list gives the list back. */
  lemma {:induction false} WordsRoundTrip(ws: seq<u32>)
    ensures WordsOfBytes(BytesOfWords(ws), |ws|) == ws
  {
    hide BeBytes, BeValue;
    if ws != [] {
      var n := |ws| - 1;
      WordsRoundTrip(ws[..n]);
      Powers256();
      BeValueOfBytes(ws[n], 4);
      AppendedWord(BytesOfWords(ws[..n]), BeBytes(ws[n], 4), n);
    }
  }

  lemma {:induction false} AppendedWord(front: seq<u8>, word: seq<u8>, n: nat)
    requires |front| == 4 * n && |word| == 4
    ensures BeValue(word) < M32
    ensures WordsOfBytes(front + word, n + 1) == WordsOfBytes(front, n) + [BeValue(word)]
  {
    hide BeValue;
    BeValueBound(word);
    Powers256();
    var bytes := front + word;
    assert bytes[..4 * n] == front && bytes[4 * n..] == word;
  }

  /** Encoding the words of any bytes gives the bytes back. */
  lemma {:induction false} BytesRoundTrip(bytes: seq<u8>, n: nat)
    requires |bytes| == 4 * n
    ensures BytesOfWords(WordsOfBytes(bytes, n)) == bytes
  {
    if n > 0 {
      BytesRoundTrip(bytes[..4 * n - 4], n - 1);
      BeBytesOfValue(bytes[4 * n - 4..]);
      assert WordsOfBytes(bytes, n)[..n - 1] == WordsOfBytes(bytes[..4 * n - 4], n - 1);
    }
  }

  method ToBigEndianBytes(instrs: seq<u32>) returns (out: seq<u8>)
    ensures out == BytesOfWords(instrs)
  {
    out := [];
    for i := 0 to |instrs|
      invariant out == BytesOfWords(instrs[..i])
    {
      var instr := instrs[i];
      WordShifts(instr);
      out := out + [Shr(instr, 24) % 0x100];
      out := out + [Shr(instr, 16) % 0x100];
      out := out + [Shr(instr, 8) % 0x100];
      out := out + [instr % 0x100];
      assert instrs[..i + 1][..i] == instrs[..i];
    }
    assert instrs[..|instrs|] == instrs;
  }

  lemma {:induction false} WordShifts(v: u32)
    ensures BeBytes(v, 4) == [Shr(v, 24) % 0x100] + [Shr(v, 16) % 0x100] + [Shr(v, 8) % 0x100] + [v % 0x100]
  {
    hide Shr, Pow2, BeBytes;
    Powers();
    ShrIs(v, 24, 0x100_0000);
    ShrIs(v, 16, 0x1_0000);
    ShrIs(v, 8, 0x100);
    BeBytes4(v);
  }

  // -------------------------------------------------------------- relocation

  /** What becomes of one displaced word: relative branches are corrected, all others copied. */
  function RelocateWord(w: u32, originalAddr: u32, newAddr: u32): Option<u32> {
    if Classify(w).kind == DirectRelative then RelocateBranch(Classify(w), originalAddr, newAddr) else Some(w)
  }

  function Relocated(original: seq<u32>, originalBase: u32, newBase: u32): (r: Result<seq<u32>>) {
    if original == [] then Ok([])
    else
      var n := |original| - 1;
      match Relocated(original[..n], originalBase, newBase)
      case Err(c) => Err(c)
      case Ok(out) =>
        match RelocateWord(original[n], Wrap32(originalBase + 4 * n), Wrap32(newBase + 4 * n))
        case None => Err(RelocationFailed)
        case Some(w) => Ok(out + [w])
  }

  method RelocateDisplacedInstructions(original: seq<u32>, originalBase: u32, newBase: u32)
    returns (r: Result<seq<u32>>)
    ensures r == Relocated(original, originalBase, newBase)
  {
    hide Classify, RelocateBranch;
    var out := [];
    for i := 0 to |original|
      invariant Relocated(original[..i], originalBase, newBase) == Ok(out)
    {
      var originalAddr := Wrap32(originalBase + Wrap32(i * 4));
      var newAddr := Wrap32(newBase + Wrap32(i * 4));
      RelocatedStep(original, originalBase, newBase, i);
      var decoded := Classify(original[i]);
      if decoded.kind == DirectRelative {
        var fixed := RelocateBranch(decoded, originalAddr, newAddr);
        if fixed.None? {
          RelocatedFailsEarly(original, originalBase, newBase, i);
          return Err(RelocationFailed);
        }
        out := out + [fixed.value];
      } else {
        out := out + [original[i]];
      }
    }
    assert original[..|original|] == original;
    r := Ok(out);
  }

  lemma {:induction false} RelocatedStep(original: seq<u32>, originalBase: u32, newBase: u32, i: nat)
    requires i < |original|
    ensures Wrap32(originalBase + Wrap32(i * 4)) == Wrap32(originalBase + 4 * i)
    ensures Wrap32(newBase + Wrap32(i * 4)) == Wrap32(newBase + 4 * i)
    ensures var before := Relocated(original[..i], originalBase, newBase);
            Relocated(original[..i + 1], originalBase, newBase)
            == match before
               case Err(c) => Err(c)
               case Ok(out) =>
                 match RelocateWord(original[i], Wrap32(originalBase + 4 * i), Wrap32(newBase + 4 * i))
                 case None => Err(RelocationFailed)
                 case Some(w) => Ok(out + [w])
  {
    hide RelocateWord, Wrap32;
    WordAddress(originalBase, i);
    WordAddress(newBase, i);
    assert original[..i + 1][..i] == original[..i];
  }

  lemma WordAddress(base: u32, i: nat)
    ensures Wrap32(base + Wrap32(i * 4)) == Wrap32(base + 4 * i)
  {
    var q, p := i * 4 / M32, (base + 4 * i) / M32;
    QuotientUnique(base + Wrap32(i * 4), M32, p - q, Wrap32(base + 4 * i));
  }

  lemma {:induction false} RelocatedFailsEarly(original: seq<u32>, originalBase: u32, newBase: u32, i: nat)
    requires i < |original| && Relocated(original[..i + 1], originalBase, newBase) == Err(RelocationFailed)
    ensures Relocated(original, originalBase, newBase) == Err(RelocationFailed)
    decreases |original|
  {
    hide RelocateWord;
    var n := |original| - 1;
    if i < n {
      assert original[..n][..i + 1] == original[..i + 1];
      RelocatedFailsEarly(original[..n], originalBase, newBase, i);
    } else {
      assert original[..i + 1] == original;
    }
  }

  /** Success means every word was relocated to its own slot; failure, that some word could not be. */
  lemma {:induction false} RelocatedWords(original: seq<u32>, originalBase: u32, newBase: u32)
    ensures var r := Relocated(original, originalBase, newBase);
            if r.Ok? then
              |r.value| == |original|
              && forall i {:trigger original[i]} :: 0 <= i < |original| ==>
                   RelocateWord(original[i], Wrap32(originalBase + 4 * i), Wrap32(newBase + 4 * i)) == Some(r.value[i])
            else
              r.code == RelocationFailed
              && exists i {:trigger original[i]} :: 0 <= i < |original|
                   && RelocateWord(original[i], Wrap32(originalBase + 4 * i), Wrap32(newBase + 4 * i)) == None
  {
    hide RelocateWord;
    if original != [] {
      var n := |original| - 1;
      var prefix := original[..n];
      RelocatedWords(prefix, originalBase, newBase);
      var p := Relocated(prefix, originalBase, newBase);
      if p.Err? {
        var i :| 0 <= i < n
          && RelocateWord(prefix[i], Wrap32(originalBase + 4 * i), Wrap32(newBase + 4 * i)) == None;
        assert original[i] == prefix[i];
      } else {
        assert forall i {:trigger original[i]} :: 0 <= i < n ==> original[i] == prefix[i];
        var last := original[n];
      }
    }
  }

  /**
   * Relocation is refused exactly when some displaced relative branch's
   * corrected displacement does not fit its field.
   */
  lemma {:induction false} RelocationRefusedIff(original: seq<u32>, originalBase: u32, newBase: u32)
    ensures Relocated(original, originalBase, newBase) == Err(RelocationFailed)
            <==> exists i {:trigger original[i]} :: 0 <= i < |original| && Disassemble(original[i]).IsRelative()
                   && !Fits(CorrectedDisplacement(DisplacementOf(Disassemble(original[i])),
                                                  Wrap32(originalBase + 4 * i), Wrap32(newBase + 4 * i)),
                            Disassemble(original[i]).Bc?)
  {
    hide Classify, RelocateBranch, Disassemble, Fits, CorrectedDisplacement;
    RelocatedWords(original, originalBase, newBase);
    forall i | 0 <= i < |original|
      ensures RelocateWord(original[i], Wrap32(originalBase + 4 * i), Wrap32(newBase + 4 * i)) == None
              <==> Disassemble(original[i]).IsRelative()
                   && !Fits(CorrectedDisplacement(DisplacementOf(Disassemble(original[i])),
                                                  Wrap32(originalBase + 4 * i), Wrap32(newBase + 4 * i)),
                            Disassemble(original[i]).Bc?)
    {
      RelocateBranchSpec(original[i], Wrap32(originalBase + 4 * i), Wrap32(newBase + 4 * i));
    }
  }
}
