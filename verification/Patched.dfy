// A machine running the patched code simulates one running the original.
module Patched {
  import opened Bits
  import opened Bytes
  import opened Wrappers
  import opened Isa
  import opened Machine
  import opened Syscalls
  import opened Codegen
  import opened Listing
  import opened Transparency
  import opened Prefix
  import opened Trampoline
  import opened Simulation

  // -------------------------------------------------------- code from bytes

  lemma {:induction false} HeldWord(m: Memory, a: int, bytes: seq<u8>, w: u32)
    requires 0 <= a && a + 4 <= M64 && Holds(m, a, bytes) && |bytes| >= 4 && bytes[..4] == BeBytes(w, 4)
    ensures FetchWord(m, a) == w
  {
    hide BeBytes, BeValue;
    var loaded := LoadBytes(m, a, 4);
    forall i | 0 <= i < 4
      ensures loaded[i] == bytes[..4][i]
    {
      assert bytes[i] == bytes[..4][i] && Wrap(a + i) == a + i;
    }
    assert loaded == bytes[..4];
    Powers256();
    BeValueOfBytes(w, 4);
  }

  lemma HeldTail(m: Memory, a: int, bytes: seq<u8>, k: nat)
    requires Holds(m, a, bytes) && k <= |bytes|
    ensures Holds(m, a + k, bytes[k..])
  {
    forall i | 0 <= i < |bytes[k..]|
      ensures ByteAt(m, a + k + i) == bytes[k..][i]
    {
      assert bytes[k..][i] == bytes[k + i];
    }
  }

  lemma TailHead(bytes: seq<u8>, k: nat, n: nat)
    requires k + n <= |bytes|
    ensures bytes[k..][..n] == bytes[k..k + n]
  {
  }

  /** Memory that holds the bytes of some words holds the words. */
  lemma {:induction false} HeldWords(m: Memory, a: int, ws: seq<u32>)
    requires 0 <= a && a + 4 * |ws| <= M64 && Holds(m, a, BytesOfWords(ws))
    ensures WordsAt(m, a, ws)
  {
    hide Holds, FetchWord, BytesOfWords, BeBytes;
    forall i | 0 <= i < |ws|
      ensures FetchWord(m, a + 4 * i) == ws[i]
    {
      WordBytesAt(ws, i);
      HeldTail(m, a, BytesOfWords(ws), 4 * i);
      TailHead(BytesOfWords(ws), 4 * i, 4);
      HeldWord(m, a + 4 * i, BytesOfWords(ws)[4 * i..], ws[i]);
    }
  }

  /** Memory that holds a blob at t has its code words from t + 8. */
  lemma {:induction false} HeldBlob(m: Memory, t: int, blob: seq<u8>, code: seq<u32>, path: seq<u8>)
    requires 0 <= t && t + |blob| <= M64 && Holds(m, t, blob) && LaidOut(blob, code, path)
    ensures WordsAt(m, t + 8, code)
    ensures Holds(m, t + 8 + 4 * |code|, path + [0])
  {
    hide Holds, FetchWord, BeBytes;
    forall i | 0 <= i < |code|
      ensures FetchWord(m, t + 8 + 4 * i) == code[i]
    {
      HeldTail(m, t, blob, 8 + 4 * i);
      TailHead(blob, 8 + 4 * i, 4);
      HeldWord(m, t + (8 + 4 * i), blob[8 + 4 * i..], code[i]);
    }
    HeldTail(m, t, blob, 8 + 4 * |code|);
    HeldHead(m, t + (8 + 4 * |code|), blob[8 + 4 * |code|..], |path| + 1);
    TailHead(blob, 8 + 4 * |code|, |path| + 1);
  }

  lemma HeldHead(m: Memory, a: int, bytes: seq<u8>, k: nat)
    requires Holds(m, a, bytes) && k <= |bytes|
    ensures Holds(m, a, bytes[..k])
  {
    forall i | 0 <= i < k
      ensures ByteAt(m, a + i) == bytes[..k][i]
    {
      assert bytes[..k][i] == bytes[i];
    }
  }

  lemma WordsPart(m: Memory, a: int, ws: seq<u32>, from: nat, to: nat)
    requires WordsAt(m, a, ws) && from <= to <= |ws|
    ensures WordsAt(m, a + 4 * from, ws[from..to])
  {
    hide FetchWord;
    forall i | 0 <= i < to - from
      ensures FetchWord(m, a + 4 * from + 4 * i) == ws[from..to][i]
    {
      assert ws[from..to][i] == ws[from + i] && a + 4 * from + 4 * i == a + 4 * (from + i);
    }
  }

  lemma WordsListing(m: Memory, a: int, ws: seq<u32>)
    requires WordsAt(m, a, ws)
    ensures CodeAt(m, a, DisassembleAll(ws))
  {
    hide FetchWord, Disassemble;
    forall i | 0 <= i < |ws|
      ensures Disassemble(FetchWord(m, a + 4 * i)) == DisassembleAll(ws)[i]
    {
      assert FetchWord(m, a + 4 * i) == ws[i];
    }
  }

  // ------------------------------------------------------------------- jumps

  /** r12 and CTR are the price of the long form. */
  function AfterJump(c: Core, long: bool, address: u64): Core {
    if long then c.(gpr := c.gpr[12 := address], ctr := address) else c
  }

  lemma {:induction false} ShortJumpRuns(cpu: Cpu, s: State, to: u32)
    requires s.pc < M32 && Near(s.pc, to) && InstrAt(s) == B(to - s.pc, false, false)
    ensures Run(cpu, s, 1) == State(to, s.core)
  {
    hide Disassemble, FetchWord;
    assert Run(cpu, s, 1) == Run(cpu, Step(cpu, s), 0);
  }

  lemma {:induction false} LongJumpRuns(cpu: Cpu, s: State, to: u32)
    requires s.pc < M32 && CodeAt(s.core.mem, s.pc, JumpList(to))
    ensures Run(cpu, s, 5) == State(WordAligned(LoadedValue(cpu, to)), AfterJump(s.core, true, LoadedValue(cpu, to)))
  {
    hide WordAligned, Disassemble, FetchWord, Execute, LoadList, LoadedValue, Run, KeepsCode;
    var prog := LoadList(12, to) + [Mtctr(12)];
    var here := Region(s.pc, s.pc + 16);
    assert JumpList(to) == prog + [Bcctr(20, 0, false)];
    CodePrefix(s.core.mem, s.pc, prog, [Bcctr(20, 0, false)]);
    LoadRegisterOnly(to);
    RegisterOnlyKeepsCode(cpu, prog, s.core, here);
    RunStraight(cpu, prog, s, here);
    LoadExecute(cpu, 12, to, s.core);
    ExecuteAllAppend(cpu, LoadList(12, to), [Mtctr(12)], s.core);
    var v := LoadedValue(cpu, to);
    var c1 := s.core.(gpr := s.core.gpr[12 := v]);
    MtctrExecute(cpu, c1);
    var s4 := State(s.pc + 16, AfterJump(s.core, true, v));
    RunAdd(cpu, s, 4, 1);
    assert JumpList(to)[4] == Bcctr(20, 0, false) && InstrAt(s4) == Bcctr(20, 0, false);
    BctrStep(cpu, s4);
  }

  lemma BctrStep(cpu: Cpu, s: State)
    requires InstrAt(s) == Bcctr(20, 0, false)
    ensures Run(cpu, s, 1) == State(WordAligned(s.core.ctr), s.core)
  {
    hide InstrAt, WordAligned;
    assert Run(cpu, s, 1) == Run(cpu, Step(cpu, s), 0);
  }

  lemma MtctrExecute(cpu: Cpu, c: Core)
    ensures ExecuteAll(cpu, [Mtctr(12)], c) == c.(ctr := c.gpr[12])
  {
    assert [Mtctr(12)][1..] == [];
  }

  lemma LoadedAligned(cpu: Cpu, to: u32)
    ensures WordAligned(LoadedValue(cpu, to)) == to <==> to % 4 == 0 && Loads(cpu, to)
  {
  }

  lemma LoadRegisterOnly(to: u32)
    ensures var prog := LoadList(12, to) + [Mtctr(12)];
            |prog| == 4 && forall i :: 0 <= i < |prog| ==> RegisterOnly(prog[i])
  {
  }

  lemma CodePrefix(m: Memory, a: int, xs: seq<Instr>, ys: seq<Instr>)
    requires CodeAt(m, a, xs + ys)
    ensures CodeAt(m, a, xs)
  {
    hide Disassemble, FetchWord;
    forall i | 0 <= i < |xs|
      ensures Disassemble(FetchWord(m, a + 4 * i)) == xs[i]
    {
      assert xs[i] == (xs + ys)[i];
    }
  }

  /**
   * A jump in memory runs to the address its form gives, changing nothing but
   * r12 and CTR in the long form. The long form drops the two low bits of the
   * address it loaded.
   */
  lemma {:induction false} JumpRuns(cpu: Cpu, s: State, to: u32)
    requires s.pc < M32
    requires WordsAt(s.core.mem, s.pc, MakeMinimalJump(s.pc, to))
    ensures var n := |MakeMinimalJump(s.pc, to)|;
            var address := LoadedValue(cpu, to);
            Run(cpu, s, n) == State(if n == 1 then to else WordAligned(address), AfterJump(s.core, n == 5, address))
  {
    hide MakeMinimalJump, JumpList, LoadedValue, Run;
    JumpListing(s.pc, to);
    WordsListing(s.core.mem, s.pc, MakeMinimalJump(s.pc, to));
    if |MakeMinimalJump(s.pc, to)| == 1 {
      assert InstrAt(s) == B(to - s.pc, false, false) by {
        assert DisassembleAll(MakeMinimalJump(s.pc, to))[0] == B(to - s.pc, false, false);
        assert s.pc + 4 * 0 == s.pc;
      }
      ShortJumpRuns(cpu, s, to);
    } else {
      LongJumpRuns(cpu, s, to);
    }
  }

  /** It lands on its target exactly when it is short or the target is aligned and loads exactly. */
  lemma {:induction false} JumpLandsIff(cpu: Cpu, s: State, to: u32)
    requires s.pc < M32
    requires WordsAt(s.core.mem, s.pc, MakeMinimalJump(s.pc, to))
    ensures Run(cpu, s, |MakeMinimalJump(s.pc, to)|).pc == to
            <==> |MakeMinimalJump(s.pc, to)| == 1 || (to % 4 == 0 && Loads(cpu, to))
  {
    hide MakeMinimalJump, Run, WordsAt;
    JumpRuns(cpu, s, to);
    LoadedAligned(cpu, to);
  }

  // ---------------------------------------------------------- whole patch

  /** The core on arrival in the blob. */
  function Entered(c: Core, e: u32, t: u32): Core {
    AfterJump(c, |JumpIn(e, t)| == 5, CodeBase(t))
  }

  /** What the two system calls leave, for a run that arrives at the entrypoint with core c. */
  ghost function Called(cpu: Cpu, c: Core, e: u32, t: u32, count: nat): Core {
    AfterTraps(cpu, PathAddress(e, t, count), Entered(c, e, t))
  }

  /**
   * Where the original program, loaded in `mem`, is taken to start: at the
   * entrypoint, with the TOC pointer in r2 and every other register as the
   * patched run found it (r12 and CTR as a long jump-in leaves them), and CR
   * and XER as the two system calls left them.
   */
  ghost function OriginalStart(cpu: Cpu, c: Core, e: u32, toc: u32, t: u32, count: nat, mem: Memory): State {
    hide Entered, Called;
    var entered, a := Entered(c, e, t), Called(cpu, c, e, t, count);
    State(e, Core(entered.gpr[2 := toc], entered.lr, entered.ctr, a.cr, a.xer, mem))
  }

  /** The addresses at which the patched memory, after the calls, is not the original's. */
  ghost function Apart(cpu: Cpu, c: Core, e: u32, t: u32, count: nat, mem: Memory): iset<int> {
    var a := Called(cpu, c, e, t, count);
    iset x: int | 0 <= x < M64 && ByteAt(a.mem, x) != ByteAt(mem, x)
  }

  /** The constants the emitted code must build are ones it builds exactly. */
  predicate AllLoad(cpu: Cpu, e: u32, toc: u32, t: u32, count: nat) {
    Loads(cpu, toc)
    && (|JumpIn(e, t)| == 5 ==> Loads(cpu, CodeBase(t)))
    && (|JumpBack(e, t, count)| == 5 ==> Loads(cpu, RemainderAddr(e, count)))
  }

  /**
   * The clobber of a long jump back cannot be told from the jump in: a direct
   * jump in is paired with a long jump back exactly when the blob starts in
   * the last 192 bytes of the direct branch's reach.
   */
  lemma OneWayReach(e: u32, t: u32)
    requires RoomAt(t) && e % 4 == 0 && t % 4 == 0 && e + 4 < M32
    ensures |JumpIn(e, t)| == 1 && |JumpBack(e, t, 1)| == 5 <==> 0x1FF_FFFC - 192 < t + 8 - e <= 0x1FF_FFFC
  {
    hide MakeMinimalJump;
    LayoutAddresses(e, t, 1);
    AlignedForm(e, t + 8);
    AlignedForm(t + 208, e + 4);
  }

  lemma AlignedForm(fromAddr: u32, toAddr: u32)
    requires fromAddr % 4 == 0 && toAddr % 4 == 0
    ensures |MakeMinimalJump(fromAddr, toAddr)| == if Near(fromAddr, toAddr) then 1 else 5
  {
    hide MakeMinimalJump;
    AlignedDistance(fromAddr, toAddr);
    MinimalJumpForm(fromAddr, toAddr);
  }

  lemma AlignedDistance(a: int, b: int)
    requires a % 4 == 0 && b % 4 == 0
    ensures (b - a) % 4 == 0
  {
  }

  /**
   * Why a taken target must leave the window. A branch relocated out of it
   * still goes to the same address inside it, but there the patched program
   * has a word of the jump: it fetches what the original fetches exactly when
   * the two words are the same.
   */
  lemma {:induction false} TargetInWindow(cpu: Cpu, i: Instr, j: Instr, o: State, p: State, e: u32, t: u32,
                                          displaced: seq<u32>, k: nat, apart: iset<int>)
    requires i.IsBranch() && !i.Links() && o.pc < M32 && p.pc < M32 && SameEffect(i, j, o.pc, p.pc)
    requires AgreeOutside(p.core, o.core, apart)
    requires |displaced| == |JumpIn(e, t)| && k < |displaced| && e + 4 * |displaced| < M32
    requires Taken(i, o.core) && 0 <= o.pc + BranchDisplacement(i) < M32 && Target(i, o.pc, o.core) == e + 4 * k
    requires WordsAt(o.core.mem, e, displaced) && WordsAt(p.core.mem, e, JumpIn(e, t))
    ensures var o', p' := StepWith(cpu, i, o), StepWith(cpu, j, p);
            p'.pc == o'.pc == e + 4 * k
            && (FetchWord(p'.core.mem, p'.pc) == FetchWord(o'.core.mem, o'.pc) <==> displaced[k] == JumpIn(e, t)[k])
  {
    hide JumpIn, FetchWord, AgreeOutside, SameEffect, Taken, Target, CoreAfterBranch;
    BranchSimulates(cpu, i, j, o, p, apart);
    assert FetchWord(o.core.mem, e + 4 * k) == displaced[k];
    assert FetchWord(p.core.mem, e + 4 * k) == JumpIn(e, t)[k];
  }

  /** The patched program as buildTrampoline laid it out, loaded and about to start. */
  ghost predicate Installed(s: State, e: u32, toc: u32, t: u32, displaced: seq<u32>, path: seq<u8>, r: TrampolineResult) {
    Assemble(e, toc, t, displaced, path) == Ok(r) && |displaced| == |JumpIn(e, t)| && |path| <= 1023
    && e % 4 == 0 && t % 4 == 0 && RoomAt(t) && e + 4 * |displaced| < M32
    && s.pc == e && Holds(s.core.mem, e, r.entryPatchBytes) && Holds(s.core.mem, t, r.blob)
  }

  function BlobRegion(r: TrampolineResult): Region {
    Region(r.trampolineAddr, r.trampolineAddr + |r.blob|)
  }

  function WindowRegion(e: u32, count: nat): Region {
    Region(e, e + 4 * count)
  }

  /** The same address outside the window; equal cores up to `apart` and, after a long jump back, r12 and CTR. */
  ghost predicate SameProgramState(p: State, o: State, apart: iset<int>, window: Region, viaLongJump: bool) {
    p.pc == o.pc && !window.Has(o.pc)
    && AgreeOutside(p.core, AfterJump(o.core, viaLongJump, o.pc), apart)
  }

  /** The original state the patched run goes on from. */
  function Resumed(o: State, viaLongJump: bool): State {
    State(o.pc, AfterJump(o.core, viaLongJump, o.pc))
  }

  /** From there on the patched program runs in step with the original one. */
  ghost predicate GoesOn(cpu: Cpu, p: State, o: State, apart: iset<int>, k: nat) {
    StaysClear(cpu, o, apart, k) ==>
      Run(cpu, p, k).pc == Run(cpu, o, k).pc && AgreeOutside(Run(cpu, p, k).core, Run(cpu, o, k).core, apart)
  }

  lemma {:induction false} SameStateGoesOn(cpu: Cpu, p: State, o: State, apart: iset<int>, window: Region,
                                           viaLongJump: bool, k: nat)
    requires SameProgramState(p, o, apart, window, viaLongJump)
    ensures GoesOn(cpu, p, Resumed(o, viaLongJump), apart, k)
  {
    hide Run, StaysClear, AgreeOutside;
    if StaysClear(cpu, Resumed(o, viaLongJump), apart, k) {
      RunsTogether(cpu, Resumed(o, viaLongJump), p, apart, k);
    }
  }

  lemma EnteredStack(c: Core, e: u32, t: u32)
    ensures Entered(c, e, t).gpr[1] == c.gpr[1] && Entered(c, e, t).mem == c.mem
  {
    hide JumpIn;
  }

  /** What the installed bytes mean as words. */
  lemma {:induction false} InstalledCode(s: State, e: u32, toc: u32, t: u32, displaced: seq<u32>, path: seq<u8>,
                                         r: TrampolineResult)
    returns (rel: seq<u32>)
    requires Installed(s, e, toc, t, displaced, path, r)
    ensures Relocated(displaced, e, ResumeAddr(t)) == Ok(rel) && |rel| == |displaced|
    ensures WordsAt(s.core.mem, e, JumpIn(e, t)) && WordsAt(s.core.mem, t + 8, CodeWords(e, toc, t, rel))
    ensures 8 + 4 * |CodeWords(e, toc, t, rel)| + |path| + 1 <= |r.blob| <= 1268
    ensures Holds(s.core.mem, t + 8 + 4 * |CodeWords(e, toc, t, rel)|, path + [0])
    ensures |CodeWords(e, toc, t, rel)| == 49 + |displaced| + |JumpBack(e, t, |displaced|)|
    ensures r.trampolineAddr == t
  {
    hide Assemble, JumpIn, JumpBack, CodeWords, Relocated, LaidOut, BytesOfWords, Holds, WordsAt;
    BlobLayout(e, toc, t, displaced, path, r);
    rel := Relocated(displaced, e, ResumeAddr(t)).value;
    HeldWords(s.core.mem, e, JumpIn(e, t));
    LaidOutSize(r.blob, CodeWords(e, toc, t, rel), path);
    HeldBlob(s.core.mem, t, r.blob, CodeWords(e, toc, t, rel), path);
  }

  /** The three parts of the code, each at its address. */
  lemma {:induction false} CodeParts(m: Memory, e: u32, toc: u32, t: u32, rel: seq<u32>)
    requires RoomAt(t) && |rel| <= 5 && WordsAt(m, t + 8, CodeWords(e, toc, t, rel))
    ensures CodeAt(m, t + 8, PrefixList(PathAddress(e, t, |rel|), toc))
    ensures WordsAt(m, t + 204, rel)
    ensures WordsAt(m, t + 204 + 4 * |rel|, JumpBack(e, t, |rel|))
  {
    hide PrefixWords, PrefixList, JumpBack, WordsAt, CodeAt, PathAddress, LoadModuleCall, StartModuleCall, DisassembleAll;
    var path := PathAddress(e, t, |rel|);
    PrefixWordsCount(path, toc);
    ThreeParts(m, t + 8, PrefixWords(path, toc), rel, JumpBack(e, t, |rel|));
    WordsListing(m, t + 8, PrefixWords(path, toc));
    PrefixListing(path, toc);
  }

  lemma ThreeParts(m: Memory, addr: int, a: seq<u32>, b: seq<u32>, c: seq<u32>)
    requires WordsAt(m, addr, a + b + c)
    ensures WordsAt(m, addr, a) && WordsAt(m, addr + 4 * |a|, b) && WordsAt(m, addr + 4 * |a| + 4 * |b|, c)
  {
    hide WordsAt;
    var ws := a + b + c;
    WordsPart(m, addr, ws, 0, |a|);
    WordsPart(m, addr, ws, |a|, |a| + |b|);
    WordsPart(m, addr, ws, |a| + |b|, |ws|);
    assert ws[0..|a|] == a && ws[|a|..|a| + |b|] == b && ws[|a| + |b|..|ws|] == c;
  }

  /** The prefix in memory, entered: nothing it does branches or writes the blob. */
  lemma {:induction false} PrefixInstalled(cpu: Cpu, s: State, e: u32, toc: u32, t: u32, displaced: seq<u32>,
                                           path: seq<u8>, r: TrampolineResult)
    requires Installed(s, e, toc, t, displaced, path, r)
    requires |JumpIn(e, t)| == 5 ==> Loads(cpu, CodeBase(t))
    requires KernelOk(cpu, BlobRegion(r)) && FrameClear(Wrap(s.core.gpr[1] as int - 256), BlobRegion(r))
    ensures var c, prog := Entered(s.core, e, t), PrefixList(PathAddress(e, t, |displaced|), toc);
            Run(cpu, s, |JumpIn(e, t)|) == State(t + 8, c) && c.gpr[1] == s.core.gpr[1] && c.mem == s.core.mem
            && CodeAt(c.mem, t + 8, prog) && KeepsCode(cpu, prog, c, BlobRegion(r)) && StraightLine(prog)
    ensures r.trampolineAddr == t && t + 204 <= BlobRegion(r).hi <= t + 1268
  {
    hide Assemble, JumpBack, CodeWords, Relocated, Run, PrefixList, WordsAt, CodeAt, KeepsCode, StraightLine, KernelOk,
      FrameClear, Holds, MakeMinimalJump;
    var rel := InstalledCode(s, e, toc, t, displaced, path, r);
    LayoutAddresses(e, t, |displaced|);
    JumpRuns(cpu, s, CodeBase(t));
    LoadedAligned(cpu, CodeBase(t));
    EnteredStack(s.core, e, t);
    CodeParts(s.core.mem, e, toc, t, rel);
    PrefixKeepsCode(cpu, PathAddress(e, t, |displaced|), toc, Entered(s.core, e, t), BlobRegion(r));
  }

  /** Stage one: from the entrypoint to the first relocated instruction. */
  lemma {:induction false} RunsToResume(cpu: Cpu, s: State, e: u32, toc: u32, t: u32, displaced: seq<u32>, path: seq<u8>,
                                        r: TrampolineResult)
    requires Installed(s, e, toc, t, displaced, path, r)
    requires AllLoad(cpu, e, toc, t, |displaced|)
    requires KernelOk(cpu, BlobRegion(r)) && FrameClear(Wrap(s.core.gpr[1] as int - 256), BlobRegion(r))
    ensures var p, a := Run(cpu, s, |JumpIn(e, t)| + 49), Called(cpu, s.core, e, t, |displaced|);
            p == State(t + 204, OriginalStart(cpu, s.core, e, toc, t, |displaced|, a.mem).core)
            && Unchanged(s.core.mem, a.mem, BlobRegion(r))
  {
    hide Installed, JumpIn, JumpBack, Run, PrefixList, CodeAt, KeepsCode, StraightLine, ExecuteAll, KernelOk, FrameClear,
      Unchanged, AfterTraps, PathAddress, Entered;
    PrefixInstalled(cpu, s, e, toc, t, displaced, path, r);
    var c, pathAddr := Entered(s.core, e, t), PathAddress(e, t, |displaced|);
    InstalledBounds(s, e, toc, t, displaced, path, r);
    RunStraight(cpu, PrefixList(pathAddr, toc), State(t + 8, c), BlobRegion(r));
    PrefixExecute(cpu, pathAddr, toc, c, BlobRegion(r));
    RunAdd(cpu, s, |JumpIn(e, t)|, 49);
    LoadsValue(cpu, toc);
  }

  lemma LoadsValue(cpu: Cpu, v: u32)
    requires Loads(cpu, v)
    ensures LoadedValue(cpu, v) == v
  {
  }

  // ------------------------------------------------------------- system calls

  /** Running only the first part of a straight-line list. */
  lemma {:induction false} RunFirstPart(cpu: Cpu, xs: seq<Instr>, ys: seq<Instr>, s: State, code: Region)
    requires StraightLine(xs + ys) && CodeAt(s.core.mem, s.pc, xs + ys) && KeepsCode(cpu, xs + ys, s.core, code)
    requires 0 <= code.lo <= s.pc && s.pc + 4 * |xs + ys| <= code.hi < M64
    ensures Run(cpu, s, |xs|) == State(s.pc + 4 * |xs|, ExecuteAll(cpu, xs, s.core))
    ensures ys != [] ==> InstrAt(Run(cpu, s, |xs|)) == ys[0]
  {
    hide Disassemble, FetchWord, Run, ExecuteAll;
    KeepsCodeFirst(cpu, xs, ys, s.core, code);
    CodePrefix(s.core.mem, s.pc, xs, ys);
    forall i | 0 <= i < |xs|
      ensures !xs[i].IsBranch()
    {
      assert xs[i] == (xs + ys)[i];
    }
    RunStraight(cpu, xs, s, code);
    if ys != [] {
      var m' := ExecuteAll(cpu, xs, s.core).mem;
      CodeUnchanged(s.core.mem, m', code, s.pc, xs + ys);
      assert (xs + ys)[|xs|] == ys[0];
    }
  }

  lemma {:induction false} KeepsCodeFirst(cpu: Cpu, xs: seq<Instr>, ys: seq<Instr>, c: Core, code: Region)
    requires KeepsCode(cpu, xs + ys, c, code)
    ensures KeepsCode(cpu, xs, c, code)
    decreases |xs|
  {
    hide Execute, Unchanged;
    if xs != [] {
      assert (xs + ys)[1..] == xs[1..] + ys;
      KeepsCodeFirst(cpu, xs[1..], ys, Execute(cpu, xs[0], c), code);
    }
  }

  /** The prefix cut before its first and before its second sc. */
  lemma {:induction false} PrefixCuts(path: u32, toc: u32)
    returns (first: seq<Instr>, rest1: seq<Instr>, second: seq<Instr>, rest2: seq<Instr>)
    ensures first == PrologueList() + LoadModuleList(path) && |first| == 22
    ensures second == first + [Sc] + StartModuleList() && |second| == 29
    ensures PrefixList(path, toc) == first + rest1 == second + rest2
    ensures rest1 != [] && rest1[0] == Sc && rest2 != [] && rest2[0] == Sc
  {
    hide PrologueList, LoadModuleList, StartModuleList, EpilogueList, LoadList;
    CallLengths(path);
    first := PrologueList() + LoadModuleList(path);
    rest2 := [Sc] + (EpilogueList() + LoadList(2, toc));
    rest1 := [Sc] + (StartModuleList() + rest2);
    second := first + [Sc] + StartModuleList();
  }

  lemma CallLengths(path: u32)
    ensures |PrologueList()| == 16 && |LoadModuleList(path)| == 6 && |StartModuleList()| == 6
  {
  }

  lemma {:induction false} FirstTrapExecute(cpu: Cpu, path: u32, c: Core)
    ensures ExecuteAll(cpu, PrologueList() + LoadModuleList(path), c) == FirstTrap(cpu, path, c)
    ensures ExecuteAll(cpu, PrologueList() + LoadModuleList(path) + [Sc] + StartModuleList(), c)
            == SecondTrap(cpu, path, c)
  {
    hide PrologueList, LoadModuleList, StartModuleList, ExecuteAll;
    var first := PrologueList() + LoadModuleList(path);
    ExecuteAllAppend(cpu, PrologueList(), LoadModuleList(path), c);
    ExecuteAllAppend(cpu, first + [Sc], StartModuleList(), c);
    ExecuteAllAppend(cpu, first, [Sc], c);
    ScExecute(cpu, [], FirstTrap(cpu, path, c));
    ExecuteNothing(cpu, cpu.kernel(FirstTrap(cpu, path, c)));
    assert [Sc] + [] == [Sc];
  }

  /** The patched run reaches both system calls, in the states Prefix speaks of. */
  lemma {:induction false} ReachesTraps(cpu: Cpu, s: State, e: u32, toc: u32, t: u32, displaced: seq<u32>, path: seq<u8>,
                                        r: TrampolineResult)
    requires Installed(s, e, toc, t, displaced, path, r)
    requires |JumpIn(e, t)| == 5 ==> Loads(cpu, CodeBase(t))
    requires KernelOk(cpu, BlobRegion(r)) && FrameClear(Wrap(s.core.gpr[1] as int - 256), BlobRegion(r))
    ensures var j, pathAddr, c := |JumpIn(e, t)|, PathAddress(e, t, |displaced|), Entered(s.core, e, t);
            var s1, s2 := Run(cpu, s, j + 22), Run(cpu, s, j + 29);
            s1 == State(t + 96, FirstTrap(cpu, pathAddr, c)) && InstrAt(s1) == Sc
            && s2 == State(t + 124, SecondTrap(cpu, pathAddr, c)) && InstrAt(s2) == Sc
  {
    hide Installed, JumpIn, JumpBack, Run, PrefixList, CodeAt, KeepsCode, StraightLine, ExecuteAll, KernelOk, FrameClear,
      PathAddress, Entered, InstrAt, FirstTrap, SecondTrap, PrologueList, LoadModuleList, StartModuleList;
    PrefixInstalled(cpu, s, e, toc, t, displaced, path, r);
    InstalledBounds(s, e, toc, t, displaced, path, r);
    var j, pathAddr, c := |JumpIn(e, t)|, PathAddress(e, t, |displaced|), Entered(s.core, e, t);
    var s0 := State(t + 8, c);
    var first, rest1, second, rest2 := PrefixCuts(pathAddr, toc);
    RunFirstPart(cpu, first, rest1, s0, BlobRegion(r));
    RunFirstPart(cpu, second, rest2, s0, BlobRegion(r));
    FirstTrapExecute(cpu, pathAddr, c);
    RunAdd(cpu, s, j, 22);
    RunAdd(cpu, s, j, 29);
  }

  /** A state about to call sys_prx_load_module(path, 0, 0), only the new frame written since `mem`. */
  ghost predicate FirstCall(cpu: Cpu, mem: Memory, s: State, pathAddr: u32, path: seq<u8>) {
    InstrAt(s) == Sc && s.core.gpr[11] == 480
    && s.core.gpr[3] == LoadedValue(cpu, pathAddr) && s.core.gpr[4] == 0 && s.core.gpr[5] == 0
    && SameOutsideSlots(mem, s.core.mem, s.core.gpr[1])
    && (Loads(cpu, pathAddr) ==> Holds(s.core.mem, s.core.gpr[3], path + [0]))
  }

  /** A state about to call sys_prx_start_module(id, 0, 0, 0, 0, 0), id being what the call at s1 returned. */
  ghost predicate SecondCall(cpu: Cpu, s1: State, s: State) {
    InstrAt(s) == Sc && s.core.gpr[11] == 481
    && s.core.gpr[3] == cpu.kernel(s1.core).gpr[3]
    && s.core.gpr[4] == 0 && s.core.gpr[5] == 0 && s.core.gpr[6] == 0 && s.core.gpr[7] == 0 && s.core.gpr[8] == 0
    && s.core.mem == cpu.kernel(s1.core).mem
  }

  /**
   * System-call arguments in the run. At the first sc r11 is 480, r4 = r5 = 0,
   * and r3 points at memory that holds exactly the path and a NUL if that
   * address is one that loads; at the second r11 is 481, r3 is what the first
   * call returned and r4 .. r8 are 0. Before the first only the new frame is
   * written, between the calls nothing is.
   */
  lemma {:induction false} TrapsInRun(cpu: Cpu, s: State, e: u32, toc: u32, t: u32, displaced: seq<u32>, path: seq<u8>,
                                      r: TrampolineResult)
    requires Installed(s, e, toc, t, displaced, path, r)
    requires |JumpIn(e, t)| == 5 ==> Loads(cpu, CodeBase(t))
    requires KernelOk(cpu, BlobRegion(r)) && FrameClear(Wrap(s.core.gpr[1] as int - 256), BlobRegion(r))
    ensures FirstCall(cpu, s.core.mem, Run(cpu, s, |JumpIn(e, t)| + 22), PathAddress(e, t, |displaced|), path)
    ensures SecondCall(cpu, Run(cpu, s, |JumpIn(e, t)| + 22), Run(cpu, s, |JumpIn(e, t)| + 29))
  {
    hide Installed, JumpIn, Run, KernelOk, FrameClear, PathAddress, Entered, InstrAt, FirstTrap, SecondTrap,
      SameOutsideSlots, Holds, LoadedValue;
    ReachesTraps(cpu, s, e, toc, t, displaced, path, r);
    var pathAddr, c := PathAddress(e, t, |displaced|), Entered(s.core, e, t);
    EnteredStack(s.core, e, t);
    TrapArguments(cpu, pathAddr, c, BlobRegion(r));
    SecondTrapIs(cpu, pathAddr, c);
    if Loads(cpu, pathAddr) {
      LoadsValue(cpu, pathAddr);
      PathHeld(s, FirstTrap(cpu, pathAddr, c).mem, e, toc, t, displaced, path, r);
    }
  }

  lemma SecondTrapIs(cpu: Cpu, path: u32, c: Core)
    ensures SecondTrap(cpu, path, c) == ExecuteAll(cpu, StartModuleList(), cpu.kernel(FirstTrap(cpu, path, c)))
  {
  }

  /** Memory written only in the new frame still holds the path. */
  lemma {:induction false} PathHeld(s: State, m: Memory, e: u32, toc: u32, t: u32, displaced: seq<u32>, path: seq<u8>,
                                    r: TrampolineResult)
    requires Installed(s, e, toc, t, displaced, path, r)
    requires FrameClear(Wrap(s.core.gpr[1] as int - 256), BlobRegion(r))
    requires SameOutsideSlots(s.core.mem, m, Wrap(s.core.gpr[1] as int - 256))
    ensures Holds(m, PathAddress(e, t, |displaced|), path + [0])
  {
    hide Assemble, JumpIn, JumpBack, CodeWords, Relocated, WordsAt, FrameClear, SameOutsideSlots, Holds;
    var rel := InstalledCode(s, e, toc, t, displaced, path, r);
    LayoutAddresses(e, t, |displaced|);
    UnchangedOutsideSlots(s.core.mem, m, Wrap(s.core.gpr[1] as int - 256), BlobRegion(r));
    HeldUnchanged(s.core.mem, m, BlobRegion(r), PathAddress(e, t, |displaced|), path + [0]);
  }

  lemma HeldUnchanged(m: Memory, m': Memory, code: Region, a: int, bytes: seq<u8>)
    requires Unchanged(m, m', code) && code.lo <= a && a + |bytes| <= code.hi && Holds(m, a, bytes)
    ensures Holds(m', a, bytes)
  {
    forall i | 0 <= i < |bytes|
      ensures ByteAt(m', a + i) == bytes[i]
    {
      assert code.Has(a + i);
    }
  }

  // ------------------------------------------------------------ window and exit

  lemma {:induction false} RestoredWindow(m: Memory, e: u32, ws: seq<u32>)
    requires e + 4 * |ws| < M32
    ensures WordsAt(StoreBytes(m, e, BytesOfWords(ws)), e, ws)
    ensures forall a: u64 :: !Region(e, e + 4 * |ws|).Has(a) ==>
              ByteAt(StoreBytes(m, e, BytesOfWords(ws)), a) == ByteAt(m, a)
  {
    hide StoreBytes, BytesOfWords, FetchWord, WordsAt;
    var bytes := BytesOfWords(ws);
    var m' := StoreBytes(m, e, bytes);
    forall a: u64
      ensures Region(e, e + 4 * |ws|).Has(a) ==> ByteAt(m', a) == bytes[a - e]
      ensures !Region(e, e + 4 * |ws|).Has(a) ==> ByteAt(m', a) == ByteAt(m, a)
    {
      ByteAfterStore(m, e, bytes, a);
    }
    assert Holds(m', e, bytes) by {
      forall i | 0 <= i < |bytes|
        ensures ByteAt(m', e + i) == bytes[i]
      {
        assert Region(e, e + 4 * |ws|).Has(e + i);
      }
    }
    HeldWords(m', e, ws);
  }

  /** The smallest difference: an original that finds everything as the calls left it is apart in the window only. */
  lemma {:induction false} RestoredApart(cpu: Cpu, c: Core, e: u32, t: u32, displaced: seq<u32>, x: int)
    requires e + 4 * |displaced| < M32
    requires var mem := StoreBytes(Called(cpu, c, e, t, |displaced|).mem, e, BytesOfWords(displaced));
             x in Apart(cpu, c, e, t, |displaced|, mem)
    ensures WindowRegion(e, |displaced|).Has(x)
  {
    hide StoreBytes, BytesOfWords, AfterTraps, WordsAt, PathAddress, Entered;
    RestoredWindow(Called(cpu, c, e, t, |displaced|).mem, e, displaced);
  }

  /** At the resume point the relocated list stands in for the displaced one. */
  lemma {:induction false} PlacedAtResume(p: State, o: State, e: u32, t: u32, displaced: seq<u32>, rel: seq<u32>,
                                          blob: Region)
    requires RoomAt(t) && |displaced| <= 5 && e + 4 * |displaced| < M32
    requires Relocated(displaced, e, ResumeAddr(t)) == Ok(rel)
    requires o.pc == e && p.pc == t + 204 && 0 <= blob.lo <= t && t + 204 + 4 * |displaced| <= blob.hi < M32
    requires WordsAt(o.core.mem, e, displaced) && WordsAt(p.core.mem, t + 204, rel)
    ensures Placed(o, p, displaced, rel, WindowRegion(e, |displaced|), blob)
  {
    hide Disassemble, RelocateWord, SameEffect, WordsAt, Relocated, JumpBack, PathAddress;
    LayoutAddresses(e, t, |displaced|);
    RelocatedWords(displaced, e, ResumeAddr(t));
    forall i | 0 <= i < |displaced|
      ensures SameEffect(Disassemble(displaced[i]), Disassemble(rel[i]), o.pc + 4 * i, p.pc + 4 * i)
    {
      assert Wrap32(e + 4 * i) == e + 4 * i && Wrap32(ResumeAddr(t) + 4 * i) == t + 204 + 4 * i;
      RelocatedEffect(displaced[i], e + 4 * i, t + 204 + 4 * i);
    }
  }

  /**
   * The whole patch preserves meaning. From any state at the entrypoint of the
   * patched program, for every behaviour of the two system calls that keeps
   * the frame and the blob, and for every memory `mem` that holds the original
   * words in the window, the patched run reaches after n steps a state that
   * the original program, loaded in `mem` and started as OriginalStart says,
   * reaches after m: the same address outside the window, the same registers,
   * and the same memory at every address that is not in Apart. HandOver says
   * where n and m are. The run has left by a long jump exactly when it fell
   * through to a jump back of five words; then r12 and CTR hold the address
   * jumped to.
   */
  lemma {:induction false} PatchedRunSimulates(cpu: Cpu, s: State, e: u32, toc: u32, t: u32, displaced: seq<u32>,
                                               path: seq<u8>, r: TrampolineResult, mem: Memory)
    returns (n: nat, m: nat, viaLongJump: bool)
    requires Installed(s, e, toc, t, displaced, path, r) && AllLoad(cpu, e, toc, t, |displaced|)
    requires KernelOk(cpu, BlobRegion(r)) && FrameClear(Wrap(s.core.gpr[1] as int - 256), BlobRegion(r))
    requires WordsAt(mem, e, displaced)
    requires Displaceable(cpu, OriginalStart(cpu, s.core, e, toc, t, |displaced|, mem),
                          Apart(cpu, s.core, e, t, |displaced|, mem), WindowRegion(e, |displaced|), |displaced|,
                          BlobRegion(r))
    ensures SameProgramState(Run(cpu, s, n), Run(cpu, OriginalStart(cpu, s.core, e, toc, t, |displaced|, mem), m),
                             Apart(cpu, s.core, e, t, |displaced|, mem), WindowRegion(e, |displaced|), viaLongJump)
    ensures HandOver(cpu, s, OriginalStart(cpu, s.core, e, toc, t, |displaced|, mem), e, t, |displaced|, n, m, viaLongJump)
  {
    hide Installed, JumpIn, JumpBack, Run, WordsAt, OriginalStart, Apart, AgreeOutside, Displaceable, KernelOk, FrameClear,
      Unchanged, AllLoad;
    var k, window, apart := |displaced|, WindowRegion(e, |displaced|), Apart(cpu, s.core, e, t, |displaced|, mem);
    var o := OriginalStart(cpu, s.core, e, toc, t, k, mem);
    InstalledBounds(s, e, toc, t, displaced, path, r);
    var j := |JumpIn(e, t)| + 49;
    m := RunsThroughWindow(cpu, s, e, toc, t, displaced, path, r, mem);
    n := j + m;
    RunAdd(cpu, s, j, m);
    var p := Run(cpu, s, j);
    var p', o' := Run(cpu, p, m), Run(cpu, o, m);
    PassedSome(cpu, o, p, e, t, m, k, apart, BlobRegion(r));
    if FallsThrough(o', p', e, t, m, k) {
      n, viaLongJump := LeavesByJumpBack(cpu, s, n, p', o', e, toc, t, k, apart);
    } else {
      viaLongJump := false;
      AfterNoJump(o'.core, o'.pc);
    }
  }

  /** Both runs are past their last displaced instruction: at the window's end and at the jump back. */
  predicate FallsThrough(o: State, p: State, e: u32, t: u32, m: nat, count: nat) {
    m == count && o.pc == e + 4 * count && p.pc == t + 204 + 4 * count
  }

  /**
   * When the patched run from s hands over to the original program: m displaced
   * instructions, at least one, after the jump in and the 49 instructions with
   * the two system calls, and after the jump back if it fell through to it.
   */
  ghost predicate HandOver(cpu: Cpu, s: State, o: State, e: u32, t: u32, count: nat, n: nat, m: nat, viaLongJump: bool) {
    var through := FallsThrough(Run(cpu, o, m), Run(cpu, s, |JumpIn(e, t)| + 49 + m), e, t, m, count);
    0 < m <= count
    && n == |JumpIn(e, t)| + 49 + m + (if through then |JumpBack(e, t, count)| else 0)
    && (viaLongJump <==> through && |JumpBack(e, t, count)| == 5)
  }

  /** At least one displaced instruction has run: the entrypoint itself is in the window. */
  lemma PassedSome(cpu: Cpu, o: State, p: State, e: u32, t: u32, m: nat, count: nat, apart: iset<int>, blob: Region)
    requires WindowPassed(cpu, o, p, e, t, m, count, apart, blob) && count > 0
    ensures m > 0
  {
    hide AgreeOutside, WordsAt, JumpBack;
  }

  lemma AfterNoJump(c: Core, address: u64)
    ensures AfterJump(c, false, address) == c
  {
  }

  lemma InstalledBounds(s: State, e: u32, toc: u32, t: u32, displaced: seq<u32>, path: seq<u8>, r: TrampolineResult)
    requires Installed(s, e, toc, t, displaced, path, r)
    ensures 0 < |displaced| <= 5 && RoomAt(t) && e % 4 == 0 && t % 4 == 0 && e + 4 * |displaced| < M32
  {
    hide Assemble, JumpIn, Holds;
  }

  /** Stages one and two: to the resume point and through the relocated instructions. */
  lemma {:induction false} RunsThroughWindow(cpu: Cpu, s: State, e: u32, toc: u32, t: u32, displaced: seq<u32>,
                                             path: seq<u8>, r: TrampolineResult, mem: Memory)
    returns (m: nat)
    requires Installed(s, e, toc, t, displaced, path, r) && AllLoad(cpu, e, toc, t, |displaced|)
    requires KernelOk(cpu, BlobRegion(r)) && FrameClear(Wrap(s.core.gpr[1] as int - 256), BlobRegion(r))
    requires WordsAt(mem, e, displaced)
    requires Displaceable(cpu, OriginalStart(cpu, s.core, e, toc, t, |displaced|, mem),
                          Apart(cpu, s.core, e, t, |displaced|, mem), WindowRegion(e, |displaced|), |displaced|,
                          BlobRegion(r))
    ensures WindowPassed(cpu, OriginalStart(cpu, s.core, e, toc, t, |displaced|, mem),
                         Run(cpu, s, |JumpIn(e, t)| + 49), e, t, m, |displaced|,
                         Apart(cpu, s.core, e, t, |displaced|, mem), BlobRegion(r))
  {
    hide Assemble, JumpIn, JumpBack, CodeWords, Relocated, Run, WordsAt, CodeAt, KernelOk, FrameClear, Unchanged,
      Placed, Displaceable, AgreeOutside, WindowDone, WindowPassed, AllLoad, PathAddress, AfterTraps, Entered, Holds,
      Apart;
    var k, blob, window := |displaced|, BlobRegion(r), WindowRegion(e, |displaced|);
    var o, apart := OriginalStart(cpu, s.core, e, toc, t, k, mem), Apart(cpu, s.core, e, t, k, mem);
    var rel := InstalledCode(s, e, toc, t, displaced, path, r);
    RunsToResume(cpu, s, e, toc, t, displaced, path, r);
    var p := Run(cpu, s, |JumpIn(e, t)| + 49);
    WordsUnchanged(s.core.mem, p.core.mem, blob, t + 8, CodeWords(e, toc, t, rel));
    CodeParts(p.core.mem, e, toc, t, rel);
    ApartAgrees(cpu, s.core, e, toc, t, k, mem);
    PlacedAtResume(p, o, e, t, displaced, rel, blob);
    m := DisplacedSimulates(cpu, o, p, displaced, rel, apart, window, blob);
    JumpBackKept(cpu, o, p, e, t, m, k, apart, blob);
  }

  lemma {:induction false} JumpBackKept(cpu: Cpu, o: State, p: State, e: u32, t: u32, m: nat, count: nat,
                                        apart: iset<int>, blob: Region)
    requires p.pc == t + 204 && o.pc == e && 0 <= blob.lo <= t
    requires t + 204 + 4 * count + 4 * |JumpBack(e, t, count)| <= blob.hi < M32
    requires WindowDone(o, p, Run(cpu, o, m), Run(cpu, p, m), m, count, apart, WindowRegion(e, count), blob)
    requires WordsAt(p.core.mem, t + 204 + 4 * count, JumpBack(e, t, count))
    ensures WindowPassed(cpu, o, p, e, t, m, count, apart, blob)
  {
    hide Run, WordsAt, JumpBack, Unchanged, AgreeOutside;
    if FallsThrough(Run(cpu, o, m), Run(cpu, p, m), e, t, m, count) {
      WordsUnchanged(p.core.mem, Run(cpu, p, m).core.mem, blob, t + 204 + 4 * count, JumpBack(e, t, count));
    }
  }

  /**
   * From the resume point p the run has passed the window in m steps, in step
   * with the original from o; if it fell through, the jump back is in place.
   */
  ghost predicate WindowPassed(cpu: Cpu, o: State, p: State, e: u32, t: u32, m: nat, count: nat, apart: iset<int>,
                               blob: Region) {
    p.pc == t + 204 && o.pc == e && m <= count
    && var o', p' := Run(cpu, o, m), Run(cpu, p, m);
       AgreeOutside(p'.core, o'.core, apart)
       && (if FallsThrough(o', p', e, t, m, count)
           then WordsAt(p'.core.mem, t + 204 + 4 * count, JumpBack(e, t, count))
           else p'.pc == o'.pc && !WindowRegion(e, count).Has(o'.pc))
  }

  /** Outside Apart the resumed program finds what the original finds. */
  lemma ApartAgrees(cpu: Cpu, c: Core, e: u32, toc: u32, t: u32, count: nat, mem: Memory)
    ensures AgreeOutside(OriginalStart(cpu, c, e, toc, t, count, Called(cpu, c, e, t, count).mem).core,
                         OriginalStart(cpu, c, e, toc, t, count, mem).core, Apart(cpu, c, e, t, count, mem))
  {
    hide AfterTraps, PathAddress, Entered;
  }

  lemma {:induction false} LeavesByJumpBack(cpu: Cpu, s: State, n0: nat, p: State, o: State, e: u32, toc: u32, t: u32,
                                            k: nat, apart: iset<int>)
    returns (n: nat, viaLongJump: bool)
    requires RoomAt(t) && k <= 5 && e % 4 == 0 && t % 4 == 0 && e + 4 * k < M32
    requires Run(cpu, s, n0) == p && p.pc == t + 204 + 4 * k && o.pc == e + 4 * k
    requires WordsAt(p.core.mem, p.pc, JumpBack(e, t, k)) && AgreeOutside(p.core, o.core, apart)
    requires AllLoad(cpu, e, toc, t, k)
    ensures SameProgramState(Run(cpu, s, n), o, apart, WindowRegion(e, k), viaLongJump)
    ensures n == n0 + |JumpBack(e, t, k)| && (viaLongJump <==> |JumpBack(e, t, k)| == 5)
  {
    hide Run, WordsAt, MakeMinimalJump, JumpIn;
    LayoutAddresses(e, t, k);
    JumpRuns(cpu, p, RemainderAddr(e, k));
    LoadedAligned(cpu, RemainderAddr(e, k));
    RunAdd(cpu, s, n0, |JumpBack(e, t, k)|);
    n, viaLongJump := n0 + |JumpBack(e, t, k)|, |JumpBack(e, t, k)| == 5;
  }
}
