# ELF-Craft, verified

ELF-Craft rewrites a PlayStation 3 executable. It parses an ELF64 big-endian
file, appends a code segment, and overwrites the first one or five instructions
at the entrypoint with a jump into that segment. The appended code saves
registers, makes two system calls, restores the registers, runs the displaced
instructions at their new address and jumps back. This project models that
rewriter and proves that the rewritten program means what the original meant.

Run `dafny verify dfyconfig.toml` to check everything.

## How the model is built

Three layers, composed at the end.

**Machine and code generator.**

- `Bits`, `Encode`, `Isa`: the encoders keep the source's shift-and-mask
  expressions as bodies; their contracts give the word as a sum of bit fields,
  and `Isa.Disassemble` decodes words as Power ISA 2.06 Book I does (sections
  1.6, 2.4 and 3.3). An encoder that throws `std::invalid_argument` returns
  `None`.
- `Decode`, `Codegen`, `Syscalls`, `Trampoline`: classification and relocation
  of branches, the pieces of the injected code, and the layout of the blob.
- `Machine`: 32 64-bit registers, LR, CTR, CR, XER, a program counter and byte
  memory. `Cpu` holds what is left open: an uninterpreted function for every
  instruction outside the subset (it does not see the program counter) and an
  arbitrary function for a system call.
- `Listing`, `Transparency`, `Prefix`, `Simulation`, `Accesses`, `Patched`: what
  the emitted words do when they run, up to the simulation theorem. `Accesses`
  says exactly which loads and stores can be displaced.

**The ELF file.** `Bytes` and `ElfTypes` are the byte codecs and record layouts
of both classes and both byte orders. `ElfImage` and `ElfEdits` give an
`ElfFile` as a value with parse, serialize and the edits as functions on it, and
prove the theorems about them. `ElfFiles.ElfFile` is the mutable object itself;
each of its methods is proved equal to the function on its `View()`. `ElfLayout`
says in bytes where every named field stands and which files parse accepts.
`Endian` is the `Endianed` scalar, `Toc` the entry descriptor.

**The command.** `Patcher` is `buildTrampoline` and the sequence in `main` that
places, builds, adds, patches and serializes. `PatchedFile` says byte for byte
what the output is, `AfterPatch` what reading it back gives, `Acceptance` exactly
which builds succeed and which files are patched, and `WholePatch`
loads it into the machine. `Samples` is a family of small files that the command
patches. `Example` is one of them, for which every hypothesis of the whole-patch
theorem holds at once; `Limits` holds others, which the command patches and the
theorem must exclude.

## Main results

- `WholePatch.PatchPreservesMeaning`: for every input file and path for which
  the command writes an output, load the output and start it at the entrypoint;
  load the input in another machine, any way that puts its bytes where its
  segments say. The patched run reaches a state the input program reaches: same
  address outside the displaced window, same registers, and the same memory at
  every address that did not already differ when the two system calls had
  returned. `WholePatch.ApartExplained` accounts for every address that may
  differ: what the calls wrote, the back chain and save slots of the new frame,
  addresses backed by an edited byte of the file, and addresses that the input
  does not back and the two were loaded differently at (the new segment).
  It holds for every behaviour of the two system calls that keeps r1, r13-r31,
  the frame and the blob (section 3.2.1 of the 64-bit PowerPC ELF ABI Supplement
  1.9 for the registers). `Patched.PatchedRunSimulates` is the same for a blob
  placed anywhere. `Patched.HandOver` places the state reached: after both system
  calls and at least one displaced instruction. `WholePatch.PatchPreservesRun`
  carries the agreement on from that state to any number of steps, as long as the
  original neither fetches nor loads from an address that differs; of system
  calls and of instructions outside the modelled subset it is assumed that their
  effect does not depend on those addresses (`Simulation.StaysClear`).
  `WholePatch.OutputMakesCalls` shows that the run reaches both system calls with
  the right arguments, given that the constants load.
- `Accesses.StoreQuietIff`, `Accesses.LoadQuietIff`: the exact condition, on the
  eight bytes accessed, under which a displaced `std`, `stdu` or `ld` behaves the
  same in both programs.
- `ElfEdits.EditedRoundTrip`: parse a file whose header, program header table and
  section header table are disjoint, and edit it by any sequence of
  `addLoadSegment`, `patchBytesAt` and `setEntry` that keeps its size within the
  class's offset fields. Then serialize and parse give the edited header and
  tables back if and only if there are fewer than 65536 segments and
  `e_phentsize` was right. If the sequence adds a segment, the old program header
  table may lie anywhere.
- `ElfImage.SerializeOfParse`: an unedited file serializes to its own bytes,
  however its tables overlap.
- `Acceptance.CommandAcceptsIff`: the command writes an output exactly for the
  ELF64 big-endian files, with machine 21, whose descriptor and window lie in the
  file, that carry no magic, for paths of 1 to 1023 bytes, when the entrypoint is
  aligned and no displaced branch is out of reach. `Acceptance.BuildOutcome` and
  `Acceptance.ParsedOutcome` give the error of every other case.
- `ElfLayout.ParsedPositions`, `ElfLayout.ParseOutcome`: every named field of an
  accepted file is the number at its own place in the bytes, for both classes and
  byte orders, and the accepted files are described by their bytes alone.
- `PatchedFile.OutputFrame`, `AfterPatch.PatchedTwiceRefused`,
  `AfterPatch.NewAddressesResolve`, `AfterPatch.DescriptorStable`: every byte of
  the output, the idempotency guard, and address translation.
- `Decode.ReencodeClassified`, `Decode.RelocateBranchSpec`,
  `Codegen.RelocationRefusedIff`: branches are decoded and moved without loss,
  and refused exactly when they do not fit.

What the whole-patch theorem assumes is stated in its `requires`: the file's
header, section table and patch window are disjoint (`WellPlaced`), its segments
end at or below 2^32 - 2^16 (`LowSegments`), the window lies in one run of file
bytes (`WindowContiguous`), the new stack frame does not overlap the blob, and
the displaced instructions can be moved (`Simulation.Displaceable`). The code
checks none of these.

Two differences between the loaded programs are easy to overlook, and the
theorem counts them among the addresses that may differ. Where a segment maps
the ELF header, the patched program sees the new `e_phoff` and `e_phnum`. Where
two segments map the window's file bytes, it sees the jump at the second address
too. A program that reads either is not covered.

## Where the code does less than it says

Each of these is proved, as an exact condition where there is one.

- **clrldi.** `encodeRldicl` (ppc/include/ppc/encode.hpp:118-124) writes the six
  mask-begin bits in natural order at bits 21-26. The MD-form of the Power ISA
  (section 1.6) stores the top mask bit last. Read as the architecture reads it,
  the emitted `clrldi r, r, 32` is `clrldi r, r, 16`, and `loadImmediate32`
  leaves bits 32-47 set for every value of 2^31 and above: the very addresses
  the third instruction is there for (ppc/include/ppc/encode.hpp:201-214).
  `Transparency.LoadImmediateExact` says exactly when the constant is right;
  `Transparency.HighAddressMisloads` names an input. The flag `Cpu.mbInOrder`
  selects the reading: false is the architecture's, true is the encoder's, and
  every theorem holds for both, with `Loads` as the condition on constants. The
  check in tests/ppc_encode_test.cpp:34-53 reads the field back the way it was
  written, so it does not see the difference.
- **Wrapping targets.** `relocateBranch` computes the target modulo 2^32
  (ppc/include/ppc/decode.hpp:134). A moved branch keeps its 64-bit target, and
  moving it there and back restores the word, exactly when the target is a
  32-bit address (`Decode.RelocatedTarget`, `Decode.RelocateThereAndBack`;
  `Decode.WrappedTarget` is an instance).
- **Linking branches.** A displaced branch with LK = 1 leaves a blob address in
  LR; `Simulation.LinkingBranchDiffers` shows that LK is the exact obstacle, and
  `Limits.CallReturnsElsewhere` is a `bl` that the code accepts, in the file
  `Limits.BranchFile`.
- **Targets in the window.** A displaced branch into the window is re-aimed at
  overwritten words (`Patched.TargetInWindow`). `Limits.LoopReentersBlob` is a
  branch to itself that the code accepts and that enters the blob again.
- **Long jumps** destroy r12 and CTR. `Patched.JumpRuns` says what each form
  leaves. `Patched.OneWayReach` shows exactly when a direct jump in is paired
  with a long jump back, which destroys them after they were restored;
  `Limits.OneWayInstance` is such a pair of addresses, `Limits.OneWayFile` a file
  that has them.
- **Placement above 4 GB.** The trampoline address is cut to 32 bits
  (ps3patch/src/main.cpp:165). It lies at or past the highest PT_LOAD end that
  the loop found exactly when that end is at most 2^32 - 2^16
  (`AfterPatch.PlacedPastIff`); beyond that the new segment can land on address 0
  (`AfterPatch.PlacedAtZero`, and `Limits.AddressZeroFile` for a whole file).
- **e_phentsize.** A file without program headers may carry any `e_phentsize`;
  after `addLoadSegment` it no longer parses (`ElfEdits.BareHeaderBreaks`).

The entry descriptor is the 8-byte one that the code reads
(ps3patch/include/ps3patch/toc.hpp:119-130); the 24-byte one in
docs/TECHNICAL_WRITEUP.md:203-205 and tests/gen_ps3_fixture.py:25 is not what
the code does.

## Model

| member | source | states |
|---|---|---|
| WholePatch.PatchPreservesMeaning | ps3patch/src/main.cpp:155-199 | the loaded output, run from the entrypoint, reaches, after both system calls and at least one displaced instruction, a state that the loaded input program reaches: same address outside the window, same registers (r12 and CTR aside, exactly when it fell through to a long jump back), same memory wherever it did not differ after the two calls |
| WholePatch.PatchPreservesRun | ps3patch/src/main.cpp:155-199 | from that state on, the patched program and the input program run in step for any number of steps in which the latter neither fetches nor loads an address that differs, its system calls and unmodelled instructions included |
| WholePatch.ApartExplained | ps3patch/src/main.cpp:178-199 | every address at which the two loaded programs may differ after the calls was written by a call, is a save slot or back chain, is backed by an edited file byte, or is not backed by the input at all |
| WholePatch.OutputMakesCalls | ps3patch/include/ps3patch/trampoline.hpp:271-311 | the run of the loaded output reaches both sc with the arguments of load-module and start-module; r3 at the first has the value the code loads for the path address, and where that constant loads exactly it points at exactly the path and a NUL |
| WholePatch.LoadedWindow | ps3patch/include/ps3patch/trampoline.hpp:226-249 | the loaded input has the displaced words in the window |
| WholePatch.MemoryImageFrame | ps3patch/src/main.cpp:178-199 | every file-backed address of the input has its input byte in the loaded output, unless that byte is in the patch window or an edited header field |
| WholePatch.LoadedCode | ps3patch/src/main.cpp:178-199 | in the loaded output the entrypoint holds the jump bytes and the new segment's address holds the blob |
| WholePatch.LoadedIsInstalled | ps3patch/include/ps3patch/trampoline.hpp:194-318 | a loaded output is the installed program the machine theorem speaks of, with the displaced words taken from the very window that is overwritten |
| WholePatch.PatchAssembly | ps3patch/include/ps3patch/trampoline.hpp:219-317 | a successful patch was assembled from the input's words at the entrypoint, as many as the jump in has |
| WholePatch.StartsAsDescribed | ps3patch/include/ps3patch/toc.hpp:98-132 | the original run starts at the address and with the r2 that the descriptor's eight bytes in the input file name |
| Patched.PatchedRunSimulates | ps3patch/include/ps3patch/trampoline.hpp:194-318 | from any state at the patched entrypoint, for every kernel that keeps frame and blob and every memory holding the original words in the window, the run simulates the original one to its exit from the window; r12 and CTR are lost exactly when it falls through to a five-word jump back |
| Patched.RunsToResume | ps3patch/include/ps3patch/trampoline.hpp:258-294 | jump in plus 49 instructions reach the first relocated word with every register as on arrival and r2 = the TOC value; the blob is untouched |
| Patched.RunsThroughWindow | ps3patch/include/ps3patch/trampoline.hpp:260-269 | from there the relocated instructions run in step with the displaced ones, and if both fall through the jump back is still in place |
| Patched.ReachesTraps | ps3patch/include/ps3patch/trampoline.hpp:284-292 | after jump in and 22, respectively 29, instructions the run is at the first, respectively second, sc, in the states TrapArguments describes |
| Patched.TrapsInRun | ps3patch/include/ps3patch/syscalls.hpp:75-121 | at the first sc of the run r11 = 480, r4 = r5 = 0 and r3 has the value loaded for the path address, pointing at exactly the path and a NUL where that constant loads exactly; at the second r11 = 481, r3 = the first call's result, r4 to r8 = 0 |
| Patched.JumpRuns | ps3patch/include/ps3patch/trampoline.hpp:131-142 | a jump in memory arrives after 1 or 5 steps; the short form changes no register, the long form only r12 and CTR, to the address it loaded |
| Patched.JumpLandsIff | ppc/include/ppc/encode.hpp:196-224 | a jump lands on its target exactly when it is short or the target is word aligned and loads exactly |
| Patched.LongJumpRuns | ppc/include/ppc/encode.hpp:215-224 | lis, ori, clrldi, mtctr, bctr reach the loaded address less its two low bits and leave it in r12 and CTR, nothing else changed |
| Patched.OneWayReach | ps3patch/include/ps3patch/trampoline.hpp:265-269 | a direct jump in goes with a long jump back exactly when 2^25 - 196 < (trampolineAddr + 8) - codeAddress <= 2^25 - 4 |
| Patched.TargetInWindow | ps3patch/include/ps3patch/trampoline.hpp:172-181 | a displaced branch into the window arrives at the original address, where it fetches what the original fetches exactly when the jump's word equals the displaced one |
| Limits.CallReturnsElsewhere | ps3patch/include/ps3patch/trampoline.hpp:172-181 | an instance: a bl at the entrypoint is accepted, and its callee returns into the blob |
| Limits.LoopReentersBlob | ps3patch/include/ps3patch/trampoline.hpp:172-181 | an instance: a branch to itself is accepted, and the moved one goes to the jump into the blob |
| Limits.BranchFile | ps3patch/src/main.cpp:119-199 | an instance: files with that bl, or that branch to itself, at the entrypoint are patched |
| Limits.OneWayInstance | ps3patch/include/ps3patch/trampoline.hpp:265-269 | an instance: entrypoint 0x2000C and blob 0x2020000 give a direct jump in and a long jump back, which overwrites r12 and CTR |
| Limits.OneWayFile | ps3patch/src/main.cpp:119-199 | an instance: a file with those addresses is patched |
| Patched.InstalledCode | ps3patch/include/ps3patch/trampoline.hpp:303-316 | the installed bytes are the jump's words at the entrypoint and the planned code words from trampolineAddr + 8, followed by the path |
| Patched.RestoredWindow | ps3patch/include/ps3patch/trampoline.hpp:226-249 | putting the displaced words back gives the original window and changes no other byte |
| Patched.RestoredApart | ps3patch/include/ps3patch/trampoline.hpp:226-249 | an original program that finds everything else as the calls left it differs from the patched one in the window only |
| Simulation.DisplacedSimulates | ps3patch/include/ps3patch/trampoline.hpp:158-189 | step simulation for a displaced sequence of any length: after equally many steps both runs agree, having left by the same branch or both past the last instruction |
| Simulation.RunsTogether | ps3patch/include/ps3patch/trampoline.hpp:265-269 | two runs that agree outside the window stay in step, whatever the instructions, while the original stays clear of it |
| Simulation.LoopStaysClear | ps3patch/include/ps3patch/trampoline.hpp:265-269 | a program that loops in place outside the differing addresses meets the condition of RunsTogether for any number of steps |
| Simulation.BranchSimulates | ppc/include/ppc/decode.hpp:116-148 | a relocated branch is taken exactly when the original is, goes to the same absolute address and has the same effect on CTR |
| Simulation.LinkingBranchDiffers | ps3patch/include/ps3patch/trampoline.hpp:172-186 | moved elsewhere, a branch leaves the same registers exactly when LK = 0 |
| Simulation.RelocatedEffect | ps3patch/include/ps3patch/trampoline.hpp:168-187 | a relocated word is the original instruction with at most a corrected displacement |
| Simulation.RegisterMovesAreQuiet | ps3patch/include/ps3patch/trampoline.hpp:182-186 | an instruction that only moves register values can be displaced from anywhere |
| Accesses.StoreQuietIff | ps3patch/include/ps3patch/trampoline.hpp:182-186 | a displaced std or stdu behaves the same in both programs exactly when every byte it stores into window or blob is there already, in the blob known to be there in both runs |
| Accesses.LoadQuietIff | ps3patch/include/ps3patch/trampoline.hpp:182-186 | a displaced ld behaves the same in both programs exactly when none of its eight bytes may differ |
| Prefix.PrefixExecute | ps3patch/include/ps3patch/trampoline.hpp:284-294 | the 49 prefix instructions give back every entry register except r2, for every behaviour of the two calls; CR, XER and memory are as the calls left them |
| Prefix.TrapArguments | ps3patch/include/ps3patch/syscalls.hpp:75-121 | r11 = 480, r3 = the path pointer, r4 = r5 = 0 at the first trap; r11 = 481, r3 = the first trap's result, r4 to r8 = 0 at the second; in between nothing is stored |
| Prefix.PrefixKeepsCode | ps3patch/include/ps3patch/trampoline.hpp:284-294 | no prefix instruction branches or stores into the code |
| Prefix.TrapsRespect | ps3patch/include/ps3patch/trampoline.hpp:29-37 | what the epilogue needs survives both calls |
| Transparency.SaveRestore | ps3patch/include/ps3patch/trampoline.hpp:92-126 | after prologue, any code that keeps r1, r13-r31 and the frame, and epilogue, the entry values of r0, r1, r3-r12, LR and CTR are back |
| Transparency.PrologueExecute | ps3patch/include/ps3patch/trampoline.hpp:98-111 | r1 drops by 256, the thirteen slots hold r0, LR, CTR, r3-r12, and beside the back chain and those slots (so in the linkage area) no byte is written |
| Transparency.EpilogueExecute | ps3patch/include/ps3patch/trampoline.hpp:113-126 | every slot is loaded into the register it was saved from and the frame is popped |
| Transparency.SaveNext | ps3patch/include/ps3patch/trampoline.hpp:92-110 | storing one slot leaves all earlier slots readable: the slots are disjoint, even across address wrap-around |
| Transparency.LoadExecute | ppc/include/ppc/encode.hpp:186-194 | what the three loadImmediate32 instructions leave in the register, under either reading of the mask field, and that they change nothing else |
| Transparency.LoadImmediateExact | ppc/include/ppc/encode.hpp:179-194 | the constant is exact if and only if it is below 2^31 or the mask bits are read in order; without clrldi if and only if below 2^31 |
| Transparency.HighAddressMisloads | ppc/include/ppc/encode.hpp:118-127 | an instance: 0x80000000 arrives as 0xFFFF80000000 on the architecture's machine |
| Machine.LoadStoreSame | ps3patch/include/ps3patch/trampoline.hpp:98-126 | a stored doubleword loads back |
| Machine.LoadStoreOther | ps3patch/include/ps3patch/trampoline.hpp:92-93 | doublewords at least 8 bytes apart from one base do not disturb each other |
| Machine.RunStraight | ps3patch/include/ps3patch/trampoline.hpp:284-296 | straight-line code in memory that does not overwrite itself runs as its instruction list says |
| Trampoline.AssembleLayout | ps3patch/include/ps3patch/trampoline.hpp:251-301 | assembly fails only in relocation, the two internal-inconsistency errors are unreachable, and the code has the planned length |
| Trampoline.LayoutAddresses | ps3patch/include/ps3patch/trampoline.hpp:251-273 | below 2^32 - 2^16 every 32-bit layout sum is exact: resume at +204, jump back right after the relocated words, path right after the jump |
| Trampoline.BlobLayout | ps3patch/include/ps3patch/trampoline.hpp:303-317 | magic at 0, code word i at 8 + 4i, path and NUL after the code, zeros up to whole words, at most 1268 bytes |
| Trampoline.PrefixListing | ps3patch/include/ps3patch/trampoline.hpp:284-294 | the prefix words disassemble to save, load module, start module, restore, load TOC |
| Listing.PrologueListing | ps3patch/include/ps3patch/trampoline.hpp:98-111 | the prologue's encoders never throw and the words are stdu and thirteen saves to ascending slots |
| Listing.EpilogueListing | ps3patch/include/ps3patch/trampoline.hpp:113-126 | the epilogue's words are the matching loads and moves and addi r1, r1, 256 |
| Listing.LoadModuleListing | ps3patch/include/ps3patch/syscalls.hpp:82-91 | the load-module words disassemble to their argument loads and sc |
| Listing.StartModuleListing | ps3patch/include/ps3patch/syscalls.hpp:102-113 | the start-module words disassemble to five li 0, li r11, 481 and sc |
| Listing.JumpListing | ps3patch/include/ps3patch/trampoline.hpp:131-142 | a minimal jump is one b to the target or the five-instruction long jump to it |
| Listing.LoadListing | ppc/include/ppc/encode.hpp:186-194 | loadImmediate32 disassembles to addis, ori, rldicl with the mask field as stored |
| Codegen.MinimalJumpForm | ps3patch/include/ps3patch/trampoline.hpp:131-142 | one instruction exactly for aligned displacements in [-2^25, 2^25 - 4]; the exception path is unreachable |
| Codegen.ToBigEndianBytes | ps3patch/include/ps3patch/trampoline.hpp:144-154 | the loop gives the big-endian bytes of the words |
| Codegen.WordsRoundTrip | ps3patch/include/ps3patch/trampoline.hpp:144-154 | decoding the bytes of any instruction list gives the list back |
| Codegen.BytesRoundTrip | ps3patch/include/ps3patch/trampoline.hpp:240-249 | encoding the words read from any bytes gives the bytes back |
| Codegen.WordAt | ps3patch/include/ps3patch/trampoline.hpp:241-249 | word i of a run of bytes is the big-endian value of its own four bytes |
| Codegen.RelocateDisplacedInstructions | ps3patch/include/ps3patch/trampoline.hpp:164-189 | the loop computes Relocated: every word to its own slot, or the error of the first that cannot move |
| Codegen.RelocatedWords | ps3patch/include/ps3patch/trampoline.hpp:164-189 | success means each word was relocated from its old to its new address; failure that some word was not |
| Codegen.RelocationRefusedIff | ps3patch/include/ps3patch/trampoline.hpp:172-181 | RelocationFailed exactly when some relative branch's corrected displacement does not fit its LI or BD field |
| Decode.ClassifyAgrees | ppc/include/ppc/decode.hpp:52-114 | classify and the architecture's decoder agree on all 2^32 words |
| Decode.ClassifyOfBranch | ppc/include/ppc/decode.hpp:61-75 | classify recovers every field of any word encodeBranch accepts |
| Decode.ClassifyOfConditional | ppc/include/ppc/decode.hpp:77-96 | classify recovers every field of any word encodeBranchConditional accepts |
| Decode.ReencodeClassified | ppc/include/ppc/decode.hpp:57-96 | re-encoding the classification of any opcode-18 or opcode-16 word gives that word |
| Decode.RelocateBranchSpec | ppc/include/ppc/decode.hpp:116-148 | relocation succeeds exactly when the corrected displacement fits, and changes only the displacement |
| Decode.RelocatedTarget | ppc/include/ppc/decode.hpp:129-148 | the 64-bit target is kept exactly when it is a 32-bit address |
| Decode.RelocateThereAndBack | ppc/include/ppc/decode.hpp:116-148 | moving to B and back to A restores the word exactly when the target does not wrap |
| Decode.WrappedTarget | ppc/include/ppc/decode.hpp:134-135 | an instance: b -8 at address 4 changes its target when moved |
| Decode.SignExtendIs | ppc/include/ppc/decode.hpp:45-48 | xor and subtract of the sign bit is two's complement sign extension |
| Encode.EncodeAddi | ppc/include/ppc/encode.hpp:53-56 | the word as opcode, two register fields and the immediate modulo 2^16 |
| Encode.EncodeAddis | ppc/include/ppc/encode.hpp:61-64 | the same for addis |
| Encode.EncodeOri | ppc/include/ppc/encode.hpp:69-72 | the same for ori, with source and destination exchanged |
| Encode.EncodeSprField | ppc/include/ppc/encode.hpp:44-48 | the two five-bit halves of an SPR number are swapped |
| Encode.EncodeMtspr | ppc/include/ppc/encode.hpp:75-78 | XFX-form fields of mtspr |
| Encode.EncodeMfspr | ppc/include/ppc/encode.hpp:81-84 | XFX-form fields of mfspr |
| Encode.EncodeStdForm | ppc/include/ppc/encode.hpp:94-106 | accepted exactly for multiples of 4 in [-2^15, 2^15); DS-form fields |
| Encode.EncodeRldicl | ppc/include/ppc/encode.hpp:118-124 | MD-form fields with the mask-begin bits in natural order, as the source writes them |
| Encode.EncodeBctr | ppc/include/ppc/encode.hpp:132-136 | the word 0x4E800420 |
| Encode.EncodeBranch | ppc/include/ppc/encode.hpp:146-157 | accepted exactly for multiples of 4 in [-2^25, 2^25 - 4]; I-form fields |
| Encode.EncodeBranchConditional | ppc/include/ppc/encode.hpp:165-177 | accepted exactly for multiples of 4 in [-2^15, 2^15 - 4]; B-form fields |
| Encode.LoadImmediateWords | ppc/include/ppc/encode.hpp:186-194 | the three words for any value, by its halves |
| Isa.DisassembleStd | ppc/include/ppc/encode.hpp:91-110 | std, stdu and ld words decode to the register, base and signed displacement given |
| Isa.DisassembleSpr | ppc/include/ppc/encode.hpp:86-89 | the four special-register moves decode to themselves |
| Isa.DisassembleRldicl | ppc/include/ppc/encode.hpp:113-124 | an rldicl word decodes to its shift and its mask field as stored |
| Isa.DisassembleBranch | ppc/include/ppc/encode.hpp:138-157 | every accepted b, ba, bl, bla decodes to its target, AA and LK |
| Isa.DisassembleBranchConditional | ppc/include/ppc/encode.hpp:159-177 | every accepted bc, bca, bcl, bcla decodes to its BO, BI, target, AA and LK |
| Syscalls.EncodeSc | ps3patch/include/ps3patch/syscalls.hpp:56-58 | the word of sc |
| Syscalls.MakeLoadModuleCall | ps3patch/include/ps3patch/syscalls.hpp:82-91 | appending step by step gives the load-module words |
| Syscalls.MakeStartModuleCall | ps3patch/include/ps3patch/syscalls.hpp:102-113 | appending step by step gives the start-module words |
| Syscalls.MakeLoadAndStartModule | ps3patch/include/ps3patch/syscalls.hpp:116-121 | both sequences in order, 14 words in all |
| ElfImage.RegionFits | libelf/include/elf/file.hpp:46-54 | the test on 64-bit machine arithmetic is the test offset + count * elemSize <= size on unbounded integers |
| ElfImage.ParsedConsistent | libelf/include/elf/file.hpp:65-131 | every accepted file satisfies the class invariant |
| ElfImage.SerializeOfParse | libelf/include/elf/file.hpp:234-247 | serialize(parse(b)) = b for every accepted b, any class and byte order, however the tables overlap |
| ElfImage.SerializedByte | libelf/include/elf/file.hpp:239-269 | every byte serialize writes, also where tables overlap: sections over program headers over header over raw bytes, zero in gaps |
| ElfImage.PhTableOfBytes | libelf/include/elf/file.hpp:105-111 | the table loop reads back any program headers written in order |
| ElfImage.ShTableOfBytes | libelf/include/elf/file.hpp:113-119 | the same for section headers |
| ElfEdits.ApplyKeepsSound | libelf/include/elf/file.hpp:138-178 | every edit keeps the invariant: tables and header stay disjoint because the new table lies past all raw data |
| ElfEdits.AddMakesSound | libelf/include/elf/file.hpp:153-178 | one addLoadSegment in the sequence establishes the whole invariant, wherever the old program header table lay |
| ElfEdits.RoundTripIff | libelf/include/elf/file.hpp:65-131 | an image with the invariant reads back exactly when it has fewer than 65536 segments and the right e_phentsize |
| ElfEdits.EditedRoundTrip | libelf/include/elf/file.hpp:138-269 | the same after any sequence of addLoadSegment, patchBytesAt and setEntry that fits the class, on a parsed file whose header and tables are disjoint (the old program header table anywhere if a segment is added) |
| ElfEdits.BareHeaderBreaks | libelf/include/elf/file.hpp:91-93 | an instance: a bare header with e_phentsize 0 parses, but not after one addLoadSegment |
| ElfFiles.ElfFile.Parse | libelf/include/elf/file.hpp:65-131 | the fresh object's value is Parsed(bytes), or the same error; no table read fails after the region checks |
| ElfFiles.ElfFile.SetEntry | libelf/include/elf/file.hpp:138 | e_entry becomes the address, cut to the class, and nothing else changes |
| ElfFiles.ElfFile.PatchBytesAt | libelf/include/elf/file.hpp:144-151 | exactly when the window fits, each byte in it becomes the new one and every other byte and field stays; otherwise an error and no change |
| ElfFiles.ElfFile.AddLoadSegment | libelf/include/elf/file.hpp:158-178 | data appended and one PT_LOAD header added, each of its fields and e_phnum and e_phoff given with their truncations; nothing else changes |
| ElfFiles.ElfFile.ReadAt | libelf/include/elf/file.hpp:184-194 | exactly the bytes asked for, or an error exactly when they do not fit |
| ElfFiles.ElfFile.VaddrToFileOffset | libelf/include/elf/file.hpp:202-219 | the method computes Resolve, whose outcome ElfFiles.ResolveOutcome gives: the first covering PT_LOAD segment decides |
| ElfFiles.ResolveOutcome | libelf/include/elf/file.hpp:202-219 | the first PT_LOAD segment with p_vaddr <= address < p_vaddr + p_filesz (modulo 2^64) gives p_offset + address - p_vaddr if that is in the file, and without one there is an error |
| ElfFiles.ElfFile.SegmentData | libelf/include/elf/file.hpp:224-232 | the p_filesz bytes at p_offset exactly when they lie in the file, else OffsetOutOfBounds; IndexOutOfBounds for an index beyond the table |
| ElfFiles.ElfFile.Serialize | libelf/include/elf/file.hpp:239-247 | header, then program headers, then section headers laid over the raw bytes |
| ElfFiles.ReadStruct | libelf/include/elf/file.hpp:31-44 | the record's bytes, or TruncatedFile exactly when they do not fit |
| ElfFiles.WritePhdrTable | libelf/include/elf/file.hpp:258-269 | writing entry by entry, growing as needed, is one overlay of the whole table |
| ElfFiles.WriteShdrTable | libelf/include/elf/file.hpp:258-269 | the same for section headers |
| ElfFiles.ParseAny | libelf/include/elf/file.hpp:288-326 | the instantiation e_ident selects, or the error |
| ElfFiles.ParseAnyComplete | libelf/include/elf/file.hpp:285-326 | parseAny accepts whatever any instantiation accepts, with that instantiation's result |
| ElfFiles.ResolveStable | libelf/include/elf/file.hpp:158-219 | an address that resolved before addLoadSegment resolves to the same offset after |
| ElfFiles.ResolveNewSegment | libelf/include/elf/file.hpp:158-219 | an address in the new segment that no older segment covers resolves to its own byte |
| ElfTypes.RecordSizes | libelf/include/elf/types.hpp:193-199 | the six record sizes follow from the field layouts |
| ElfTypes.EhdrCodec | libelf/include/elf/types.hpp:96-160 | file header blocks and well-formed headers are in bijection, for both classes and byte orders |
| ElfTypes.PhdrCodec | libelf/include/elf/types.hpp:114-172 | the same for program headers |
| ElfTypes.ShdrCodec | libelf/include/elf/types.hpp:126-186 | the same for section headers |
| ElfLayout.EhdrPositions | libelf/include/elf/types.hpp:96-160 | every named field of the file header is the number in its own bytes: e_machine in 18-19, e_entry from 24, and so on, for both classes and byte orders |
| ElfLayout.PhdrPositions | libelf/include/elf/types.hpp:114-172 | the same for program headers, p_flags in bytes 4-7 in ELF64 and 24-27 in ELF32 |
| ElfLayout.ShdrPositions | libelf/include/elf/types.hpp:126-186 | the same for section headers |
| ElfLayout.ParsedPositions | libelf/include/elf/file.hpp:65-131 | an accepted file has header and both tables at these places, entry i of a table at its offset plus i times its size |
| ElfLayout.SegmentInFile | libelf/include/elf/file.hpp:105-111 | in bytes for ELF64 big-endian: p_vaddr of segment i is the big-endian number in bytes phoff + 56i + 16 to + 24, and so for each field |
| ElfLayout.ParseOutcome | libelf/include/elf/file.hpp:65-131 | parse accepts exactly the bytes that meet the stated conditions on their numbers, and gives the first failing one as its error |
| ElfLayout.ParseAnyOutcome | libelf/include/elf/file.hpp:285-326 | the error for each kind of e_ident, and otherwise the outcome of the instantiation it names |
| ElfTypes.FieldUpdateBytes | libelf/include/elf/types.hpp:96-186 | changing one field of a record changes only that field's bytes |
| Endian.SwapReverses | libelf/include/elf/endian.hpp:31-58 | byteswap of 2, 4 or 8 bytes reverses the bytes of the value |
| Endian.Endianed.Set | libelf/include/elf/endian.hpp:88-92 | the storage's memory is the file encoding of the value, in either byte order |
| Endian.Endianed.Get | libelf/include/elf/endian.hpp:81-86 | the value is the positional decoding of the storage's memory |
| Bytes.FromToBytes | libelf/include/elf/endian.hpp:62-96 | a value that fits its width is read back from its encoding |
| Bytes.ToFromBytes | libelf/include/elf/endian.hpp:62-96 | any bytes are the encoding of the value they decode to |
| Toc.ReadBigEndian32 | ps3patch/include/ps3patch/toc.hpp:59-65 | the shifting loop is the same positional decoding |
| Toc.ValidatePs3Executable | ps3patch/include/ps3patch/toc.hpp:75-81 | accepted exactly when e_machine is EM_PPC64 |
| Toc.ResolveEntryDescriptor | ps3patch/include/ps3patch/toc.hpp:103-132 | a descriptor exactly when machine is 21 and its 8 bytes can be read where e_entry resolves; its code address and TOC value are the words whose big-endian bytes stand there |
| Toc.DescriptorOutcome | ps3patch/include/ps3patch/toc.hpp:98-132 | for every image and descriptor: it is the resolved one exactly when its two words are the eight bytes at e_entry's offset; the error of every other case |
| Toc.DescriptorFields | ps3patch/include/ps3patch/toc.hpp:127-130 | code address and TOC value are 32-bit, so their later narrowing loses nothing |
| Patcher.IsAlreadyPatched | ps3patch/include/ps3patch/trampoline.hpp:76-88 | true exactly when some PT_LOAD segment starts with the magic |
| Acceptance.MarkedIff | ps3patch/include/ps3patch/trampoline.hpp:64-88 | the guard finds exactly the files with a PT_LOAD segment of at least 8 file bytes that begin with SP3PATCH |
| Patcher.ReadInstructions | ps3patch/include/ps3patch/trampoline.hpp:241-249 | the inline reader gives the big-endian words of the bytes |
| Patcher.BuildTrampoline | ps3patch/include/ps3patch/trampoline.hpp:194-318 | the method computes Built, whose every outcome Acceptance.BuildOutcome gives: the checks in order, then the assembly of the words found at the entrypoint |
| Acceptance.BuildOutcome | ps3patch/include/ps3patch/trampoline.hpp:198-301 | the outcome of every build: InvalidArgument, AlreadyPatched, OffsetOutOfBounds, TruncatedFile or RelocationFailed exactly under its condition, else success |
| Acceptance.BuildSucceedsIff | ps3patch/include/ps3patch/trampoline.hpp:198-301 | success exactly for a path of 1 to 1023 bytes, aligned addresses, no magic, a window in the file and no displaced branch out of reach |
| Acceptance.RelocatedIff | ps3patch/include/ps3patch/trampoline.hpp:158-189 | relocating the words of a window succeeds exactly when none of the words in its bytes is a relative branch out of reach |
| Patcher.AssembleTrampoline | ps3patch/include/ps3patch/trampoline.hpp:251-317 | steps 3 to 9 with growing vectors give the assembled blob and patch bytes |
| Patcher.AssembleBlob | ps3patch/include/ps3patch/trampoline.hpp:303-311 | magic, code bytes, path, NUL and zeros up to a whole word |
| Patcher.PatchExecutable | ps3patch/src/main.cpp:119-199 | the mutable sequence computes Patched, whose outcomes Acceptance.CommandAcceptsIff and ParsedOutcome give: the output bytes, or the first error |
| Acceptance.CommandAcceptsIff | ps3patch/src/main.cpp:119-199 | the command writes an output exactly for the files and paths that meet the stated conditions on bytes, segments and addresses |
| Acceptance.ParsedOutcome | ps3patch/src/main.cpp:136-196 | the error of the first obstacle for a file of the right kind, and that nothing after the build can fail |
| Acceptance.OtherKinds | ps3patch/src/main.cpp:119-134 | every other file is refused, with parse's error or as not the right kind |
| Acceptance.EditsSucceed | ps3patch/src/main.cpp:178-196 | once the trampoline is built, finding and patching the entrypoint cannot fail |
| Patcher.FindHighestEnd | ps3patch/src/main.cpp:159-164 | the loop finds the largest wrapped end of a PT_LOAD segment |
| AfterPatch.HighestEndIs | ps3patch/src/main.cpp:159-164 | the result is the largest p_vaddr + p_memsz (modulo 2^64) of a PT_LOAD segment, or 0 |
| Patcher.BuiltSize | ps3patch/include/ps3patch/trampoline.hpp:303-317 | a built blob starts with the magic and has at most 1268 bytes; the patch has as many words as the jump in |
| PatchedFile.PatchParts | ps3patch/src/main.cpp:168-199 | every successful run overwrites the very bytes it displaced: the lookup after adding the segment agrees with the one before |
| PatchedFile.OutputFrame | ps3patch/src/main.cpp:180-199 | below the input's length the output is the input except e_phoff, e_phnum and the patch window; then the blob; then the old program headers plus one |
| PatchedFile.OutputByte | ps3patch/src/main.cpp:180-199 | the same for one byte, whichever table it lies in |
| PatchedFile.OutputTail | libelf/include/elf/file.hpp:153-178 | the output has length input + blob + 56 * (phnum + 1) and ends with blob and table |
| PatchedFile.HeaderEditBytes | libelf/include/elf/types.hpp:144-160 | new e_phnum and e_phoff change only header bytes 56-57 and 32-39 |
| PatchedFile.EditedSound | libelf/include/elf/file.hpp:158-178 | the edited image satisfies the round-trip invariant even where the old program header table overlapped something |
| AfterPatch.SuccessfulRun | ps3patch/src/main.cpp:119-199 | every well-placed run that writes an output is one the theorems below speak of |
| AfterPatch.OutputParses | ps3patch/src/main.cpp:198-199 | the output parses to the edited header and tables |
| AfterPatch.NewSegmentInFile | libelf/include/elf/file.hpp:158-178 | the output's bytes: e_phoff and e_phnum name the new table, and its last header is PT_LOAD, R and X, at the old file end, at the trampoline address, as long as the blob |
| AfterPatch.LastSegmentIsBlob | libelf/include/elf/file.hpp:221-232 | segmentData of the last segment of the re-read output is the blob |
| AfterPatch.OutputIsMarked | ps3patch/include/ps3patch/trampoline.hpp:64-88 | the magic survives the entry patch and serialization |
| AfterPatch.PatchedTwiceRefused | ps3patch/include/ps3patch/trampoline.hpp:213-217 | the command refuses its own output for every path, and buildTrampoline does for every descriptor, address and path |
| AfterPatch.OldAddressesStable | libelf/include/elf/file.hpp:196-219 | every address the input resolves, the output resolves to the same offset |
| AfterPatch.NewAddressesResolve | libelf/include/elf/file.hpp:153-219 | every address of the new segment resolves to its own blob byte in the output |
| AfterPatch.DescriptorStable | ps3patch/include/ps3patch/toc.hpp:98-132 | the entry descriptor reads the same from the output when its 8 bytes are not edited ones |
| AfterPatch.UntouchedByte | ps3patch/src/main.cpp:180-199 | a byte outside window and edited fields is the input's |
| AfterPatch.AlignUpIs | ps3patch/src/main.cpp:53-56 | alignUp gives the least multiple not below its argument when nothing wraps, and the argument for alignment 0 |
| AfterPatch.PlacedPastEverything | ps3patch/src/main.cpp:155-165 | the new segment is at the first multiple of 64 KB at or past every PT_LOAD end, and fits the 32-bit space |
| AfterPatch.PlacedPastIff | ps3patch/src/main.cpp:159-165 | the address cut to 32 bits lies at or past the highest end the loop found exactly when that end is at most 2^32 - 2^16 |
| AfterPatch.PlacedAtZero | ps3patch/src/main.cpp:165 | an instance: a segment ending at 0xFFFF0010 puts the trampoline at address 0 |
| Limits.AddressZeroFile | ps3patch/src/main.cpp:159-199 | an instance: a file whose segment ends at 0xFFFF00A0 is patched with the trampoline at address 0 |
| Example.TheoremApplies | ps3patch/src/main.cpp:119-199 | a 160-byte executable that begins with stdu is accepted and patched, and with it every hypothesis of WholePatch.PatchPreservesMeaning holds, on a machine that decodes as the architecture does |
| Samples.IsPatched | ps3patch/src/main.cpp:119-199 | the command writes an output for every sample file whose displaced words can be relocated, wherever its segment lies |
| Samples.SamplePatch | ps3patch/src/main.cpp:119-199 | that output is a well-placed patch with the sample's entrypoint, trampoline address and displaced words |
| AfterPatch.PlacementKeepsOrder | ps3patch/src/main.cpp:155-180 | the new segment overlaps no PT_LOAD entry and keeps them in ascending order (chapter 5, Program Header, of the System V gABI) |

## Left out

- Reading and writing files, argument parsing, printing and the `--info` branch (ps3patch/src/main.cpp:35-51 and 58-118): the input bytes and the path are parameters, the output bytes a result.
- ps3patch/include/ps3patch/info.hpp and `hasTypicalEFlags`: formatting and advice only.
- Error messages: a result carries the error code alone; the command's refusal of a file that is not ELF64 big-endian is given the code `Unsupported`.
- Big-endian hosts: the source fixes the host as little-endian (libelf/include/elf/endian.hpp:47-51).
- `Endianed` inside the records: the class is modelled and proved on its own; the header and table records of an `ElfFile` hold the decoded numbers, and `ElfTypes` encodes them with the same positional codec.
- Vectors of 2^63 bytes or more, and offset sums in serialize beyond 64 bits: no vector is that long.
- Patcher.PatchExecutable: its input is 64 KB short of that bound, so that the added segment fits.
- What the system calls and the loaded module do: an arbitrary function of the machine state that keeps r1, r13-r31, the frame above the stack pointer and the blob. CR, XER and all other memory are whatever they leave, and the original run is started with those values.
- WholePatch.PatchPreservesMeaning: a displaced instruction outside the modelled subset must be known not to depend on the addresses that differ and not to write window or blob; for std, stdu and ld the exact condition is proved. CR and XER start as the calls left them, since the code does not save them.
- Congruence of the new segment's offset and address modulo p_align, and section headers or symbols for the new segment: the code does not attempt them.
- Instructions outside the emitted subset: one uninterpreted function that does not depend on the address; caches, exceptions and alignment are not modelled.
- `encodeLdu` and `encodeMtctrSpr`: unused; the first is an instance of `Encode.EncodeStdForm`, the second the same as `encodeMtctr`.
