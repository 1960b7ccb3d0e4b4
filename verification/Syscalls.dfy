// The two LV2 system calls of the payload (ps3patch/include/ps3patch/syscalls.hpp).
module Syscalls {
  import opened Bits
  import opened Encode

  const SYS_PRX_LOAD_MODULE: u32 := 480
  const SYS_PRX_START_MODULE: u32 := 481
  const SYSCALL_SEQUENCE_INSTR_COUNT: nat := 14
  const REG_SYSCALL_NUMBER_DEFAULT: u32 := 11

  function EncodeSc(): (w: u32)
    ensures w == 0x4400_0002
  {
    ScForm();
    Or(Or(Shl32(17, 26), Shl32(0, 5)), Shl32(1, 1))
  }

  lemma {:induction false} ScForm()
    ensures Or(Or(Shl32(17, 26), Shl32(0, 5)), Shl32(1, 1)) == 0x4400_0002
  {
    hide Or, Shl32, Pow2;
    Powers();
    ShlIs(17, 26, 0x400_0000);
    ShlIs(0, 5, 32);
    ShlIs(1, 1, 2);
    OrLow(17 * 0x400_0000, 26, 0x400_0000, 0);
    OrLow(17 * 0x400_0000, 26, 0x400_0000, 2);
  }

  function MakeSyscallTrap(number: u32, numberReg: u32 := REG_SYSCALL_NUMBER_DEFAULT): (ws: seq<u32>)
    ensures |ws| == 2
  {
    [EncodeLi(numberReg, Signed16(number % 0x1_0000)), EncodeSc()]
  }

  /** The words of sys_prx_load_module(pathAddress, 0, 0). */
  function LoadModuleCall(pathAddress: u32): (ws: seq<u32>) {
    LoadImmediate32(3, pathAddress) + [EncodeLi(4, 0), EncodeLi(5, 0)] + MakeSyscallTrap(SYS_PRX_LOAD_MODULE)
  }

  /** The words of sys_prx_start_module(r3, 0, 0, 0, 0, 0). */
  function StartModuleCall(): (ws: seq<u32>) {
    [EncodeLi(4, 0), EncodeLi(5, 0), EncodeLi(6, 0), EncodeLi(7, 0), EncodeLi(8, 0)]
    + MakeSyscallTrap(SYS_PRX_START_MODULE)
  }

  method MakeLoadModuleCall(pathAddress: u32) returns (out: seq<u32>)
    ensures out == LoadModuleCall(pathAddress)
  {
    hide LoadImmediate32, EncodeAddi, EncodeSc;
    out := [];
    var pathPtrLoad := LoadImmediate32(3, pathAddress);
    out := out + pathPtrLoad;
    out := out + [EncodeLi(4, 0)];
    out := out + [EncodeLi(5, 0)];
    var trap := MakeSyscallTrap(SYS_PRX_LOAD_MODULE);
    out := out + trap;
  }

  method MakeStartModuleCall() returns (out: seq<u32>)
    ensures out == StartModuleCall()
  {
    hide LoadImmediate32, EncodeAddi, EncodeSc;
    out := [];
    out := out + [EncodeLi(4, 0)];
    out := out + [EncodeLi(5, 0)];
    out := out + [EncodeLi(6, 0)];
    out := out + [EncodeLi(7, 0)];
    out := out + [EncodeLi(8, 0)];
    var trap := MakeSyscallTrap(SYS_PRX_START_MODULE);
    out := out + trap;
  }

  method MakeLoadAndStartModule(pathAddress: u32) returns (load: seq<u32>)
    ensures load == LoadModuleCall(pathAddress) + StartModuleCall()
    ensures |load| == SYSCALL_SEQUENCE_INSTR_COUNT
  {
    hide LoadImmediate32, EncodeAddi, EncodeSc;
    load := MakeLoadModuleCall(pathAddress);
    var start := MakeStartModuleCall();
    load := load + start;
  }
}
