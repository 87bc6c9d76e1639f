/**
  BPF instructions as the control-flow graph builder sees them, and the static
  program-counter relation of section 4.3 of RFC 9669.
 */
module Bpf {
  import opened Bytes

  type s16 = x: int | -0x8000 <= x < 0x8000

  /** The fields of `struct bpf_insn` that decide control flow. */
  datatype Insn = Insn(code: u8, srcReg: nat, off: s16)

  const CLASS_JMP := 0x05
  const CLASS_JMP32 := 0x06
  const OP_JA := 0x00
  const OP_CALL := 0x80
  const OP_EXIT := 0x90
  const CODE_CALL := 0x85
  const CODE_LD_IMM64 := 0x18
  const PSEUDO_CALL := 1

  // BPF_CLASS(code): code & 0x07
  function Class(code: u8): int { code % 8 }

  // BPF_OP(code): code & 0xf0
  function Op(code: u8): int { code - code % 16 }

  predicate IsJmp(i: Insn) { Class(i.code) == CLASS_JMP || Class(i.code) == CLASS_JMP32 }

  predicate IsExit(i: Insn) { IsJmp(i) && Op(i.code) == OP_EXIT }

  predicate IsCall(i: Insn) { IsJmp(i) && Op(i.code) == OP_CALL }

  predicate IsJa(i: Insn) { IsJmp(i) && Op(i.code) == OP_JA }

  predicate IsCond(i: Insn) { IsJmp(i) && !IsExit(i) && !IsCall(i) && !IsJa(i) }

  predicate IsPseudoCall(i: Insn) { i.code == CODE_CALL && i.srcReg == PSEUDO_CALL }

  /** A 64-bit immediate load occupies two instruction slots. */
  function Width(i: Insn): (w: nat) { if i.code == CODE_LD_IMM64 then 2 else 1 }

  /** `next` is a possible program counter after executing slot `pc` inside one
      function.  A call returns to the following instruction. */
  predicate Steps(insns: seq<Insn>, pc: int, next: int)
    requires 0 <= pc < |insns|
  {
    var i := insns[pc];
    if IsExit(i) then false
    else if IsJa(i) then next == pc + i.off + 1
    else if IsCond(i) then next == pc + 1 || next == pc + i.off + 1
    else next == pc + Width(i)
  }
}
