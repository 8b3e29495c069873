// Opcode numbering of the SelectionDAG as the MIPS selector sees it.
//
// Every node carries a numeric opcode drawn from three consecutive ranges:
//   [0, ISD.BUILTIN_OP_END)                            generic, target-independent operations
//   [ISD.BUILTIN_OP_END, MipsISD.FIRST_NUMBER)         machine nodes: BUILTIN_OP_END + a Mips:: instruction
//   [MipsISD.FIRST_NUMBER, ...)                        MIPS-specific pseudo operations (MipsISD::)
// Only the order of the ranges and the distinctness of the named opcodes
// matter to the selector; the concrete numbers below are placeholders.

/** Generic opcodes (`ISD::`) that the selector inspects. */
module ISD {
  const Constant: nat := 8
  const GlobalAddress: nat := 10
  const FrameIndex: nat := 12
  const ExternalSymbol: nat := 15
  const TargetConstant: nat := 20
  const TargetGlobalAddress: nat := 22
  const TargetFrameIndex: nat := 24
  const TargetExternalSymbol: nat := 27

  const ADD: nat := 40
  const SDIV: nat := 43
  const UDIV: nat := 44
  const SREM: nat := 45
  const UREM: nat := 46
  const MULHU: nat := 47
  const MULHS: nat := 48

  /** One past the last generic opcode. */
  const BUILTIN_OP_END: nat := 160
}

/** MIPS machine instructions (`Mips::`) that the selector builds. */
module Mips {
  const DIV: nat := 30
  const DIVu: nat := 31
  const MFHI: nat := 52
  const MFLO: nat := 53
  const MULT: nat := 60
  const MULTu: nat := 61

  /** One past the last machine instruction. */
  const INSTRUCTION_LIST_END: nat := 120
}

/** MIPS-specific pseudo operations (`MipsISD::`). */
module MipsISD {
  import ISD
  import Mips

  /** The MIPS pseudo operations are numbered after every machine node. */
  const FIRST_NUMBER: nat := ISD.BUILTIN_OP_END + Mips.INSTRUCTION_LIST_END
}
