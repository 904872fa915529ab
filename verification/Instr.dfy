/** Decoded instructions (instr/include/sim/instr.hpp and the generated InstrId). */
module Instr {
  import opened Common

  type Word = x: int | 0 <= x < TWO64

  type Word32 = x: int | 0 <= x < 0x1_0000_0000

  /** A register index: a five-bit field. */
  type Reg = r: int | 0 <= r < 32

  /** The instructions the simulator implements; every other decodable one is UNIMPLEMENTED. */
  datatype InstrId =
    | BEQ | BNE | BLT | BGE | BLTU | BGEU | JALR | JAL | LUI | AUIPC
    | ADDI | SLLI | SLTI | SLTIU | XORI | SRLI | SRAI | ORI | ANDI
    | ADD | SLL | SLT | SLTU | XOR | SRL | OR | AND | SUB | SRA
    | ADDIW | SLLIW | SRLIW | SRAIW | ADDW | SLLW | SRLW | SUBW | SRAW
    | LB | LH | LW | LD | LBU | LHU | LWU | SB | SH | SW | SD
    | ECALL
    | UNIMPLEMENTED

  /** Status is a SIM_STATUS_INSTR, which carries a status code in its immediate. */
  datatype Instr =
    | Status(status: SimStatus)
    | Op(id: InstrId, rd: Reg, rs1: Reg, rs2: Reg, imm: Word32)

  /** Bb::isBranch. */
  predicate IsBranch(id: InstrId) {
    id == JAL || id == JALR || id == BEQ || id == BNE || id == BLT || id == BLTU || id == BGE || id == BGEU
  }

  /** What ends a basic block. */
  predicate Ends(i: Instr) { i.Status? || IsBranch(i.id) }
}
