/** Decoded instructions (include/common/inst.hh) and the operation names the decoder is generated for. */
module Instructions {
  import opened Bits

  /** One constructor for each operation whose callback is implemented; every other mnemonic of the
      table, whose callback only throws, is some `Unimplemented(id)`. */
  datatype OpType =
    | UNKNOWN
    | ADD | SUB | MUL | DIV | XOR | SLL | SRL | SRA
    | ADDI | ANDI | ORI | XORI | SLTI | SLTIU | SLLI | SRLI | SRAI
    | LUI | AUIPC | LW | SW
    | JAL | JALR | BEQ | BNE | BLT | BLTU | BGE | BGEU
    | ECALL
    | CSRRW | CSRRS | CSRRC | CSRRWI | CSRRSI | CSRRCI
    | Unimplemented(id: nat)

  /** `callback == UNKNOWN` stands for the null function pointer. */
  datatype Instruction = Instruction(
    rs1: nat, rs2: nat, rs3: nat, rd: nat, rm: nat, csr: nat,
    optype: OpType, imm: Word, isBranch: bool, callback: OpType)
  {
    /** Every index the executor may use is inside its register file. */
    predicate InRange() {
      rs1 < 32 && rs2 < 32 && rs3 < 32 && rd < 32 && rm < 32 && csr < 4096
    }
  }

  const NO_INSTRUCTION := Instruction(0, 0, 0, 0, 0, 0, UNKNOWN, 0, false, UNKNOWN)

  const BRANCH_MNEMONICS: set<OpType> := {BEQ, BNE, BGE, BGEU, BLT, BLTU, JAL, JALR, ECALL}
}
