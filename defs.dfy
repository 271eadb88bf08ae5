/** The machine's compile-time constants: register file size, stack size,
    the conventional register roles and the two opcode tables. */
module HivekDefs {

  const N_REGISTERS: nat := 32
  const STACK_DEFAULT_SIZE: nat := 1024 * 1024

  const REG_V0: nat := 2
  const REG_V1: nat := 3

  const REG_A0: nat := 4
  const REG_A1: nat := 5
  const REG_A2: nat := 6
  const REG_A3: nat := 7

  const REG_T0: nat := 8
  const REG_T1: nat := 9

  const REG_SP: nat := 29
  const REG_FP: nat := 30
  const REG_RA: nat := 31

  // Register-register opcodes, read from the low 11 bits of the word.
  const OPCODE_ADD: nat := 0x00
  const OPCODE_SUB: nat := 0x01
  const OPCODE_AND: nat := 0x02
  const OPCODE_OR: nat := 0x03
  const OPCODE_XOR: nat := 0x04
  const OPCODE_JR: nat := 0x05
  const OPCODE_SYSCALL: nat := 0x7e
  const OPCODE_HALT: nat := 0x7f

  // Register-immediate opcodes, read from the top 6 bits of the word.
  const OPCODE_ADDI: nat := 0x01
  const OPCODE_LOAD_D: nat := 0x02
  const OPCODE_STORE_D: nat := 0x03
  const OPCODE_BEQ: nat := 0x04
  const OPCODE_BNE: nat := 0x05
  const OPCODE_BLT: nat := 0x06
  const OPCODE_JAL: nat := 0x07

  /** The registers that have a conventional role, in the order they are declared. */
  const NAMED_REGISTERS: seq<nat> :=
    [REG_V0, REG_V1, REG_A0, REG_A1, REG_A2, REG_A3, REG_T0, REG_T1, REG_SP, REG_FP, REG_RA]

  const RR_OPCODES: seq<nat> :=
    [OPCODE_ADD, OPCODE_SUB, OPCODE_AND, OPCODE_OR, OPCODE_XOR, OPCODE_JR, OPCODE_SYSCALL, OPCODE_HALT]

  const RI_OPCODES: seq<nat> :=
    [OPCODE_ADDI, OPCODE_LOAD_D, OPCODE_STORE_D, OPCODE_BEQ, OPCODE_BNE, OPCODE_BLT, OPCODE_JAL]

  predicate PairwiseDistinct(s: seq<nat>)
  {
    forall i, j :: 0 <= i < j < |s| ==> s[i] != s[j]
  }

  /** Every named register is a real register other than the hard-wired zero
      register (and register 1, which SYSCALL prints), and no two roles share
      a register. */
  lemma NamedRegistersDistinct()
    ensures PairwiseDistinct(NAMED_REGISTERS)
    ensures forall i :: 0 <= i < |NAMED_REGISTERS| ==> 2 <= NAMED_REGISTERS[i] < N_REGISTERS
  {
  }

  /** The register-register opcodes are distinct and all fit the 11-bit field
      that execute_rr switches on. */
  lemma RegisterRegisterOpcodesFit()
    ensures PairwiseDistinct(RR_OPCODES)
    ensures forall i :: 0 <= i < |RR_OPCODES| ==> RR_OPCODES[i] < 0x800
  {
  }

  /** The register-immediate opcodes are distinct and all fit the 6-bit field
      that execute_ri switches on. */
  lemma RegisterImmediateOpcodesFit()
    ensures PairwiseDistinct(RI_OPCODES)
    ensures forall i :: 0 <= i < |RI_OPCODES| ==> RI_OPCODES[i] < 64
  {
  }

  /** The two tables reuse numbers: which operation a number names depends on
      which executor decodes it. */
  lemma OpcodeTablesOverlap()
    ensures OPCODE_SUB == OPCODE_ADDI && OPCODE_AND == OPCODE_LOAD_D && OPCODE_OR == OPCODE_STORE_D
    ensures OPCODE_XOR == OPCODE_BEQ && OPCODE_JR == OPCODE_BNE
    ensures OPCODE_ADD !in RI_OPCODES
  {
  }

  /** The stack is a positive whole number of 8-byte slots, so its top slot
      starts 8 bytes below the end and is 8-byte aligned. */
  lemma StackSizeIsWholeSlots()
    ensures STACK_DEFAULT_SIZE > 0 && STACK_DEFAULT_SIZE % 8 == 0
    ensures (STACK_DEFAULT_SIZE - 8) % 8 == 0 && STACK_DEFAULT_SIZE >= 8
  {
  }
}
