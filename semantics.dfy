/** What one execution of execute_rr or execute_ri does to the machine state,
    as functions on values, and the per-instruction properties that follow.
    Each executor first decodes its fields from the word (module Decode) and
    then acts on them; the properties are stated about the second part, for
    every value the fields can take. */
module Semantics {
  import opened HivekDefs
  import opened Words
  import opened Decode
  import opened Memory

  /** The register file: exactly N_REGISTERS 64-bit registers. */
  type RegFile = r: seq<bv64> | |r| == N_REGISTERS witness seq(32, _ => 0)

  /** A register number. */
  type Reg = r: nat | r < N_REGISTERS

  /** Everything an instruction can change: registers, instruction pointer, memory. */
  datatype Core = Core(regs: RegFile, ip: bv64, mem: Image)

  /** The registers as they are at the end of every execute_rr/execute_ri: the
      same, with register 0 forced back to 0. */
  function ZeroR0(r: RegFile): RegFile
  {
    r[0 := 0]
  }

  /** The address of the word after the one at `ip`. */
  function NextWord(ip: bv64): bv64
  {
    ip + 4
  }

  /** `ip + imm * 4`, wrapping: where a taken branch or a jump goes. */
  function JumpTarget(ip: bv64, imm: bv64): bv64
  {
    ip + imm * 4
  }

  /** `base + imm`, wrapping: the sum ADDI computes and the address LD and SD use. */
  function Displace(base: bv64, imm: bv64): bv64
  {
    base + imm
  }

  /** The five register-register operations that compute a value. */
  predicate IsAlu(op: nat)
  {
    op in {OPCODE_ADD, OPCODE_SUB, OPCODE_AND, OPCODE_OR, OPCODE_XOR}
  }

  /** The value ADD, SUB, AND, OR or XOR computes: 64-bit, wrapping. */
  function Alu(op: nat, a: bv64, b: bv64): bv64
    requires IsAlu(op)
  {
    if op == OPCODE_ADD then a + b
    else if op == OPCODE_SUB then a - b
    else if op == OPCODE_AND then a & b
    else if op == OPCODE_OR then a | b
    else a ^ b
  }

  /** The operations wrap modulo 2^64 as `uint64_t` arithmetic does: one past
      the largest word is 0 and 0 minus 1 is the largest word. */
  lemma AluWraps()
    ensures Alu(OPCODE_ADD, 0xFFFF_FFFF_FFFF_FFFF, 2) == 1
    ensures Alu(OPCODE_SUB, 0, 1) == 0xFFFF_FFFF_FFFF_FFFF
    ensures Displace(0xFFFF_FFFF_FFFF_FFF8, 0x10) == 8
  {
  }

  /** What execute_rr does once it has decoded the 11-bit opcode and the three
      register fields: act, then clear register 0. */
  function ApplyRR(c: Core, op: nat, ra: Reg, rb: Reg, rc: Reg): Core
  {
    var c' :=
      if IsAlu(op) then c.(regs := c.regs[rc := Alu(op, c.regs[ra], c.regs[rb])], ip := NextWord(c.ip))
      else if op == OPCODE_JR then c.(ip := c.regs[REG_RA])
      else if op == OPCODE_HALT || op == OPCODE_SYSCALL then c.(ip := NextWord(c.ip))
      else c;
    c'.(regs := ZeroR0(c'.regs))
  }

  /** execute_rr on the word `instr`. */
  function StepRR(c: Core, instr: bv32): Core
  {
    ApplyRR(c, RROpcode(instr), Ra(instr), Rb(instr), Rc(instr))
  }

  /** The two instructions that touch memory. */
  predicate IsAccess(op: nat)
  {
    op == OPCODE_LOAD_D || op == OPCODE_STORE_D
  }

  /** The source dereferences the effective address `regs[ra] + immd16` of LD
      and SD without a check: those two are defined only when the doubleword
      there lies in one of the buffers. */
  predicate AccessOk(m: Image, op: nat, ea: bv64)
  {
    IsAccess(op) ==> Mapped(m, ea, 8)
  }

  /** The three conditional branches. */
  predicate IsBranch(op: nat)
  {
    op in {OPCODE_BEQ, OPCODE_BNE, OPCODE_BLT}
  }

  /** Whether a branch is taken on register values `a` (field ra) and `b`
      (field rb); BLT compares the two as signed 64-bit numbers. */
  predicate Taken(op: nat, a: bv64, b: bv64)
    requires IsBranch(op)
  {
    if op == OPCODE_BEQ then a == b
    else if op == OPCODE_BNE then a != b
    else Signed64(b) < Signed64(a)
  }

  /** What execute_ri does once it has decoded the 6-bit opcode, the two
      register fields and both sign-extended immediates: act, then clear
      register 0. */
  function ApplyRI(c: Core, op: nat, ra: Reg, rb: Reg, immd16: bv64, immd26: bv64): Core
    requires AccessOk(c.mem, op, Displace(c.regs[ra], immd16))
  {
    var ea := Displace(c.regs[ra], immd16);
    var c' :=
      if op == OPCODE_ADDI then c.(regs := c.regs[rb := Displace(c.regs[ra], immd16)], ip := NextWord(c.ip))
      else if op == OPCODE_LOAD_D then c.(regs := c.regs[rb := Load64(c.mem, ea)], ip := NextWord(c.ip))
      else if op == OPCODE_STORE_D then c.(mem := Store64(c.mem, ea, c.regs[rb]), ip := NextWord(c.ip))
      else if IsBranch(op) then
        c.(ip := if Taken(op, c.regs[ra], c.regs[rb]) then JumpTarget(c.ip, immd16) else NextWord(c.ip))
      else if op == OPCODE_JAL then c.(regs := c.regs[REG_RA := NextWord(c.ip)], ip := JumpTarget(c.ip, immd26))
      else c;
    c'.(regs := ZeroR0(c'.regs))
  }

  /** execute_ri on the word `instr`. */
  function StepRI(c: Core, instr: bv32): Core
    requires AccessOk(c.mem, Opcode(instr), Displace(c.regs[Ra(instr)], Immd16(instr)))
  {
    ApplyRI(c, Opcode(instr), Ra(instr), Rb(instr), Immd16(instr), Immd26(instr))
  }

  /** Register 0 reads as 0 after every instruction of either executor, whatever
      the fields and whatever register 0 held before. */
  lemma RegisterZeroIsZero(c: Core, op: nat, ra: Reg, rb: Reg, rc: Reg, immd16: bv64, immd26: bv64)
    ensures ApplyRR(c, op, ra, rb, rc).regs[0] == 0
    ensures AccessOk(c.mem, op, Displace(c.regs[ra], immd16)) ==> ApplyRI(c, op, ra, rb, immd16, immd26).regs[0] == 0
  {
  }

  /** ADD, SUB, AND, OR and XOR write the wrapping 64-bit result of `ra op rb`
      into rc (unless rc is register 0), advance ip to the next word, and change
      no other register and no memory. */
  lemma ArithmeticRR(c: Core, op: nat, ra: Reg, rb: Reg, rc: Reg)
    requires IsAlu(op)
    ensures var c' := ApplyRR(c, op, ra, rb, rc);
      && c'.ip == NextWord(c.ip) && c'.mem == c.mem && c'.regs[0] == 0
      && (rc != 0 ==> c'.regs[rc] == Alu(op, c.regs[ra], c.regs[rb]))
      && (forall j :: 0 < j < N_REGISTERS && j != rc ==> c'.regs[j] == c.regs[j])
  {
  }

  /** JR jumps to the return-address register; HALT and SYSCALL only advance
      ip to the next word. None of them changes a register (beyond clearing
      register 0) or memory. */
  lemma ControlRR(c: Core, op: nat, ra: Reg, rb: Reg, rc: Reg)
    requires op in {OPCODE_JR, OPCODE_HALT, OPCODE_SYSCALL}
    ensures var c' := ApplyRR(c, op, ra, rb, rc);
      && c'.regs == ZeroR0(c.regs) && c'.mem == c.mem
      && c'.ip == if op == OPCODE_JR then c.regs[REG_RA] else NextWord(c.ip)
  {
  }

  /** An opcode outside the register-register table changes neither ip nor any
      register other than clearing register 0. */
  lemma UnknownRR(c: Core, op: nat, ra: Reg, rb: Reg, rc: Reg)
    requires op !in RR_OPCODES
    ensures ApplyRR(c, op, ra, rb, rc) == c.(regs := ZeroR0(c.regs))
  {
  }

  /** ADDI writes `ra + immd16` (wrapping) into rb, advances ip to the next
      word and changes nothing else. */
  lemma AddImmediate(c: Core, ra: Reg, rb: Reg, immd16: bv64, immd26: bv64)
    ensures var c' := ApplyRI(c, OPCODE_ADDI, ra, rb, immd16, immd26);
      && c'.ip == NextWord(c.ip) && c'.mem == c.mem && c'.regs[0] == 0
      && (rb != 0 ==> c'.regs[rb] == Displace(c.regs[ra], immd16))
      && (forall j :: 0 < j < N_REGISTERS && j != rb ==> c'.regs[j] == c.regs[j])
  {
  }

  /** LD loads into rb the eight bytes at `ra + immd16`, read big-endian,
      advances ip to the next word and changes no other register and no
      memory. */
  lemma {:induction false} LoadDoubleword(c: Core, ra: Reg, rb: Reg, immd16: bv64, immd26: bv64)
    requires Mapped(c.mem, Displace(c.regs[ra], immd16), 8)
    ensures var c', ea := ApplyRI(c, OPCODE_LOAD_D, ra, rb, immd16, immd26), Displace(c.regs[ra], immd16);
      && c'.ip == NextWord(c.ip) && c'.mem == c.mem && c'.regs[0] == 0
      && (rb != 0 ==> c'.regs[rb] == BigEndianValue64(Bytes(c.mem, ea, 8)))
      && (forall j :: 0 < j < N_REGISTERS && j != rb ==> c'.regs[j] == c.regs[j])
  {
    Load64IsBigEndian(c.mem, Displace(c.regs[ra], immd16));
  }

  /** SD stores rb big-endian in the eight bytes at `ra + immd16`, so that a
      read64 there gives rb back; the buffers keep their place and size, no
      register changes (beyond clearing register 0), and ip advances to the
      next word. */
  lemma {:induction false} StoreDoubleword(c: Core, ra: Reg, rb: Reg, immd16: bv64, immd26: bv64)
    requires Mapped(c.mem, Displace(c.regs[ra], immd16), 8)
    ensures var c', ea, v := ApplyRI(c, OPCODE_STORE_D, ra, rb, immd16, immd26), Displace(c.regs[ra], immd16), c.regs[rb];
      && c'.ip == NextWord(c.ip) && c'.regs == ZeroR0(c.regs)
      && SameShape(c.mem, c'.mem) && Mapped(c'.mem, ea, 8)
      && c'.mem == Store64(c.mem, ea, v)
      && Bytes(c'.mem, ea, 8) == BigEndianBytes64(v)
      && Load64(c'.mem, ea) == v
  {
    var ea, v := Displace(c.regs[ra], immd16), c.regs[rb];
    Store64IsBigEndian(c.mem, ea, v);
    Load64OfStore64(c.mem, ea, v);
    PutFrame(c.mem, ea, HostBytes64(Swap64(v)));
  }

  /** SD changes no other doubleword: read64 at an address whose eight bytes
      lie in the other buffer, or do not overlap the stored ones, sees what it
      saw before. */
  lemma {:induction false} StoreDoublewordFrame(c: Core, ra: Reg, rb: Reg, immd16: bv64, immd26: bv64, other: bv64)
    requires Mapped(c.mem, Displace(c.regs[ra], immd16), 8) && Mapped(c.mem, other, 8)
    requires var l, k := Locate(c.mem, Displace(c.regs[ra], immd16), 8), Locate(c.mem, other, 8);
      l.region != k.region || l.offset + 8 <= k.offset || k.offset + 8 <= l.offset
    ensures var c' := ApplyRI(c, OPCODE_STORE_D, ra, rb, immd16, immd26);
      Mapped(c'.mem, other, 8) && Load64(c'.mem, other) == Load64(c.mem, other)
  {
    Load64OfStore64Elsewhere(c.mem, Displace(c.regs[ra], immd16), c.regs[rb], other);
  }

  /** BEQ, BNE and BLT go to `ip + 4 * immd16` when taken and to the next word
      otherwise; BEQ is taken when ra equals rb, BNE when it does not, BLT when
      rb is less than ra as signed numbers (the operands in that order). No
      register or memory changes. */
  lemma Branch(c: Core, op: nat, ra: Reg, rb: Reg, immd16: bv64, immd26: bv64)
    requires IsBranch(op)
    ensures var c', a, b := ApplyRI(c, op, ra, rb, immd16, immd26), c.regs[ra], c.regs[rb];
      && (op == OPCODE_BEQ ==> (Taken(op, a, b) <==> a == b))
      && (op == OPCODE_BNE ==> (Taken(op, a, b) <==> a != b))
      && (op == OPCODE_BLT ==> (Taken(op, a, b) <==> Signed64(b) < Signed64(a)))
      && c'.regs == ZeroR0(c.regs) && c'.mem == c.mem
      && c'.ip == if Taken(op, a, b) then JumpTarget(c.ip, immd16) else NextWord(c.ip)
  {
  }

  /** JAL saves the address of the next word in the return-address register
      and jumps to `ip + 4 * immd26`; nothing else changes. */
  lemma JumpAndLink(c: Core, ra: Reg, rb: Reg, immd16: bv64, immd26: bv64)
    ensures var c' := ApplyRI(c, OPCODE_JAL, ra, rb, immd16, immd26);
      && c'.regs[REG_RA] == NextWord(c.ip) && c'.ip == JumpTarget(c.ip, immd26)
      && c'.regs[0] == 0 && c'.mem == c.mem
      && (forall j :: 0 < j < N_REGISTERS && j != REG_RA ==> c'.regs[j] == c.regs[j])
  {
  }

  /** An opcode outside the register-immediate table changes neither ip nor any
      register other than clearing register 0. */
  lemma UnknownRI(c: Core, op: nat, ra: Reg, rb: Reg, immd16: bv64, immd26: bv64)
    requires op !in RI_OPCODES
    ensures ApplyRI(c, op, ra, rb, immd16, immd26) == c.(regs := ZeroR0(c.regs))
  {
  }

  /** 4-byte alignment: the next word and every jump target of an aligned
      address are aligned. */
  lemma AlignedTargets(ip: bv64, imm: bv64)
    requires ip & 3 == 0
    ensures NextWord(ip) & 3 == 0
    ensures JumpTarget(ip, imm) & 3 == 0
  {
  }

  /** Instructions sit on 4-byte boundaries and every register-register step
      except JR keeps ip on one; JR lands on a boundary exactly when the
      return-address register holds one. */
  lemma {:induction false} AlignmentPreservedRR(c: Core, op: nat, ra: Reg, rb: Reg, rc: Reg)
    requires c.ip & 3 == 0
    ensures op != OPCODE_JR ==> ApplyRR(c, op, ra, rb, rc).ip & 3 == 0
    ensures op == OPCODE_JR ==> (ApplyRR(c, op, ra, rb, rc).ip & 3 == 0 <==> c.regs[REG_RA] & 3 == 0)
  {
    AlignedTargets(c.ip, 0);
  }

  /** Every register-immediate step keeps ip on a 4-byte boundary, and JAL
      stores an aligned return address. */
  lemma {:induction false} AlignmentPreservedRI(c: Core, op: nat, ra: Reg, rb: Reg, immd16: bv64, immd26: bv64)
    requires c.ip & 3 == 0 && AccessOk(c.mem, op, Displace(c.regs[ra], immd16))
    ensures ApplyRI(c, op, ra, rb, immd16, immd26).ip & 3 == 0
    ensures op == OPCODE_JAL ==> ApplyRI(c, op, ra, rb, immd16, immd26).regs[REG_RA] & 3 == 0
  {
    AlignedTargets(c.ip, immd16);
    AlignedTargets(c.ip, immd26);
  }

  /** A JAL followed by a JR returns to the word after the JAL, with the
      registers as the JAL left them. */
  lemma {:induction false} CallThenReturn(c: Core, ra: Reg, rb: Reg, immd16: bv64, immd26: bv64,
                                          ra': Reg, rb': Reg, rc': Reg)
    ensures var c1 := ApplyRI(c, OPCODE_JAL, ra, rb, immd16, immd26);
      ApplyRR(c1, OPCODE_JR, ra', rb', rc').ip == NextWord(c.ip)
      && ApplyRR(c1, OPCODE_JR, ra', rb', rc').regs == c1.regs
  {
    JumpAndLink(c, ra, rb, immd16, immd26);
    var c1 := ApplyRI(c, OPCODE_JAL, ra, rb, immd16, immd26);
    ControlRR(c1, OPCODE_JR, ra', rb', rc');
    assert ZeroR0(c1.regs) == c1.regs;
  }

  /** SD followed by LD through the same base register and offset brings back
      the stored value, into any register, provided register 0 holds 0 as the
      machine keeps it. */
  lemma {:induction false} StoreThenLoad(c: Core, base: Reg, src: Reg, dst: Reg, immd16: bv64, immd26: bv64)
    requires c.regs[0] == 0 && dst != 0
    requires Mapped(c.mem, Displace(c.regs[base], immd16), 8)
    ensures var c1 := ApplyRI(c, OPCODE_STORE_D, base, src, immd16, immd26);
      AccessOk(c1.mem, OPCODE_LOAD_D, Displace(c1.regs[base], immd16))
      && ApplyRI(c1, OPCODE_LOAD_D, base, dst, immd16, immd26).regs[dst] == c.regs[src]
  {
    var c1 := ApplyRI(c, OPCODE_STORE_D, base, src, immd16, immd26);
    StoreDoubleword(c, base, src, immd16, immd26);
    assert c1.regs == c.regs;
    LoadDoubleword(c1, base, dst, immd16, immd26);
  }

  /** BLT compares signed: with rb holding all ones (-1) and ra holding 1 it is
      taken, although all ones is the larger word unsigned; with the two
      swapped it is not. */
  lemma BranchLessThanIsSigned()
    ensures var minusOne: bv64 := 0xFFFF_FFFF_FFFF_FFFF;
      && 1 < minusOne && Taken(OPCODE_BLT, 1, minusOne) && !Taken(OPCODE_BLT, minusOne, 1)
  {
    assert Signed64(0xFFFF_FFFF_FFFF_FFFF) == -1;
  }
}
