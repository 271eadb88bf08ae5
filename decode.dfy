/** Decoding of a 32-bit instruction word: the family selector in bits 31-29,
    the 6-bit opcode, the three 5-bit register fields, the 11-bit
    register-register opcode and the two sign-extended immediates.

    Field layout read by the executors:
      bits 31-26  opcode (register-immediate and jump forms)
      bits 25-21  ra
      bits 20-16  rb
      bits 15-11  rc (register-register form)
      bits 10-0   opcode (register-register form)
      bits 15-0   16-bit immediate
      bits 25-0   26-bit immediate */
module Decode {
  import opened Words

  /** The family selector `(instruction >> 29) & 7` that execute() switches on. */
  function Kind(instr: bv32): (k: nat)
    ensures k < 8
  {
    ((instr >> 29) & 0x7) as bv3 as nat
  }

  /** The handler execute() hands the word to; `InvalidKind` is its default
      branch, which prints "invalid ikind" and exits. */
  datatype Family = Family16 | Family24 | Family32 | InvalidKind

  function Classify(instr: bv32): Family
  {
    var k := Kind(instr);
    if k <= 5 then Family16
    else if k == 6 then Family24
    else if k == 7 then Family32
    else InvalidKind
  }

  /** Classification never reaches the "invalid ikind" exit, and it splits the
      words by their unsigned value: the six selectors 000-101 are the words
      below 0xC0000000, 110 the next eighth, 111 the top eighth. */
  lemma {:induction false} ClassifyTotal(instr: bv32)
    ensures Classify(instr) != InvalidKind
    ensures Classify(instr) == Family16 <==> instr < 0xC000_0000
    ensures Classify(instr) == Family24 <==> 0xC000_0000 <= instr < 0xE000_0000
    ensures Classify(instr) == Family32 <==> 0xE000_0000 <= instr
  {
    var sel := ((instr >> 29) & 0x7) as bv3;
    assert sel <= 5 <==> instr < 0xC000_0000;
    assert sel == 6 <==> 0xC000_0000 <= instr < 0xE000_0000;
    assert sel == 7 <==> 0xE000_0000 <= instr;
  }

  // The fields as bit-vectors of their own width.

  function OpcodeBits(instr: bv32): bv6 { ((instr >> 26) & 0x3f) as bv6 }
  function RaBits(instr: bv32): bv5 { ((instr >> 21) & 0x1f) as bv5 }
  function RbBits(instr: bv32): bv5 { ((instr >> 16) & 0x1f) as bv5 }
  function RcBits(instr: bv32): bv5 { ((instr >> 11) & 0x1f) as bv5 }
  function RROpcodeBits(instr: bv32): bv11 { (instr & 0x7ff) as bv11 }
  function Imm16Bits(instr: bv32): bv16 { (instr & 0xffff) as bv16 }
  function Imm26Bits(instr: bv32): bv26 { (instr & 0x3ff_ffff) as bv26 }

  /** get_opcode: bits 31-26. */
  function Opcode(instr: bv32): (op: nat)
    ensures op < 64
  {
    OpcodeBits(instr) as nat
  }

  /** get_ra: bits 25-21. */
  function Ra(instr: bv32): (r: nat)
    ensures r < 32
  {
    RaBits(instr) as nat
  }

  /** get_rb: bits 20-16. */
  function Rb(instr: bv32): (r: nat)
    ensures r < 32
  {
    RbBits(instr) as nat
  }

  /** get_rc: bits 15-11. */
  function Rc(instr: bv32): (r: nat)
    ensures r < 32
  {
    RcBits(instr) as nat
  }

  /** The opcode execute_rr switches on: `instruction & 0x7ff`. */
  function RROpcode(instr: bv32): (op: nat)
    ensures op < 0x800
  {
    RROpcodeBits(instr) as nat
  }

  /** The value of a 16-bit (26-bit) field read in two's complement. */
  function TwosComplement16(x: bv16): int
  {
    if x < 0x8000 then x as int else x as int - 0x1_0000
  }

  function TwosComplement26(x: bv26): int
  {
    if x < 0x200_0000 then x as int else x as int - 0x400_0000
  }

  /** get_immd16: if bit 15 is set, all-ones shifted left 16 and or-ed with the
      low 16 bits; otherwise the low 16 bits. */
  function Immd16(instr: bv32): bv64
  {
    var low := (instr & 0xffff) as bv64;
    if instr & 0x8000 != 0 then (!(0 as bv64) << 16) | low else low
  }

  /** get_immd26: the same with bit 25 and the low 26 bits. */
  function Immd26(instr: bv32): bv64
  {
    var low := (instr & 0x3ff_ffff) as bv64;
    if instr & 0x200_0000 != 0 then (!(0 as bv64) << 26) | low else low
  }

  /** get_immd16 sign-extends correctly: it keeps the low 16 bits, and read as a
      signed 64-bit number it is the two's-complement value of those bits. */
  lemma {:induction false} Immd16SignExtends(instr: bv32)
    ensures Immd16(instr) & 0xffff == Imm16Bits(instr) as bv64
    ensures Signed64(Immd16(instr)) == TwosComplement16(Imm16Bits(instr))
  {
    if instr & 0x8000 != 0 {
      Immd16Negative(instr);
    } else {
      Immd16NonNegative(instr);
    }
  }

  lemma Immd16Negative(instr: bv32)
    requires instr & 0x8000 != 0
    ensures Signed64(Immd16(instr)) == TwosComplement16(Imm16Bits(instr))
  {
    var x := Imm16Bits(instr);
    assert Immd16(instr) == 0xFFFF_FFFF_FFFF_0000 | x as bv64;
    ZeroExtend16(x);
    OnesAbove16(x as bv64);
  }

  lemma Immd16NonNegative(instr: bv32)
    requires instr & 0x8000 == 0
    ensures Signed64(Immd16(instr)) == TwosComplement16(Imm16Bits(instr))
  {
    var x := Imm16Bits(instr);
    assert Immd16(instr) == x as bv64;
    ZeroExtend16(x);
  }

  /** get_immd26 sign-extends correctly, as get_immd16 does for 16 bits. */
  lemma {:induction false} Immd26SignExtends(instr: bv32)
    ensures Immd26(instr) & 0x3ff_ffff == Imm26Bits(instr) as bv64
    ensures Signed64(Immd26(instr)) == TwosComplement26(Imm26Bits(instr))
  {
    if instr & 0x200_0000 != 0 {
      Immd26Negative(instr);
    } else {
      Immd26NonNegative(instr);
    }
  }

  lemma Immd26Negative(instr: bv32)
    requires instr & 0x200_0000 != 0
    ensures Signed64(Immd26(instr)) == TwosComplement26(Imm26Bits(instr))
  {
    var x := Imm26Bits(instr);
    assert Immd26(instr) == 0xFFFF_FFFF_FC00_0000 | x as bv64;
    ZeroExtend26(x);
    OnesAbove26(x as bv64);
  }

  lemma Immd26NonNegative(instr: bv32)
    requires instr & 0x200_0000 == 0
    ensures Signed64(Immd26(instr)) == TwosComplement26(Imm26Bits(instr))
  {
    var x := Imm26Bits(instr);
    assert Immd26(instr) == x as bv64;
    ZeroExtend26(x);
  }

  lemma ZeroExtend16(x: bv16)
    ensures (x as bv64) as int == x as int
  {
  }

  lemma ZeroExtend26(x: bv26)
    ensures (x as bv64) as int == x as int
  {
  }

  /** A word whose bits above a 16-bit (26-bit) field are all ones reads,
      signed, as the field's value minus 2^16 (2^26). */
  lemma OnesAbove16(low: bv64)
    requires 0x8000 <= low < 0x1_0000
    ensures Signed64(0xFFFF_FFFF_FFFF_0000 | low) == low as int - 0x1_0000
  {
  }

  lemma OnesAbove26(low: bv64)
    requires 0x200_0000 <= low < 0x400_0000
    ensures Signed64(0xFFFF_FFFF_FC00_0000 | low) == low as int - 0x400_0000
  {
  }

  /** Assembling a register-register word (primary opcode 0) from its fields. */
  function EncodeRR(ra: bv5, rb: bv5, rc: bv5, op: bv11): bv32
  {
    ((ra as bv32) << 21) | ((rb as bv32) << 16) | ((rc as bv32) << 11) | (op as bv32)
  }

  /** Assembling a register-immediate word from its fields. */
  function EncodeRI(op: bv6, ra: bv5, rb: bv5, imm: bv16): bv32
  {
    ((op as bv32) << 26) | ((ra as bv32) << 21) | ((rb as bv32) << 16) | (imm as bv32)
  }

  /** Assembling a jump word from its opcode and 26-bit displacement. */
  function EncodeJ(op: bv6, imm: bv26): bv32
  {
    ((op as bv32) << 26) | (imm as bv32)
  }

  /** The extractors undo the register-register assembly, and the words with
      primary opcode 0 are exactly the assembled ones. */
  lemma RegisterRegisterRoundTrip(ra: bv5, rb: bv5, rc: bv5, op: bv11, instr: bv32)
    ensures var w := EncodeRR(ra, rb, rc, op);
      OpcodeBits(w) == 0 && RaBits(w) == ra && RbBits(w) == rb && RcBits(w) == rc && RROpcodeBits(w) == op
    ensures OpcodeBits(instr) == 0 <==>
      EncodeRR(RaBits(instr), RbBits(instr), RcBits(instr), RROpcodeBits(instr)) == instr
  {
  }

  /** The extractors undo the register-immediate assembly, and every word is
      the assembly of its own fields. */
  lemma RegisterImmediateRoundTrip(op: bv6, ra: bv5, rb: bv5, imm: bv16, instr: bv32)
    ensures var w := EncodeRI(op, ra, rb, imm);
      OpcodeBits(w) == op && RaBits(w) == ra && RbBits(w) == rb && Imm16Bits(w) == imm
    ensures EncodeRI(OpcodeBits(instr), RaBits(instr), RbBits(instr), Imm16Bits(instr)) == instr
  {
  }

  /** The extractors undo the jump assembly, and every word is the assembly of
      its opcode and 26-bit field. */
  lemma JumpRoundTrip(op: bv6, imm: bv26, instr: bv32)
    ensures var w := EncodeJ(op, imm); OpcodeBits(w) == op && Imm26Bits(w) == imm
    ensures EncodeJ(OpcodeBits(instr), Imm26Bits(instr)) == instr
  {
  }
}
