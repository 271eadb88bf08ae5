/** The sample program whose words the constructor lists beside their
    disassembly (a recursive Fibonacci routine). The words are decoded with
    the executors' own field extractors; all but two decode as their listed
    text. `sd ra, sp, 0` and `ld ra, sp, 0` carry 0 instead of 31 in the rb
    field, so the routine saves and restores register 0 rather than the
    return address. */
module Listing {
  import opened HivekDefs
  import opened Words
  import opened Decode
  import opened Memory
  import opened Semantics

  /** Words of the listing decode as their mnemonics: `addi sp, sp, -24`,
      `addi %25, %0, 1`, `sd a0, sp, 8`, `ld a0, sp, 8`, `ld t0, sp, 16`,
      `blt %25, a0, recurse`, `jal fib` (7 words back), `add v0, a0, %0`
      and `jr`. */
  lemma {:induction false} SampleWordsDecode()
    ensures Opcode(0x07bd_ffe8) == OPCODE_ADDI && Ra(0x07bd_ffe8) == REG_SP && Rb(0x07bd_ffe8) == REG_SP
    ensures Signed64(Immd16(0x07bd_ffe8)) == -24
    ensures Opcode(0x0419_0001) == OPCODE_ADDI && Ra(0x0419_0001) == 0 && Rb(0x0419_0001) == 25
    ensures Opcode(0x0fa4_0008) == OPCODE_STORE_D && Ra(0x0fa4_0008) == REG_SP && Rb(0x0fa4_0008) == REG_A0
    ensures Opcode(0x0ba4_0008) == OPCODE_LOAD_D && Ra(0x0ba4_0008) == REG_SP && Rb(0x0ba4_0008) == REG_A0
    ensures Signed64(Immd16(0x0ba4_0008)) == 8
    ensures Opcode(0x0ba8_0010) == OPCODE_LOAD_D && Ra(0x0ba8_0010) == REG_SP && Rb(0x0ba8_0010) == REG_T0
    ensures Opcode(0x1899_0003) == OPCODE_BLT && Rb(0x1899_0003) == 25 && Ra(0x1899_0003) == REG_A0
    ensures Opcode(0x1fff_fff9) == OPCODE_JAL && Signed64(Immd26(0x1fff_fff9)) == -7
    ensures Opcode(0x0080_1000) == 0 && RROpcode(0x0080_1000) == OPCODE_ADD
    ensures Rc(0x0080_1000) == REG_V0 && Ra(0x0080_1000) == REG_A0 && Rb(0x0080_1000) == 0
    ensures Opcode(0x0000_0005) == 0 && RROpcode(0x0000_0005) == OPCODE_JR
  {
    Immd16SignExtends(0x07bd_ffe8);
    Immd16SignExtends(0x0ba4_0008);
    Immd26SignExtends(0x1fff_fff9);
  }

  /** As listed, `sd ra, sp, 0` (0x0fa00000) and `ld ra, sp, 0` (0x0ba00000)
      name register 0 in their rb field, not the return-address register. */
  lemma {:induction false} ListedReturnAddressWords()
    ensures Opcode(0x0fa0_0000) == OPCODE_STORE_D && Ra(0x0fa0_0000) == REG_SP && Immd16(0x0fa0_0000) == 0
    ensures Opcode(0x0ba0_0000) == OPCODE_LOAD_D && Ra(0x0ba0_0000) == REG_SP && Immd16(0x0ba0_0000) == 0
    ensures Rb(0x0fa0_0000) == 0 && Rb(0x0ba0_0000) == 0 && REG_RA != 0
  {
  }

  /** The words the two mnemonics evidently stand for: rb = 31. */
  lemma {:induction false} CorrectedReturnAddressWords()
    ensures EncodeRI(OPCODE_STORE_D as bv6, REG_SP as bv5, REG_RA as bv5, 0) == 0x0fbf_0000
    ensures EncodeRI(OPCODE_LOAD_D as bv6, REG_SP as bv5, REG_RA as bv5, 0) == 0x0bbf_0000
    ensures Opcode(0x0fbf_0000) == OPCODE_STORE_D && Ra(0x0fbf_0000) == REG_SP && Rb(0x0fbf_0000) == REG_RA
    ensures Opcode(0x0bbf_0000) == OPCODE_LOAD_D && Ra(0x0bbf_0000) == REG_SP && Rb(0x0bbf_0000) == REG_RA
    ensures Immd16(0x0fbf_0000) == 0 && Immd16(0x0bbf_0000) == 0
  {
  }

  /** The routine's save, call and restore with the listed words: the save
      stores register 0, the call overwrites the return address, and the
      restore loads into register 0, so afterwards the return address is the
      word after the inner call instead of the caller's. */
  lemma {:induction false} ListedSaveDoesNotSurviveCall(c: Core, immd26: bv64)
    requires c.regs[0] == 0 && Mapped(c.mem, Displace(c.regs[REG_SP], 0), 8)
    ensures var saved := ApplyRI(c, OPCODE_STORE_D, REG_SP, 0, 0, 0);
      var called := ApplyRI(saved, OPCODE_JAL, 0, 0, 0, immd26);
      && AccessOk(called.mem, OPCODE_LOAD_D, Displace(called.regs[REG_SP], 0))
      && ApplyRI(called, OPCODE_LOAD_D, REG_SP, 0, 0, 0).regs[REG_RA] == NextWord(saved.ip)
  {
    var saved := ApplyRI(c, OPCODE_STORE_D, REG_SP, 0, 0, 0);
    StoreDoubleword(c, REG_SP, 0, 0, 0);
    var called := ApplyRI(saved, OPCODE_JAL, 0, 0, 0, immd26);
    JumpAndLink(saved, 0, 0, 0, immd26);
    LoadDoubleword(called, REG_SP, 0, 0, 0);
  }

  /** With the corrected words, the return address saved before the call is
      the one restored after it. */
  lemma {:induction false} CorrectedSaveSurvivesCall(c: Core, immd26: bv64)
    requires c.regs[0] == 0 && Mapped(c.mem, Displace(c.regs[REG_SP], 0), 8)
    ensures var saved := ApplyRI(c, OPCODE_STORE_D, REG_SP, REG_RA, 0, 0);
      var called := ApplyRI(saved, OPCODE_JAL, 0, 0, 0, immd26);
      && AccessOk(called.mem, OPCODE_LOAD_D, Displace(called.regs[REG_SP], 0))
      && ApplyRI(called, OPCODE_LOAD_D, REG_SP, REG_RA, 0, 0).regs[REG_RA] == c.regs[REG_RA]
  {
    var saved := ApplyRI(c, OPCODE_STORE_D, REG_SP, REG_RA, 0, 0);
    StoreDoubleword(c, REG_SP, REG_RA, 0, 0);
    var called := ApplyRI(saved, OPCODE_JAL, 0, 0, 0, immd26);
    JumpAndLink(saved, 0, 0, 0, immd26);
    LoadDoubleword(called, REG_SP, REG_RA, 0, 0);
    Load64IsBigEndian(saved.mem, Displace(c.regs[REG_SP], 0));
  }
}
