/** The virtual machine object: its register file, instruction pointer,
    current instruction word and the two byte buffers it owns, updated in
    place by its methods. Each method is proved against the value-level
    definitions of modules Memory, Decode and Semantics. */
module Engine {
  import opened HivekDefs
  import opened Words
  import opened Decode
  import opened Memory
  import opened Semantics

  /** The stack size as a 64-bit word, for address arithmetic. */
  const STACK_SIZE_WORD: bv64 := 0x10_0000

  /** The word is STACK_DEFAULT_SIZE. */
  lemma StackSizeWordIsDefault()
    ensures STACK_SIZE_WORD as int == STACK_DEFAULT_SIZE
  {
  }

  /** The address of the stack's top 8-byte slot, where the constructor points
      the stack pointer: `stack + STACK_DEFAULT_SIZE - 8`, wrapping. */
  function StackTop(stackBase: bv64): bv64
  {
    stackBase + STACK_SIZE_WORD - 8
  }

  /** The register file the constructor leaves: all zero but the stack pointer. */
  function InitialRegisters(stackBase: bv64): RegFile
  {
    seq(N_REGISTERS, i => if i == REG_SP then StackTop(stackBase) else 0)
  }

  /** The constructor's register file is all zero but the stack pointer. */
  lemma InitialRegistersZero(stackBase: bv64)
    ensures InitialRegisters(stackBase)[REG_SP] == StackTop(stackBase)
    ensures forall i :: 0 <= i < N_REGISTERS && i != REG_SP ==> InitialRegisters(stackBase)[i] == 0
  {
  }

  /** When the stack buffer does not wrap around the top of the address space,
      the initial stack pointer addresses its last 8 bytes. */
  lemma {:induction false} InitialStackPointerMapped(m: Image)
    requires |m.stack| == STACK_DEFAULT_SIZE && m.stackBase <= 0xFFFF_FFFF_FFF0_0000
    ensures Locate(m, StackTop(m.stackBase), 8) == At(Stack, STACK_DEFAULT_SIZE - 8)
  {
    var top := StackTop(m.stackBase);
    StackTopOffset(m.stackBase);
    assert InBuffer(m.stackBase, |m.stack|, top, 8);
  }

  lemma StackTopOffset(stackBase: bv64)
    requires stackBase <= 0xFFFF_FFFF_FFF0_0000
    ensures stackBase <= StackTop(stackBase)
    ensures StackTop(stackBase) - stackBase == 0xF_FFF8
  {
  }

  /** The initial stack pointer is 8-byte aligned when the stack buffer is. */
  lemma StackTopAligned(stackBase: bv64)
    requires stackBase & 7 == 0
    ensures StackTop(stackBase) & 7 == 0
  {
  }

  class HivekVM {
    var regs: array<bv64>
    var ip: bv64
    var instruction: bv32
    var program: array<bv8>
    var programBase: bv64
    const stack: array<bv8>
    const stackBase: bv64

    /** Shape of a well-formed machine: 32 registers, a stack of the default
        size, and a program buffer distinct from it. */
    ghost predicate Valid()
      reads this
    {
      regs.Length == N_REGISTERS && stack.Length == STACK_DEFAULT_SIZE && program != stack
    }

    /** The memory the machine addresses. */
    function Mem(): Image
      reads this, stack, program
    {
      Image(stackBase, stack[..], programBase, program[..])
    }

    /** The machine state an instruction acts on. */
    function State(): Core
      requires Valid()
      reads this, regs, stack, program
    {
      Core(regs[..], ip, Mem())
    }

    /** The constructor: no program (a null pointer, modelled as an empty
        buffer at address 0), ip 0, every register cleared, then a fresh stack
        at the address the allocator returns and the stack pointer at its top
        slot. The stack's bytes are left as allocated. */
    constructor (allocatedStack: bv64)
      ensures Valid() && fresh(regs) && fresh(stack) && fresh(program)
      ensures regs[..] == InitialRegisters(allocatedStack)
      ensures ip == 0 && program.Length == 0 && programBase == 0
      ensures stackBase == allocatedStack
    {
      program := new bv8[0];
      programBase := 0;
      ip := 0;
      var r := new bv64[N_REGISTERS];
      var i := 0;
      while i < N_REGISTERS
        invariant 0 <= i <= N_REGISTERS
        invariant forall k :: 0 <= k < i ==> r[k] == 0
      {
        r[i] := 0;
        i := i + 1;
      }
      stack := new bv8[STACK_DEFAULT_SIZE];
      stackBase := allocatedStack;
      r[REG_SP] := StackTop(allocatedStack);
      regs := r;
      new;
      assert regs[..] == InitialRegisters(allocatedStack);
    }

    /** load_program: a fresh buffer at the address the allocator returns,
        filled byte by byte with the file's contents, and ip pointed at its
        first byte. Registers and stack are untouched. */
    method LoadProgram(contents: seq<bv8>, base: bv64)
      requires Valid()
      modifies this
      ensures Valid() && fresh(program)
      ensures program[..] == contents && programBase == base && ip == base
      ensures regs == old(regs) && instruction == old(instruction)
    {
      var buffer := new bv8[|contents|];
      program := buffer;
      programBase := base;
      ip := base;
      var i := 0;
      while i < |contents|
        invariant 0 <= i <= |contents|
        invariant buffer[..i] == contents[..i]
        invariant program == buffer && programBase == base && ip == base
        invariant regs == old(regs) && instruction == old(instruction)
      {
        buffer[i] := contents[i];
        i := i + 1;
      }
      assert buffer[..] == buffer[..|contents|];
    }

    /** The buffer a location lies in. */
    function BufferArray(r: Region): (a: array<bv8>)
      reads this
      ensures a == stack || a == program
    {
      if r == Stack then stack else program
    }

    /** read32u: a plain 32-bit load at the address, converted from network
        order. */
    method Read32U(address: bv64) returns (data: bv32)
      requires Valid() && Mapped(Mem(), address, 4)
      ensures data == Load32(Mem(), address)
    {
      var l := Locate(Mem(), address, 4);
      var a := BufferArray(l.region);
      data := BigEndianValue32(a[l.offset .. l.offset + 4]);
    }

    /** read64: a plain 64-bit load at the address on the little-endian host,
        then the byte swap; the result is the big-endian reading of the eight
        bytes there. */
    method Read64(address: bv64) returns (value: bv64)
      requires Valid() && Mapped(Mem(), address, 8)
      ensures value == Load64(Mem(), address)
      ensures value == BigEndianValue64(Bytes(Mem(), address, 8))
    {
      var l := Locate(Mem(), address, 8);
      var a := BufferArray(l.region);
      var bytes := a[l.offset .. l.offset + 8];
      assert bytes == Bytes(Mem(), address, 8);
      Load64IsBigEndian(Mem(), address);
      value := HostValue64(bytes);
      value := Swap64(value);
    }

    /** Copy `bytes` into the buffer at a location, one byte at a time. */
    method Put(l: Location, bytes: seq<bv8>)
      requires Valid() && Fits(Mem(), l, |bytes|)
      modifies stack, program
      ensures Valid()
      ensures Mem() == Write(old(Mem()), l, bytes)
    {
      var a := BufferArray(l.region);
      ghost var before := a[..];
      forall k | 0 <= k < |bytes| {
        a[l.offset + k] := bytes[k];
      }
      assert a[..] == before[..l.offset] + bytes + before[l.offset + |bytes|..];
    }

    /** write32: `htonl(data)` stored with a plain 32-bit store. */
    method Write32(address: bv64, data: bv32)
      requires Valid() && Mapped(Mem(), address, 4)
      modifies stack, program
      ensures Valid()
      ensures Mem() == Store32(old(Mem()), address, data)
      ensures Load32(Mem(), address) == data
    {
      Load32OfStore32(Mem(), address, data);
      Put(Locate(Mem(), address, 4), BigEndianBytes32(data));
    }

    /** write64: the byte swap, then a plain 64-bit store on the little-endian
        host; the eight bytes at the address end up holding the value
        big-endian, and read64 there gives it back. */
    method Write64(address: bv64, value: bv64)
      requires Valid() && Mapped(Mem(), address, 8)
      modifies stack, program
      ensures Valid()
      ensures Mem() == Store64(old(Mem()), address, value)
      ensures Bytes(Mem(), address, 8) == BigEndianBytes64(value)
      ensures Load64(Mem(), address) == value
    {
      Store64IsBigEndian(Mem(), address, value);
      Load64OfStore64(Mem(), address, value);
      var swapped := Swap64(value);
      Put(Locate(Mem(), address, 8), HostBytes64(swapped));
    }

    /** fetch: the word at ip, read with read32u. */
    method Fetch()
      requires Valid() && Mapped(Mem(), ip, 4)
      modifies this`instruction
      ensures instruction == Load32(Mem(), ip)
    {
      instruction := Read32U(ip);
    }

    /** execute: select the handler by bits 31-29 of the instruction. The
        three handlers it can select are empty, and the "invalid ikind" exit
        cannot be reached; nothing in the machine changes. */
    method Execute() returns (handler: Family)
      ensures handler == Classify(instruction)
      ensures handler != InvalidKind
    {
      var ikind := (instruction >> 29) & 0x7;
      if ikind <= 5 {
        handler := Family16;
      } else if ikind == 6 {
        handler := Family24;
      } else {
        handler := Family32;
      }
      ClassifyTotal(instruction);
    }

    /** One turn of the run loop: fetch, then execute. As written it only
        loads the current word; registers, ip and memory stay as they were,
        so the loop fetches the same word again. */
    method Cycle() returns (handler: Family)
      requires Valid() && Mapped(Mem(), ip, 4)
      modifies this`instruction
      ensures instruction == Load32(Mem(), ip)
      ensures handler == Classify(instruction) && handler != InvalidKind
      ensures State() == old(State())
    {
      Fetch();
      handler := Execute();
    }

    /** run, cut off after `fuel` turns. The loop makes no progress: the
        registers, ip and memory stay as they were, and once it has turned at
        all the current instruction is the word at ip, fetched again and
        again. */
    method Run(fuel: nat)
      requires Valid() && Mapped(Mem(), ip, 4)
      modifies this`instruction
      ensures State() == old(State())
      ensures fuel > 0 ==> instruction == Load32(Mem(), ip)
      ensures fuel == 0 ==> instruction == old(instruction)
    {
      var n := 0;
      while n < fuel
        invariant 0 <= n <= fuel && State() == old(State())
        invariant n > 0 ==> instruction == Load32(Mem(), ip)
        invariant n == 0 ==> instruction == old(instruction)
      {
        var _ := Cycle();
        n := n + 1;
      }
    }

    /** The body of execute_rr once the fields are decoded. */
    method ApplyRRInPlace(op: nat, ra: Reg, rb: Reg, rc: Reg)
      requires Valid()
      modifies regs, this`ip
      ensures Valid()
      ensures State() == ApplyRR(old(State()), op, ra, rb, rc)
    {
      if IsAlu(op) {
        regs[rc] := Alu(op, regs[ra], regs[rb]);
        ip := NextWord(ip);
      } else if op == OPCODE_JR {
        ip := regs[REG_RA];
      } else if op == OPCODE_HALT || op == OPCODE_SYSCALL {
        ip := NextWord(ip);
      }
      regs[0] := 0;
    }

    /** execute_rr: decode the 11-bit opcode and the three register fields of
        the current instruction, act on them, clear register 0. */
    method ExecuteRR()
      requires Valid()
      modifies regs, this`ip
      ensures Valid()
      ensures State() == StepRR(old(State()), instruction)
    {
      var op := RROpcode(instruction);
      var ra := Ra(instruction);
      var rb := Rb(instruction);
      var rc := Rc(instruction);
      ApplyRRInPlace(op, ra, rb, rc);
    }

    /** The body of execute_ri once the fields are decoded. */
    method ApplyRIInPlace(op: nat, ra: Reg, rb: Reg, immd16: bv64, immd26: bv64)
      requires Valid() && AccessOk(Mem(), op, Displace(regs[ra], immd16))
      modifies regs, this`ip, stack, program
      ensures Valid()
      ensures State() == ApplyRI(old(State()), op, ra, rb, immd16, immd26)
    {
      if IsAccess(op) {
        AccessInPlace(op, ra, rb, immd16, immd26);
      } else {
        ComputeInPlace(op, ra, rb, immd16, immd26);
      }
    }

    /** LD and SD: read64 into rb, or write64 of rb, at `ra + immd16`. */
    method AccessInPlace(op: nat, ra: Reg, rb: Reg, immd16: bv64, immd26: bv64)
      requires Valid() && IsAccess(op) && Mapped(Mem(), Displace(regs[ra], immd16), 8)
      modifies regs, this`ip, stack, program
      ensures Valid()
      ensures State() == ApplyRI(old(State()), op, ra, rb, immd16, immd26)
    {
      if op == OPCODE_LOAD_D {
        LoadInPlace(ra, rb, immd16, immd26);
      } else {
        StoreInPlace(ra, rb, immd16, immd26);
      }
    }

    /** LD: read64 at `ra + immd16` into rb. */
    method LoadInPlace(ra: Reg, rb: Reg, immd16: bv64, immd26: bv64)
      requires Valid() && Mapped(Mem(), Displace(regs[ra], immd16), 8)
      modifies regs, this`ip
      ensures Valid()
      ensures State() == ApplyRI(old(State()), OPCODE_LOAD_D, ra, rb, immd16, immd26)
    {
      var tmp := Read64(Displace(regs[ra], immd16));
      regs[rb] := tmp;
      ip := NextWord(ip);
      regs[0] := 0;
    }

    /** SD: write64 of rb at `ra + immd16`. */
    method StoreInPlace(ra: Reg, rb: Reg, immd16: bv64, immd26: bv64)
      requires Valid() && Mapped(Mem(), Displace(regs[ra], immd16), 8)
      modifies regs, this`ip, stack, program
      ensures Valid()
      ensures State() == ApplyRI(old(State()), OPCODE_STORE_D, ra, rb, immd16, immd26)
    {
      ghost var c := State();
      StoreDoubleword(c, ra, rb, immd16, immd26);
      Write64(Displace(regs[ra], immd16), regs[rb]);
      ip := NextWord(ip);
      regs[0] := 0;
      assert regs[..] == ZeroR0(c.regs);
    }

    /** ADDI, the branches, JAL and unknown opcodes: registers and ip only. */
    method ComputeInPlace(op: nat, ra: Reg, rb: Reg, immd16: bv64, immd26: bv64)
      requires Valid() && !IsAccess(op)
      modifies regs, this`ip
      ensures Valid()
      ensures State() == ApplyRI(old(State()), op, ra, rb, immd16, immd26)
    {
      if op == OPCODE_ADDI {
        regs[rb] := Displace(regs[ra], immd16);
        ip := NextWord(ip);
      } else if IsBranch(op) {
        if Taken(op, regs[ra], regs[rb]) {
          ip := JumpTarget(ip, immd16);
        } else {
          ip := NextWord(ip);
        }
      } else if op == OPCODE_JAL {
        regs[REG_RA] := NextWord(ip);
        ip := JumpTarget(ip, immd26);
      }
      regs[0] := 0;
    }

    /** execute_ri: decode the 6-bit opcode, the two register fields and both
        sign-extended immediates of the current instruction, act on them,
        clear register 0. */
    method ExecuteRI()
      requires Valid()
      requires AccessOk(Mem(), Opcode(instruction), Displace(regs[Ra(instruction)], Immd16(instruction)))
      modifies regs, this`ip, stack, program
      ensures Valid()
      ensures State() == StepRI(old(State()), instruction)
    {
      var op := Opcode(instruction);
      var ra := Ra(instruction);
      var rb := Rb(instruction);
      var immd16 := Immd16(instruction);
      var immd26 := Immd26(instruction);
      ApplyRIInPlace(op, ra, rb, immd16, immd26);
    }
  }
}
