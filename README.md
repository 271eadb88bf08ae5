# HivekVM — a Dafny model of the register machine's decode and execute core

HivekVM is a small register virtual machine. It has:

- 32 64-bit registers, with register 0 forced back to zero after every instruction;
- a 64-bit instruction pointer;
- the current 32-bit instruction word;
- a program buffer and a 1 MiB stack buffer, addressed by raw 64-bit host addresses.

Multi-byte values are stored big-endian. This project models the machine's core and proves properties of the model:

- `HivekDefs` (`defs.dfy`): the register numbers, the two opcode tables and the stack size. Lemmas state how these constants relate.
- `Words` (`words.dfy`): the 64-bit byte swap used by read64 and write64, and the byte layouts involved. These are big-endian, plus the native layout of the (little-endian) host.
- `Decode` (`decode.dfy`):
  - the family selector that `execute` switches on;
  - the field extractors `get_opcode`, `get_ra`, `get_rb`, `get_rc`;
  - the 11-bit opcode of `execute_rr`;
  - the sign-extending `get_immd16` and `get_immd26`;
  - assemblers for the three word layouts, proved to be inverse to the extractors.
- `Memory` (`memory.dfy`): a memory image of the two buffers, each at the address its allocation returned. The four accessors are defined on it.
  - `read64`: host load, then swap.
  - `write64`: swap, then host store.
  - `read32u` / `write32`: network order.
- `Semantics` (`semantics.dfy`): `execute_rr` and `execute_ri` as functions on the machine state (registers, ip, memory), with per-opcode lemmas.
- `Listing` (`listing.dfy`): the sample Fibonacci program whose words and mnemonics the constructor records for tracing. Its words are decoded with the executors' own extractors.
- `Engine` (`engine.dfy`): class `HivekVM`, whose fields are updated in place by its methods:
  - the constructor's register-clearing loop;
  - `load_program`'s byte-copy loop;
  - the four memory accessors, `fetch`, `execute`, and `run` cut off after a given number of turns;
  - `execute_rr` and `execute_ri`.

  Each method is proved to leave the state that the value-level definition prescribes.

As written, `execute` only classifies the word (bits 31-29) and calls one of three empty handlers. Nothing calls `execute_rr` or `execute_ri`. One turn of the run loop therefore fetches the word at `ip` and changes nothing else (`Engine.HivekVM.Cycle`). After any number of turns the machine is where it started (`Engine.HivekVM.Run`). The two executors are modelled, and their properties proved, as the operations they are.

The handlers for the three families, `execute16`, `execute24` and `execute32`, are empty. The instructions that have semantics are those of `execute_rr` and `execute_ri`:

- a 6-bit opcode in bits 31-26;
- ra in bits 25-21, rb in bits 20-16, rc in bits 15-11;
- an 11-bit register-register opcode in bits 10-0;
- 16- and 26-bit sign-extended immediates;
- branch and jump offsets counted in 4-byte words.

Addresses: the source casts a 64-bit register value straight to a host pointer, with no bounds check. In the model, an address reaches a byte when it falls in the stack buffer (consulted first) or in the program buffer. Each buffer sits at a base address that the allocator returns, which is a parameter of the constructor and of `LoadProgram`. A load or store outside both buffers is undefined behaviour in the source; it is excluded by a precondition (`Mapped`, `AccessOk`).

## Model

| member | source | states |
|---|---|---|
| HivekDefs.NamedRegistersDistinct | include/HivekDefs.h:5-21 | The named registers V0, V1, A0-A3, T0, T1, SP, FP and RA are pairwise distinct. All lie in 2..31, so none aliases the hard-wired register 0. |
| HivekDefs.RegisterRegisterOpcodesFit | include/HivekDefs.h:23-42 | ADD, SUB, AND, OR, XOR, JR, SYSCALL and HALT are pairwise distinct and below 0x800, so each is reachable from the 11-bit field. |
| HivekDefs.RegisterImmediateOpcodesFit | include/HivekDefs.h:30-39 | ADDI, LD, SD, BEQ, BNE, BLT and JAL are pairwise distinct and below 64, so each fits the 6-bit opcode field. |
| HivekDefs.OpcodeTablesOverlap | include/HivekDefs.h:23-39 | The same numbers name different operations in the two tables (SUB/ADDI, AND/LD, OR/SD, XOR/BEQ, JR/BNE); ADD's 0 is not a register-immediate opcode. |
| HivekDefs.StackSizeIsWholeSlots | include/HivekDefs.h:6 | The stack size is a positive multiple of 8, so the top slot at size-8 is a whole, aligned doubleword. |
| Words.Swap64 | src/HivekVM/HivekVM.cpp:288-295 | Defines the byte swap of read64 and write64. It is proved to undo itself in Words.Swap64Involutive and to turn the host layout into big-endian in Words.HostStoreOfSwapIsBigEndian and Words.SwapOfHostLoadIsBigEndian. |
| Words.Swap64Involutive | src/HivekVM/HivekVM.cpp:284-321 | The byte swap of read64 undoes the byte swap of write64. |
| Words.BigEndian64RoundTrip | src/HivekVM/HivekVM.cpp:288-295 | The big-endian layout is a bijection between 64-bit values and 8-byte strings, in both directions. |
| Words.HostRoundTrip | src/HivekVM/HivekVM.cpp:285-286 | A plain host load reads back what a plain host store wrote. |
| Words.HostStoreOfSwapIsBigEndian | src/HivekVM/HivekVM.cpp:311-320 | Storing the swapped value lays the original value out big-endian: byte k holds bits 63-8k..56-8k. |
| Words.SwapOfHostLoadIsBigEndian | src/HivekVM/HivekVM.cpp:285-295 | Swapping what the host loads gives the big-endian reading of the bytes, whatever wrote them. |
| Words.BigEndian32RoundTrip | src/HivekVM/HivekVM.cpp:279-305 | The network-order layout of htonl/ntohl is a bijection between 32-bit values and 4-byte strings. |
| Decode.Kind | src/HivekVM/HivekVM.cpp:113 | The family selector `(instruction >> 29) & 7` is always below 8. |
| Decode.Classify | src/HivekVM/HivekVM.cpp:112-137 | Defines execute's choice of handler by bits 31-29. Proved total and characterised by word ranges in Decode.ClassifyTotal. |
| Decode.ClassifyTotal | src/HivekVM/HivekVM.cpp:112-137 | The "invalid ikind" branch is unreachable. Selectors 000-101 are exactly the words below 0xC0000000, 110 the words in [0xC0000000, 0xE0000000), and 111 the rest (each as an if-and-only-if). |
| Decode.Opcode | src/HivekVM/HivekVM.cpp:323-325 | get_opcode is below 64. |
| Decode.Ra | src/HivekVM/HivekVM.cpp:327-329 | get_ra is below 32, so it is a valid register index. |
| Decode.Rb | src/HivekVM/HivekVM.cpp:331-333 | get_rb is below 32, so it is a valid register index. |
| Decode.Rc | src/HivekVM/HivekVM.cpp:335-337 | get_rc is below 32, so it is a valid register index. |
| Decode.RROpcode | src/HivekVM/HivekVM.cpp:155 | The opcode `instruction & 0x7ff` of execute_rr is below 0x800. |
| Decode.Immd16 | src/HivekVM/HivekVM.cpp:339-351 | Defines get_immd16. Proved to sign-extend the low 16 bits in Decode.Immd16SignExtends. |
| Decode.Immd26 | src/HivekVM/HivekVM.cpp:353-365 | Defines get_immd26. Proved to sign-extend the low 26 bits in Decode.Immd26SignExtends. |
| Decode.Immd16SignExtends | src/HivekVM/HivekVM.cpp:339-351 | get_immd16 keeps the low 16 bits unchanged. Read as a signed 64-bit number, it equals the two's-complement value of those bits. |
| Decode.Immd26SignExtends | src/HivekVM/HivekVM.cpp:353-365 | get_immd26 keeps the low 26 bits unchanged. Read as a signed 64-bit number, it equals the two's-complement value of those bits. |
| Decode.RegisterRegisterRoundTrip | src/HivekVM/HivekVM.cpp:323-337 | The extractors recover the fields of an assembled register-register word. A word has primary opcode 0 exactly when it is the assembly of its own fields. |
| Decode.RegisterImmediateRoundTrip | src/HivekVM/HivekVM.cpp:323-333 | The extractors recover opcode, ra, rb and the 16-bit field of an assembled word, and every word is the assembly of its own fields. |
| Decode.JumpRoundTrip | src/HivekVM/HivekVM.cpp:353-365 | The opcode and 26-bit field are recovered from an assembled jump word, and every word is the assembly of the two. |
| Memory.Locate | src/HivekVM/HivekVM.cpp:280-286 | An address resolves to a location whose whole access lies in the buffer it names, or to none when the access lies in neither buffer. |
| Memory.LocateReachesOffset | src/HivekVM/HivekVM.cpp:280-286 | The byte reached is `addr - base` bytes into the buffer the address falls in, as the pointer cast reaches. An address in the stack always resolves to the stack. |
| Memory.Load64 | src/HivekVM/HivekVM.cpp:284-299 | Defines read64 on the memory image: host load, then swap. Proved big-endian in Memory.Load64IsBigEndian and to invert write64 in Memory.Load64OfStore64. |
| Memory.Store64 | src/HivekVM/HivekVM.cpp:307-321 | Defines write64 on the memory image: swap, then host store. Proved big-endian in Memory.Store64IsBigEndian, and framed in Memory.Load64OfStore64Elsewhere and Memory.PutFrame. |
| Memory.Load32 | src/HivekVM/HivekVM.cpp:279-282 | Defines read32u as the network-order value of 4 bytes. Proved to invert write32 in Memory.Load32OfStore32. |
| Memory.Store32 | src/HivekVM/HivekVM.cpp:301-305 | Defines write32 as storing the network-order bytes. Proved to read back in Memory.Load32OfStore32. |
| Memory.LocateDependsOnShape | src/HivekVM/HivekVM.cpp:307-320 | Where an address resolves depends only on where the buffers are and their sizes, not on their contents. |
| Memory.WriteFrame | src/HivekVM/HivekVM.cpp:301-321 | A store at a location reads back what was written. Every other byte of that buffer, and all of the other buffer, is unchanged. |
| Memory.PutFrame | src/HivekVM/HivekVM.cpp:301-321 | The same at address level: the buffers keep their place and size, the written bytes read back, and nothing else changes. |
| Memory.Load64OfStore64 | src/HivekVM/HivekVM.cpp:284-321 | read64 after write64 at the same address returns the written value. |
| Memory.Store64IsBigEndian | src/HivekVM/HivekVM.cpp:307-321 | After write64, the eight bytes at the address are the value's big-endian layout. |
| Memory.Load64IsBigEndian | src/HivekVM/HivekVM.cpp:284-299 | read64 returns the big-endian reading of the eight bytes at the address. |
| Memory.Load32OfStore32 | src/HivekVM/HivekVM.cpp:279-305 | read32u after write32 at the same address returns the written word. |
| Memory.ReadOfWriteElsewhere | src/HivekVM/HivekVM.cpp:301-321 | A read from a location that a write does not overlap sees the old bytes. |
| Memory.Load64OfStore64Elsewhere | src/HivekVM/HivekVM.cpp:284-321 | write64 does not change read64 at an address whose 8 bytes do not overlap its own. |
| Semantics.ApplyRR | src/HivekVM/HivekVM.cpp:161-207 | Defines execute_rr's switch on decoded fields. Its per-opcode effect is proved in Semantics.ArithmeticRR, Semantics.ControlRR, Semantics.UnknownRR and Semantics.RegisterZeroIsZero. |
| Semantics.StepRR | src/HivekVM/HivekVM.cpp:154-208 | Defines execute_rr on a word: decode with Decode.RROpcode, Decode.Ra, Decode.Rb and Decode.Rc, then Semantics.ApplyRR. Executed in place by Engine.HivekVM.ExecuteRR. |
| Semantics.ApplyRI | src/HivekVM/HivekVM.cpp:218-276 | Defines execute_ri's switch on decoded fields. Its per-opcode effect is proved in Semantics.AddImmediate, LoadDoubleword, StoreDoubleword, StoreDoublewordFrame, Branch, JumpAndLink, UnknownRI and RegisterZeroIsZero. |
| Semantics.StepRI | src/HivekVM/HivekVM.cpp:210-277 | Defines execute_ri on a word: decode with Decode.Opcode, Ra, Rb, Immd16 and Immd26, then Semantics.ApplyRI. Executed in place by Engine.HivekVM.ExecuteRI. |
| Semantics.AluWraps | src/HivekVM/HivekVM.cpp:162-185 | The register-register operations and the ADDI/LD/SD address sum wrap modulo 2^64. |
| Semantics.RegisterZeroIsZero | src/HivekVM/HivekVM.cpp:154-277 | Register 0 reads 0 after every execute_rr and execute_ri, even when rc or rb names it. |
| Semantics.ArithmeticRR | src/HivekVM/HivekVM.cpp:161-185 | ADD/SUB/AND/OR/XOR write the wrapping result of ra op rb into rc (unless rc is 0) and advance ip by 4. No other register changes, and memory is unchanged. |
| Semantics.ControlRR | src/HivekVM/HivekVM.cpp:187-201 | JR sets ip to regs[31]; HALT and SYSCALL advance ip by 4. None changes a register (beyond clearing 0) or memory. |
| Semantics.UnknownRR | src/HivekVM/HivekVM.cpp:203-207 | An opcode outside the register-register table leaves ip, the other registers and memory as they were. |
| Semantics.AddImmediate | src/HivekVM/HivekVM.cpp:219-222 | ADDI sets rb to ra + immd16 (wrapping) and advances ip by 4. No other register changes, and memory is unchanged. |
| Semantics.LoadDoubleword | src/HivekVM/HivekVM.cpp:224-230 | LD sets rb to the big-endian value of the 8 bytes at ra + immd16 and advances ip by 4. No other register changes, and memory is unchanged. |
| Semantics.StoreDoubleword | src/HivekVM/HivekVM.cpp:232-236 | SD leaves memory as write64 of rb at ra + immd16: the 8 bytes there are rb big-endian, and read64 there returns it. The buffers keep their shape, registers are unchanged, and ip advances by 4. |
| Semantics.StoreDoublewordFrame | src/HivekVM/HivekVM.cpp:232-236 | SD leaves read64 unchanged at every address whose 8 bytes lie in the other buffer or do not overlap the stored ones. |
| Semantics.Branch | src/HivekVM/HivekVM.cpp:238-263 | BEQ is taken iff ra == rb, BNE iff ra != rb, and BLT iff signed rb < signed ra. A taken branch sets ip to ip + 4*immd16; otherwise ip advances by 4. Registers and memory are unchanged. |
| Semantics.BranchLessThanIsSigned | src/HivekVM/HivekVM.cpp:256-263 | BLT compares signed, in operand order rb < ra: with rb = all ones and ra = 1 it is taken; with the two swapped it is not. |
| Semantics.JumpAndLink | src/HivekVM/HivekVM.cpp:265-270 | JAL sets regs[31] to the old ip + 4 and ip to the old ip + 4*immd26. No other register changes, and memory is unchanged. |
| Semantics.UnknownRI | src/HivekVM/HivekVM.cpp:272-276 | An opcode outside the register-immediate table leaves ip, the other registers and memory as they were. |
| Semantics.AlignedTargets | src/HivekVM/HivekVM.cpp:238-269 | From a 4-byte-aligned ip, the next word and every branch or jump target are aligned. |
| Semantics.AlignmentPreservedRR | src/HivekVM/HivekVM.cpp:161-201 | Every register-register step except JR keeps ip aligned. JR lands aligned exactly when regs[31] is aligned. |
| Semantics.AlignmentPreservedRI | src/HivekVM/HivekVM.cpp:218-270 | Every register-immediate step keeps ip 4-byte aligned, and JAL saves an aligned return address. |
| Semantics.CallThenReturn | src/HivekVM/HivekVM.cpp:187-270 | JAL followed by JR returns to the word after the JAL, with the registers as JAL left them. |
| Semantics.StoreThenLoad | src/HivekVM/HivekVM.cpp:224-236 | SD then LD through the same base register and offset brings the stored value back, into any nonzero register. |
| Listing.SampleWordsDecode | src/HivekVM/HivekVM.cpp:22-45 | The listed words decode, with the executors' extractors, to the fields and immediates of their mnemonics (addi sp,sp,-24; sd/ld a0; ld t0; blt; jal -7; add; jr). |
| Listing.ListedReturnAddressWords | src/HivekVM/HivekVM.cpp:33-43 | The words listed as `sd ra, sp, 0` and `ld ra, sp, 0` carry register 0, not 31, in their rb field. |
| Listing.CorrectedReturnAddressWords | src/HivekVM/HivekVM.cpp:33-43 | The words these mnemonics stand for are 0x0fbf0000 and 0x0bbf0000, which decode to rb = RA. |
| Listing.ListedSaveDoesNotSurviveCall | src/HivekVM/HivekVM.cpp:33-43 | With the listed words, the routine's save/call/restore leaves the return address at the word after the inner call, not the caller's. |
| Listing.CorrectedSaveSurvivesCall | src/HivekVM/HivekVM.cpp:33-43 | With the corrected words, the return address restored after the call is the one saved before it. |
| Engine.StackSizeWordIsDefault | include/HivekDefs.h:6 | The 64-bit word used in the stack-pointer arithmetic is STACK_DEFAULT_SIZE. |
| Engine.InitialRegistersZero | src/HivekVM/HivekVM.cpp:15-20 | After construction, every register except SP is 0, and SP is stack + STACK_DEFAULT_SIZE - 8. |
| Engine.InitialStackPointerMapped | src/HivekVM/HivekVM.cpp:19-20 | The initial SP resolves to offset STACK_DEFAULT_SIZE - 8 of the stack, i.e. the last whole 8-byte slot (offset + 8 == size). |
| Engine.StackTopAligned | src/HivekVM/HivekVM.cpp:20 | The initial SP is 8-byte aligned when the stack allocation is. |
| Engine.HivekVM.constructor | src/HivekVM/HivekVM.cpp:11-20 | No program, ip 0, and the register file equal to InitialRegisters: the zeroing loop cleared all 32 registers, then SP was pointed at the stack's top slot. |
| Engine.HivekVM.LoadProgram | src/HivekVM/HivekVM.cpp:66-84 | The copy loop leaves a fresh program buffer holding exactly the file's bytes, with ip at its first byte and the registers untouched. |
| Engine.HivekVM.Read32U | src/HivekVM/HivekVM.cpp:279-282 | Returns the network-order value of the 4 bytes at the address. |
| Engine.HivekVM.Read64 | src/HivekVM/HivekVM.cpp:284-299 | Returns the swapped host load, which is the big-endian value of the 8 bytes at the address. |
| Engine.HivekVM.Put | src/HivekVM/HivekVM.cpp:320 | Storing into a buffer in place changes the memory exactly as the value-level write does. |
| Engine.HivekVM.Write32 | src/HivekVM/HivekVM.cpp:301-305 | The memory becomes Store32 of the old memory, and read32u there gives the word back. |
| Engine.HivekVM.Write64 | src/HivekVM/HivekVM.cpp:307-321 | The memory becomes Store64 of the old memory. The 8 bytes there are the value big-endian, and read64 gives the value back. |
| Engine.HivekVM.Fetch | src/HivekVM/HivekVM.cpp:107-110 | The instruction becomes read32u at ip. |
| Engine.HivekVM.Execute | src/HivekVM/HivekVM.cpp:112-152 | Selects the handler by bits 31-29, never the invalid-kind exit. The selected handlers are empty, so nothing changes. |
| Engine.HivekVM.Cycle | src/HivekVM/HivekVM.cpp:54-59 | One turn of run: the instruction becomes the word at ip, and registers, ip and memory are as before. |
| Engine.HivekVM.Run | src/HivekVM/HivekVM.cpp:54-59 | The loop of Cycle calls, cut off after `fuel` turns, leaves registers, ip and memory unchanged. After at least one turn the instruction is the word at ip, so the loop fetches the same word forever. |
| Engine.HivekVM.ApplyRRInPlace | src/HivekVM/HivekVM.cpp:161-207 | The in-place switch of execute_rr leaves the state that ApplyRR prescribes. |
| Engine.HivekVM.ExecuteRR | src/HivekVM/HivekVM.cpp:154-208 | execute_rr on the current instruction leaves the state StepRR prescribes, to which the Semantics lemmas apply. |
| Engine.HivekVM.ApplyRIInPlace | src/HivekVM/HivekVM.cpp:218-276 | The in-place switch of execute_ri leaves the state that ApplyRI prescribes. |
| Engine.HivekVM.AccessInPlace | src/HivekVM/HivekVM.cpp:224-236 | LD and SD leave the state ApplyRI prescribes. |
| Engine.HivekVM.LoadInPlace | src/HivekVM/HivekVM.cpp:224-230 | LD through read64 into rb leaves the state ApplyRI prescribes. |
| Engine.HivekVM.StoreInPlace | src/HivekVM/HivekVM.cpp:232-236 | SD through write64 of rb leaves the state ApplyRI prescribes. |
| Engine.HivekVM.ComputeInPlace | src/HivekVM/HivekVM.cpp:219-273 | ADDI, the branches, JAL and unknown opcodes leave the state ApplyRI prescribes. |
| Engine.HivekVM.ExecuteRI | src/HivekVM/HivekVM.cpp:210-277 | execute_ri on the current instruction leaves the state StepRI prescribes, to which the Semantics lemmas apply. |

## Left out

- Console output: `printf` tracing in `fetch`, LD, SD and JAL; the register dump after `execute`; `print_registers` and `print_stack`; SYSCALL's printing of register 1. None of it changes machine state.
- HALT's blocking `scanf` (console input). HALT is modelled as advancing ip by 4.
- The `imap` string table, which exists only for tracing. Its words are studied in module `Listing` instead.
- File I/O in `load_program` (opening, `seekg`/`tellg`, `get`). The file's bytes are a parameter. A missing file, for which `tellg` yields -1, is not modelled.
- `main.cpp`, the destructor and `shutdown` (memory release). `load_program` never releases an earlier program buffer; the model does not track that leak.
- Engine.HivekVM.Run: the unbounded `run` loop is cut off after `fuel` turns. The `exit(0)` of the invalid-kind branch is unreachable and is not modelled.
- The empty `execute16`, `execute24` and `execute32` handlers, beyond their having no effect. The 24-bit and 32-bit opcode tables, which no code reads.
- Host byte order: the host is taken to be little-endian, as on x86-64, for the plain loads and stores of read64 and write64. `ntohl`/`htonl` are modelled as network order directly.
- Allocation addresses: the stack's and program's addresses are parameters. The model does not require the two buffers to be disjoint in the address space; an address in both resolves to the stack.
- The header declares `program` as `uint32_t*` while `load_program` allocates bytes. The model uses a byte buffer.
- The stack's initial contents (uninitialised in the source) are arbitrary.
- Accesses outside both buffers (undefined behaviour in the source) are excluded by preconditions. Misaligned accesses inside a buffer are modelled byte-wise.
- Semantics.ArithmeticRR: states the result with 64-bit bit-vector operations, which wrap modulo 2^64. The relation to unbounded integer arithmetic is shown by the examples of Semantics.AluWraps, not for all inputs.

## Findings

| source | as written | input that shows it | evidently intended | confidence | as-written member | corrected member |
|---|---|---|---|---|---|---|
| src/HivekVM/HivekVM.cpp:33-43 | The words listed as `sd ra, sp, 0` (0x0fa00000) and `ld ra, sp, 0` (0x0ba00000) have rb = 0. The Fibonacci routine therefore saves and restores register 0, not the return address, and after the inner `jal fib` its `jr` returns into itself. | A machine state with SP mapped: the sequence sd (rb=0), jal, ld (rb=0) leaves regs[31] = the word after the jal. | rb = 31: words 0x0fbf0000 and 0x0bbf0000, which restore the caller's return address. | not executed | Listing.ListedSaveDoesNotSurviveCall | Listing.CorrectedSaveSurvivesCall |
