# Verified model of the LuaJIT machine-code back ends

LuaJIT compiles traces to machine code with one small assembler per target. The assemblers emit code
backwards, from the end of a buffer to its start, and rely on a number of arguments that the code does
not spell out: that an encoder and a length decoder agree, that an immediate encoder finds every
immediate, that two fused instructions mean what the separate ones did, that patching a branch leaves
its neighbours alone. This project models those parts and proves the arguments.

Each target has a small instruction datatype with an executable meaning (or a reference decoder taken
from the architecture manual), a model of the source routine in its own form (methods that write a code
array or prepend to a code sequence), and lemmas that connect the two.

| part | modules |
|---|---|
| x64 encoder, reference decoder, length decoder, traces, loads, exit patching, control flow, exit stubs | `X64Ops` `X64Emit` `X64Decode` `X64InsLen` `X64OpMap` `X64Trace` `X64Load` `X64Patch` `X64Flow` `X64Stubs` |
| ARM64 immediates, constant loads, load/store pairs, bitfields, exit patching | `A64Imm` `A64LoadK` `A64LoadStore` `A64Bitfield` `A64Patch` `A64Branch` `A64Exits` |
| ARM32 immediates and constant loads | `ArmImm` `ArmLoadI` |
| PPC rotate-and-mask | `PpcAnd` |
| MIPS jump slots and exit patching | `MipsJumps` `MipsPatch` `MipsBranch` `MipsExits` |
| call slots and argument places of x64, PPC and ARM64 | `Calls` `CallArgs` |
| split 64-bit comparisons, dropped compares | `CmpOps` `X86Compare` `X86DropTest` `ArmCompare` `ArmDropCmp` `MipsCompare` |
| NaN-boxed values and fused type checks | `TValue` `TypeCheck` `X64TypeCheck` `A64TypeCheck` |
| shared words, bits and remainders | `Words` `Bits` `ModArith` |

What the recognisers, field masks, sizes and opcode constants of the models mean is stated apart from them,
in the literal fields of the architecture manuals and calling conventions: `X64Decode`, `X64OpMap` and
`X64Flow` for x64, `A64Branch` and the decoder of `A64LoadStore` for ARM64, `MipsBranch` for MIPS, `CallArgs`
for calls.

Configurations: x64 with 64-bit GC references, ARM64 little-endian, ARM32 with hardware floating point,
MIPS32 before release 6. Register choices, addresses and the results of the fusion tests (`canfuse`,
`mayfuse`, `asm_isk32`) are parameters. `dafny verify dfyconfig.toml` checks the whole project.

## What the proofs found

* `ArmCompare.Asm.Int64Comp`: a signed 64-bit comparison that is the last guard of a loop exits although
  it holds when the high words differ. The branch around the low words goes to the place where
  `asm_guardcc` has put the exit branch of the inverted loop branch; the x86 version forbids the
  inversion, the ARM version does not. In every other case the guard exits exactly when the comparison
  is false. A signed guard is right for all operands if and only if its branch is not inverted
  (`ArmCompare.SignedRightExact`); 0 and 2^32 are operands that show it (`ArmCompare.AstrayInput`).
* `X64TypeCheck.RorCheck`: the rotate form of the pointer type check compares 16 of the 17 tag bits. The
  extra words it lets through are exactly positive NaNs with a payload, which no setter makes.
* `A64Patch.MatchRightExact`: the branch test of ARM64 exit patching compares offsets modulo the size of
  the field. For a kind of branch it means "branches to the stub" if and only if the stub is in the range
  of that kind: for `tbz` a distance of less than 2^13 words. The default code area of 64 KB
  (LuaJit/include/lj_jit.h:107-113) has 2^14 words, so a trace and its stubs in one area can be further
  apart than that. Inside such an area only a `tbz` or `tbnz` to the word exactly 2^14 in front of the
  stub passes by mistake (`A64Patch.MatchInArea`), and that word is outside the area.
  `A64Patch.MatchTooFar` is an instance at 2^14 + 5 words, which needs a larger `sizemcode`.
* `MipsExits.ExitsMissed`: once the exit of an inverted loop branch has been patched on MIPS, the word
  that was a NOP behind the trace is a jump, the search for the exit stub ends there, and no other exit of
  that trace is patched any more. `MipsExits.MissedInstance` is such a trace of seven words.
  The loop exit itself and every exit patched before it get their own targets
  (`MipsExits.LoopExitInTurn`, `MipsExits.ExitsInTurn`).
* `X64Patch.GcExitMissed`: the exit check of a GC step is protected from patching only behind a direct
  5-byte call. In a trace that calls the GC step through the return register it is redirected.
* `X64OpMap.AnyInsLen`: the length decoder of the trace patcher is right for every instruction of the
  opcode maps in 64-bit mode, except exactly for a word or doubleword immediate behind both 66 and REX.W, a
  near branch or a short constant load behind 66, an absolute address behind 67, and the second encoding of
  TEST in group 3 (/1). The back end emits none of them (`X64Trace.InsLenExact`).
* `A64Bitfield.ExtrExact`: the OR of complementary shifts is an EXTR exactly for right shifts of 1 to
  w-1 bits, and for 0 when both operands are the same register.
* `X86DropTest.DropExact`: a dropped `test` is sound exactly for conditions that do not read carry or
  overflow; `X86DropTest.TestedGuards` shows that no other condition gets there.
* `X64Patch.StateTestExact`: the byte test that looks for the store of the trace number is passed by every
  `mov` of a 32-bit immediate whose four bytes behind ModRM are the displacement it looks for. The store
  itself passes if and only if its displacement needs 32 bits, or the three bytes behind a shorter one
  extend it (`X64Patch.StateStoreFound`). A load of a 64-bit register with that number as its
  sign-extended constant passes as well (`X64Patch.MovMiPasses`), and `X64Patch.RedirectedTooEarly` is a
  trace whose exit in front of the store is redirected for that reason. Patching starts exactly behind the
  store if and only if the store is recognised and nothing before it passes (`X64Patch.SeenExact`).

Where comments and code differ the code is modelled: the comment above the pointer type check
(LuaJit/include/lj_asm_x86.h:1747-1753) shows a shift by 16 and the code shifts by 17, which is what
`RorCheck` needs; the comment that `test` is not for unsigned conditions (line 2438) is a choice of the
code, not a need: `X86Compare.TestIsCmpZero` shows that `test r,r` leaves the flags of `cmp r,0`.

## Model

| member | source | states |
|---|---|---|
| X64Emit.MCode.EmitOp | LuaJit/include/lj_emit_x86.h:37-71 | below position e the buffer holds exactly the opcode bytes: REX behind a mandatory 66/F2/F3 prefix, or a three-byte VEX prefix with the register bits merged in; no byte changes except the four below e |
| X64Emit.MCode.EmitRr | LuaJit/include/lj_emit_x86.h:85-89 | prepends exactly the encoding of a register operand to the finished code |
| X64Emit.MCode.EmitRmro | LuaJit/include/lj_emit_x86.h:103-137 | prepends exactly the encoding of base+displacement, RIP-relative or absolute operands, with the EBP/R13 and ESP/R12 cases |
| X64Emit.MCode.EmitRmrxo | LuaJit/include/lj_emit_x86.h:140-156 | prepends exactly the encoding of base+index*scale+displacement |
| X64Emit.MCode.EmitMrm | LuaJit/include/lj_emit_x86.h:193-236 | prepends exactly the encoding of the pending ModRM operand, including an index without a base |
| X64Emit.MCode.EmitGmrmi | LuaJit/include/lj_emit_x86.h:239-250 | prepends the arithmetic group with its immediate; `X64Decode.GroupDecodes` says what the processor reads |
| X64Decode.GroupDecodes | LuaJit/include/lj_emit_x86.h:239-250 | the bytes decode to group g and the operand: opcode 83 with a sign-extended byte that is i for -128 <= i < 128, opcode 81 with a 32-bit value that is i otherwise |
| X64Decode.MemShortest | LuaJit/include/lj_emit_x86.h:103-236 | no encoding of the same memory operand is shorter |
| X64Decode.RexExact | LuaJit/include/lj_emit_x86.h:37-71 | a REX prefix is written if and only if a flag asks for it or some register number needs its fourth bit |
| X64Decode.EncodeRoundTrip | LuaJit/include/lj_emit_x86.h:37-236 | decoding an emitted instruction by the architecture's rules gives back prefix, W, opcode map, opcode, all register bits, the bank of byte registers, base, index, scale and signed displacement, and its length, for every known opcode, register and 32-bit offset |
| X64Decode.ByteOperands | LuaJit/include/lj_emit_x86.h:37-71 | a byte operand names the low byte of the requested register if and only if a REX prefix is written or the register is none of 4..7; FORCE_REX makes sure of it |
| X64Decode.MemRoundTrip | LuaJit/include/lj_emit_x86.h:103-236 | ModRM, SIB and displacement alone decode to the same memory operand |
| X64Decode.OpRoundTrip | LuaJit/include/lj_emit_x86.h:37-71 | prefixes and opcode alone decode to the same opcode, W and register extension bits |
| X64Decode.VexRoundTrip | LuaJit/include/lj_emit_x86.h:40-52 | the VEX form decodes to the same opcode, vvvv, W and registers |
| X64InsLen.AsmX86InsLen | LuaJit/include/lj_asm_x86.h:3050-3102 | the loop over prefixes, opcode maps and ModRM returns the length function, for all code bytes |
| X64InsLen.EncodedLen | LuaJit/include/lj_asm_x86.h:3004-3102 | the length function returns exactly the number of bytes emitted, immediate included, for every legacy and VEX form |
| X64OpMap.AnyInsLen | LuaJit/include/lj_asm_x86.h:3004-3102 | for arbitrary code behind arbitrary prefixes: the decoder returns the length of every instruction of the one-byte, 0f, 0f 38 and 0f 3a maps and their VEX forms if and only if it is none of the forms that are missed |
| X64OpMap.OneByteTable | LuaJit/include/lj_asm_x86.h:3004-3029 | every entry of the first table counts what the opcode map of the architecture says: ModRM and size of the immediate |
| X64OpMap.TwoByteTable | LuaJit/include/lj_asm_x86.h:3031-3048 | the same for the second table |
| X64Trace.InsLenExact | LuaJit/include/lj_asm_x86.h:3004-3102 | the same for all instruction forms of a trace: 16-bit compares, ROUNDSD, BSWAP, constant loads, x87, jumps and calls |
| X64Trace.WalkExact | LuaJit/include/lj_asm_x86.h:3117-3135 | walking any concatenation of instructions by length visits exactly the instruction boundaries |
| X64Load.LoadDecodes | LuaJit/include/lj_emit_x86.h:275-337 | read byte by byte with the opcode map (b8+r, 33 /r, c7 /0, 8d /r, REX.W, r14 or RIP as base) every load form leaves the constant the emitters claim |
| X64Load.EmitLoadi | LuaJit/include/lj_emit_x86.h:275-292 | the instruction leaves the zero-extended constant in the register and never changes the flags in front of a conditional jump |
| X64Load.EmitLoadu64 | LuaJit/include/lj_emit_x86.h:312-337 | whichever of the five forms is chosen leaves exactly the 64-bit constant; the ten byte form is used only when no shorter absolute form reaches |
| X64Load.LoadForms | LuaJit/include/lj_emit_x86.h:312-325 | the value each short form leaves in the register |
| X64Load.EmitJcc | LuaJit/include/lj_emit_x86.h:484-491 | the jump written below mcp has the given condition and target |
| X64Load.EmitJmp | LuaJit/include/lj_emit_x86.h:494-500 | the same for the unconditional jump |
| X64Load.CallRegBytes | LuaJit/include/lj_emit_x86.h:503-517 | the call through the return register is ff d0 |
| X64Load.EmitCall | LuaJit/include/lj_emit_x86.h:503-517 | the call goes to the target, through the return register loaded with exactly that address when it is out of reach |
| X64Patch.LjAsmPatchExit | LuaJit/include/lj_asm_x86.h:3105-3138 | patching the bytes of a trace gives the bytes of the patched instruction list |
| X64Patch.ExitPatchExact | LuaJit/include/lj_asm_x86.h:3105-3138 | a jcc is redirected if and only if it went to the stub, lies behind the first instruction that passes the byte test and is not the exit check of a GC step call; the final jmp if and only if it went to the stub; no other instruction changes |
| X64Patch.ExitPatchBehindStore | LuaJit/include/lj_asm_x86.h:3105-3138 | the same in terms of the vmstate store, for every trace whose store is recognised and in which nothing before it passes the test |
| X64Patch.SeenExact | LuaJit/include/lj_asm_x86.h:3117-3124 | the scan starts patching exactly behind the vmstate store if and only if the store is recognised and nothing before it passes |
| X64Patch.StateTestExact | LuaJit/include/lj_asm_x86.h:3117-3123 | of all instructions exactly the MOVs of a 32-bit immediate pass whose four bytes behind ModRM are the searched displacement |
| X64Patch.GcExitMissed | LuaJit/include/lj_asm_x86.h:3130-3133 | a trace that calls the GC step through a register and has its exit check redirected |
| X64Patch.PatchAllPointwise | LuaJit/include/lj_asm_x86.h:3124-3136 | the scan from any state redirects exactly the branches that the conditions above name |
| X64Patch.ExitPatchBoundaries | LuaJit/include/lj_asm_x86.h:3105-3138 | no instruction boundary moves |
| X64Patch.StateStoreFound | LuaJit/include/lj_asm_x86.h:3117-3123 | the vmstate store is recognised if and only if its displacement needs 32 bits, or the immediate bytes behind a shorter one extend it to the searched number |
| X64Patch.MovMiPasses | LuaJit/include/lj_asm_x86.h:3117-3123 | a 64-bit constant load passes for the store if and only if its constant is the searched displacement |
| X64Patch.RedirectedTooEarly | LuaJit/include/lj_asm_x86.h:3117-3133 | a trace in which an exit in front of the store is redirected because of such a load |
| X64Flow.FlowExact | LuaJit/include/lj_asm_x86.h:3105-3138 | read with the opcode map (0f 80+cc, 70+cc, e9, eb, e8) exactly the jumps and calls of a trace are jumps and calls, with the condition and target of the instruction list |
| X64Flow.PatchedFlow | LuaJit/include/lj_asm_x86.h:3105-3138 | the same view of a patched trace: behind the vmstate store every near conditional jump to the stub goes to the target under its own condition, except for the exit check of the GC step, and so does a near jump to the stub at the end; every other instruction branches as before |
| X64Flow.JccFirstExact | LuaJit/include/lj_emit_x86.h:280-284 | the test that keeps the flags finds exactly the conditional jumps among all instructions of a trace |
| X64Flow.TestLenExact | LuaJit/include/lj_asm_x86.h:2087-2095 | the test that may be dropped is 84 /r or 85 /r of a register operand, with the length the decoder gives it |
| X64Flow.StoreDecodes | LuaJit/include/lj_asm_x86.h:3117-3123 | the vmstate store is c7 /0 of a doubleword relative to r14 |
| X64Flow.JccAtExact | LuaJit/include/lj_asm_x86.h:2087-2095 | the condition of the jump behind it is found in the short and the near form |
| X64Flow.Cmp16Decodes | LuaJit/include/lj_asm_x86.h:3004-3102 | 66 83 /r ib with REX behind the 66 |
| X64Flow.BswapDecodes | LuaJit/include/lj_asm_x86.h:3004-3102 | 0f c8+r with the fourth bit of the register in REX |
| X64Flow.RoundsdDecodes | LuaJit/include/lj_asm_x86.h:3004-3102 | 66 0f 3a 0b with REX behind the 66 and both operands read back |
| X64Stubs.AsmExitStubGen | LuaJit/include/lj_asm_x86.h:9-40 | writes the group of 32 stubs and the shared tail, and nothing else |
| X64Stubs.ExitStubPushesExitNo | LuaJit/include/lj_target.h:152-158 | entering stub i of any group pushes two bytes that recombine to group*32+i and reaches the exit handler |
| A64Imm.Isk13Sound | LuaJit/include/lj_emit_arm64.h:44-58 | the encoded N:immr:imms is a legal encoding and DecodeBitMasks gives the constant back |
| A64Imm.Isk13Complete | LuaJit/include/lj_emit_arm64.h:44-58 | every constant that some legal immediate decodes to is encoded |
| A64Imm.Isk13Exact | LuaJit/include/lj_emit_arm64.h:44-58 | both directions, for 64-bit and replicated 32-bit constants |
| A64Imm.SizeIsPow2 | LuaJit/include/lj_emit_arm64.h:52-55 | the computed element size is a power of two whenever the encoder succeeds |
| A64Imm.Isk13Narrow | LuaJit/include/lj_emit_arm64.h:56-57 | the 32-bit form never sets N |
| A64LoadK.Asm.EmitMovs | LuaJit/include/lj_emit_arm64.h:260-278 | MOVZ/MOVN and MOVKs leave exactly the constant; their number is max(1, non-zero or non-ffff fragments) |
| A64LoadK.Asm.EmitKdelta | LuaJit/include/lj_emit_arm64.h:181-210 | succeeds if and only if some recorded constant is one instruction away, and that instruction leaves the constant in every register file that agrees with the recorded constants |
| A64LoadK.Asm.EmitKadrp | LuaJit/include/lj_emit_arm64.h:220-236 | succeeds if and only if some ADR, or some ADRP before the ADD of the low twelve bits, reaches the constant from the address where the code ends up; the instructions leave the constant |
| A64LoadK.Asm.EmitLoadk | LuaJit/include/lj_emit_arm64.h:238-280 | the emitted sequence leaves exactly the constant, with at most as many instructions as the shorter of the MOVZ and MOVN sequences; more than two only if that is their number |
| A64LoadK.MovKStep | LuaJit/include/lj_emit_arm64.h:271-277 | one round of the MOVK loop: fragments are completed from the top, zero ones are skipped |
| A64LoadStore.StoredIsLoaded | LuaJit/include/lj_emit_arm64.h:143-173 | the memory of the instruction model gives back the low bytes of what was stored, with wrap-around of addresses |
| A64LoadStore.CheckOfsExact | LuaJit/include/lj_emit_arm64.h:122-130 | an offset is accepted if and only if some word of the architecture has it; the scaled form is used if and only if twelve bits of data sizes reach it |
| A64LoadStore.PairMeaning | LuaJit/include/lj_emit_arm64.h:143-165 | executing the pair gives the same registers and memory bytes as the two accesses in order, for all bases and offsets |
| A64LoadStore.CandidateIsNeighbour | LuaJit/include/lj_emit_arm64.h:132-141 | a word equal to the candidate decodes to the access of the neighbouring address, scaled or unscaled |
| A64LoadStore.RorCheck | LuaJit/include/lj_emit_arm64.h:160 | the rotate test holds if and only if the offset is aligned and in the range of a pair |
| A64LoadStore.Asm.TryPair | LuaJit/include/lj_emit_arm64.h:147-165 | fuses whenever the previous word is a neighbouring access of the emitter; the new word is then a pair that means both accesses |
| A64LoadStore.MustFuse | LuaJit/include/lj_emit_arm64.h:147-160 | the conditions for fusing hold for every neighbouring access the emitter itself has written, below or above |
| A64LoadStore.Asm.EmitLso | LuaJit/include/lj_emit_arm64.h:143-173 | either prepends a word that decodes to the requested access, or replaces the previous word by a word that decodes, from the fields of the architecture, to a signed-offset pair without write-back that means both accesses in order; fuses whenever the previous word is a neighbour and no loop start lies between |
| A64Bitfield.Asm.FuseAndShift | LuaJit/include/lj_asm_arm64.h:365-392 | fuses exactly when the mask that meets the operand is a run of ones at the bottom, and the UBFM computes the masked shift for all inputs and both widths |
| A64Bitfield.MaskedShift | LuaJit/include/lj_asm_arm64.h:373-385 | a masked shift is a field of the operand |
| A64Bitfield.Asm.FuseOrShift | LuaJit/include/lj_asm_arm64.h:395-421 | emits the EXTR exactly for opposite constant shifts whose counts add up to the width |
| A64Bitfield.ExtrExact | LuaJit/include/lj_asm_arm64.h:395-421 | that EXTR is legal and computes the OR for all operands if and only if the right shift is 1..w-1, or 0 with equal registers |
| A64Bitfield.OrShift | LuaJit/include/lj_asm_arm64.h:413-417 | extracting from the concatenation is the OR of the complementary shifts |
| A64Bitfield.Asm.BitShift | LuaJit/include/lj_asm_arm64.h:1530-1568 | the one instruction emitted computes the shift or rotate, or the pair of shifts fused into it, for all inputs, counts and both widths |
| A64Bitfield.ShiftPair | LuaJit/include/lj_asm_arm64.h:1539-1547 | SHL then SHR/SAR is the field with immr = s-s2 and imms = w-1-s2 |
| Bits.RunExact | LuaJit/include/lj_asm_arm64.h:380 | mask && !((mask+1) & mask) holds if and only if the mask is a run of ones at the bottom |
| A64Patch.LjAsmPatchExit | LuaJit/include/lj_asm_arm64.h:2021-2074 | every word of the trace becomes its patched word, the stub becomes a branch exactly when no branch to it is marked, all other words keep their value |
| A64Patch.MatchExact | LuaJit/include/lj_asm_arm64.h:2031-2056 | the field test holds if and only if the branch goes to the stub modulo the range of its field |
| A64Patch.MatchIsTarget | LuaJit/include/lj_asm_arm64.h:2031-2056 | so it means "goes to the stub" when the stub is in the range of the field |
| A64Patch.MatchRightExact | LuaJit/include/lj_asm_arm64.h:2031-2056 | for each kind of branch the test is right for all words if and only if the stub is in the range of that kind |
| A64Patch.MatchInArea | LuaJit/include/lj_asm_arm64.h:2031-2056 | with the stub less than 2^14 words ahead exactly the branches to it pass, and a tbz or tbnz to the word 2^14 in front of it |
| A64Patch.TakenNear | LuaJit/include/lj_asm_arm64.h:2031-2056 | with the stub less than 2^13 words ahead only the branches to it pass |
| A64Patch.MatchTooFar | LuaJit/include/lj_asm_arm64.h:2051-2056 | a `tbz` to another word that passes the test when the stub is 2^14 words further on |
| A64Patch.RetargetMeaning | LuaJit/include/lj_asm_arm64.h:2035-2058 | a retargeted branch keeps kind, condition, register and bit number and goes to the target |
| A64Patch.PatchedWord | LuaJit/include/lj_asm_arm64.h:2021-2074 | for less than 2^14 words: an unmarked branch that is taken for one to the stub and reaches the target goes there, every other word is unchanged |
| A64Patch.AllExitsReachTarget | LuaJit/include/lj_asm_arm64.h:2062-2070 | if no branch to the stub is marked, each of them reaches the target in at most two hops |
| A64Branch.KindIs | LuaJit/include/lj_asm_arm64.h:2031-2056 | the four kinds of the patcher are the words with top byte 54, 14..17, 34/35/b4/b5 and 36/37/b6/b7 |
| A64Branch.PassesInArea | LuaJit/include/lj_asm_arm64.h:2031-2056 | in the fields of the architecture: which decoded branches pass the test inside the default area |
| A64Branch.PatchedInsn | LuaJit/include/lj_asm_arm64.h:2021-2074 | a decoded branch to the stub that is no cbz or cbnz behind the word aa1f03ff, and can have the offset to the target, gets it and keeps all other fields; every other word is unchanged |
| A64Branch.PatchedStub | LuaJit/include/lj_asm_arm64.h:2047-2070 | the stub is kept if some cbz or cbnz behind the word aa1f03ff exits through it, and decodes to a branch to the target otherwise |
| A64Exits.ExitsInTurn | LuaJit/include/lj_asm_arm64.h:2021-2074 | over any run of patches of different exits each unmarked exit in range ends up at the target of its own request with kind and register unchanged; marked and distant ones stay as they were |
| A64Exits.StubInTurn | LuaJit/include/lj_asm_arm64.h:2062-2070 | over the run the stub of a request becomes a branch to its target if and only if none of its exits was marked in the unpatched trace |
| A64Exits.ExitsReachTargets | LuaJit/include/lj_asm_arm64.h:2062-2070 | after the run all exits of a request without marked ones reach its target in at most two hops |
| A64Patch.ExitStubTraceAddr | LuaJit/include/lj_target_arm64.h:110-114 | finds the first word behind the trace that is not a NOP and adds the three common words |
| ArmImm.FindK12 | LuaJit/include/lj_emit_arm.h:32-33 | the loop returns the first rotation that leaves an 8-bit value |
| ArmImm.DirectExact | LuaJit/include/lj_emit_arm.h:28-33 | a constant is found if and only if it is an even-rotated 8-bit value, and expands back to it |
| ArmImm.Isk12Meaning | LuaJit/include/lj_emit_arm.h:28-43 | for all sixteen opcodes the encoded instruction, inverse opcode included, has the same result, N, Z and V for every operand, and the same C for all arithmetic opcodes |
| ArmImm.NegatedAdd | LuaJit/include/lj_emit_arm.h:37-39 | ADD of the negated constant has the flags of SUB if and only if the constant is neither 0 nor INT_MIN |
| ArmImm.ZeroAndMinDirect | LuaJit/include/lj_emit_arm.h:32-33 | those two are always encoded directly |
| ArmImm.Isk12Complete | LuaJit/include/lj_emit_arm.h:28-43 | for all sixteen opcodes the encoder fails if and only if the constant is no immediate and, where there is an inverse opcode, neither is its complement or negation |
| ArmImm.InverseExact | LuaJit/include/lj_emit_arm.h:8-26 | the table has an inverse for an opcode if and only if some opcode gives the same result with the complemented or negated constant |
| ArmImm.Bitwise | LuaJit/include/lj_emit_arm.h:28-43 | the logical operations of the instruction model act on each bit |
| ArmLoadI.Asm.EmitKdelta1 | LuaJit/include/lj_emit_arm.h:124-145 | succeeds if and only if a recorded constant is one ADD, SUB or MOV away, and then leaves the constant |
| ArmLoadI.Asm.EmitKdelta2 | LuaJit/include/lj_emit_arm.h:148-174 | once the one-step delta has failed: succeeds if and only if the distance from some recorded constant other than zero is its lowest window plus an immediate; the two instructions leave exactly the constant |
| ArmLoadI.NeverInverse | LuaJit/include/lj_emit_arm.h:161-166 | the rest of a delta is never encoded with the inverse opcode |
| ArmLoadI.LowEncodable | LuaJit/include/lj_emit_arm.h:163-164 | an eight-bit window at an even position is always an immediate |
| ArmLoadI.OrRestores | LuaJit/include/lj_emit_arm.h:199-207 | window and rest OR back to the value |
| ArmLoadI.FewWindows | LuaJit/include/lj_emit_arm.h:199-207 | the loop has at most four rounds |
| ArmLoadI.Asm.EmitWindows | LuaJit/include/lj_emit_arm.h:197-208 | the MOV and ORR sequence leaves exactly the constant in at most four instructions |
| ArmLoadI.Asm.EmitLoadi | LuaJit/include/lj_emit_arm.h:177-210 | every branch leaves exactly the constant, in at most four instructions, two on ARMv6T2, and one if an immediate or a one-step delta exists |
| PpcAnd.Asm.AsmBand | LuaJit/include/lj_asm_ppc.h:1637-1690 | the instruction emitted computes (shift(x) & k) or the register AND/ANDC for all x; rlwinm is used exactly for masks that are contiguous or wrap around, with sh, MB and ME in 0..31; a dropped compare leaves a recording instruction |
| PpcAnd.FindMask | LuaJit/include/lj_asm_ppc.h:1649-1670 | finds MB and ME in 0..31 with exactly that mask if and only if the constant or its complement is one run of ones |
| PpcAnd.Asm.FuseAndSh | LuaJit/include/lj_asm_ppc.h:1608-1635 | the shift is fused exactly when the mask hides the bits that a rotate and the shift differ in |
| PpcAnd.RunTestExact | LuaJit/include/lj_asm_ppc.h:1651-1654 | the contiguity test on the shifted-down mask, both directions |
| PpcAnd.WrappedMask | LuaJit/include/lj_asm_ppc.h:1660-1667 | the complement run gives MB and ME in range and exactly the mask |
| PpcAnd.RotateIsShift | LuaJit/include/lj_asm_ppc.h:1616-1627 | under such a mask the rotate is the shift |
| Calls.CountCallSlots | LuaJit/include/lj_asm_x86.h:523-553 | the loop counts the slots of the specification, for both ABIs |
| Calls.GenCall | LuaJit/include/lj_asm_x86.h:556-660 | the loop hands out exactly the registers and makes exactly the stack stores of the specification |
| Calls.X64CallSlots | LuaJit/include/lj_asm_x86.h:523-656 | every argument gets a register of its own or a stack slot of its own; all slots lie inside those counted beforehand, without overlap and outside the Windows register save area |
| Calls.X64PosixSim | LuaJit/include/lj_asm_x86.h:536-552 | the simulation between the two loops: packed argument registers, FP registers and offsets stay in step, no register is handed out twice and no argument is lost |
| Calls.PpcSetupCallSlots | LuaJit/include/lj_asm_ppc.h:2254-2270 | raises the reservation to the counted slots |
| Calls.PpcGenCall | LuaJit/include/lj_asm_ppc.h:258-311 | the loop makes exactly the stack stores of the specification |
| Calls.PpcCallSlots | LuaJit/include/lj_asm_ppc.h:258-311 | every stack argument lies between the reserved words and the counted end, without overlap, doubles aligned |
| Calls.PpcSim | LuaJit/include/lj_asm_ppc.h:2254-2270 | the simulation: the count never falls behind the offset |
| Calls.A64SetupCallSlots | LuaJit/include/lj_asm_arm64.h:1954-1997 | raises the reservation to the counted bytes when arguments may go to the stack, and only then |
| Calls.A64GenCall | LuaJit/include/lj_asm_arm64.h:426-498 | the loop makes exactly the stack stores of the specification |
| Calls.A64Sim | LuaJit/include/lj_asm_arm64.h:1954-1997 | the simulation between the two loops, for all three ABIs and variadic markers |
| Calls.A64CallSlots | LuaJit/include/lj_asm_arm64.h:426-498 | every stack argument lies inside the reserved slots, without overlap, whatever was reserved before |
| CallArgs.X64ArgsPlaced | LuaJit/include/lj_asm_x86.h:556-660 | for all argument lists and both ABIs: argument i is in the register of its number among its kind, or it is the k-th without a register and stored at 8*k (behind 32 bytes on Windows) with eight bytes, four for a float; there are no other stores |
| CallArgs.X64CountExact | LuaJit/include/lj_asm_x86.h:523-553 | the slots counted are two words for each argument without a register |
| CallArgs.PpcArgsPlaced | LuaJit/include/lj_asm_ppc.h:258-311 | every argument beyond the eight FP and eight general registers is stored in its turn behind the reserved words, a double with eight bytes at a multiple of eight, anything else with four |
| CallArgs.PpcCountExact | LuaJit/include/lj_asm_ppc.h:2254-2270 | the count is the room the same arguments need when every floating-point one is a double |
| CallArgs.A64ArgsPlaced | LuaJit/include/lj_asm_arm64.h:426-498 | for all argument lists and the three ABIs: every argument without a register is stored in its turn at its natural alignment (macOS, named) or in eight bytes, with its own width; there are no other stores |
| CallArgs.A64CountExact | LuaJit/include/lj_asm_arm64.h:1954-1997 | the bytes counted are those that are used, with the fillers on top |
| X86Compare.Asm.CompInt64 | LuaJit/include/lj_asm_x86.h:2542-2609 | for all operands, constants and operators the emitted code exits if and only if the 64-bit comparison is false |
| X86Compare.CondMeaning | LuaJit/include/lj_asm_x86.h:2363-2377 | the condition codes after a compare are the orders of the table |
| X86Compare.TestIsCmpZero | LuaJit/include/lj_asm_x86.h:2586-2587 | `test r,r` leaves the same five flags as the compare with zero |
| X86Compare.Decides | LuaJit/include/lj_asm_x86.h:2363-2377 | the table's conditions for high words, unequal high words and low words decide the 64-bit comparison |
| X86Compare.HiExits | LuaJit/include/lj_asm_x86.h:2594-2608 | the high half exits, skips the low half or falls into it |
| X86DropTest.DropTest | LuaJit/include/lj_asm_x86.h:2087-2095 | skips the test with its prefix and rewrites one condition byte, in the short and the near jump, or changes nothing; behind every operation the code then branches as before if and only if nothing was dropped or the condition reads neither carry nor overflow |
| X86DropTest.TestedGuards | LuaJit/include/lj_asm_x86.h:2437-2450 | the guards whose compare becomes a test have such a condition, swapped and inverted or not |
| X86DropTest.DropExact | LuaJit/include/lj_asm_x86.h:2090-2094 | the rewritten jump decides the same for all operands and ADD, SUB, AND, OR, XOR if and only if its condition reads neither carry nor overflow |
| ArmCompare.Asm.Int64Comp | LuaJit/include/lj_asm_arm.h:1869-1902 | the guard exits exactly when the comparison is false if and only if it is not a signed comparison with an inverted loop branch, different high words and a true outcome; there it exits |
| ArmCompare.SignedRightExact | LuaJit/include/lj_asm_arm.h:1891-1897 | a signed guard is right for all operands if and only if its branch is not inverted |
| ArmCompare.Asm.GuardCc | LuaJit/include/lj_asm_arm.h:113-124 | the guard, or the negated branch to the loop start and an unconditional exit |
| ArmCompare.SignedRuns | LuaJit/include/lj_asm_arm.h:1891-1897 | the outcome of the signed sequence for all operands |
| ArmCompare.UnsignedRuns | LuaJit/include/lj_asm_arm.h:1898-1901 | the outcome of the sequence with a conditional compare |
| ArmCompare.Decides | LuaJit/include/lj_asm_arm.h:1742-1755 | the table's conditions decide the 64-bit comparison |
| ArmDropCmp.Asm.IntOpS | LuaJit/include/lj_asm_arm.h:1514-1517 | with the compare dropped the code exits for the same registers and leaves the same ones, with and without an overflow guard |
| ArmDropCmp.Asm.DropCmp0 | LuaJit/include/lj_asm_arm.h:1495-1512 | drops the compare exactly for EQ, NE, GE and LT, and rewrites GE and LT to the sign conditions |
| ArmDropCmp.DropKeeps | LuaJit/include/lj_asm_arm.h:1500-1509 | the rewritten condition on the operation's flags is the condition after the compare |
| ArmDropCmp.DropOnly | LuaJit/include/lj_asm_arm.h:1510 | no condition code could replace GT or LE |
| MipsCompare.Asm.Comp64 | LuaJit/include/lj_asm_mips.h:2359-2378 | with the delay slot executed, the code exits with the snapshot number if and only if the comparison is false, also when both high words share a register and when the guard is the inverted loop branch |
| MipsCompare.Asm.Comp64Eq | LuaJit/include/lj_asm_mips.h:2380-2391 | the same for equality by XOR and OR |
| MipsCompare.GuardRuns | LuaJit/include/lj_asm_mips.h:108-127 | the guard, and the inverted branch to the loop start that falls into the exit stub behind the trace, exit with the snapshot number in the same states |
| MipsCompare.BranchRuns | LuaJit/include/lj_asm_mips.h:2371-2377 | a branch over two instructions executes the first of them in any case |
| MipsCompare.BitsZero | LuaJit/include/lj_asm_mips.h:2387-2390 | x ^ y is zero exactly for equal words, x or y exactly for two zeros |
| MipsJumps.SparejumpSetup | LuaJit/include/lj_asm_mips.h:65-74 | the first trace of an area gets four free slots at its end, later ones change nothing |
| MipsJumps.SparejumpUse | LuaJit/include/lj_asm_mips.h:76-90 | returns the slot that holds the jump, or fills the first free one from the top, or fails because all hold other jumps |
| MipsJumps.IssuedGrows | LuaJit/include/lj_asm_mips.h:76-90 | over any run of requests slots fill in order without duplicates and an issued slot never changes |
| MipsJumps.AnswersExact | LuaJit/include/lj_asm_mips.h:76-90 | every answer still holds its jump at the end of the run; a request fails if and only if all four slots end up with other jumps |
| MipsJumps.SlotsAreJumps | LuaJit/include/lj_asm_mips.h:76-90 | two requests share a slot if and only if they ask for the same jump |
| MipsPatch.LjAsmPatchExit | LuaJit/include/lj_asm_mips.h:2761-2814 | the memory afterwards, word by word, and the jump slots: all far branches together make one request |
| MipsPatch.HitIsTarget | LuaJit/include/lj_asm_mips.h:2771-2781 | the test finds exactly the unmarked branches to the stub with the load of the exit number in their delay slot |
| MipsPatch.ExitsReachTarget | LuaJit/include/lj_asm_mips.h:2782-2800 | each of them reaches the target in at most two hops with its condition unchanged and the load removed, or is left alone because no slot is left or near |
| MipsBranch.BranchIs | LuaJit/include/lj_asm_mips.h:2771-2781 | the test for a branch finds exactly beq, bne, blez, bgtz, bltz, bgez and the branches on FP conditions, by their opcode fields |
| MipsBranch.HitIs | LuaJit/include/lj_asm_mips.h:2771-2781 | an exit is found if and only if such a branch goes to the stub with the load of the exit number in its delay slot and no 00000025 in front |
| MipsBranch.PatchedInsn | LuaJit/include/lj_asm_mips.h:2782-2800 | every exit keeps its fields and gets the offset to the target, or else to the slot, and its load becomes a NOP; it is left alone when it reaches neither |
| MipsBranch.OtherWords | LuaJit/include/lj_asm_mips.h:2761-2814 | a word of the trace changes only if it belongs to such an exit, its delay slot or the inverted loop branch |
| MipsBranch.JumpIs | LuaJit/include/lj_asm_mips.h:2782-2808 | a jump is opcode 2 with the index of its target in the region of the delay slot |
| MipsBranch.SlotWords | LuaJit/include/lj_asm_mips.h:2793-2800 | a slot that is used holds the jump to the target with a NOP behind it |
| MipsExits.TailReachesTarget | LuaJit/include/lj_asm_mips.h:2801-2808 | behind a patched inverted loop branch a NOP, the jump and the first word of the stub are executed and the target is reached, if and only if it is in the region of the jump |
| MipsExits.ExitStubTraceAddr | LuaJit/include/lj_target_mips.h:173-178 | finds the first word behind the trace that is not a NOP |
| MipsExits.StubKept | LuaJit/include/lj_target_mips.h:173-178 | after a patch the search finds the same stub, except that after the exit of an inverted loop branch it ends at the end of the trace |
| MipsExits.ExitsInTurn | LuaJit/include/lj_asm_mips.h:2761-2814 | over any run of patches of different exits each exit branch ends up at the target of its own request in at most two hops, or is left alone because it had no destination |
| MipsExits.ExitsMissed | LuaJit/include/lj_asm_mips.h:2761-2814 | behind the exit of an inverted loop branch no other exit of the trace is patched |
| MipsExits.MissedInstance | LuaJit/include/lj_asm_mips.h:2761-2814 | a trace with two exits in which the second one is missed after the loop exit was patched |
| MipsExits.LoopExitInTurn | LuaJit/include/lj_asm_mips.h:2801-2808 | at the end of any run the words behind the loop branch still lead to the target of the loop exit, if and only if it is in the region of the jump |
| MipsPatch.HitStable | LuaJit/include/lj_asm_mips.h:2770-2811 | patching one branch neither makes nor removes a match further on |
| TValue.TValue.SetGcVRaw | LuaJit/include/lj_obj.h:917-924 | pointer and type come back from gcval and itype for all 47-bit pointers |
| TValue.TValue.SetPriV | LuaJit/include/lj_obj.h:873 | the word is all ones less t * 2^47 for type ~t; the type comes back, and the word is nil exactly for the nil type |
| TValue.TValue.SetBoolV | LuaJit/include/lj_obj.h:874 | the words fffeffff_ffffffff and ffff7fff_ffffffff, and boolV gives the boolean back |
| TValue.TValue.SetIntV | LuaJit/include/lj_obj.h:950-957 | fff9 in the top 16 bits above the integer; intV gives every 32-bit integer back |
| TValue.TValue.SetNumV | LuaJit/include/lj_obj.h:945 | numbers with canonical NaNs are classified as numbers |
| TValue.ItypeTag | LuaJit/include/lj_obj.h:781 | the internal type is the 17-bit tag counted down from all ones; numbers are the words below fff90000_00000000 |
| TValue.OneClass | LuaJit/include/lj_obj.h:781-812 | every word is a number, an integer or of exactly one tag; tvisgcv covers exactly string to userdata |
| TValue.CanonicalIsNum | LuaJit/include/lj_obj.h:805 | only NaNs other than the canonical one can be taken for a tagged value |
| TypeCheck.HiCheck | LuaJit/include/lj_asm_x86.h:1609-1630 | what compares of the upper word decide about numbers, integers and primitives |
| X64TypeCheck.X64Asm.AhuvLoad | LuaJit/include/lj_asm_x86.h:1568-1635 | for every well-formed word the emitted code passes if and only if the word has the type, and yields the untagged value, with and without RORX and with an unused result |
| X64TypeCheck.X64LoadChecks | LuaJit/include/lj_asm_x86.h:1575-1632 | the same as a statement about the instruction sequence |
| X64TypeCheck.RorCheck | LuaJit/include/lj_asm_x86.h:1747-1774 | exactly which words pass the 16-bit compare after the rotate, and that the shift leaves gcval |
| X64TypeCheck.SarCheck | LuaJit/include/lj_asm_x86.h:1815-1820 | the arithmetic shift leaves the internal type in the low word |
| A64TypeCheck.A64Asm.AhuvLoad | LuaJit/include/lj_asm_arm64.h:1060-1105 | the same for the ARM64 checks |
| A64TypeCheck.A64LoadChecks | LuaJit/include/lj_asm_arm64.h:1086-1100 | the same as a statement about the instruction sequence |
| A64TypeCheck.AsrCheck | LuaJit/include/lj_asm_arm64.h:1091-1093 | asr and cmn compare all tag bits |

## Left out

- The register allocator, the main assembly loop, snapshots and the IR: their results are parameters.
- Floating-point values and conversions; FP registers are opaque words.
- Folding, memory protection, cache synchronisation and the allocation of code areas.
- Instruction forms with address-dependent choices (`emit_rma`, `emit_loadk64`): the operand encodings they end in are covered. The 32-bit x86 forms of the encoder are not.
- The byte swap that turns the emitted ROUNDSD opcode into its final form: the final form is an instruction of `X64Trace`.
- Big-endian ARM64, MIPS release 6, soft-float and 64-bit MIPS.
- `asm_sload` beyond its address case, which has the same instructions as the load in `asm_ahuvload`; stores of tagged values by compiled code.
- Exit stubs of ARM64, ARM32, PPC and MIPS, and the TST and CMN combinations of the ARM compares.
- X64Patch.LjAsmPatchExit: takes over the assertion that all jumps reach the new target.
- Room in the buffer (the red zone the assembler keeps) is a precondition of the emitters that write a byte array.
- X64Load.EmitJcc: takes over the assertion that the target is in reach.
- X64Trace.WalkExact: the instruction forms are those that the back end emits; of other instructions only the length is covered (`X64OpMap.AnyInsLen`).
- A64Patch.LjAsmPatchExit: unconditional branches take over the assertion that trace and stub reach the target.
- A64LoadStore.Asm.EmitLso: a pair of loads into one register is excluded; the architecture leaves it unpredictable.
- A64LoadK.Asm.EmitLoadk: the recorded constants are assumed to agree with the registers, as the allocator guarantees.
- ArmImm.Isk12Meaning: the carry flag of logical operations with a substituted constant is not claimed; it depends on the rotation of the immediate and the back end never reads it.
- Calls.A64CallSlots: a marker among the arguments is only allowed in variadic calls for the macOS ABI, as the caller builds them.
- Calls.CountCallSlots: 32-bit x86 conventions are not modelled.
- MipsPatch.LjAsmPatchExit: the trace and its stub span less than 2^15 words, as the emitter asserts for every branch; slots and target lie in one 256 MB region, as the J instruction needs.
- MipsExits.ExitsInTurn: every exit is patched once, as the trace compiler does; the same holds for A64Exits.ExitsInTurn.
- A64Exits.ExitsInTurn: no target is an exit stub of the trace itself; trace and stubs span less than 2^14 words, the default code area. A tbz whose new target is the word exactly 2^14 in front of a stub patched later is excluded: it would be taken for an exit of that stub. Below 2^13 words there is none (`A64Exits.NearNoClash`).
- X86DropTest.DropTest: IMUL, which leaves the flags undefined, is not among the operations.
- TValue.TValue.SetGcVRaw: pointer and shifted type have no common bits, so their OR is modelled as a sum.
