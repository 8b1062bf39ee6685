# Verified model of the JIT emitters and the code-buffer protocol

PPSSPP turns guest code into host code with hand-written emitters for ARM64, ARM32 and LoongArch64, which write machine
words into a buffer whose pages must never be writable and executable at once. This project models the parts of those
emitters where something can silently go wrong, as classes that append words to a buffer, together with a decoder and an
interpreter for the instructions they use. The main results have one shape: *decode and run the emitted words, from any
machine state at the right program counter, and the destination holds what was asked for, the flags are as they should be
and nothing else has changed.* Where the code does not meet its intent for every input, the model keeps the code as it is
and the contract is an if-and-only-if with the exact condition.

| area | files |
|---|---|
| Words, flags of a comparison, 8-bit float immediates | `Basics`, `Words`, `Words32`, `Compare64`, `Compare32`, `VfpImmediates` |
| Bitmask immediates | `BitmaskEncoding` |
| ARM64 machine, encoders, constants, operations, comparisons, branches | `Arm64Machine`, `Arm64Encode`, `Arm64Moves`, `Arm64Addresses`, `Arm64Loads`, `Arm64Operations`, `Arm64Flags`, `Arm64Comparisons`, `Arm64Branches`, `Arm64Emission` |
| ARM64 frames, float constants, vector immediates | `Arm64Frames`, `Arm64Floats`, `Arm64FloatEmission`, `Arm64Vectors` |
| ARM32 | `Arm32Machine`, `Arm32Operands`, `Arm32Encode`, `Arm32Operations`, `Arm32Windows`, `Arm32Constants`, `Arm32Branches`, `Arm32Emission` |
| LoongArch64 | `LoongMachine`, `LoongEncode`, `LoongConstants`, `LoongBranches`, `LoongJumps`, `LoongEmission` |
| Page protection and write sessions | `PageProtection`, `CodeBlocks` |
| Ghidra client lifecycle | `GhidraLifecycle` |
| Bit-parallel routines | `BitSet` |

How to read the contracts:

- `Loads(ws, pc, end, d, v)`: run from `pc`, the words `ws` put `v` in register `d`, move on to `end` and change nothing
  else. `Computes(ws, pc, end, op, ..., d, n, imm, sc)`: they put `x_n op imm` in `d`; only `sc` besides may change.
  `Compares` says that the flags order `x_n` and `imm`: N is the sign of the difference, Z equality, C unsigned order, and
  N and V differ exactly when `x_n` is less as a signed number. `ComputesAnds` also fixes the flags by the sign of the
  result. On ARM32 `Computes` and `Compares` also say that nothing happens where the condition does not hold. `Pushes`
  and `Pops` give the exact state after saving and restoring.
- `Run` is defined by `Decode` on each word and `Step` on each instruction, so these predicates speak about words, not
  about the emitter's intentions.
- Assertions in the source that stop the program (out of range, unaligned, a frame too large) are modelled as a result
  `ok == false`, and the contract says exactly when.
- Sizes of type `size_t` that wrap around are negative integers in `CodeBlocks` and `PageProtection`; a protection range
  that then ends in front of its start touches no page, since the platform refuses it.
- `LoadsLow(ws, pc, end, d, v)`: only the low half of the register is promised. `Frames(push, body, pop, ...)`: the three
  run one after the other, and what `push` saved is back, for every body that keeps SP and the frame.
- `undefined` is what the uninitialised table `upload_part` of the ARM64 `MOVI2R` happens to hold: a parameter without
  any restriction.
- Proofs about bit-vectors are split into small facts that Dafny settles by computing on bits, and lemmas above them that
  only see named functions. That is why many lemmas start with `hide *`.

What the proofs brought to light:

- ARM64 `MOVI2R` with `optimize` loads the constant except in one case: it lies exactly 2^63 from the page of the code
  pointer. `abs64` of that offset is negative, ADRP is chosen and leaves the page of the code pointer. At 32 bits the
  operations built on it are still right: they need the low half only.
- ARM64 `MOVI2R` of a W register with `optimize` emits nothing for a constant of 2^32 or more whose low half is 0: the
  register keeps what it held (`Arm64Loads.SomeTableMissesLow`, `Arm64Loads.NothingEmittedExample`). ADDI2R and SUBI2R never come to that, since such a
  constant takes the negated arm as 0.
- ARM64 `CMPI2R` turns a comparison of a W register with such a constant into CMN of 0, which gives the wrong carry
  (`Arm64Flags.RewrittenExample`). Sign-extended negative constants are fine.
- ARM64 `MOVI2R` without `optimize` reads `upload_part` uninitialised: the MOVZ that clears the register then comes at the
  first slot that happens to read true and drops lanes below it (`Arm64Loads.UnoptimizedExample`).
- With a W scratch register, an ARM64 operation on X registers is right for constants below 2^32 like with an X one, and
  for larger ones only where a single ADRP or ADR makes the constant (`Arm64Loads.Leaves`).
- A directly emitted ARM64 TBZ or TBNZ tests the right bit in the right way only if the register width goes with the bit
  number; the patched form is always right (`Arm64Branches.DirectTestExactly`).
- The two arms of ARM64 `TryMOVI` that shift in ones pick encodings for another constant, except for the low word
  FFFF0000 (`Arm64Vectors.OnesExample`).
- Clearing the code space inside a write session has no guard. It does no harm if the code is kept up to the start of the
  session or beyond, and up to a page boundary unless no byte of the estimate lies behind that place. Otherwise the next
  byte of the estimate may fault, or emitted code may stay on a writable page after the session
  (`CodeBlocks.ClearExactly`, `CodeBlocks.ClearingExample`).
- LoongArch `SetJumpTarget` holds branches against zero to the 18-bit range of conditional branches, although their field
  has 23 (`LoongBranches.PatchNarrower`); `QuickJump` in range links only when the link register is RA.

## Model

| member | source | states |
|---|---|---|
| BitmaskEncoding.IsImmLogical | Common/Arm64Emitter.cpp:67-262 | true exactly for the words some encoding decodes to (width 32: the low half repeated); on true the three fields are a valid encoding that decodes to the word, with N clear at width 32 |
| BitmaskEncoding.PatternExactly | Common/Arm64Emitter.cpp:67-262 | the encodable words are the blocks of ones, rotated and repeated at element size 2 to 64; 0 and all ones are not among them |
| BitmaskEncoding.EncodingIsRun | Common/Arm64Emitter.cpp:122-138 | every encoding decodes to one stretch [p, q) repeated every d bits, or to its complement when the rotated block wraps |
| BitmaskEncoding.RunStretches | Common/Arm64Emitter.cpp:122-143 | in such a word the three lowest-bit searches find 2^p, 2^q and 2^(p+d), or nothing when the stretch is not repeated |
| BitmaskEncoding.RunDetermines | Common/Arm64Emitter.cpp:139-186 | so if the word is a run at all, p, q and d are the ones computed from those bits |
| BitmaskEncoding.Accept | Common/Arm64Emitter.cpp:196-262 | a candidate that repeats to the word has the fields computed here as its encoding, inverted or not |
| BitmaskEncoding.CountLeadingZeros | Common/Arm64Emitter.cpp:33-42 | at every width, the zeros above the highest set bit below the width; at 64 bits that is the leading zero count |
| Arm64Emission.Arm64XEmitter.Count | Common/Arm64Emitter.cpp:1937-1944 | the number of slots that are set |
| Arm64Emission.Arm64XEmitter.MarkUploads | Common/Arm64Emitter.cpp:1982-1989 | a slot ends up set when its lane is nonzero or the uninitialised table held true |
| Arm64Emission.Arm64XEmitter.LoadAddress | Common/Arm64Emitter.cpp:1991-2019 | for every constant near enough, ADRP, ADR or ADRP+ADD, in one or two words, leave it (the ADD cuts it to a W register) unless the aligned offset is -2^63; then they leave the page of the code pointer |
| Arm64Emission.Arm64XEmitter.LoadParts | Common/Arm64Emitter.cpp:2021-2033 | for every constant, the MOVZ/MOVK loop leaves exactly its lanes from the first upload on, cut to the register, all of them without optimize when nothing is marked, and emits nothing with it |
| Arm64Emission.Arm64XEmitter.MOVI2R | Common/Arm64Emitter.cpp:1947-2034 | at most four words, for every u64, code pointer and table contents: the constant is left if and only if `Leaves` holds (a constant that fits the register is not misloaded; any other takes an address in one word); its low half is in a W register if and only if `MissesLow` is false; with optimize, nothing is emitted exactly then |
| Arm64Loads.SomeTableMisloads | Common/Arm64Emitter.cpp:1982-1993 | of the constants that fit the register, with optimize some table contents misload exactly those without a one-word form that are 2^63 away from the page of the code pointer |
| Arm64Loads.SomeTableMisloadsUnoptimized | Common/Arm64Emitter.cpp:1947-2033 | without optimize, exactly those and the ones with a nonzero lane below the topmost |
| Arm64Loads.SomeTableMissesLow | Common/Arm64Emitter.cpp:1947-2033 | some table contents miss the low half of a W register exactly for nonzero constants whose low half is 0 with optimize, and exactly for those with a nonzero lowest lane and no one-word form without |
| Arm64Loads.OptimizedMisloads | Common/Arm64Emitter.cpp:1982-1993 | whatever the table holds, a constant misloaded with optimize is 2^63 away from the page of the code pointer |
| Arm64Loads.OptimizedExample | Common/Arm64Emitter.cpp:1933-1935 | 0x8000000000001000 is misloaded by code on the page at 0x1000, whatever the table holds |
| Arm64Loads.NothingEmittedExample | Common/Arm64Emitter.cpp:1982-2033 | nothing is emitted for 0x100000000 into a W register when the table reads false |
| Arm64Loads.UserSpaceLoads | Common/Arm64Emitter.cpp:1947-2034 | for code and constants below 2^63, and constants that fit the register, there is no exception |
| Arm64Loads.UnoptimizedExample | Common/Arm64Emitter.cpp:1950-1951 | without optimize, a table whose second slot reads true drops the low lane of 0x12345678 |
| Arm64Addresses.AdrReaches | Common/Arm64Emitter.cpp:2005-2011 | within 1 MB the 21-bit field of ADR decodes to the target |
| Arm64Addresses.AdrpReaches | Common/Arm64Emitter.cpp:1997-2002 | a page-multiple offset, shifted and masked into ADRP, decodes to the target |
| Arm64Addresses.AdrpMisses | Common/Arm64Emitter.cpp:1933-1935 | at the offset whose absolute value overflows both guards hold and ADRP gives the wrong address |
| Arm64Addresses.AdrpAddReaches | Common/Arm64Emitter.cpp:2012-2017 | the page below plus the low 12 bits of the constant is the target, whether the page is ahead or behind |
| Arm64Addresses.AddressForms | Common/Arm64Emitter.cpp:1991-2008 | the guards are signed distances: less than 2^31 - 1 bytes either way, or the overflowing offset, and less than 1 MB |
| Arm64Emission.Arm64XEmitter.EncodeAddressInst | Common/Arm64Emitter.cpp:847-853 | the word decodes to ADR or ADRP of the low 21 bits |
| Arm64Emission.Arm64XEmitter.EncodeMOVWideInst | Common/Arm64Emitter.cpp:754-760 | the word decodes to MOVN, MOVZ or MOVK of these fields |
| Arm64Emission.Arm64XEmitter.EncodeAddSubImmInst | Common/Arm64Emitter.cpp:784-794 | the word decodes to ADD, SUB, ADDS or SUBS of the immediate |
| Arm64Emission.Arm64XEmitter.EncodeLogicalImmInst | Common/Arm64Emitter.cpp:796-807 | the word decodes to AND, ORR, EOR or ANDS of the bitmask fields |
| Arm64Emission.Arm64XEmitter.EncodeLogicalInst | Common/Arm64Emitter.cpp:649-660 | the word decodes to the register form of the logical operation |
| Arm64Emission.Arm64XEmitter.EncodeArithmeticInst | Common/Arm64Emitter.cpp:555-564 | the word decodes to the register form of ADD or SUB |
| Arm64Emission.Arm64XEmitter.EncodeLoadStorePair | Common/Arm64Emitter.cpp:809-845 | the word decodes to LDP or STP of two X or two W registers, pre-indexed, post-indexed or with an offset |
| Arm64Encode.PairOffsets | Common/Arm64Emitter.cpp:809-845 | the 7-bit field gives the aligned offset back, for X and W registers |
| Arm64Encode.PairOffsetsExactly | Common/Arm64Emitter.cpp:837-837 | exactly the offsets from -512 up to 512 bytes are accepted for X registers, from -256 up to 256 for W registers |
| Arm64Encode.RegisterNumbers | Common/Arm64Emitter.h:99-109 | each of the 32 registers of the five kinds gives its own number, and only X registers are 64-bit |
| Arm64Emission.Arm64XEmitter.IsImmArithmetic | Common/Arm64Emitter.cpp:54-65 | true exactly for the numbers that some 12-bit field, shifted by 12 or not, stands for; field and shift give the number back |
| Arm64Emission.Arm64XEmitter.TryAddSub | Common/Arm64Emitter.cpp:4028-4064 | succeeds exactly for 0 and arithmetic immediates of either sign, and then computes Rn + imm or Rn - imm; writes nothing otherwise |
| Arm64Emission.Arm64XEmitter.TryANDI2R | Common/Arm64Emitter.cpp:4081-4094 | succeeds exactly for constants that are 0 or a bitmask immediate once cut to the register width, and then computes Rn & imm for the constant as the caller gave it |
| Arm64Emission.Arm64XEmitter.TryOrEor | Common/Arm64Emitter.cpp:4095-4124 | the same for ORR and EOR; nothing is written for 0 onto the same register |
| Arm64Emission.Arm64XEmitter.AddSubI2R | Common/Arm64Emitter.cpp:4004-4018 | ADDI2R and SUBI2R compute Rn op imm at the register width for every u64, with a scratch register of either width: always for W registers, and for X registers if and only if no scratch register is needed or it is left the constant |
| Arm64Emission.Arm64XEmitter.ANDI2R | Common/Arm64Emitter.cpp:3960-3969 | Rn & imm for the constant as the caller gave it, with a scratch register of either width: always for W registers, and for X registers if and only if the constant is 0, a bitmask immediate, or left in scratch |
| Arm64Emission.Arm64XEmitter.OrEorI2R | Common/Arm64Emitter.cpp:3971-3987 | Rn \| imm and Rn ^ imm, with a scratch register of either width and the same exact exception |
| Arm64Operations.FallbackOutcome | Common/Arm64Emitter.cpp:4004-4018 | MOVI2R into scratch and then the register form: with X registers right if and only if the scratch register was left the constant; with W registers the low half is enough |
| Arm64Operations.LowOutcome | Common/Arm64Emitter.cpp:4004-4018 | at 32 bits an operation with a constant is one with any other that has the same low half |
| Arm64Operations.NegatedValue | Common/Arm64Emitter.cpp:4028-4064 | the opposite operation with the negated constant has the same value at the register width |
| Arm64Flags.RewriteKeepsFlags | Common/Arm64Emitter.cpp:4066-4079 | CMN of the negated constant sets N, Z, C and V like CMP, for every register value and every u64, if and only if the constant, cut to the register width, is neither 0 nor the sign bit |
| Arm64Flags.NegatedBranch | Common/Arm64Emitter.cpp:4066-4079 | the sign bit never reaches the negated branch, and 0 only as a constant of 2^32 or more for a W register |
| Arm64Flags.RewrittenExactly | Common/Arm64Emitter.cpp:4066-4079 | in the negated branch the flags are kept if and only if the constant, cut to the register width, is not 0 |
| Arm64Flags.RewrittenExample | Common/Arm64Emitter.cpp:4066-4079 | comparing a W register with 0x100000000 becomes CMN of 0, and C is wrong for every register value |
| Arm64Flags.ComparisonOrders | Common/Arm64Emitter.cpp:4020-4079 | SUBS sets N to the sign of the difference, Z by equality, C by unsigned order, and N and V differ exactly when Rn is less as a signed number, for all operands at both widths |
| Arm64Flags.SignIs | Common/Arm64Emitter.cpp:3989-4002 | ANDS sets N and Z by the sign of the result at the register width, and clears C and V |
| Compare64.SubFlagsOrder | Common/Arm64Emitter.cpp:4066-4079 | the flags computed by the processor from sums one bit wider order the operands |
| Compare64.NegationKeepsFlags | Common/Arm64Emitter.cpp:4066-4079 | adding the negation sets the same four flags if and only if the number is neither 0 nor the sign bit |
| Arm64Emission.Arm64XEmitter.TryCMPI2R | Common/Arm64Emitter.cpp:4066-4079 | for every u64, succeeds exactly for arithmetic immediates of either sign, and then leaves flags that order Rn and imm at the register width, signed and unsigned, if and only if the constant is 0 or not 0 at the register width |
| Arm64Emission.Arm64XEmitter.CMPI2R | Common/Arm64Emitter.cpp:4020-4026 | flags that order Rn and imm at the register width, signed and unsigned, for every u64, with a scratch register of either width, if and only if: for X registers, no scratch register is needed or it is left the constant; for W registers, the constant is 0 or its low half is not |
| Arm64Emission.Arm64XEmitter.ANDSI2R | Common/Arm64Emitter.cpp:3989-4002 | value of Rn & imm for the caller's constant, and its sign in the flags, with the same exact exception |
| Arm64Emission.Arm64XEmitter.BeginBranch | Common/Arm64Emitter.cpp:935-997 | reserves one word, a NOP, and remembers where |
| Arm64Emission.Arm64XEmitter.SetJumpTarget | Common/Arm64Emitter.cpp:889-933 | succeeds exactly when the code pointer lies within 128 MB of the slot for B and BL, 1 MB for CBZ, CBNZ and B.cond, 32 KB for TBZ and TBNZ, the backward end included; only the reserved word changes then: it decodes to the branch that was meant, equals the directly emitted one (TBZ and TBNZ aside), and goes to the code pointer when the distance is a multiple of 4 |
| Arm64Emission.Arm64XEmitter.BranchTo | Common/Arm64Emitter.cpp:492-535 | a direct branch is written exactly when the target lies within these distances, and at a multiple of 4 where that is checked; it decodes to the branch that was meant (for TBZ and TBNZ exactly under `DirectIsMeant`), which goes to the target |
| Arm64Branches.PatchIsDirect | Common/Arm64Emitter.cpp:889-933 | for CBZ, CBNZ, B.cond, B and BL the patched word is the direct one, for every distance |
| Arm64Branches.PatchDecodes | Common/Arm64Emitter.cpp:889-933 | for all seven kinds the patched word decodes to the branch that was meant |
| Arm64Branches.InReachExactly | Common/Arm64Emitter.cpp:864-886 | the word ranges checked are the signed byte distances from -2^27, -2^20 and -2^15 up to, but not including, the positive ends |
| Arm64Branches.MeantReaches | Common/Arm64Emitter.cpp:864-886 | in reach, forward or backward, the masked field gives the target back |
| Arm64Branches.DirectTestExactly | Common/Arm64Emitter.cpp:508-522 | a direct TBZ or TBNZ is the one that was meant if and only if the register width goes with the bit number and a TBZ tests a bit below 32 |
| Arm64Branches.DirectTestExample | Common/Arm64Emitter.cpp:508-522 | TBZ of bit 0 of an X register comes out as another test |
| Arm64FloatEmission.Arm64FloatEmitter.Collect | Common/Arm64Emitter.cpp:3872-3882 | the numbers of the set bits, in increasing order |
| Arm64FloatEmission.Arm64FloatEmitter.TransferGroup | Common/Arm64Emitter.cpp:3894-3911 | registers are saved or restored in pairs, an odd last one alone, and the offset ends on the next pair |
| Arm64FloatEmission.Arm64FloatEmitter.ABI_PushRegisters | Common/Arm64Emitter.cpp:3869-3913 | for every pair of masks with a frame under 256 bytes the words save FP, LR and the selected registers in their slots and set SP and FP; larger frames stop at the assertion |
| Arm64FloatEmission.Arm64FloatEmitter.ABI_PopRegisters | Common/Arm64Emitter.cpp:3915-3958 | the words load every register from its slot and drop the frame |
| Arm64Frames.PopUndoesPush | Common/Arm64Emitter.cpp:3869-3958 | push, any body that keeps SP and the frame, pop: every selected register, FP, LR and SP are back, everything else is as the body left it |
| Arm64Frames.FramesAnyBody | Common/Arm64Emitter.cpp:3869-3958 | push, body and pop run one after the other, for every body of words that keeps SP and the frame, run through and give back every selected register, FP, LR and SP |
| Arm64FloatEmission.Arm64FloatEmitter.EmitFramed | android/jni/Arm64EmitterTest.cpp:35-56 | the words emitted around a body, as a generated function does, frame it in that sense |
| Arm64Frames.PushStaysInFrame | Common/Arm64Emitter.cpp:3884-3912 | the frame is 16-aligned, ends at the old SP, and nothing outside its slots is written |
| Arm64Frames.SlotsDiffer | Common/Arm64Emitter.cpp:3894-3911 | different slots have different addresses, for every stack pointer |
| Arm64Frames.FrameSizeComputed | Common/Arm64Emitter.cpp:3884-3884 | the size computed from the two counts is that of the slots in use: the final offset equals `stack_size` |
| Arm64Frames.SelectedExactly | Common/Arm64Emitter.cpp:3874-3881 | the selected numbers are exactly those whose mask bit is set |
| Arm64Floats.FPImm8FromFloat | Common/Arm64Emitter.cpp:4140-4156 | true exactly for the images of the 8-bit expansion, with the immediate that expands to the value |
| Arm64Floats.ExpandsAlike | Common/Arm64Emitter.cpp:4126-4138 | `FPImm8ToFloat` is the architecture's expansion |
| VfpImmediates.ExpandInjective | Common/Arm64Emitter.cpp:4126-4138 | different immediates expand to different numbers |
| Arm64FloatEmission.Arm64FloatEmitter.MOVI2F | Common/Arm64Emitter.cpp:4158-4187 | exactly the bits of the value or of its negation, for every pattern, signed zeros and NaNs included |
| Arm64FloatEmission.Arm64FloatEmitter.TryMOVI | Common/Arm64Emitter.cpp:4225-4289 | succeeds exactly for the stated constants with one word, and writes nothing otherwise; the word decodes to an instruction that puts the element, cut to the lane size, in every lane, if and only if no ones-shifting arm is used or the low word is FFFF0000 |
| Arm64FloatEmission.QuadRegisters | Common/Arm64Emitter.h:99-109 | exactly Q registers, not D registers, take the quadword form |
| Arm64Vectors.ChooseMOVI | Common/Arm64Emitter.cpp:4225-4289 | the choice of the instruction: its fields fit, and its expansion is the element under the same condition |
| Arm64Vectors.BytesFilled | Common/Arm64Emitter.cpp:4225-4289 | what is asked for at size 8: each of the eight bytes is the low byte of the element |
| Arm64Vectors.HalvesFilled | Common/Arm64Emitter.cpp:4225-4289 | at size 16, each of the four halfwords |
| Arm64Vectors.WordsFilled | Common/Arm64Emitter.cpp:4225-4289 | at size 32, both words |
| Arm64Vectors.PlainExactly | Common/Arm64Emitter.cpp:4225-4289 | the ones-shifting arms aside, an instruction is found exactly when some immediate of that lane size leaves the element in every lane |
| Arm64Vectors.ModImmWord | Common/Arm64Emitter.cpp:3438-3443 | the word decodes to the operation, the mode, the 8-bit immediate and the register |
| Arm64Vectors.TryByteMask | Common/Arm64Emitter.cpp:4273-4287 | at size 64, exactly when every byte is 00 or FF |
| Arm64Vectors.TryPlain32 | Common/Arm64Emitter.cpp:4246-4256 | at size 32, one byte among zeros or among ones, and the expansion is the constant |
| Arm64Vectors.Try16 | Common/Arm64Emitter.cpp:4230-4245 | at size 16, one byte of 00 or FF, and the expansion is the constant |
| Arm64Vectors.TryOnes32 | Common/Arm64Emitter.cpp:4258-4270 | the ones-shifting arms: taken exactly here, right for one constant only |
| Arm64Vectors.OnesExample | Common/Arm64Emitter.cpp:4258-4270 | the element 0x12FF takes a ones-shifting arm and comes out as 0x12FFFF |
| Arm32Operands.TryMakeOperand2 | Common/ArmEmitter.cpp:59-70 | succeeds exactly for 8-bit values rotated right by an even amount; the operand expands to the constant |
| Arm32Operands.TryMakeOperand2AllowInverse | Common/ArmEmitter.cpp:71-80 | the constant or its complement, the constant first |
| Arm32Operands.TryMakeOperand2AllowNegation | Common/ArmEmitter.cpp:82-91 | the constant or its negation, the constant first |
| Arm32Operands.TryMakeFloatIMM8 | Common/ArmEmitter.cpp:131-154 | succeeds exactly for the images of the 8-bit expansion and inverts it |
| Arm32Emission.ARMXEmitter.CountWindows | Common/ArmEmitter.cpp:394-402 | the loop that skips its own index counts the 8-bit windows from the first odd pair on |
| Arm32Windows.LeastWindows | Common/ArmEmitter.cpp:394-402 | the count is the least possible: n 8-bit windows at even places can make the value if and only if the loop takes no more than n |
| Arm32Emission.ARMXEmitter.EmitWindows | Common/ArmEmitter.cpp:414-430 | the window loops for MOV, ORR and BIC write at most four words that together make rs op val, windows past bit 31 and rd == rs included |
| Arm32Emission.ARMXEmitter.TrySetValueTwoOp | Common/ArmEmitter.cpp:104-129 | succeeds exactly when the loop takes at most two windows, which is when two suffice, and then leaves the value |
| Arm32Emission.ARMXEmitter.MOVI2R | Common/ArmEmitter.cpp:490-538 | one to four words that leave val, for every val, with and without ARMv7 instructions, for back-patching or not; where the condition does not hold they only move on |
| Arm32Emission.ARMXEmitter.TryADDI2R | Common/ArmEmitter.cpp:203-232 | succeeds exactly for 0, operands and constants up to 0xFFFF, of either sign, and then computes rs + val mod 2^32 in at most two words |
| Arm32Emission.ARMXEmitter.TrySUBI2R | Common/ArmEmitter.cpp:245-249 | the same for rs - val |
| Arm32Emission.ARMXEmitter.TryANDI2R | Common/ArmEmitter.cpp:259-329 | whichever of MOV, AND, BIC, UBFX or several BIC is chosen, the result is rs & val, in at most four words; fails exactly for more than three windows on ARMv7 |
| Arm32Emission.ARMXEmitter.FindLowRun | Common/ArmEmitter.cpp:276-288 | the scan ends with the length of a single run of low ones, or knows that there is none |
| Arm32Emission.ARMXEmitter.TryORI2R | Common/ArmEmitter.cpp:381-431 | rs \| val when it succeeds, and exactly when it declines |
| Arm32Emission.ARMXEmitter.TryEORI2R | Common/ArmEmitter.cpp:441-455 | rs ^ val, exactly for 0 and operands |
| Arm32Emission.ARMXEmitter.OperateI2R | Common/ArmEmitter.cpp:195-201 | ADDI2R, SUBI2R, ANDI2R, ORI2R and EORI2R compute rs op val for every constant, the hand-off to scratch included, and do nothing where the condition does not hold |
| Arm32Constants.RewriteKeepsFlags | Common/ArmEmitter.cpp:339-352 | CMN of the negation sets all four flags like CMP if and only if the constant is neither 0 nor the sign bit |
| Arm32Operations.ConditionsOrder | Common/ArmCommon.h:9-28 | after a comparison each of the fifteen conditions holds by the order of the two operands that its name stands for |
| Compare32.SubFlagsOrder | Common/ArmEmitter.cpp:339-352 | the flags of the subtraction order the operands, signed and unsigned |
| Compare32.NegationKeepsFlags | Common/ArmEmitter.cpp:339-352 | adding the negation sets the same four flags if and only if the number is neither 0 nor the sign bit |
| Arm32Emission.ARMXEmitter.TryCMPI2R | Common/ArmEmitter.cpp:339-352 | succeeds exactly for operands of either sign, with flags that order rs and val, signed and unsigned |
| Arm32Emission.ARMXEmitter.CMPI2R | Common/ArmEmitter.cpp:331-337 | flags that order rs and val, signed and unsigned, for every constant, and nothing where the condition does not hold |
| Arm32Emission.ARMXEmitter.UBFX | Common/ArmEmitter.cpp:981-984 | the word decodes to UBFX of these bits |
| Arm32Emission.ARMXEmitter.WriteInstruction | Common/ArmEmitter.cpp:885-905 | for every opcode, with or without flags, the word decodes to the data-processing instruction with its immediate or register operand under the current condition |
| Arm32Emission.ARMXEmitter.SetJumpTarget | Common/ArmEmitter.cpp:729-737 | succeeds exactly when the code pointer lies within 32 MB of the slot plus 8, both ends excluded; only the reserved word changes then, to the word of the direct branch, and it goes to the code pointer |
| Arm32Emission.ARMXEmitter.BranchTo | Common/ArmEmitter.cpp:711-718 | a direct branch is written exactly when the target lies within 32 MB of the code pointer plus 8, both ends excluded, with the condition and link asked for, and goes to the target when that is word-aligned |
| Arm32Branches.InRangeExactly | Common/ArmEmitter.cpp:711-737 | the range check is exactly that signed byte distance |
| LoongEmission.LoongArch64Emitter.SetRegToImmediate | Common/LoongArch64Emitter.cpp:1827-1854 | exactly the 64-bit value, for every value: in one word below 2^11 in either direction, two below 2^31, three below 2^51, and four otherwise |
| LoongConstants.InRangeExactly | Common/LoongArch64Emitter.cpp:1795-1800 | the range check holds if and only if the 64-bit distance fits the signed field, for every width up to 32 |
| LoongConstants.SmallLoads | Common/LoongArch64Emitter.cpp:1831-1835 | ADDI.D alone sign-extends to the value |
| LoongConstants.LowLoads | Common/LoongArch64Emitter.cpp:1837-1841 | LU12I.W and ORI leave the low 32 bits, sign-extended |
| LoongConstants.MiddleLoads | Common/LoongArch64Emitter.cpp:1842-1847 | LU32I.D then leaves the low 52 bits, sign-extended |
| LoongConstants.TopLoads | Common/LoongArch64Emitter.cpp:1849-1853 | LU52I.D then leaves all 64 bits |
| LoongEmission.LoongArch64Emitter.QuickJump | Common/LoongArch64Emitter.cpp:1814-1825 | reaches every aligned destination, directly within 128 MB and through scratch otherwise, and says which register is the link |
| LoongJumps.FarJump | Common/LoongArch64Emitter.cpp:1815-1819 | the loaded base plus the sign-extended 18-bit offset is the destination |
| LoongEmission.LoongArch64Emitter.BeginBranch | Common/LoongArch64Emitter.cpp:2341-2427 | reserves a branch with distance 0 and remembers its class |
| LoongEmission.LoongArch64Emitter.SetJumpTarget | Common/LoongArch64Emitter.cpp:1743-1781 | succeeds exactly for aligned distances within 128 KB for conditional branches and branches against zero, and within 128 MB for B and BL; only the reserved word changes, to the direct word, which goes to the destination |
| LoongEmission.LoongArch64Emitter.BranchTo | Common/LoongArch64Emitter.cpp:2299-2415 | a direct branch is written exactly for aligned distances within 128 KB for conditional branches, 4 MB for branches against zero and 128 MB for B and BL; it decodes to the branch that was meant, which goes to the destination |
| LoongBranches.PatchIsWord | Common/LoongArch64Emitter.cpp:1757-1777 | masking and or-ing the distance into the placeholder gives the directly emitted word, for the B, BZ and J classes |
| LoongBranches.WordDecodes | Common/LoongArch64Emitter.cpp:1324-1351 | the encoders' words decode to the branches that were meant |
| LoongBranches.MeantReaches | Common/LoongArch64Emitter.cpp:1795-1812 | a distance that fits comes back from the split field |
| LoongBranches.DirectExactly | Common/LoongArch64Emitter.cpp:1795-1812 | the check of a direct branch holds exactly for the signed byte distances of its field |
| LoongBranches.PatchExactly | Common/LoongArch64Emitter.cpp:1757-1777 | the check of a patched branch holds exactly for the signed byte distances of its class |
| LoongBranches.PatchNarrower | Common/LoongArch64Emitter.cpp:1772-1777 | 0x20000 bytes are in reach of a direct branch against zero but not of a patched one |
| PageProtection.ProtectMemoryPages | Common/MemoryUtil.cpp:305-347 | for every power-of-two page size, exactly the pages that touch the range get the protection, a size that wraps around included |
| PageProtection.MaskRoundsDown | Common/MemoryUtil.cpp:337-340 | clearing the bits below a power of two rounds down to a multiple of it |
| CodeBlocks.WholeRun | Common/CodeBlock.h:71-150 | after every run of clear, begin, emit, continue and end steps, clearing inside a session included wherever that does no harm: no page is both writable and executable; outside a session every page that touches emitted code is mapped and executable only; inside one what is left of the estimate may be written |
| CodeBlocks.StepKeeps | Common/CodeBlock.h:92-150 | every operation keeps the invariant |
| CodeBlocks.LeadsKeeps | Common/CodeBlock.h:92-150 | hence so does every run |
| CodeBlocks.ClearExactly | Common/CodeBlock.h:92-106 | every run that goes on from a cleared block is safe if and only if no session is open, or the code is kept up to its start or beyond, and up to a page boundary unless no byte of the estimate lies behind that place |
| CodeBlocks.ClearingExample | Common/CodeBlock.h:92-106 | a session behind eight bytes of code: clearing to 0 leads to emitted code on a writable page, clearing to 8 makes the next byte of the estimate fault, clearing to the next page does no harm |
| CodeBlocks.SessionExample | Common/CodeBlock.h:71-150 | that session comes about in four steps from a fresh block |
| CodeBlocks.EstimateGranted | Common/CodeBlock.h:111-134 | from every block of some size, beginning or continuing lets the caller emit up to its whole estimate, cut only at the end of the region, and changes the protection of no page outside it |
| CodeBlocks.EndTouches | Common/CodeBlock.h:136-150 | ending a session changes the protection of no page outside the session |
| CodeBlocks.CodeBlock.constructor | Common/CodeBlock.h:71-88 | a fresh block starts in the initial state, all pages writable as `AllocateExecutableMemory` leaves them |
| CodeBlocks.CodeBlock.ClearCodeSpace | Common/CodeBlock.h:92-106 | inside a session or not, the new state is that of the clear step; the invariant is kept exactly where clearing does no harm |
| CodeBlocks.CodeBlock.BeginWrite | Common/CodeBlock.h:111-122 | in every state without a session, the new state is that of the begin step; afterwards every emission up to the whole estimate the caller asked for, as far as the region goes, is possible; the invariant is kept |
| CodeBlocks.CodeBlock.ContinueWrite | Common/CodeBlock.h:125-134 | in every state with a session, a harmfully cleared one included, the new state is that of the continue step, where the size may wrap around; afterwards every emission up to the whole new estimate, as far as the region goes, is possible; the invariant is kept |
| CodeBlocks.CodeBlock.EndWrite | Common/CodeBlock.h:136-150 | in every state, the new state is that of the end step, with the unsigned comparison of the sizes; nothing happens outside a session; the invariant is kept |
| GhidraLifecycle.EveryInterleaving | Common/GhidraClient.cpp:32-70 | in every interleaving: a worker is started only when `thread_` is not joinable, the join under the lock finds a worker that has left, destruction leaves none, and at most one request is undelivered |
| GhidraLifecycle.LeadsKeeps | Common/GhidraClient.cpp:32-70 | the invariant holds in every reachable state |
| GhidraLifecycle.Exclusive | Common/GhidraClient.h:82-127 | shared data changes only under the lock, `result` only by the owner |
| GhidraLifecycle.ExactlyOnce | Common/GhidraClient.cpp:38-70 | every accepted request is delivered by exactly one UpdateResult, in order, and all of them when the client is idle again |
| GhidraLifecycle.DeliversItsOwn | Common/GhidraClient.cpp:50-70 | what is handed over is all of what the worker of that request fetched |
| GhidraLifecycle.SomeoneCanStep | Common/GhidraClient.cpp:32-70 | no deadlock: while a call or a fetch is under way one of the threads can go on |
| GhidraLifecycle.RunsOut | Common/GhidraClient.cpp:32-70 | without new calls every interleaving is over after a bounded number of steps |
| GhidraLifecycle.FetchTakesUp | Common/GhidraClient.cpp:38-57 | FetchAll on an idle client, in every interleaving that runs out: one more request is accepted, a worker has fetched types and then, unless that failed, symbols, and all of it is ready |
| GhidraLifecycle.FetchRefused | Common/GhidraClient.cpp:38-43 | while a request is under way or undelivered, a FetchAll that gets the lock changes nothing |
| GhidraLifecycle.UpdateHandsOver | Common/GhidraClient.cpp:59-70 | UpdateResult on a client that is ready: the worker is joined, `result` is what was pending, and the client is idle again |
| GhidraLifecycle.UpdateRefused | Common/GhidraClient.cpp:59-63 | UpdateResult on any other client changes nothing |
| GhidraLifecycle.WholeCycle | Common/GhidraClient.cpp:38-70 | from every reachable idle state, a FetchAll and an UpdateResult, each run to its end in any interleaving, leave in `result` exactly what the server sent for that request |
| GhidraLifecycle.Finishes | Common/GhidraClient.cpp:32-70 | from every reachable state such an end can be reached |
| GhidraLifecycle.DestroyEnds | Common/GhidraClient.cpp:32-36 | a destruction that runs out leaves no worker, and delivers and accepts nothing |
| BitSet.ReverseBits32 | Common/BitSet.h:12-25 | bit i of the result is bit 31 - i of the word |
| BitSet.ReversalIsInvolution | Common/BitSet.h:12-25 | reversing twice gives the word back |
| BitSet.CountSetBits32 | Common/BitSet.h:29-38 | the number of set bits of a 32-bit word |
| BitSet.CountSetBits64 | Common/BitSet.h:29-38 | the number of set bits of a 64-bit word |
| BitSet.Swap32Reverses | Common/BitSet.h:77-78 | byte i of the result is byte 3 - i; swapping twice gives the word back |
| BitSet.Swap64Reverses | Common/BitSet.h:77-79 | byte i of the result is byte 7 - i; swapping twice gives the word back |

## Left out

- Arm64Emission.Arm64XEmitter.EncodeLogicalInst: the second register is never shifted; the modelled helpers do not shift it.
- Arm64Emission.Arm64XEmitter.EncodeArithmeticInst: the same, and no extended register.
- Arm64Emission.Arm64XEmitter.EncodeLoadStorePair: the W form is decoded but not run, since memory is modelled by doublewords; LDPSW is left out.
- Arm32Emission.ARMXEmitter.WriteInstruction: no shifted-register operands; MOVW and MOVT are methods of their own.
- Arm64Emission.Arm64XEmitter.TryAddSub: TryADDI2R and TrySUBI2R as one method with the operation as a parameter; so are AddSubI2R, TryOrEor and OrEorI2R.
- Arm64Emission.Arm64XEmitter.AddSubI2R: destination and source have the same width; the same for the other operations with a constant.
- Arm64FloatEmission.Arm64FloatEmitter.ABI_PushRegisters: frames of 256 bytes or more are only shown to stop, since the source asserts there (Common/Arm64Emitter.cpp:3889-3892, 824-826).
- Arm64FloatEmission.Arm64FloatEmitter.EmitFramed: the body is a given sequence of straight-line words, and the return behind the frame is left out.
- Arm64Frames.PopUndoesPush: accesses that are not doubleword-aligned are outside the machine model.
- Arm64FloatEmission.Arm64FloatEmitter.TryMOVI: the lanes are those of the modified immediate's expansion; the vector instruction is not part of the interpreter.
- Arm64Emission.Arm64XEmitter.SetJumpTarget: branches are decoded and their targets computed, not run; the same on ARM32 and LoongArch.
- Arm32Emission.ARMXEmitter.OperateI2R: the five operations share one method.
- LoongEmission.LoongArch64Emitter.SetJumpTarget: using a fix-up twice is excluded instead of modelled as an assertion.
- PageProtection.ProtectMemoryPages: the Unix path only, and only ranges whose pages are mapped.
- CodeBlocks.CodeBlock.ClearCodeSpace: poisoning is not modelled, nor are platforms without W^X, where no protection changes; an offset past the region is excluded.
- GhidraLifecycle.EveryInterleaving: HTTP and JSON are reduced to lists of items and a success flag; calls come from one owner thread, as the header asks.
- TSTI2R and SUBSI2R: the same shape as CMPI2R with fewer cases.
- Missing scratch registers, which the source asserts on: every operation that may need one is given one, different from the source register.
- Registers 31 and R15 as operands of the helpers: their meaning changes with the instruction form.
- TryAnyMOVI and MOVI2FDUP, which build on the ones-shifting arms of TryMOVI.
- EXTR, exclusive loads and stores, load/store with other index types, NEON, LSX and LASX: encoders without interaction.
- The ARM32 literal pool, which the source disables.
- The x86 emitter, exception handlers, CPU detection, instruction-cache flushing and the memory arena.
