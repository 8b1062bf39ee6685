/** LoongArch64 branches: directly emitted, patched over a placeholder, and the far jump. */
module LoongBranches {
  import opened Basics
  import opened Words
  import opened LoongMachine
  import opened LoongEncode
  import opened LoongConstants
  import Words32

  /** The three encodings: conditional (op is the major opcode, 0x16 to 0x1B), against zero, and unconditional. */
  datatype BranchOp = Conditional(op: bv32, rj: bv32, rd: bv32) | Zero(nonzero: bool, rj: bv32)
    | Unconditional(link: bool)

  datatype FixupKind = KindB | KindJ | KindBZ

  /** A placeholder at address ptr, the slot-th word of the buffer. */
  datatype FixupBranch = FixupBranch(ptr: bv64, slot: nat, kind: FixupKind)

  function KindOf(b: BranchOp): FixupKind {
    match b
    case Conditional(_, _, _) => KindB
    case Zero(_, _) => KindBZ
    case Unconditional(_) => KindJ
  }

  predicate HasFields(b: BranchOp) {
    match b
    case Conditional(op, rj, rd) => 0x16 <= op <= 0x1B && rj <= 31 && rd <= 31
    case Zero(_, rj) => rj <= 31
    case Unconditional(_) => true
  }

  /** The width of the signed byte distance a directly emitted branch accepts. */
  function DirectBits(b: BranchOp): bv8 {
    match b
    case Conditional(_, _, _) => 18
    case Zero(_, _) => 23
    case Unconditional(_) => 28
  }

  /** The width that patching accepts: branches against zero are held to the one of conditional branches. */
  function PatchBits(kind: FixupKind): bv8 {
    if kind == KindJ then 28 else 18
  }

  predicate IsWordMultiple(distance: bv64) {
    distance & 3 == 0
  }

  /** The distance in words, of which the encoders take the low bits. */
  function Offs(distance: bv64): bv32 {
    ((distance & 0xFFFF_FFFF) as bv32) >> 2
  }

  function JDSk16ps2(opcode: bv32, rj: bv32, rd: bv32, offs: bv32): bv32 {
    opcode | ((offs & 0xFFFF) << 10) | (rj << 5) | rd
  }

  function JSd5k16(opcode: bv32, rj: bv32, offs: bv32): bv32 {
    opcode | ((offs & 0xFFFF) << 10) | (rj << 5) | ((offs >> 16) & 0x1F)
  }

  function Sd10k16ps2(opcode: bv32, offs: bv32): bv32 {
    opcode | ((offs & 0xFFFF) << 10) | ((offs >> 16) & 0x3FF)
  }

  function ZeroOpcode(nonzero: bool): bv32 {
    if nonzero then 0x4400_0000 else 0x4000_0000
  }

  function JumpOpcode(link: bool): bv32 {
    if link then 0x5400_0000 else 0x5000_0000
  }

  function WordOf(b: BranchOp, offs: bv32): bv32 {
    match b
    case Conditional(op, rj, rd) => JDSk16ps2(op << 26, rj, rd, offs)
    case Zero(nonzero, rj) => JSd5k16(ZeroOpcode(nonzero), rj, offs)
    case Unconditional(link) => Sd10k16ps2(JumpOpcode(link), offs)
  }

  function Imm21(x: bv32): bv32 {
    x & 0x1F_FFFF
  }

  function Imm26(x: bv32): bv32 {
    x & 0x3FF_FFFF
  }

  /** The instruction a branch is meant to be. */
  function Meant(b: BranchOp, offs: bv32): Instr {
    match b
    case Conditional(op, rj, rd) => Branch(op, rj, rd, Imm16(offs))
    case Zero(nonzero, rj) => BranchZero(nonzero, rj, Imm21(offs))
    case Unconditional(link) => Jump(link, Imm26(offs))
  }

  lemma Conditional16Fields(rj: bv32, rd: bv32, offs: bv32)
    requires rj <= 31 && rd <= 31
    ensures var w := 0x5800_0000 | ((offs & 0xFFFF) << 10) | (rj << 5)
            | rd; Decode(w) == Some(Branch(0x16, rj, rd, Imm16(offs)))
  {}

  lemma Conditional16Decodes(rj: bv32, rd: bv32, offs: bv32)
    requires rj <= 31 && rd <= 31
    ensures Decode(JDSk16ps2(0x5800_0000, rj, rd, offs)) == Some(Branch(0x16, rj, rd, Imm16(offs)))
  {
    hide Decode, Imm16;
    Conditional16Fields(rj, rd, offs);
  }

  lemma Conditional17Fields(rj: bv32, rd: bv32, offs: bv32)
    requires rj <= 31 && rd <= 31
    ensures var w := 0x5C00_0000 | ((offs & 0xFFFF) << 10) | (rj << 5)
            | rd; Decode(w) == Some(Branch(0x17, rj, rd, Imm16(offs)))
  {}

  lemma Conditional17Decodes(rj: bv32, rd: bv32, offs: bv32)
    requires rj <= 31 && rd <= 31
    ensures Decode(JDSk16ps2(0x5C00_0000, rj, rd, offs)) == Some(Branch(0x17, rj, rd, Imm16(offs)))
  {
    hide Decode, Imm16;
    Conditional17Fields(rj, rd, offs);
  }

  lemma Conditional18Fields(rj: bv32, rd: bv32, offs: bv32)
    requires rj <= 31 && rd <= 31
    ensures var w := 0x6000_0000 | ((offs & 0xFFFF) << 10) | (rj << 5)
            | rd; Decode(w) == Some(Branch(0x18, rj, rd, Imm16(offs)))
  {}

  lemma Conditional18Decodes(rj: bv32, rd: bv32, offs: bv32)
    requires rj <= 31 && rd <= 31
    ensures Decode(JDSk16ps2(0x6000_0000, rj, rd, offs)) == Some(Branch(0x18, rj, rd, Imm16(offs)))
  {
    hide Decode, Imm16;
    Conditional18Fields(rj, rd, offs);
  }

  lemma Conditional19Fields(rj: bv32, rd: bv32, offs: bv32)
    requires rj <= 31 && rd <= 31
    ensures var w := 0x6400_0000 | ((offs & 0xFFFF) << 10) | (rj << 5)
            | rd; Decode(w) == Some(Branch(0x19, rj, rd, Imm16(offs)))
  {}

  lemma Conditional19Decodes(rj: bv32, rd: bv32, offs: bv32)
    requires rj <= 31 && rd <= 31
    ensures Decode(JDSk16ps2(0x6400_0000, rj, rd, offs)) == Some(Branch(0x19, rj, rd, Imm16(offs)))
  {
    hide Decode, Imm16;
    Conditional19Fields(rj, rd, offs);
  }

  lemma Conditional1AFields(rj: bv32, rd: bv32, offs: bv32)
    requires rj <= 31 && rd <= 31
    ensures var w := 0x6800_0000 | ((offs & 0xFFFF) << 10) | (rj << 5)
            | rd; Decode(w) == Some(Branch(0x1A, rj, rd, Imm16(offs)))
  {}

  lemma Conditional1ADecodes(rj: bv32, rd: bv32, offs: bv32)
    requires rj <= 31 && rd <= 31
    ensures Decode(JDSk16ps2(0x6800_0000, rj, rd, offs)) == Some(Branch(0x1A, rj, rd, Imm16(offs)))
  {
    hide Decode, Imm16;
    Conditional1AFields(rj, rd, offs);
  }

  lemma Conditional1BFields(rj: bv32, rd: bv32, offs: bv32)
    requires rj <= 31 && rd <= 31
    ensures var w := 0x6C00_0000 | ((offs & 0xFFFF) << 10) | (rj << 5)
            | rd; Decode(w) == Some(Branch(0x1B, rj, rd, Imm16(offs)))
  {}

  lemma Conditional1BDecodes(rj: bv32, rd: bv32, offs: bv32)
    requires rj <= 31 && rd <= 31
    ensures Decode(JDSk16ps2(0x6C00_0000, rj, rd, offs)) == Some(Branch(0x1B, rj, rd, Imm16(offs)))
  {
    hide Decode, Imm16;
    Conditional1BFields(rj, rd, offs);
  }

  lemma OpCases(op: bv32)
    requires 0x16 <= op <= 0x1B
    ensures (op == 0x16 && op << 26 == 0x5800_0000) || (op == 0x17 && op << 26 == 0x5C00_0000)
         || (op == 0x18 && op << 26 == 0x6000_0000) || (op == 0x19 && op << 26 == 0x6400_0000)
         || (op == 0x1A && op << 26 == 0x6800_0000) || (op == 0x1B && op << 26 == 0x6C00_0000)
  {}

  lemma ConditionalDecodes(op: bv32, rj: bv32, rd: bv32, offs: bv32)
    requires 0x16 <= op <= 0x1B && rj <= 31 && rd <= 31
    ensures Decode(JDSk16ps2(op << 26, rj, rd, offs)) == Some(Branch(op, rj, rd, Imm16(offs)))
  {
    hide *;
    OpCases(op);
    Conditional16Decodes(rj, rd, offs);
    Conditional17Decodes(rj, rd, offs);
    Conditional18Decodes(rj, rd, offs);
    Conditional19Decodes(rj, rd, offs);
    Conditional1ADecodes(rj, rd, offs);
    Conditional1BDecodes(rj, rd, offs);
  }

  lemma ZeroDecodes(rj: bv32, offs: bv32)
    requires rj <= 31
    ensures var w := 0x4000_0000 | ((offs & 0xFFFF) << 10) | (rj << 5) | ((offs >> 16) & 0x1F);
            Decode(w) == Some(BranchZero(false, rj, Imm21(offs)))
    ensures var w := 0x4400_0000 | ((offs & 0xFFFF) << 10) | (rj << 5) | ((offs >> 16) & 0x1F);
            Decode(w) == Some(BranchZero(true, rj, Imm21(offs)))
  {}

  lemma UnconditionalDecodes(offs: bv32)
    ensures var w := 0x5000_0000 | ((offs & 0xFFFF) << 10)
            | ((offs >> 16) & 0x3FF); Decode(w) == Some(Jump(false, Imm26(offs)))
    ensures var w := 0x5400_0000 | ((offs & 0xFFFF) << 10)
            | ((offs >> 16) & 0x3FF); Decode(w) == Some(Jump(true, Imm26(offs)))
  {}

  lemma ZeroLiterals(rj: bv32, offs: bv32)
    requires rj <= 31
    ensures Decode(JSd5k16(0x4000_0000, rj, offs)) == Some(BranchZero(false, rj, Imm21(offs)))
    ensures Decode(JSd5k16(0x4400_0000, rj, offs)) == Some(BranchZero(true, rj, Imm21(offs)))
  {
    hide Decode, Imm21;
    ZeroDecodes(rj, offs);
  }

  lemma JumpLiterals(offs: bv32)
    ensures Decode(Sd10k16ps2(0x5000_0000, offs)) == Some(Jump(false, Imm26(offs)))
    ensures Decode(Sd10k16ps2(0x5400_0000, offs)) == Some(Jump(true, Imm26(offs)))
  {
    hide Decode, Imm26;
    UnconditionalDecodes(offs);
  }

  lemma Opcodes(flag: bool)
    ensures ZeroOpcode(flag) == if flag then 0x4400_0000 else 0x4000_0000
    ensures JumpOpcode(flag) == if flag then 0x5400_0000 else 0x5000_0000
  {}

  lemma WordDecodes(b: BranchOp, offs: bv32)
    requires HasFields(b)
    ensures Decode(WordOf(b, offs)) == Some(Meant(b, offs))
  {
    hide Decode, Imm16, Imm21, Imm26, JDSk16ps2, JSd5k16, Sd10k16ps2, ZeroOpcode, JumpOpcode;
    match b
    case Conditional(op, rj, rd) => ConditionalDecodes(op, rj, rd, offs);
    case Zero(nonzero, rj) => ZeroLiterals(rj, offs); Opcodes(nonzero);
    case Unconditional(link) => JumpLiterals(offs); Opcodes(link);
  }

  // ----- Patching -----

  /** Keeps the opcode and the registers of the word in the buffer and sets the distance. */
  function Patch(kind: FixupKind, word: bv32, offs: bv32): bv32 {
    match kind
    case KindB => (word & 0xFC00_03FF) | JDSk16ps2(0, 0, 0, offs)
    case KindJ => (word & 0xFC00_0000) | Sd10k16ps2(0, offs)
    case KindBZ => (word & 0xFC00_03E0) | JSd5k16(0, 0, offs)
  }

  lemma PatchConditional(op: bv32, rj: bv32, rd: bv32, offs: bv32)
    requires 0x16 <= op <= 0x1B && rj <= 31 && rd <= 31
    ensures Words32.Alike(Patch(KindB, JDSk16ps2(op << 26, rj, rd, 0), offs), JDSk16ps2(op << 26, rj, rd, offs))
  {}

  lemma PatchZero(opcode: bv32, rj: bv32, offs: bv32)
    requires rj <= 31 && (opcode == 0x4000_0000 || opcode == 0x4400_0000)
    ensures Words32.Alike(Patch(KindBZ, JSd5k16(opcode, rj, 0), offs), JSd5k16(opcode, rj, offs))
  {}

  lemma PatchJump(opcode: bv32, offs: bv32)
    requires opcode == 0x5000_0000 || opcode == 0x5400_0000
    ensures Words32.Alike(Patch(KindJ, Sd10k16ps2(opcode, 0), offs), Sd10k16ps2(opcode, offs))
  {}

  /** Patching a placeholder gives the word of the direct branch. */
  lemma PatchIsWord(b: BranchOp, offs: bv32)
    requires HasFields(b)
    ensures Patch(KindOf(b), WordOf(b, 0), offs) == WordOf(b, offs)
  {
    hide JDSk16ps2, JSd5k16, Sd10k16ps2, ZeroOpcode, JumpOpcode, Patch, Words32.Alike;
    match b {
    case Conditional(op, rj, rd) => PatchConditional(op, rj, rd, offs);
    case Zero(nonzero, rj) => Opcodes(nonzero); PatchZero(ZeroOpcode(nonzero), rj, offs);
    case Unconditional(link) => Opcodes(link); PatchJump(JumpOpcode(link), offs);
    }
    Words32.Same(Patch(KindOf(b), WordOf(b, 0), offs), WordOf(b, offs));
  }

  // ----- Reach -----

  lemma Reach18(d: bv64)
    requires IsWordMultiple(d) && d <= 0x1_FFFF
    ensures Alike(Offset16(Imm16(Offs(d))), d)
  {}

  lemma Reach18Back(d: bv64)
    requires IsWordMultiple(d) && 0xFFFF_FFFF_FFFE_0000 <= d
    ensures Alike(Offset16(Imm16(Offs(d))), d)
  {}

  lemma Reach23(d: bv64)
    requires IsWordMultiple(d) && d <= 0x3F_FFFF
    ensures Alike(Offset21(Imm21(Offs(d))), d)
  {}

  lemma Reach23Back(d: bv64)
    requires IsWordMultiple(d) && 0xFFFF_FFFF_FFC0_0000 <= d
    ensures Alike(Offset21(Imm21(Offs(d))), d)
  {}

  lemma Reach28(d: bv64)
    requires IsWordMultiple(d) && d <= 0x7FF_FFFF
    ensures Alike(Offset26(Imm26(Offs(d))), d)
  {}

  lemma Reach28Back(d: bv64)
    requires IsWordMultiple(d) && 0xFFFF_FFFF_F800_0000 <= d
    ensures Alike(Offset26(Imm26(Offs(d))), d)
  {}

  lemma FitsRanges(d: bv64)
    ensures FitsSigned(d, 18) <==> d <= 0x1_FFFF || 0xFFFF_FFFF_FFFE_0000 <= d
    ensures FitsSigned(d, 23) <==> d <= 0x3F_FFFF || 0xFFFF_FFFF_FFC0_0000 <= d
    ensures FitsSigned(d, 28) <==> d <= 0x7FF_FFFF || 0xFFFF_FFFF_F800_0000 <= d
  {}

  /** How far a branch goes, in bytes. */
  function DirectReach(b: BranchOp): bv64 {
    match b
    case Conditional(_, _, _) => 0x2_0000
    case Zero(_, _) => 0x40_0000
    case Unconditional(_) => 0x800_0000
  }

  function PatchReach(kind: FixupKind): bv64 {
    if kind == KindJ then 0x800_0000 else 0x2_0000
  }

  lemma FitsWithin(d: bv64)
    ensures FitsSigned(d, 18) <==> IsWithin(d, 0x2_0000)
    ensures FitsSigned(d, 23) <==> IsWithin(d, 0x40_0000)
    ensures FitsSigned(d, 28) <==> IsWithin(d, 0x800_0000)
  {}

  lemma DirectExactly(b: BranchOp, d: bv64)
    ensures 1 <= DirectBits(b) <= 32 && (FitsSigned(d, DirectBits(b)) <==> IsWithin(d, DirectReach(b)))
  {
    hide FitsSigned, IsWithin;
    FitsWithin(d);
  }

  lemma PatchExactly(kind: FixupKind, d: bv64)
    ensures 1 <= PatchBits(kind) <= 32 && (FitsSigned(d, PatchBits(kind)) <==> IsWithin(d, PatchReach(kind)))
  {
    hide FitsSigned, IsWithin;
    FitsWithin(d);
  }

  lemma IsWordMultipleIs(distance: bv64)
    ensures IsWordMultiple(distance) <==> distance & 3 == 0
  {}

  lemma OffsetBack(d: bv64)
    requires IsWordMultiple(d)
    ensures FitsSigned(d, 18) ==> Offset16(Imm16(Offs(d))) == d
    ensures FitsSigned(d, 23) ==> Offset21(Imm21(Offs(d))) == d
    ensures FitsSigned(d, 28) ==> Offset26(Imm26(Offs(d))) == d
  {
    hide *;
    FitsRanges(d);
    if FitsSigned(d, 18) {
      if d <= 0x1_FFFF { Reach18(d); } else { Reach18Back(d); }
      Same(Offset16(Imm16(Offs(d))), d);
    }
    if FitsSigned(d, 23) {
      if d <= 0x3F_FFFF { Reach23(d); } else { Reach23Back(d); }
      Same(Offset21(Imm21(Offs(d))), d);
    }
    if FitsSigned(d, 28) {
      if d <= 0x7FF_FFFF { Reach28(d); } else { Reach28Back(d); }
      Same(Offset26(Imm26(Offs(d))), d);
    }
  }

  /** A branch whose word-aligned distance fits goes to its target. */
  lemma MeantReaches(b: BranchOp, ptr: bv64, target: bv64)
    requires IsWordMultiple(Minus(target, ptr)) && FitsSigned(Minus(target, ptr), DirectBits(b))
    ensures BranchTarget(Meant(b, Offs(Minus(target, ptr))), ptr) == Some(target)
  {
    hide IsWordMultiple, FitsSigned, Minus, Plus, Imm16, Imm21, Imm26, Offs, Offset16, Offset21, Offset26;
    OffsetBack(Minus(target, ptr));
    MinusPlusBack(target, ptr);
  }

  /** Patching accepts no distance that the direct form does not. */
  lemma PatchFits(b: BranchOp, d: bv64)
    requires FitsSigned(d, PatchBits(KindOf(b)))
    ensures FitsSigned(d, DirectBits(b))
  {
    hide FitsSigned;
    FitsRanges(d);
  }

  /** A branch against zero over 0x20000 bytes can be emitted directly but not patched in. */
  lemma PatchNarrower(b: BranchOp)
    requires b.Zero?
    ensures FitsSigned(0x2_0000, DirectBits(b)) && !FitsSigned(0x2_0000, PatchBits(KindOf(b)))
  {}

  lemma JumpFields(link: bool)
    ensures HasFields(Unconditional(link))
  {}

  lemma MeantJump(link: bool, offs: bv32)
    ensures Meant(Unconditional(link), offs) == Jump(link, Imm26(offs))
  {
    hide Imm26;
  }
}
