/** The word encoders of the ARM32 emitter, each proved against the decoder. */
module Arm32Encode {
  import opened Basics
  import opened Arm32Machine

  /** Condition codes of conditional and unconditional instructions. */
  predicate IsCond(cond: bv32) {
    cond <= 14
  }

  lemma DataImmDecodes(cond: bv32, op: bv32, s: bool, rn: bv32, rd: bv32, imm12: bv32)
    requires cond <= 14 && op <= 15 && rn <= 15 && rd <= 15 && imm12 <= 0xFFF && (s || op & 0xC != 8)
    ensures var w := (cond << 28) | ((16 + op) << 21) | (if s then 1 << 20 else 0) | (rn << 16) | (rd << 12) | imm12;
            Decode(w) == Some(DataImm(cond, op, s, rn, rd, imm12))
  {}

  function DataImmWord(cond: bv32, op: bv32, s: bool, rn: bv32, rd: bv32, imm12: bv32): (w: bv32)
    requires cond <= 14 && op <= 15 && rn <= 15 && rd <= 15 && imm12 <= 0xFFF && (s || op & 0xC != 8)
    ensures Decode(w) == Some(DataImm(cond, op, s, rn, rd, imm12))
  {
    hide *;
    DataImmDecodes(cond, op, s, rn, rd, imm12);
    (cond << 28) | ((16 + op) << 21) | (if s then 1 << 20 else 0) | (rn << 16) | (rd << 12) | imm12
  }

  lemma DataRegDecodes(cond: bv32, op: bv32, s: bool, rn: bv32, rd: bv32, rm: bv32)
    requires cond <= 14 && op <= 15 && rn <= 15 && rd <= 15 && rm <= 15 && (s || op & 0xC != 8)
    ensures var w := (cond << 28) | (op << 21) | (if s then 1 << 20 else 0) | (rn << 16) | (rd << 12) | rm;
            Decode(w) == Some(DataReg(cond, op, s, rn, rd, rm))
  {}

  function DataRegWord(cond: bv32, op: bv32, s: bool, rn: bv32, rd: bv32, rm: bv32): (w: bv32)
    requires cond <= 14 && op <= 15 && rn <= 15 && rd <= 15 && rm <= 15 && (s || op & 0xC != 8)
    ensures Decode(w) == Some(DataReg(cond, op, s, rn, rd, rm))
  {
    hide *;
    DataRegDecodes(cond, op, s, rn, rd, rm);
    (cond << 28) | (op << 21) | (if s then 1 << 20 else 0) | (rn << 16) | (rd << 12) | rm
  }

  /** The last operand of a data-processing instruction; shifted registers are left out. */
  datatype DataOperand = Immediate(imm12: bv32) | Register(rm: bv32)

  predicate Fits(operand: DataOperand) {
    match operand
    case Immediate(imm12) => imm12 <= 0xFFF
    case Register(rm) => rm <= 15
  }

  /** The comparisons have no form without flags. */
  predicate IsDataOp(op: bv32, setFlags: bool) {
    op <= 15 && (setFlags || op & 0xC != 8)
  }

  function DataInstr(cond: bv32, op: bv32, setFlags: bool, rn: bv32, rd: bv32, operand: DataOperand): Instr {
    match operand
    case Immediate(imm12) => DataImm(cond, op, setFlags, rn, rd, imm12)
    case Register(rm) => DataReg(cond, op, setFlags, rn, rd, rm)
  }

  lemma DataOpIs(op: bv32, setFlags: bool)
    ensures IsDataOp(op, setFlags) <==> op <= 15 && (setFlags || op & 0xC != 8)
  {}

  lemma ImmediateIs(cond: bv32, op: bv32, setFlags: bool, rn: bv32, rd: bv32, imm12: bv32)
    requires imm12 <= 0xFFF
    ensures Fits(Immediate(imm12))
    ensures DataInstr(cond, op, setFlags, rn, rd, Immediate(imm12)) == DataImm(cond, op, setFlags, rn, rd, imm12)
  {}

  lemma RegisterIs(cond: bv32, op: bv32, setFlags: bool, rn: bv32, rd: bv32, rm: bv32)
    requires rm <= 15
    ensures Fits(Register(rm))
    ensures DataInstr(cond, op, setFlags, rn, rd, Register(rm)) == DataReg(cond, op, setFlags, rn, rd, rm)
  {}

  function DataWord(cond: bv32, op: bv32, setFlags: bool, rn: bv32, rd: bv32, operand: DataOperand): (w: bv32)
    requires cond <= 14 && IsDataOp(op, setFlags) && rn <= 15 && rd <= 15 && Fits(operand)
    ensures Decode(w) == Some(DataInstr(cond, op, setFlags, rn, rd, operand))
  {
    hide Decode, DataImmWord, DataRegWord;
    match operand
    case Immediate(imm12) => DataImmWord(cond, op, setFlags, rn, rd, imm12)
    case Register(rm) => DataRegWord(cond, op, setFlags, rn, rd, rm)
  }

  /** The 16-bit field of MOVW and MOVT, split in two. */
  lemma MovwDecodes(cond: bv32, rd: bv32, value: bv32)
    requires cond <= 14 && rd <= 15 && value <= 0xFFFF
    ensures var w := (cond << 28) | (24 << 21) | (rd << 12) | (((value & 0xF000) << 4) | (value & 0xFFF));
            Decode(w) == Some(MovWide(cond, false, rd, value))
  {}

  function MovwWord(cond: bv32, rd: bv32, value: bv32): (w: bv32)
    requires cond <= 14 && rd <= 15 && value <= 0xFFFF
    ensures Decode(w) == Some(MovWide(cond, false, rd, value))
  {
    hide *;
    MovwDecodes(cond, rd, value);
    (cond << 28) | (24 << 21) | (rd << 12) | (((value & 0xF000) << 4) | (value & 0xFFF))
  }

  lemma MovtDecodes(cond: bv32, rd: bv32, value: bv32)
    requires cond <= 14 && rd <= 15 && value <= 0xFFFF
    ensures var w := (cond << 28) | (26 << 21) | (rd << 12) | (((value & 0xF000) << 4) | (value & 0xFFF));
            Decode(w) == Some(MovWide(cond, true, rd, value))
  {}

  function MovtWord(cond: bv32, rd: bv32, value: bv32): (w: bv32)
    requires cond <= 14 && rd <= 15 && value <= 0xFFFF
    ensures Decode(w) == Some(MovWide(cond, true, rd, value))
  {
    hide *;
    MovtDecodes(cond, rd, value);
    (cond << 28) | (26 << 21) | (rd << 12) | (((value & 0xF000) << 4) | (value & 0xFFF))
  }

  lemma UbfxDecodes(cond: bv32, rd: bv32, rn: bv32, lsb: bv32, width: bv32)
    requires cond <= 14 && rd <= 15 && rn <= 15 && lsb <= 31 && 0 < width <= 32
    ensures var w := (cond << 28) | (0x7E0 << 16) | ((width - 1) << 16) | (rd << 12) | (lsb << 7) | (5 << 4) | rn;
            Decode(w) == Some(Ubfx(cond, rd, rn, lsb, width - 1))
  {}

  function UbfxWord(cond: bv32, rd: bv32, rn: bv32, lsb: bv32, width: bv32): (w: bv32)
    requires cond <= 14 && rd <= 15 && rn <= 15 && lsb <= 31 && 0 < width <= 32
    ensures Decode(w) == Some(Ubfx(cond, rd, rn, lsb, width - 1))
  {
    hide *;
    UbfxDecodes(cond, rd, rn, lsb, width);
    (cond << 28) | (0x7E0 << 16) | ((width - 1) << 16) | (rd << 12) | (lsb << 7) | (5 << 4) | rn
  }

  lemma BranchDecodes(cond: bv32, link: bool, imm24: bv32)
    requires cond <= 14 && imm24 <= 0xFF_FFFF
    ensures var w := (cond << 28) | (if link then 0x0B00_0000 else 0x0A00_0000) | imm24;
            Decode(w) == Some(Branch(cond, link, imm24))
  {}

  function BranchWord(cond: bv32, link: bool, imm24: bv32): (w: bv32)
    requires cond <= 14 && imm24 <= 0xFF_FFFF
    ensures Decode(w) == Some(Branch(cond, link, imm24))
  {
    hide *;
    BranchDecodes(cond, link, imm24);
    (cond << 28) | (if link then 0x0B00_0000 else 0x0A00_0000) | imm24
  }
}
