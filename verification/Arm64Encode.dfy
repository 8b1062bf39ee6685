/** The word encoders of the ARM64 emitter, each proved against the decoder. */
module Arm64Encode {
  import opened Basics
  import opened Arm64Machine
  import Compare32

  // ----- Registers: five bits of number, bit 5 for a 64-bit register, bits 6-7 for a vector -----

  predicate Is64Bit(reg: bv32) {
    reg & 0x20 != 0
  }

  function DecodeReg(reg: bv32): (r: bv32)
    ensures r <= 31
  {
    reg & 0x1F
  }

  /** W registers are numbered from 0 on, X registers from 0x20, S from 0x40, D from 0x80 and Q from 0xC0. */
  lemma RegisterNumbers(i: bv32)
    requires i <= 31
    ensures !Is64Bit(i) && Is64Bit(0x20 + i) && !Is64Bit(0x40 + i) && !Is64Bit(0x80 + i) && !Is64Bit(0xC0 + i)
    ensures DecodeReg(i) == DecodeReg(0x20 + i) == DecodeReg(0x40 + i) == DecodeReg(0x80 + i) == DecodeReg(0xC0 + i)
         == i
  {}

  const FP: bv32 := 0x3D
  const LR: bv32 := 0x3E
  const SP: bv32 := 0x3F
  const WSP: bv32 := 0x1F

  function Zero(reg: bv32): bv32 {
    if Is64Bit(reg) then SP else WSP
  }

  lemma ZeroRegister(reg: bv32)
    ensures DecodeReg(Zero(reg)) == 31 && Is64Bit(Zero(reg)) == Is64Bit(reg)
  {}

  lemma WZRIs()
    ensures DecodeReg(WSP) == 31 && !Is64Bit(WSP)
  {}

  function Flag(b: bool): bv32 {
    if b then 1 else 0
  }

  // ----- Words from their fields -----

  lemma MoveWideWordDecodes(sf: bool, op: bv32, imm: bv32, pos: bv32, rd: bv32)
    requires imm <= 0xFFFF && rd <= 31 && pos <= 3 && (sf || pos <= 1) && op <= 3 && op != 1
    ensures var w := (Flag(sf) << 31) | (op << 29) | (0x25 << 23) | (pos << 21) | (imm << 5) | rd;
            Decode(w) == Some(MoveWide(sf, op, pos, imm, rd))
  {}

  function MoveWideWord(sf: bool, op: bv32, imm: bv32, pos: bv32, rd: bv32): (w: bv32)
    requires imm <= 0xFFFF && rd <= 31 && pos <= 3 && (sf || pos <= 1) && op <= 3 && op != 1
    ensures Decode(w) == Some(MoveWide(sf, op, pos, imm, rd))
  {
    hide *;
    MoveWideWordDecodes(sf, op, imm, pos, rd);
    (Flag(sf) << 31) | (op << 29) | (0x25 << 23) | (pos << 21) | (imm << 5) | rd
  }

  lemma AddSubImmWordDecodes(sf: bool, sub: bool, flags: bool, shift: bool, imm: bv32, rn: bv32, rd: bv32)
    requires imm <= 0xFFF && rn <= 31 && rd <= 31
    ensures var w := (Flag(sf) << 31) | (Flag(sub) << 30) | (Flag(flags) << 29) | (0x11 << 24) | (Flag(shift) << 22)
            | (imm << 10) | (rn << 5) | rd;
            Decode(w) == Some(AddSubImm(sf, sub, flags, shift, imm, rn, rd))
  {}

  function AddSubImmWord(sf: bool, sub: bool, flags: bool, shift: bool, imm: bv32, rn: bv32, rd: bv32): (w: bv32)
    requires imm <= 0xFFF && rn <= 31 && rd <= 31
    ensures Decode(w) == Some(AddSubImm(sf, sub, flags, shift, imm, rn, rd))
  {
    hide *;
    AddSubImmWordDecodes(sf, sub, flags, shift, imm, rn, rd);
    (Flag(sf) << 31) | (Flag(sub) << 30) | (Flag(flags) << 29) | (0x11 << 24) | (Flag(shift) << 22) | (imm << 10)
      | (rn << 5) | rd
  }

  lemma LogicalImmWordDecodes(sf: bool, op: bv32, n: bv8, immr: bv8, imms: bv8, rn: bv32, rd: bv32)
    requires op <= 3 && n <= 1 && immr <= 63 && imms <= 63 && rn <= 31 && rd <= 31
    ensures var w := (Flag(sf) << 31) | (op << 29) | (0x24 << 23) | ((n as bv32) << 22) | ((immr as bv32) << 16)
            | ((imms as bv32) << 10) | (rn << 5) | rd;
            Decode(w) == Some(LogicalImm(sf, op, n, immr, imms, rn, rd))
  {}

  function LogicalImmWord(sf: bool, op: bv32, n: bv8, immr: bv8, imms: bv8, rn: bv32, rd: bv32): (w: bv32)
    requires op <= 3 && n <= 1 && immr <= 63 && imms <= 63 && rn <= 31 && rd <= 31
    ensures Decode(w) == Some(LogicalImm(sf, op, n, immr, imms, rn, rd))
  {
    hide *;
    LogicalImmWordDecodes(sf, op, n, immr, imms, rn, rd);
    (Flag(sf) << 31) | (op << 29) | (0x24 << 23) | ((n as bv32) << 22) | ((immr as bv32) << 16)
      | ((imms as bv32) << 10) | (rn << 5) | rd
  }

  lemma LogicalRegWordDecodes(sf: bool, op: bv32, invert: bool, rm: bv32, rn: bv32, rd: bv32)
    requires op <= 3 && rm <= 31 && rn <= 31 && rd <= 31
    ensures var w := (Flag(sf) << 31) | (op << 29) | (0x5 << 25) | (Flag(invert) << 21) | (rm << 16) | (rn << 5) | rd;
            Decode(w) == Some(LogicalReg(sf, op, invert, rm, rn, rd))
  {}

  function LogicalRegWord(sf: bool, op: bv32, invert: bool, rm: bv32, rn: bv32, rd: bv32): (w: bv32)
    requires op <= 3 && rm <= 31 && rn <= 31 && rd <= 31
    ensures Decode(w) == Some(LogicalReg(sf, op, invert, rm, rn, rd))
  {
    hide *;
    LogicalRegWordDecodes(sf, op, invert, rm, rn, rd);
    (Flag(sf) << 31) | (op << 29) | (0x5 << 25) | (Flag(invert) << 21) | (rm << 16) | (rn << 5) | rd
  }

  lemma AddSubRegWordDecodes(sf: bool, sub: bool, flags: bool, rm: bv32, rn: bv32, rd: bv32)
    requires rm <= 31 && rn <= 31 && rd <= 31
    ensures var w := (Flag(sf) << 31) | (Flag(flags) << 29) | ((if sub then 0x258 else 0x058) << 21) | (rm << 16)
            | (rn << 5) | rd;
            Decode(w) == Some(AddSubReg(sf, sub, flags, rm, rn, rd))
  {}

  function AddSubRegWord(sf: bool, sub: bool, flags: bool, rm: bv32, rn: bv32, rd: bv32): (w: bv32)
    requires rm <= 31 && rn <= 31 && rd <= 31
    ensures Decode(w) == Some(AddSubReg(sf, sub, flags, rm, rn, rd))
  {
    hide *;
    AddSubRegWordDecodes(sf, sub, flags, rm, rn, rd);
    (Flag(sf) << 31) | (Flag(flags) << 29) | ((if sub then 0x258 else 0x058) << 21) | (rm << 16) | (rn << 5) | rd
  }

  lemma AddressWordDecodes(page: bool, imm: bv32, rd: bv32)
    requires rd <= 31
    ensures var w := (Flag(page) << 31) | ((imm & 3) << 29) | (0x10 << 24) | ((imm & 0x1F_FFFC) << 3) | rd;
            Decode(w) == Some(Adr(page, Imm21(imm), rd))
  {}

  function AddressWord(page: bool, imm: bv32, rd: bv32): (w: bv32)
    requires rd <= 31
    ensures Decode(w) == Some(Adr(page, Imm21(imm), rd))
  {
    hide *;
    AddressWordDecodes(page, imm, rd);
    (Flag(page) << 31) | ((imm & 3) << 29) | (0x10 << 24) | ((imm & 0x1F_FFFC) << 3) | rd
  }

  /** Byte offsets that a pair of registers can carry. */
  predicate IsPairOffset(sf: bool, imm: bv32) {
    if sf then imm <= 511 || 0xFFFF_FE00 <= imm else imm <= 255 || 0xFFFF_FF00 <= imm
  }

  /** The encoded 7-bit distance of a byte offset. */
  function PairImm(offset: bv32): (imm7: bv32)
    ensures imm7 <= 0x7F
  {
    (offset >> 3) & 0x7F
  }

  function WordPairImm(offset: bv32): (imm7: bv32)
    ensures imm7 <= 0x7F
  {
    (offset >> 2) & 0x7F
  }

  /** A 32-bit byte offset as a signed 64-bit one. */
  function SignExtended(offset: bv32): bv64 {
    (offset as bv64) | (if offset >= 0x8000_0000 then 0xFFFF_FFFF_0000_0000 else 0)
  }

  function WordPairDistance(imm7: bv32): bv64 {
    ((imm7 as bv64) << 2) | (if imm7 & 0x40 != 0 then 0xFFFF_FFFF_FFFF_FE00 else 0)
  }

  /** The 7-bit fields give every offset back that the emitter accepts and that is aligned. */
  lemma PairOffsets(offset: bv32)
    ensures IsPairOffset(true, offset) && offset & 7 == 0 ==> PairDistance(PairImm(offset)) == SignExtended(offset)
    ensures IsPairOffset(false, offset) && offset & 3 == 0 ==>
      WordPairDistance(WordPairImm(offset)) == SignExtended(offset)
  {}

  /** Exactly the offsets from -64 to 63 units are accepted. */
  lemma PairOffsetsExactly(offset: bv32)
    ensures IsPairOffset(true, offset) <==>
      !Compare32.IsLess(offset, 0 - 512) && Compare32.IsLess(offset, 512)
    ensures IsPairOffset(false, offset) <==>
      !Compare32.IsLess(offset, 0 - 256) && Compare32.IsLess(offset, 256)
  {}

  function SingleImm(offset: bv32): (imm12: bv32)
    ensures imm12 <= 0xFFF
  {
    (offset >> 3) & 0xFFF
  }

  predicate IsAligned8(offset: bv32) {
    offset & 7 == 0
  }

  function ModeCode(mode: PairMode): bv32 {
    match mode
    case PostIndex => 1
    case SignedOffset => 2
    case PreIndex => 3
  }

  lemma PairPostDecodes(load: bool, imm7: bv32, rt2: bv32, rn: bv32, rt: bv32)
    requires imm7 <= 0x7F && rt2 <= 31 && rn <= 31 && rt <= 31
    ensures var w := (2 << 30) | (5 << 27) | (1 << 23) | (Flag(load) << 22) | (imm7 << 15) | (rt2 << 10) | (rn << 5)
            | rt;
            Decode(w) == Some(LoadStorePair(load, false, PostIndex, imm7, rt2, rn, rt))
  {}

  lemma PairOffsetDecodes(load: bool, imm7: bv32, rt2: bv32, rn: bv32, rt: bv32)
    requires imm7 <= 0x7F && rt2 <= 31 && rn <= 31 && rt <= 31
    ensures var w := (2 << 30) | (5 << 27) | (2 << 23) | (Flag(load) << 22) | (imm7 << 15) | (rt2 << 10) | (rn << 5)
            | rt;
            Decode(w) == Some(LoadStorePair(load, false, SignedOffset, imm7, rt2, rn, rt))
  {}

  lemma PairPreDecodes(load: bool, imm7: bv32, rt2: bv32, rn: bv32, rt: bv32)
    requires imm7 <= 0x7F && rt2 <= 31 && rn <= 31 && rt <= 31
    ensures var w := (2 << 30) | (5 << 27) | (3 << 23) | (Flag(load) << 22) | (imm7 << 15) | (rt2 << 10) | (rn << 5)
            | rt;
            Decode(w) == Some(LoadStorePair(load, false, PreIndex, imm7, rt2, rn, rt))
  {}

  lemma PairWordDecodes(load: bool, mode: PairMode, imm7: bv32, rt2: bv32, rn: bv32, rt: bv32)
    requires imm7 <= 0x7F && rt2 <= 31 && rn <= 31 && rt <= 31
    ensures var w := (2 << 30) | (5 << 27) | (ModeCode(mode) << 23) | (Flag(load) << 22) | (imm7 << 15) | (rt2 << 10)
            | (rn << 5) | rt;
            Decode(w) == Some(LoadStorePair(load, false, mode, imm7, rt2, rn, rt))
  {
    hide Decode;
    match mode
    case PostIndex => PairPostDecodes(load, imm7, rt2, rn, rt);
    case SignedOffset => PairOffsetDecodes(load, imm7, rt2, rn, rt);
    case PreIndex => PairPreDecodes(load, imm7, rt2, rn, rt);
  }

  lemma WordPairPostDecodes(load: bool, imm7: bv32, rt2: bv32, rn: bv32, rt: bv32)
    requires imm7 <= 0x7F && rt2 <= 31 && rn <= 31 && rt <= 31
    ensures var w := (5 << 27) | (1 << 23) | (Flag(load) << 22) | (imm7 << 15) | (rt2 << 10) | (rn << 5) | rt;
            Decode(w) == Some(LoadStoreWordPair(load, PostIndex, imm7, rt2, rn, rt))
  {}

  lemma WordPairOffsetDecodes(load: bool, imm7: bv32, rt2: bv32, rn: bv32, rt: bv32)
    requires imm7 <= 0x7F && rt2 <= 31 && rn <= 31 && rt <= 31
    ensures var w := (5 << 27) | (2 << 23) | (Flag(load) << 22) | (imm7 << 15) | (rt2 << 10) | (rn << 5) | rt;
            Decode(w) == Some(LoadStoreWordPair(load, SignedOffset, imm7, rt2, rn, rt))
  {}

  lemma WordPairPreDecodes(load: bool, imm7: bv32, rt2: bv32, rn: bv32, rt: bv32)
    requires imm7 <= 0x7F && rt2 <= 31 && rn <= 31 && rt <= 31
    ensures var w := (5 << 27) | (3 << 23) | (Flag(load) << 22) | (imm7 << 15) | (rt2 << 10) | (rn << 5) | rt;
            Decode(w) == Some(LoadStoreWordPair(load, PreIndex, imm7, rt2, rn, rt))
  {}

  lemma WordPairDecodes(load: bool, mode: PairMode, imm7: bv32, rt2: bv32, rn: bv32, rt: bv32)
    requires imm7 <= 0x7F && rt2 <= 31 && rn <= 31 && rt <= 31
    ensures var w := (5 << 27) | (ModeCode(mode) << 23) | (Flag(load) << 22) | (imm7 << 15) | (rt2 << 10) | (rn << 5)
            | rt;
            Decode(w) == Some(LoadStoreWordPair(load, mode, imm7, rt2, rn, rt))
  {
    hide Decode;
    match mode
    case PostIndex => WordPairPostDecodes(load, imm7, rt2, rn, rt);
    case SignedOffset => WordPairOffsetDecodes(load, imm7, rt2, rn, rt);
    case PreIndex => WordPairPreDecodes(load, imm7, rt2, rn, rt);
  }

  /** What a pair of X registers, or of W registers, is loaded or stored with. */
  function PairInstr(sf: bool, load: bool, mode: PairMode, offset: bv32, rt2: bv32, rn: bv32, rt: bv32): Instr {
    if sf then LoadStorePair(load, false, mode, PairImm(offset), rt2, rn, rt)
    else LoadStoreWordPair(load, mode, WordPairImm(offset), rt2, rn, rt)
  }

  lemma PairInstrIs(load: bool, mode: PairMode, offset: bv32, rt2: bv32, rn: bv32, rt: bv32)
    ensures PairInstr(true, load, mode, offset, rt2, rn, rt)
         == LoadStorePair(load, false, mode, PairImm(offset), rt2, rn, rt)
  {}

  function LongPairWord(load: bool, mode: PairMode, imm7: bv32, rt2: bv32, rn: bv32, rt: bv32): (w: bv32)
    requires imm7 <= 0x7F && rt2 <= 31 && rn <= 31 && rt <= 31
    ensures Decode(w) == Some(LoadStorePair(load, false, mode, imm7, rt2, rn, rt))
  {
    hide *;
    PairWordDecodes(load, mode, imm7, rt2, rn, rt);
    (2 << 30) | (5 << 27) | (ModeCode(mode) << 23) | (Flag(load) << 22) | (imm7 << 15) | (rt2 << 10) | (rn << 5) | rt
  }

  function ShortPairWord(load: bool, mode: PairMode, imm7: bv32, rt2: bv32, rn: bv32, rt: bv32): (w: bv32)
    requires imm7 <= 0x7F && rt2 <= 31 && rn <= 31 && rt <= 31
    ensures Decode(w) == Some(LoadStoreWordPair(load, mode, imm7, rt2, rn, rt))
  {
    hide *;
    WordPairDecodes(load, mode, imm7, rt2, rn, rt);
    (5 << 27) | (ModeCode(mode) << 23) | (Flag(load) << 22) | (imm7 << 15) | (rt2 << 10) | (rn << 5) | rt
  }

  function PairWord(sf: bool, load: bool, mode: PairMode, offset: bv32, rt2: bv32, rn: bv32, rt: bv32): (w: bv32)
    requires rt2 <= 31 && rn <= 31 && rt <= 31
    ensures Decode(w) == Some(PairInstr(sf, load, mode, offset, rt2, rn, rt))
  {
    hide Decode, PairImm, WordPairImm, LongPairWord, ShortPairWord;
    if sf then LongPairWord(load, mode, PairImm(offset), rt2, rn, rt)
    else ShortPairWord(load, mode, WordPairImm(offset), rt2, rn, rt)
  }

  lemma FloatPairWordDecodes(load: bool, imm7: bv32, rt2: bv32, rn: bv32, rt: bv32)
    requires imm7 <= 0x7F && rt2 <= 31 && rn <= 31 && rt <= 31
    ensures var w := (1 << 30) | (0xB << 26) | (2 << 23) | (Flag(load) << 22) | (imm7 << 15) | (rt2 << 10)
            | (rn << 5) | rt;
            Decode(w) == Some(LoadStorePair(load, true, SignedOffset, imm7, rt2, rn, rt))
  {}

  function FloatPairWord(load: bool, imm7: bv32, rt2: bv32, rn: bv32, rt: bv32): (w: bv32)
    requires imm7 <= 0x7F && rt2 <= 31 && rn <= 31 && rt <= 31
    ensures Decode(w) == Some(LoadStorePair(load, true, SignedOffset, imm7, rt2, rn, rt))
  {
    hide *;
    FloatPairWordDecodes(load, imm7, rt2, rn, rt);
    (1 << 30) | (0xB << 26) | (2 << 23) | (Flag(load) << 22) | (imm7 << 15) | (rt2 << 10) | (rn << 5) | rt
  }

  lemma LoadStoreWordDecodes(load: bool, imm12: bv32, rn: bv32, rt: bv32)
    requires imm12 <= 0xFFF && rn <= 31 && rt <= 31
    ensures var w := (1 << 30) | (0x3E4 << 22) | (Flag(load) << 22) | (imm12 << 10) | (rn << 5) | rt;
            Decode(w) == Some(LoadStore(load, false, imm12, rn, rt))
  {}

  function LoadStoreWord(load: bool, imm12: bv32, rn: bv32, rt: bv32): (w: bv32)
    requires imm12 <= 0xFFF && rn <= 31 && rt <= 31
    ensures Decode(w) == Some(LoadStore(load, false, imm12, rn, rt))
  {
    hide *;
    LoadStoreWordDecodes(load, imm12, rn, rt);
    (1 << 30) | (0x3E4 << 22) | (Flag(load) << 22) | (imm12 << 10) | (rn << 5) | rt
  }

  lemma FloatLoadStoreWordDecodes(load: bool, imm12: bv32, rn: bv32, rt: bv32)
    requires imm12 <= 0xFFF && rn <= 31 && rt <= 31
    ensures var w := (3 << 30) | (0xF << 26) | (1 << 24) | (Flag(load) << 22) | (imm12 << 10) | (rn << 5) | rt;
            Decode(w) == Some(LoadStore(load, true, imm12, rn, rt))
  {}

  function FloatLoadStoreWord(load: bool, imm12: bv32, rn: bv32, rt: bv32): (w: bv32)
    requires imm12 <= 0xFFF && rn <= 31 && rt <= 31
    ensures Decode(w) == Some(LoadStore(load, true, imm12, rn, rt))
  {
    hide *;
    FloatLoadStoreWordDecodes(load, imm12, rn, rt);
    (3 << 30) | (0xF << 26) | (1 << 24) | (Flag(load) << 22) | (imm12 << 10) | (rn << 5) | rt
  }

  lemma FmovImmWordDecodes(imm8: bv32, rd: bv32)
    requires imm8 <= 0xFF && rd <= 31
    ensures var w := (0xF1 << 21) | (imm8 << 13) | (1 << 12) | rd;
            Decode(w) == Some(FmovImm(imm8, rd))
  {}

  function FmovImmWord(imm8: bv32, rd: bv32): (w: bv32)
    requires imm8 <= 0xFF && rd <= 31
    ensures Decode(w) == Some(FmovImm(imm8, rd))
  {
    hide *;
    FmovImmWordDecodes(imm8, rd);
    (0xF1 << 21) | (imm8 << 13) | (1 << 12) | rd
  }

  lemma FmovFromGprWordDecodes(rn: bv32, rd: bv32)
    requires rn <= 31 && rd <= 31
    ensures var w := (0x1E2 << 20) | (7 << 16) | (rn << 5) | rd;
            Decode(w) == Some(FmovFromGpr(rn, rd))
  {}

  function FmovFromGprWord(rn: bv32, rd: bv32): (w: bv32)
    requires rn <= 31 && rd <= 31
    ensures Decode(w) == Some(FmovFromGpr(rn, rd))
  {
    hide *;
    FmovFromGprWordDecodes(rn, rd);
    (0x1E2 << 20) | (7 << 16) | (rn << 5) | rd
  }

  lemma FnegWordDecodes(rn: bv32, rd: bv32)
    requires rn <= 31 && rd <= 31
    ensures var w := (0xF1 << 21) | (2 << 15) | (1 << 14) | (rn << 5) | rd;
            Decode(w) == Some(Fneg(rn, rd))
  {}

  function FnegWord(rn: bv32, rd: bv32): (w: bv32)
    requires rn <= 31 && rd <= 31
    ensures Decode(w) == Some(Fneg(rn, rd))
  {
    hide *;
    FnegWordDecodes(rn, rd);
    (0xF1 << 21) | (2 << 15) | (1 << 14) | (rn << 5) | rd
  }
}
