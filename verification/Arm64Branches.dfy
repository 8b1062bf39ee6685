/** ARM64 branch words: directly emitted, and patched over a placeholder. */
module Arm64Branches {
  import opened Words
  import opened Basics
  import opened Arm64Machine
  import opened Arm64Encode
  import Compare64
  import Words32

  // ----- Distances -----

  /** Arithmetic shift right by 2 of a signed word. */
  function Quarter(distance: bv64): bv64 {
    (distance >> 2) | (if distance & 0x8000_0000_0000_0000 != 0 then 0xC000_0000_0000_0000 else 0)
  }

  predicate IsInRangeImm26(d: bv64) {
    d <= 0x1FF_FFFF || 0xFFFF_FFFF_FE00_0000 <= d
  }

  predicate IsInRangeImm19(d: bv64) {
    d <= 0x3_FFFF || 0xFFFF_FFFF_FFFC_0000 <= d
  }

  predicate IsInRangeImm14(d: bv64) {
    d <= 0x1FFF || 0xFFFF_FFFF_FFFF_E000 <= d
  }

  function MaskImm26(d: bv64): bv32 {
    (d & 0x3FF_FFFF) as bv32
  }

  function MaskImm19(d: bv64): bv32 {
    (d & 0x7_FFFF) as bv32
  }

  function MaskImm14(d: bv64): bv32 {
    (d & 0x3FFF) as bv32
  }

  predicate IsWordMultiple(distance: bv64) {
    distance & 3 == 0
  }

  lemma Forward26(distance: bv64)
    requires IsWordMultiple(distance) && distance <= 0x7FF_FFFC
    ensures Alike(Offset26(MaskImm26(Quarter(distance))), distance)
  {}

  lemma Backward26(distance: bv64)
    requires IsWordMultiple(distance) && 0xFFFF_FFFF_F800_0000 <= distance
    ensures Alike(Offset26(MaskImm26(Quarter(distance))), distance)
  {}

  lemma Range26(distance: bv64)
    requires IsInRangeImm26(Quarter(distance)) && IsWordMultiple(distance)
    ensures distance <= 0x7FF_FFFC || 0xFFFF_FFFF_F800_0000 <= distance
  {}

  lemma Forward19(distance: bv64)
    requires IsWordMultiple(distance) && distance <= 0xF_FFFC
    ensures Alike(Offset19(MaskImm19(Quarter(distance))), distance)
  {}

  lemma Backward19(distance: bv64)
    requires IsWordMultiple(distance) && 0xFFFF_FFFF_FFF0_0000 <= distance
    ensures Alike(Offset19(MaskImm19(Quarter(distance))), distance)
  {}

  lemma Range19(distance: bv64)
    requires IsInRangeImm19(Quarter(distance)) && IsWordMultiple(distance)
    ensures distance <= 0xF_FFFC || 0xFFFF_FFFF_FFF0_0000 <= distance
  {}

  lemma Forward14(distance: bv64)
    requires IsWordMultiple(distance) && distance <= 0x7FFC
    ensures Alike(Offset14(MaskImm14(Quarter(distance))), distance)
  {}

  lemma Backward14(distance: bv64)
    requires IsWordMultiple(distance) && 0xFFFF_FFFF_FFFF_8000 <= distance
    ensures Alike(Offset14(MaskImm14(Quarter(distance))), distance)
  {}

  lemma Range14(distance: bv64)
    requires IsInRangeImm14(Quarter(distance)) && IsWordMultiple(distance)
    ensures distance <= 0x7FFC || 0xFFFF_FFFF_FFFF_8000 <= distance
  {}

  // ----- Words of direct branches -----

  function CompareBranchWord(sf: bool, nonzero: bool, imm19: bv32, rt: bv32): bv32 {
    (Flag(sf) << 31) | (0x34 << 24) | (Flag(nonzero) << 24) | ((imm19 << 5) & 0xFF_FFE0) | rt
  }

  function CondBranchWord(cond: bv32, imm19: bv32): bv32 {
    (0x54 << 24) | (imm19 << 5) | cond
  }

  /** A bit number of 32 or more runs over into the bit that tells TBNZ from TBZ. */
  function TestBranchWord(sf: bool, nonzero: bool, bit: bv32, imm14: bv32, rt: bv32): bv32 {
    (Flag(sf) << 31) | (0x36 << 24) | (Flag(nonzero) << 24) | (bit << 19) | ((imm14 << 5) & 0x7_FFE0) | rt
  }

  function UnconditionalWord(link: bool, imm26: bv32): bv32 {
    (Flag(link) << 31) | (0x5 << 26) | (imm26 & 0x3FF_FFFF)
  }

  lemma CompareBranchDecodes(sf: bool, nonzero: bool, imm19: bv32, rt: bv32)
    requires imm19 <= 0x7_FFFF && rt <= 31
    ensures var w := CompareBranchWord(sf, nonzero, imm19, rt); Decode(w) == Some(CompareBranch(sf, nonzero, imm19, rt))
  {}

  lemma CondBranchDecodes(cond: bv32, imm19: bv32)
    requires imm19 <= 0x7_FFFF && cond <= 15
    ensures var w := CondBranchWord(cond, imm19); Decode(w) == Some(BranchCond(cond, imm19))
  {}

  lemma UnconditionalDecodes(link: bool, imm26: bv32)
    requires imm26 <= 0x3FF_FFFF
    ensures var w := UnconditionalWord(link, imm26); Decode(w) == Some(Branch(link, imm26))
  {}

  lemma TestBranchFields(sf: bool, nonzero: bool, bit: bv32, imm14: bv32, rt: bv32)
    requires imm14 <= 0x3FFF && rt <= 31 && bit <= 63
    ensures var w := (Flag(sf) << 31) | (0x36 << 24) | (Flag(nonzero) << 24) | (bit << 19)
            | ((imm14 << 5) & 0x7_FFE0) | rt;
            Decode(w) == Some(TestBranch((Flag(sf) << 5) | (bit & 0x1F), nonzero || bit >= 32, imm14, rt))
  {}

  /** The bit number the decoder sees. */
  function TestedBit(sf: bool, bit: bv32): bv32 {
    (Flag(sf) << 5) | (bit & 0x1F)
  }

  lemma TestBranchDecodes(sf: bool, nonzero: bool, bit: bv32, imm14: bv32, rt: bv32)
    requires imm14 <= 0x3FFF && rt <= 31 && bit <= 63
    ensures Decode(TestBranchWord(sf, nonzero, bit, imm14, rt))
         == Some(TestBranch(TestedBit(sf, bit), nonzero || bit >= 32, imm14, rt))
  {
    hide Decode, Flag;
    TestBranchFields(sf, nonzero, bit, imm14, rt);
  }

  // ----- Words of patched branches -----

  function PatchedCompareWord(sf: bool, nonzero: bool, imm19: bv32, rt: bv32): bv32 {
    (Flag(sf) << 31) | (0x1A << 25) | (Flag(nonzero) << 24) | (imm19 << 5) | rt
  }

  function PatchedCondWord(cond: bv32, imm19: bv32): bv32 {
    (0x2A << 25) | (imm19 << 5) | cond
  }

  function PatchedTestWord(nonzero: bool, bit: bv32, imm14: bv32, rt: bv32): bv32 {
    ((bit & 0x20) << 26) | (0x1B << 25) | (Flag(nonzero) << 24) | ((bit & 0x1F) << 19) | (imm14 << 5) | rt
  }

  function PatchedWord(link: bool, imm26: bv32): bv32 {
    if link then (0x25 << 26) | imm26 else (0x5 << 26) | imm26
  }

  lemma PatchedCompareIsDirect(sf: bool, nonzero: bool, imm19: bv32, rt: bv32)
    requires imm19 <= 0x7_FFFF
    ensures PatchedCompareWord(sf, nonzero, imm19, rt) == CompareBranchWord(sf, nonzero, imm19, rt)
  {}

  lemma PatchedCondIsDirect(cond: bv32, imm19: bv32)
    ensures PatchedCondWord(cond, imm19) == CondBranchWord(cond, imm19)
  {}

  lemma PatchedJumpIsDirect(imm26: bv32)
    requires imm26 <= 0x3FF_FFFF
    ensures Words32.Alike(PatchedWord(false, imm26), UnconditionalWord(false, imm26))
  {}

  lemma PatchedLinkIsDirect(imm26: bv32)
    requires imm26 <= 0x3FF_FFFF
    ensures Words32.Alike(PatchedWord(true, imm26), UnconditionalWord(true, imm26))
  {}

  lemma BitParts(bit: bv32)
    requires bit <= 63
    ensures bit == (bit & 0x20) | (bit & 0x1F)
  {}

  lemma PatchedTestParts(nonzero: bool, bit: bv32, imm14: bv32, rt: bv32)
    requires imm14 <= 0x3FFF && rt <= 31 && bit <= 63
    ensures var w := ((bit & 0x20) << 26) | (0x1B << 25) | (Flag(nonzero) << 24) | ((bit & 0x1F) << 19)
            | (imm14 << 5) | rt;
            Decode(w) == Some(TestBranch((bit & 0x20) | (bit & 0x1F), nonzero, imm14, rt))
  {}

  // ----- Branches by kind -----

  datatype BranchKind = Compare(nonzero: bool) | Conditional | Test(nonzero: bool) | Unconditional(link: bool)

  /** A placeholder at address ptr, the slot-th word of the buffer. */
  datatype FixupBranch = FixupBranch(ptr: bv64, slot: nat, kind: BranchKind, reg: bv32, cond: bv32, bit: bv32)

  predicate InReach(kind: BranchKind, distance: bv64) {
    match kind
    case Compare(_) => IsInRangeImm19(Quarter(distance))
    case Conditional => IsInRangeImm19(Quarter(distance))
    case Test(_) => IsInRangeImm14(Quarter(distance))
    case Unconditional(_) => IsInRangeImm26(Quarter(distance))
  }

  /** How far a branch goes, in bytes: up to this distance backward, and less than it forward. */
  function Span(kind: BranchKind): bv64 {
    match kind
    case Compare(_) => 0x10_0000
    case Conditional => 0x10_0000
    case Test(_) => 0x8000
    case Unconditional(_) => 0x800_0000
  }

  predicate Spans(kind: BranchKind, distance: bv64) {
    !Compare64.IsLess(distance, 0 - Span(kind)) && Compare64.IsLess(distance, Span(kind))
  }

  lemma InReach26(distance: bv64)
    ensures IsInRangeImm26(Quarter(distance))
       <==> !Compare64.IsLess(distance, 0xFFFF_FFFF_F800_0000) && Compare64.IsLess(distance, 0x800_0000)
  {}

  lemma InReach19(distance: bv64)
    ensures IsInRangeImm19(Quarter(distance))
       <==> !Compare64.IsLess(distance, 0xFFFF_FFFF_FFF0_0000) && Compare64.IsLess(distance, 0x10_0000)
  {}

  lemma InReach14(distance: bv64)
    ensures IsInRangeImm14(Quarter(distance))
       <==> !Compare64.IsLess(distance, 0xFFFF_FFFF_FFFF_8000) && Compare64.IsLess(distance, 0x8000)
  {}

  /** The check on the shifted distance is the one on signed byte distances. */
  lemma InReachExactly(kind: BranchKind, distance: bv64)
    ensures InReach(kind, distance) <==> Spans(kind, distance)
  {
    hide IsInRangeImm26, IsInRangeImm19, IsInRangeImm14, Quarter, Compare64.IsLess;
    match kind
    case Compare(_) => InReach19(distance);
    case Conditional => InReach19(distance);
    case Test(_) => InReach14(distance);
    case Unconditional(_) => InReach26(distance);
  }

  lemma IsWordMultipleIs(distance: bv64)
    ensures IsWordMultiple(distance) <==> distance & 3 == 0
  {}

  /** The instruction a branch is meant to be. */
  function Meant(b: FixupBranch, distance: bv64): Instr {
    match b.kind
    case Compare(nonzero) => CompareBranch(Is64Bit(b.reg), nonzero, MaskImm19(Quarter(distance)), DecodeReg(b.reg))
    case Conditional => BranchCond(b.cond, MaskImm19(Quarter(distance)))
    case Test(nonzero) => TestBranch(b.bit, nonzero, MaskImm14(Quarter(distance)), DecodeReg(b.reg))
    case Unconditional(link) => Branch(link, MaskImm26(Quarter(distance)))
  }

  function DirectWord(b: FixupBranch, distance: bv64): bv32 {
    match b.kind
    case Compare(nonzero) => CompareBranchWord(Is64Bit(b.reg), nonzero, MaskImm19(Quarter(distance)), DecodeReg(b.reg))
    case Conditional => CondBranchWord(b.cond, MaskImm19(Quarter(distance)))
    case Test(nonzero) => TestBranchWord(Is64Bit(b.reg), nonzero, b.bit, MaskImm14(Quarter(distance)), DecodeReg(b.reg))
    case Unconditional(link) => UnconditionalWord(link, MaskImm26(Quarter(distance)))
  }

  function PatchWord(b: FixupBranch, distance: bv64): bv32 {
    match b.kind
    case Compare(nonzero) => PatchedCompareWord(Is64Bit(b.reg), nonzero, MaskImm19(Quarter(distance)), DecodeReg(b.reg))
    case Conditional => PatchedCondWord(b.cond, MaskImm19(Quarter(distance)))
    case Test(nonzero) => PatchedTestWord(nonzero, b.bit, MaskImm14(Quarter(distance)), DecodeReg(b.reg))
    case Unconditional(link) => PatchedWord(link, MaskImm26(Quarter(distance)))
  }

  predicate HasFields(b: FixupBranch) {
    b.cond <= 15 && b.bit <= 63
  }

  lemma FieldsIn(b: FixupBranch)
    requires b.cond <= 15 && b.bit <= 63
    ensures HasFields(b)
  {}

  lemma FieldRanges(d: bv64)
    ensures MaskImm26(d) <= 0x3FF_FFFF && MaskImm19(d) <= 0x7_FFFF && MaskImm14(d) <= 0x3FFF
  {}

  /** The patched word is the one the direct emitter writes at the same address for the same target. */
  lemma PatchIsDirect(b: FixupBranch, distance: bv64)
    requires !b.kind.Test?
    ensures PatchWord(b, distance) == DirectWord(b, distance)
  {
    hide Quarter, MaskImm26, MaskImm19, MaskImm14, Is64Bit, DecodeReg,
      PatchedCompareWord, PatchedCondWord, PatchedWord, CompareBranchWord, CondBranchWord, UnconditionalWord;
    FieldRanges(Quarter(distance));
    match b.kind
    case Compare(nonzero) => PatchedCompareIsDirect(Is64Bit(b.reg), nonzero, MaskImm19(Quarter(distance)),
                                                    DecodeReg(b.reg));
    case Conditional => PatchedCondIsDirect(b.cond, MaskImm19(Quarter(distance)));
    case Unconditional(link) => UnconditionalIsDirect(link, MaskImm26(Quarter(distance)));
  }

  lemma UnconditionalIsDirect(link: bool, imm26: bv32)
    requires imm26 <= 0x3FF_FFFF
    ensures PatchedWord(link, imm26) == UnconditionalWord(link, imm26)
  {
    hide PatchedWord, UnconditionalWord, Words32.Alike;
    PatchedJumpIsDirect(imm26);
    PatchedLinkIsDirect(imm26);
    Words32.Same(PatchedWord(link, imm26), UnconditionalWord(link, imm26));
  }

  lemma PatchedTestDecodes(nonzero: bool, bit: bv32, imm14: bv32, rt: bv32)
    requires imm14 <= 0x3FFF && rt <= 31 && bit <= 63
    ensures Decode(PatchedTestWord(nonzero, bit, imm14, rt)) == Some(TestBranch(bit, nonzero, imm14, rt))
  {
    hide Decode, Flag;
    PatchedTestParts(nonzero, bit, imm14, rt);
    BitParts(bit);
  }

  /** The patched word is the branch that was meant. */
  lemma PatchDecodes(b: FixupBranch, distance: bv64)
    requires HasFields(b)
    ensures Decode(PatchWord(b, distance)) == Some(Meant(b, distance))
  {
    hide Quarter, MaskImm26, MaskImm19, MaskImm14, Is64Bit, DecodeReg, Decode, DirectWord,
      PatchedCompareWord, PatchedCondWord, PatchedWord, PatchedTestWord, CompareBranchWord, CondBranchWord,
        UnconditionalWord;
    FieldRanges(Quarter(distance));
    match b.kind
    case Compare(nonzero) =>
      PatchedCompareIsDirect(Is64Bit(b.reg), nonzero, MaskImm19(Quarter(distance)), DecodeReg(b.reg));
      CompareBranchDecodes(Is64Bit(b.reg), nonzero, MaskImm19(Quarter(distance)), DecodeReg(b.reg));
    case Conditional =>
      PatchedCondIsDirect(b.cond, MaskImm19(Quarter(distance)));
      CondBranchDecodes(b.cond, MaskImm19(Quarter(distance)));
    case Test(nonzero) =>
      PatchedTestDecodes(nonzero, b.bit, MaskImm14(Quarter(distance)), DecodeReg(b.reg));
    case Unconditional(link) =>
      UnconditionalIsDirect(link, MaskImm26(Quarter(distance)));
      UnconditionalDecodes(link, MaskImm26(Quarter(distance)));
  }

  lemma Reach26(distance: bv64)
    requires IsWordMultiple(distance) && IsInRangeImm26(Quarter(distance))
    ensures Offset26(MaskImm26(Quarter(distance))) == distance
  {
    hide Offset26, MaskImm26, Quarter, Alike, IsWordMultiple, IsInRangeImm26;
    Range26(distance);
    if distance <= 0x7FF_FFFC { Forward26(distance); } else { Backward26(distance); }
    Same(Offset26(MaskImm26(Quarter(distance))), distance);
  }

  lemma Reach19(distance: bv64)
    requires IsWordMultiple(distance) && IsInRangeImm19(Quarter(distance))
    ensures Offset19(MaskImm19(Quarter(distance))) == distance
  {
    hide Offset19, MaskImm19, Quarter, Alike, IsWordMultiple, IsInRangeImm19;
    Range19(distance);
    if distance <= 0xF_FFFC { Forward19(distance); } else { Backward19(distance); }
    Same(Offset19(MaskImm19(Quarter(distance))), distance);
  }

  lemma Reach14(distance: bv64)
    requires IsWordMultiple(distance) && IsInRangeImm14(Quarter(distance))
    ensures Offset14(MaskImm14(Quarter(distance))) == distance
  {
    hide Offset14, MaskImm14, Quarter, Alike, IsWordMultiple, IsInRangeImm14;
    Range14(distance);
    if distance <= 0x7FFC { Forward14(distance); } else { Backward14(distance); }
    Same(Offset14(MaskImm14(Quarter(distance))), distance);
  }

  /** A branch in reach of a word-aligned target goes there. */
  lemma MeantReaches(b: FixupBranch, target: bv64)
    requires IsWordMultiple(Minus(target, b.ptr)) && InReach(b.kind, Minus(target, b.ptr))
    ensures BranchTarget(Meant(b, Minus(target, b.ptr)), b.ptr) == Some(target)
  {
    hide Quarter, MaskImm26, MaskImm19, MaskImm14, Offset26, Offset19, Offset14, Is64Bit, DecodeReg,
      IsInRangeImm26, IsInRangeImm19, IsInRangeImm14, IsWordMultiple, Minus, Plus;
    var distance := Minus(target, b.ptr);
    MinusPlusBack(target, b.ptr);
    match b.kind
    case Compare(_) => Reach19(distance);
    case Conditional => Reach19(distance);
    case Test(_) => Reach14(distance);
    case Unconditional(_) => Reach26(distance);
  }

  lemma TestFields(sf: bool, bit: bv32)
    requires bit <= 63
    ensures TestedBit(sf, bit) == bit <==> sf == (bit >= 32)
  {}

  /** A directly emitted TBZ or TBNZ tests the bit asked for, the way asked for, exactly under this condition. */
  lemma DirectTestExactly(b: FixupBranch, distance: bv64)
    requires b.kind.Test? && HasFields(b)
    ensures Decode(DirectWord(b, distance)) == Some(Meant(b, distance))
       <==> Is64Bit(b.reg) == (b.bit >= 32) && (b.kind.nonzero || b.bit < 32)
  {
    hide Quarter, MaskImm14, Is64Bit, DecodeReg, Decode, TestBranchWord, TestedBit;
    FieldRanges(Quarter(distance));
    TestBranchDecodes(Is64Bit(b.reg), b.kind.nonzero, b.bit, MaskImm14(Quarter(distance)), DecodeReg(b.reg));
    TestFields(Is64Bit(b.reg), b.bit);
  }

  /** When the directly emitted branch is the one that was meant: always, TBZ and TBNZ aside. */
  predicate DirectIsMeant(b: FixupBranch) {
    !b.kind.Test? || (Is64Bit(b.reg) == (b.bit >= 32) && (b.kind.nonzero || b.bit < 32))
  }

  lemma DirectDecodes(b: FixupBranch, distance: bv64)
    requires HasFields(b)
    ensures Decode(DirectWord(b, distance)) == Some(Meant(b, distance)) <==> DirectIsMeant(b)
  {
    hide *;
    DirectIsMeantIs(b);
    if b.kind.Test? {
      DirectTestExactly(b, distance);
    } else {
      PatchDecodes(b, distance);
      PatchIsDirect(b, distance);
    }
  }

  lemma DirectIsMeantIs(b: FixupBranch)
    ensures DirectIsMeant(b) <==> (!b.kind.Test? || (Is64Bit(b.reg) == (b.bit >= 32) && (b.kind.nonzero || b.bit < 32)))
  {
    hide Is64Bit;
  }

  /** TBZ X0, #0 comes out as a test of bit 32. */
  lemma DirectTestExample(distance: bv64)
    ensures var b := FixupBranch(0, 0, Test(false), 0x20, 0, 0);
            Decode(DirectWord(b, distance)) != Some(Meant(b, distance))
  {
    hide Quarter, MaskImm14, DecodeReg, Decode, TestBranchWord, Meant, DirectWord;
    var b := FixupBranch(0, 0, Test(false), 0x20, 0, 0);
    DirectTestExactly(b, distance);
  }
}
