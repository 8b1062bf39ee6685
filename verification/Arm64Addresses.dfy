/** PC-relative constants: the arithmetic behind ADR and ADRP in MOVI2R. */
module Arm64Addresses {
  import opened Arm64Machine
  import opened Words
  import Compare64

  /** The absolute value as a two's complement word: -2^63 is its own. */
  function Abs64(x: bv64): bv64 {
    if Compare64.IsLess(x, 0) then 0 - x else x
  }

  predicate IsNear(offset: bv64) {
    Compare64.IsLess(Abs64(offset), 0x7FFF_FFFF)
  }

  predicate IsPageMultiple(offset: bv64) {
    Abs64(offset) & 0xFFF == 0
  }

  predicate IsWithin1MB(offset: bv64) {
    !Compare64.IsLess(offset, 0xFFFF_FFFF_FFF0_0001) && !Compare64.IsLess(0xFFFFF, offset)
  }

  /** The low half of x as a 32-bit signed number, shifted right arithmetically by 12. */
  function PageImm(x: bv64): bv32 {
    var y := (x & 0xFFFF_FFFF) as bv32;
    (y >> 12) | (if y & 0x8000_0000 != 0 then 0xFFF0_0000 else 0)
  }

  function ByteImm(x: bv64): bv32 {
    (x & 0xFFFF_FFFF) as bv32
  }

  const FARTHEST: bv64 := 0x8000_0000_0000_0000

  /** Offsets that are 32-bit signed numbers. */
  predicate FitsWord(offset: bv64) {
    offset <= 0x7FFF_FFFF || 0xFFFF_FFFF_8000_0000 <= offset
  }

  /** Two guards by signed distances; the absolute value of -2^63 overflows. */
  lemma AddressForms(offset: bv64)
    ensures IsNear(offset) <==>
      offset == FARTHEST
      || (Compare64.IsLess(0 - 0x7FFF_FFFF, offset) && Compare64.IsLess(offset, 0x7FFF_FFFF))
    ensures IsWithin1MB(offset) <==>
      Compare64.IsLess(0 - 0x10_0000, offset) && Compare64.IsLess(offset, 0x10_0000)
  {}

  lemma NearFits(offset: bv64)
    requires IsNear(offset) && offset != FARTHEST
    ensures FitsWord(offset)
  {}

  lemma PageMultipleBits(offset: bv64)
    ensures IsPageMultiple(offset) <==> offset & 0xFFF == 0
  {}

  lemma PagesForward(offset: bv64)
    requires offset <= 0x7FFF_FFFF && offset & 0xFFF == 0
    ensures Alike(Pages(Imm21(PageImm(offset))), offset)
  {}

  lemma PagesBackward(offset: bv64)
    requires 0xFFFF_FFFF_8000_0000 <= offset && offset & 0xFFF == 0
    ensures Alike(Pages(Imm21(PageImm(offset))), offset)
  {}

  lemma PageFits(offset: bv64)
    requires FitsWord(offset)
    ensures FitsWord(PageOf(offset)) && PageOf(offset) & 0xFFF == 0
  {}

  lemma FarthestPages()
    ensures IsNear(FARTHEST) && IsPageMultiple(FARTHEST)
    ensures Pages(Imm21(PageImm(FARTHEST))) == 0
  {}

  lemma Within1MBRange(offset: bv64)
    requires IsWithin1MB(offset)
    ensures offset <= 0xFFFFF || 0xFFFF_FFFF_FFF0_0001 <= offset
  {}

  lemma BytesForward(offset: bv64)
    requires offset <= 0xFFFFF
    ensures Alike(Offset21(Imm21(ByteImm(offset))), offset)
  {}

  lemma BytesBackward(offset: bv64)
    requires 0xFFFF_FFFF_FFF0_0001 <= offset
    ensures Alike(Offset21(Imm21(ByteImm(offset))), offset)
  {}

  lemma LowOfOffset(target: bv64, page: bv64)
    requires page & 0xFFF == 0
    ensures (target - page) & 0xFFF == target & 0xFFF
  {}

  lemma PageAndLow(offset: bv64)
    ensures Plus(PageOf(offset), And(offset, 0xFFF)) == offset
  {}

  // ----- The three address forms -----

  predicate LowClear(x: bv64) {
    x & 0xFFF == 0
  }

  lemma LowClearFacts(offset: bv64, pc: bv64)
    ensures IsPageMultiple(offset) <==> LowClear(offset)
    ensures LowClear(PageOf(pc)) && LowClear(PageOf(offset))
  {
    PageMultipleBits(offset);
  }

  lemma PagesOf(offset: bv64)
    requires FitsWord(offset) && LowClear(offset)
    ensures Pages(Imm21(PageImm(offset))) == offset
  {
    hide Pages, Imm21, PageImm, Alike;
    if offset <= 0x7FFF_FFFF {
      PagesForward(offset);
    } else {
      PagesBackward(offset);
    }
    Same(Pages(Imm21(PageImm(offset))), offset);
  }

  lemma BytesOf(offset: bv64)
    requires IsWithin1MB(offset)
    ensures Offset21(Imm21(ByteImm(offset))) == offset
  {
    hide Offset21, Imm21, ByteImm, Alike, IsWithin1MB;
    Within1MBRange(offset);
    if offset <= 0xFFFFF {
      BytesForward(offset);
    } else {
      BytesBackward(offset);
    }
    Same(Offset21(Imm21(ByteImm(offset))), offset);
  }

  lemma PcRelativeIs(page: bool, imm21: bv32, pc: bv64)
    ensures PcRelative(page, imm21, pc) == if page then Plus(PageOf(pc), Pages(imm21)) else Plus(pc, Offset21(imm21))
  {
    hide Plus, PageOf, Pages, Offset21;
  }

  lemma AdrReaches(target: bv64, pc: bv64, offset: bv64)
    requires offset == Minus(target, pc) && IsWithin1MB(offset)
    ensures PcRelative(false, Imm21(ByteImm(offset)), pc) == target
  {
    hide *;
    MinusPlusBack(target, pc);
    BytesOf(offset);
    PcRelativeIs(false, Imm21(ByteImm(offset)), pc);
  }

  lemma AdrpReaches(target: bv64, pc: bv64, page: bv64, offset: bv64)
    requires page == PageOf(pc) && offset == Minus(target, page) && IsNear(offset) && IsPageMultiple(offset)
             && offset != FARTHEST
    ensures PcRelative(true, Imm21(PageImm(offset)), pc) == target
  {
    hide *;
    MinusPlusBack(target, page);
    LowClearFacts(offset, pc);
    NearFits(offset);
    PagesOf(offset);
    PcRelativeIs(true, Imm21(PageImm(offset)), pc);
  }

  lemma FarthestMisses(target: bv64, page: bv64)
    requires Minus(target, page) == FARTHEST
    ensures target != page
  {}

  /** At the one offset whose absolute value overflows, ADRP gives the page of pc itself. */
  lemma AdrpMisses(target: bv64, pc: bv64, page: bv64, offset: bv64)
    requires page == PageOf(pc) && offset == Minus(target, page) && offset == FARTHEST
    ensures IsNear(offset) && IsPageMultiple(offset)
    ensures PcRelative(true, Imm21(PageImm(offset)), pc) == page && page != target
  {
    hide *;
    FarthestPages();
    FarthestMisses(target, page);
    PlusZero(page);
    PcRelativeIs(true, Imm21(PageImm(offset)), pc);
  }

  lemma LowOfOffsetIs(target: bv64, page: bv64, offset: bv64)
    requires LowClear(page) && offset == Minus(target, page)
    ensures And(offset, 0xFFF) == And(target, 0xFFF)
  {
    LowOfOffset(target, page);
  }

  lemma AdrpAddReaches(target: bv64, pc: bv64, page: bv64, offset: bv64, down: bv64, low: bv64)
    requires page == PageOf(pc) && offset == Minus(target, page) && IsNear(offset) && !IsPageMultiple(offset)
    requires down == PageOf(offset) && low == And(target, 0xFFF)
    ensures Plus(PcRelative(true, Imm21(PageImm(down)), pc), low) == target
  {
    hide *;
    MinusPlusBack(target, page);
    LowClearFacts(offset, pc);
    FarthestPages();
    NearFits(offset);
    PageFitsNamed(offset, pc);
    PagesOf(down);
    PcRelativeIs(true, Imm21(PageImm(down)), pc);
    LowOfOffsetIs(target, page, offset);
    PageAndLow(offset);
    PlusAssociates(page, down, low);
  }

  lemma PageFitsNamed(offset: bv64, pc: bv64)
    requires FitsWord(offset)
    ensures FitsWord(PageOf(offset)) && LowClear(PageOf(offset)) && LowClear(PageOf(pc))
  {
    PageFits(offset);
  }
}
