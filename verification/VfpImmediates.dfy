/** The 8-bit floating-point immediates shared by the ARM instruction sets. */
module VfpImmediates {
  /** The single-precision number of an 8-bit immediate abcdefgh: a, NOT b, bbbbb, cdefgh, zeros. */
  function ExpandFloatImm(imm8: bv32): bv32 {
    ((imm8 & 0x80) << 24) | (if imm8 & 0x40 != 0 then 0x3E00_0000 else 0x4000_0000) | ((imm8 & 0x3F) << 19)
  }

  /** The numbers that have an 8-bit immediate. */
  ghost predicate IsFloatImm(f: bv32) {
    exists imm8: bv32 :: imm8 <= 0xFF && ExpandFloatImm(imm8) == f
  }

  lemma IsFloatImmAt(f: bv32, imm8: bv32)
    requires imm8 <= 0xFF && ExpandFloatImm(imm8) == f
    ensures IsFloatImm(f)
  {
    hide ExpandFloatImm;
  }

  lemma ExpandInjective(a: bv32, b: bv32)
    requires a <= 0xFF && b <= 0xFF && ExpandFloatImm(a) == ExpandFloatImm(b)
    ensures a == b
  {}
}
