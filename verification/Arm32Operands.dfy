/** ARM32 immediate operands: which constants have one, and the searches for it. */
module Arm32Operands {
  import opened VfpImmediates
  import opened Words32
  import opened Arm32Machine

  /** An 8-bit value and a rotation to the right in steps of two bits. */
  datatype Operand2 = Operand2(value: bv32, rotation: bv32)

  function Imm12Mod(op2: Operand2): (imm12: bv32)
    ensures imm12 <= 0xFFF
  {
    ((op2.rotation & 0xF) << 8) | (op2.value & 0xFF)
  }

  function Expanded(op2: Operand2): bv32 {
    ExpandImm(Imm12Mod(op2))
  }

  /** The constants that an immediate operand can carry. */
  ghost predicate IsOperand2(imm: bv32) {
    exists value: bv32, rotation: bv32 :: value <= 0xFF && rotation <= 15 && RotatedByte(value, rotation) == imm
  }

  predicate FitsAt(imm: bv32, i: bv32)
    requires i <= 15
  {
    imm & RotR(0xFF, i << 1) == imm
  }

  function OperandAt(imm: bv32, i: bv32): Operand2
    requires i <= 15
  {
    Operand2(RotL(imm, i << 1) & 0xFF, i)
  }

  lemma OperandExpands(imm: bv32, i: bv32)
    requires i <= 15 && FitsAt(imm, i)
    ensures Alike(Expanded(OperandAt(imm, i)), imm)
  {}

  lemma RotatedFits(value: bv32, i: bv32)
    requires value <= 0xFF && i <= 15
    ensures FitsAt(RotatedByte(value, i), i)
  {}

  lemma ExpandedIs(op2: Operand2)
    requires op2.value <= 0xFF && op2.rotation <= 15
    ensures Expanded(op2) == RotatedByte(op2.value, op2.rotation)
  {}

  lemma OperandFields(imm: bv32, i: bv32)
    requires i <= 15
    ensures OperandAt(imm, i).value <= 0xFF && OperandAt(imm, i).rotation == i
  {}

  lemma FoundAt(imm: bv32, i: bv32)
    requires i <= 15 && FitsAt(imm, i)
    ensures Expanded(OperandAt(imm, i)) == imm && IsOperand2(imm)
  {
    hide Expanded, OperandAt, FitsAt, Alike, RotatedByte;
    OperandExpands(imm, i);
    Same(Expanded(OperandAt(imm, i)), imm);
    OperandFields(imm, i);
    ExpandedIs(OperandAt(imm, i));
  }

  lemma NotFound(imm: bv32)
    requires forall i: bv32 :: i <= 15 ==> !FitsAt(imm, i)
    ensures !IsOperand2(imm)
  {
    hide FitsAt, RotatedByte;
    forall value: bv32, rotation: bv32 | value <= 0xFF && rotation <= 15
      ensures RotatedByte(value, rotation) != imm
    {
      RotatedFits(value, rotation);
    }
  }

  lemma Below(k: bv32, i: bv32, next: bv32)
    requires i <= 15 && next == i + 1
    ensures k < next <==> k < i || k == i
    ensures next <= 16 && 16 - next < 16 - i
  {}

  /** Succeeds exactly for the constants an immediate operand can carry, and the operand is the constant. */
  method TryMakeOperand2(imm: bv32) returns (ok: bool, op2: Operand2)
    ensures ok <==> IsOperand2(imm)
    ensures ok ==> Expanded(op2) == imm
  {
    hide *;
    op2 := Operand2(0, 0);
    var i: bv32 := 0;
    while i < 16
      invariant i <= 16
      invariant forall k: bv32 :: k < i && k <= 15 ==> !FitsAt(imm, k)
      decreases 16 - i
    {
      if FitsAt(imm, i) {
        FoundAt(imm, i);
        return true, OperandAt(imm, i);
      }
      ghost var next := i + 1;
      forall k: bv32 | k < next && k <= 15
        ensures !FitsAt(imm, k)
      {
        Below(k, i, next);
      }
      Below(0, i, next);
      i := i + 1;
    }
    NotFound(imm);
    return false, op2;
  }

  method TryMakeOperand2AllowInverse(imm: bv32) returns (ok: bool, op2: Operand2, inverse: bool)
    ensures ok <==> IsOperand2(imm) || IsOperand2(Not(imm))
    ensures ok ==> Expanded(op2) == if inverse then Not(imm) else imm
    ensures inverse <==> !IsOperand2(imm)
  {
    hide *;
    ok, op2 := TryMakeOperand2(imm);
    inverse := !ok;
    if inverse {
      ok, op2 := TryMakeOperand2(Not(imm));
    }
  }

  method TryMakeOperand2AllowNegation(imm: bv32) returns (ok: bool, op2: Operand2, negated: bool)
    ensures ok <==> IsOperand2(imm) || IsOperand2(Negate(imm))
    ensures ok ==> Expanded(op2) == if negated then Negate(imm) else imm
    ensures negated <==> !IsOperand2(imm)
  {
    hide *;
    ok, op2 := TryMakeOperand2(imm);
    negated := !ok;
    if negated {
      ok, op2 := TryMakeOperand2(Negate(imm));
    }
  }

  // ----- Floating-point immediates -----

  predicate IsSet(val: bv32, mask: bv32) {
    val & mask == mask
  }

  /** The exponent bits 29 down to just above the mask all differ from bit 30. */
  predicate DifferAbove(val: bv32, mask: bv32) {
    var checked := 0x3E00_0000 & !((mask << 1) - 1);
    if IsSet(val, 0x4000_0000) then val & checked == 0 else val & checked == checked
  }

  predicate IsExponentMask(mask: bv32) {
    mask == 0x2000_0000 || mask == 0x1000_0000 || mask == 0x0800_0000 || mask == 0x0400_0000 || mask == 0x0200_0000
  }

  lemma DifferStep(val: bv32, mask: bv32)
    requires IsExponentMask(mask)
    ensures DifferAbove(val, mask >> 1) <==> DifferAbove(val, mask) && IsSet(val, mask) != IsSet(val, 0x4000_0000)
    ensures mask == 0x0200_0000 || IsExponentMask(mask >> 1)
    ensures mask >> 1 < mask
    ensures mask >> 1 >= 0x0200_0000 <==> mask != 0x0200_0000
  {}

  lemma DifferStart(val: bv32)
    ensures DifferAbove(val, 0x2000_0000)
  {}

  /** The field TryMakeFloatIMM8 composes. */
  function FloatField(val: bv32): bv32 {
    ((val & 0x8000_0000) >> 24) | ((if IsSet(val, 0x4000_0000) then 0 else 1) << 6) | ((val & 0x01F8_0000) >> 19)
  }

  lemma FloatFieldExpands(val: bv32)
    requires val & 0x0007_FFFF == 0 && DifferAbove(val, 0x0100_0000)
    ensures FloatField(val) <= 0xFF && Alike(ExpandFloatImm(FloatField(val)), val)
  {}

  lemma ExpandedEncodable(imm8: bv32)
    requires imm8 <= 0xFF
    ensures ExpandFloatImm(imm8) & 0x0007_FFFF == 0 && DifferAbove(ExpandFloatImm(imm8), 0x0100_0000)
  {}

  lemma NotEncodable(val: bv32)
    requires val & 0x0007_FFFF != 0 || !DifferAbove(val, 0x0100_0000)
    ensures !IsFloatImm(val)
  {
    hide ExpandFloatImm, DifferAbove;
    forall imm8: bv32 | imm8 <= 0xFF
      ensures ExpandFloatImm(imm8) != val
    {
      ExpandedEncodable(imm8);
    }
  }

  lemma Encodable(val: bv32)
    requires val & 0x0007_FFFF == 0 && DifferAbove(val, 0x0100_0000)
    ensures FloatField(val) <= 0xFF && ExpandFloatImm(FloatField(val)) == val && IsFloatImm(val)
  {
    hide ExpandFloatImm, DifferAbove, FloatField, Alike;
    FloatFieldExpands(val);
    Same(ExpandFloatImm(FloatField(val)), val);
    IsFloatImmAt(val, FloatField(val));
  }

  /** Accepts exactly the numbers with an 8-bit immediate, and the immediate expands to the number. */
  method TryMakeFloatIMM8(val: bv32) returns (ok: bool, imm8: bv32)
    ensures ok <==> IsFloatImm(val)
    ensures ok ==> imm8 <= 0xFF && ExpandFloatImm(imm8) == val
  {
    hide *;
    if val & 0x0007_FFFF == 0 {
      var bit6 := IsSet(val, 0x4000_0000);
      var canEncode := true;
      var mask: bv32 := 0x2000_0000;
      DifferStart(val);
      StartMask();
      while mask >= 0x0200_0000
        invariant mask == 0x0100_0000 || IsExponentMask(mask)
        invariant mask >= 0x0200_0000 <==> mask != 0x0100_0000
        invariant canEncode <==> DifferAbove(val, mask)
        decreases mask
      {
        DifferStep(val, mask);
        HalfMask(mask);
        if IsSet(val, mask) == bit6 {
          canEncode := false;
        }
        mask := mask >> 1;
      }
      if canEncode {
        Encodable(val);
        return true, FloatField(val);
      }
    }
    NotEncodable(val);
    return false, 0;
  }

  lemma StartMask()
    ensures IsExponentMask(0x2000_0000)
  {}

  lemma HalfMask(mask: bv32)
    requires IsExponentMask(mask)
    ensures mask == 0x0200_0000 <==> mask >> 1 == 0x0100_0000
  {}
}
