/** ARM32 branches: directly emitted, and patched over a placeholder. */
module Arm32Branches {
  import opened Basics
  import opened Words32
  import opened Arm32Machine
  import opened Arm32Encode
  import Compare32

  /** A placeholder at address ptr, the slot-th word of the buffer; cond is the branch's own condition. */
  datatype FixupBranch = FixupBranch(ptr: bv32, slot: nat, cond: bv32, link: bool)

  function DistanceTo(target: bv32, code: bv32): bv32 {
    target - (code + 8)
  }

  function PatchDistance(code: bv32, ptr: bv32): bv32 {
    (code - 8) - ptr
  }

  /** Strictly between -0x2000000 and 0x2000000. */
  predicate InRange(distance: bv32) {
    distance < 0x0200_0000 || 0xFE00_0000 < distance
  }

  /** The distance to the target from two instructions on, which is where the program counter reads, lies strictly
      between -0x2000000 and 0x2000000. */
  predicate IsNear(target: bv32, code: bv32) {
    var distance := Minus(target, Plus(code, 8));
    Compare32.IsLess(0xFE00_0000, distance) && Compare32.IsLess(distance, 0x0200_0000)
  }

  lemma InRangeIs(distance: bv32)
    ensures InRange(distance) <==>
      Compare32.IsLess(0xFE00_0000, distance) && Compare32.IsLess(distance, 0x0200_0000)
  {}

  lemma DistanceFrom(target: bv32, code: bv32)
    ensures DistanceTo(target, code) == Minus(target, code + 8)
  {}

  lemma DistanceIs(target: bv32, code: bv32)
    ensures DistanceTo(target, code) == Minus(target, Plus(code, 8))
  {
    hide *;
    DistanceFrom(target, code);
    PlusIs(code, 8);
  }

  lemma InRangeExactly(target: bv32, code: bv32)
    ensures InRange(DistanceTo(target, code)) <==> IsNear(target, code)
  {
    hide InRange, DistanceTo, Compare32.IsLess, Plus, Minus;
    InRangeIs(DistanceTo(target, code));
    DistanceIs(target, code);
  }

  lemma IsWordMultipleIs(target: bv32, code: bv32)
    ensures IsWordMultiple(DistanceTo(target, code)) <==> Minus(target, code) & 3 == 0
  {}

  predicate IsWordMultiple(distance: bv32) {
    distance & 3 == 0
  }

  /** The arithmetic shift right by 2, masked to the field. */
  function Field(distance: bv32): (imm24: bv32)
    ensures imm24 <= 0xFF_FFFF
  {
    (distance >> 2) & 0xFF_FFFF
  }

  lemma SameDistance(code: bv32, ptr: bv32)
    ensures PatchDistance(code, ptr) == DistanceTo(code, ptr)
  {}

  lemma FieldForward(distance: bv32)
    requires IsWordMultiple(distance) && distance < 0x0200_0000
    ensures Alike(BranchOffset(Field(distance)), distance)
  {}

  lemma FieldBackward(distance: bv32)
    requires IsWordMultiple(distance) && 0xFE00_0000 < distance
    ensures Alike(BranchOffset(Field(distance)), distance)
  {}

  lemma FieldOffset(distance: bv32)
    requires IsWordMultiple(distance) && InRange(distance)
    ensures BranchOffset(Field(distance)) == distance
  {
    hide BranchOffset, Field, Alike, IsWordMultiple;
    if distance < 0x0200_0000 {
      FieldForward(distance);
    } else {
      FieldBackward(distance);
    }
    Same(BranchOffset(Field(distance)), distance);
  }

  lemma DistanceBack(target: bv32, code: bv32)
    ensures Plus(code + 8, target - (code + 8)) == target
    ensures Plus(code, 8) == code + 8 && DistanceTo(target, code) == target - (code + 8)
  {}

  /** A branch in range of a word-aligned target goes there, forward or backward. */
  lemma Reaches(target: bv32, code: bv32, cond: bv32, link: bool)
    requires IsWordMultiple(DistanceTo(target, code)) && InRange(DistanceTo(target, code))
    ensures BranchTarget(Branch(cond, link, Field(DistanceTo(target, code))), code) == Some(target)
  {
    hide *;
    FieldOffset(DistanceTo(target, code));
    DistanceBack(target, code);
    TargetIs(cond, link, Field(DistanceTo(target, code)), code);
  }

  lemma TargetIs(cond: bv32, link: bool, imm24: bv32, pc: bv32)
    ensures BranchTarget(Branch(cond, link, imm24), pc) == Some(Plus(Plus(pc, 8), BranchOffset(imm24)))
  {
    hide Plus, BranchOffset;
  }

  /** The word that a direct branch at address code to the target is. */
  function DirectWord(cond: bv32, link: bool, target: bv32, code: bv32): bv32
    requires IsCond(cond)
  {
    BranchWord(cond, link, Field(DistanceTo(target, code)))
  }

  lemma DirectWordIs(cond: bv32, link: bool, target: bv32, code: bv32)
    requires IsCond(cond)
    ensures cond <= 14 && DirectWord(cond, link, target, code)
            == BranchWord(cond, link, Field(DistanceTo(target, code)))
  {
    hide BranchWord, Field, DistanceTo;
  }

  /** The word at address pc decodes to a branch with this condition and link, to the target. */
  predicate Goes(w: bv32, cond: bv32, link: bool, pc: bv32, target: bv32) {
    Decode(w).Some? && Decode(w).value.Branch? && Decode(w).value.cond == cond && Decode(w).value.link == link
    && BranchTarget(Decode(w).value, pc) == Some(target)
  }

  lemma DirectGoes(cond: bv32, link: bool, target: bv32, code: bv32)
    requires IsCond(cond) && IsWordMultiple(DistanceTo(target, code)) && InRange(DistanceTo(target, code))
    ensures Goes(DirectWord(cond, link, target, code), cond, link, code, target)
  {
    hide Decode, BranchTarget, BranchWord, Field, DistanceTo, IsWordMultiple, InRange;
    Reaches(target, code, cond, link);
  }
}
