/** Vector immediates on ARM64: which lanes TryMOVI's choice fills, and when they are the ones asked for. */
module Arm64Vectors {
  import opened Basics
  import opened Words

  // ----- The architecture's expansion -----

  /** The two low halves of a word doubled, and a byte repeated eight times. */
  function Twice(x: bv64): bv64 {
    x | (x << 32)
  }

  function FourTimes(x: bv64): bv64 {
    Twice(x | (x << 16))
  }

  function EightTimes(x: bv64): bv64 {
    FourTimes(x | (x << 8))
  }

  function ByteMask(imm8: bv64, i: bv8): bv64
    requires i <= 7
  {
    if (imm8 >> i) & 1 != 0 then 0xFF << (8 * i) else 0
  }

  /** Every bit of imm8 as a whole byte. */
  function ByteMasks(imm8: bv64): bv64 {
    ByteMask(imm8, 0) | ByteMask(imm8, 1) | ByteMask(imm8, 2) | ByteMask(imm8, 3)
    | ByteMask(imm8, 4) | ByteMask(imm8, 5) | ByteMask(imm8, 6) | ByteMask(imm8, 7)
  }

  /** A modified immediate of MOVI (op is 0) or MVNI (op is 1, except for the byte masks). */
  datatype ModImm = ModImm(op: bv8, cmode: bv8, imm8: bv64)

  /** A byte placed at one of the four bytes of a word. */
  function At(x: bv64, shift: bv8): bv64 {
    if shift == 0 then x else if shift == 8 then x << 8 else if shift == 16 then x << 16 else x << 24
  }

  function Unshifted(m: ModImm): bv64 {
    if m.cmode == 0 then Twice(At(m.imm8, 0))
    else if m.cmode == 2 then Twice(At(m.imm8, 8))
    else if m.cmode == 4 then Twice(At(m.imm8, 16))
    else if m.cmode == 6 then Twice(At(m.imm8, 24))
    else if m.cmode == 8 then FourTimes(At(m.imm8, 0))
    else if m.cmode == 10 then FourTimes(At(m.imm8, 8))
    else if m.cmode == 12 then Twice((m.imm8 << 8) | 0xFF)
    else if m.cmode == 13 then Twice((m.imm8 << 16) | 0xFFFF)
    else EightTimes(m.imm8)
  }

  /** What the instruction leaves in each doubleword; cmode is even or 13 here. */
  function Expand(m: ModImm): bv64 {
    if m.cmode == 14 then if m.op == 1 then ByteMasks(m.imm8) else EightTimes(m.imm8)
    else if m.op == 1 then Not(Unshifted(m)) else Unshifted(m)
  }

  // ----- The instruction word -----

  predicate IsModImm(m: ModImm) {
    m.op <= 1 && m.cmode <= 15 && m.imm8 <= 0xFF
  }

  /** The fields of a word: quadword or doubleword register, the immediate, the register. */
  datatype Fields = Fields(quad: bool, m: ModImm, rd: bv32)

  function DecodeModImm(w: bv32): Option<Fields> {
    if w >> 31 == 0 && (w >> 19) & 0x3FF == 0x1E0 && (w >> 10) & 3 == 1 then
      Some(Fields((w >> 30) & 1 == 1,
                  ModImm(((w >> 29) & 1) as bv8, ((w >> 12) & 0xF) as bv8,
                         ((((w >> 16) & 7) << 5) | ((w >> 5) & 0x1F)) as bv64),
                  w & 0x1F))
    else None
  }

  lemma ModImmWordDecodes(quad: bool, m: ModImm, rd: bv32)
    requires IsModImm(m) && rd <= 31
    ensures var w := (if quad then 1 << 30 else 0) | ((m.op as bv32) << 29) | (0xF << 24)
            | ((m.imm8 as bv32 >> 5) << 16)
                     | ((m.cmode as bv32) << 12) | (1 << 10) | ((m.imm8 as bv32 & 0x1F) << 5) | rd;
            DecodeModImm(w) == Some(Fields(quad, m, rd))
  {}

  function ModImmWord(quad: bool, m: ModImm, rd: bv32): (w: bv32)
    requires IsModImm(m) && rd <= 31
    ensures DecodeModImm(w) == Some(Fields(quad, m, rd))
  {
    hide *;
    IsModImmIs(m);
    ModImmWordDecodes(quad, m, rd);
    (if quad then 1 << 30 else 0) | ((m.op as bv32) << 29) | (0xF << 24) | ((m.imm8 as bv32 >> 5) << 16)
    | ((m.cmode as bv32) << 12) | (1 << 10) | ((m.imm8 as bv32 & 0x1F) << 5) | rd
  }

  lemma IsModImmIs(m: ModImm)
    ensures IsModImm(m) <==> m.op <= 1 && m.cmode <= 15 && m.imm8 <= 0xFF
  {}

  // ----- What is asked for -----

  /** The low `size` bits of the element in every lane. */
  function Lanes(size: bv8, element: bv64): bv64 {
    if size == 8 then EightTimes(element & 0xFF)
    else if size == 16 then FourTimes(element & 0xFFFF)
    else if size == 32 then Twice(element & 0xFFFF_FFFF)
    else element
  }

  // Every lane holds the low bits of the element.

  lemma BytesFilled(element: bv64, i: bv64)
    requires i <= 7
    ensures (Lanes(8, element) >> (i << 3)) & 0xFF == element & 0xFF
  {}

  lemma HalvesFilled(element: bv64, i: bv64)
    requires i <= 3
    ensures (Lanes(16, element) >> (i << 4)) & 0xFFFF == element & 0xFFFF
  {}

  lemma WordsFilled(element: bv64, i: bv64)
    requires i <= 1
    ensures (Lanes(32, element) >> (i << 5)) & 0xFFFF_FFFF == element & 0xFFFF_FFFF
  {}

  predicate IsSize(size: bv8) {
    size == 8 || size == 16 || size == 32 || size == 64
  }

  // ----- The instruction encoders' choice of cmode -----

  function MoviCmode(size: bv8, shift: bv8, msl: bool): bv8 {
    if size == 8 then 14
    else if size == 16 then 8 | (shift >> 2)
    else if msl then 12 | (shift >> 3)
    else if size == 32 then shift >> 2
    else 14
  }

  function MOVI(size: bv8, imm8: bv64, shift: bv8, msl: bool): ModImm {
    ModImm(size >> 6, MoviCmode(size, shift, msl), imm8)
  }

  function MVNI(size: bv8, imm8: bv64, shift: bv8, msl: bool): ModImm {
    ModImm(1, MoviCmode(size, shift, msl), imm8)
  }

  lemma ChosenIsModImm(size: bv8, imm8: bv64, shift: bv8, msl: bool)
    requires IsSize(size) && shift <= 24 && imm8 <= 0xFF
    ensures IsModImm(MOVI(size, imm8, shift, msl)) && IsModImm(MVNI(size, imm8, shift, msl))
  {}

  // ----- Bytes -----

  function Byte(element: bv64, i: bv8): bv64
    requires i <= 7
  {
    (element >> (8 * i)) & 0xFF
  }

  predicate IsWhole(byte: bv64) {
    byte == 0 || byte == 0xFF
  }

  /** Every byte of the element is 00 or FF. */
  predicate AllWhole(element: bv64) {
    IsWhole(Byte(element, 0)) && IsWhole(Byte(element, 1)) && IsWhole(Byte(element, 2)) && IsWhole(Byte(element, 3))
    && IsWhole(Byte(element, 4)) && IsWhole(Byte(element, 5)) && IsWhole(Byte(element, 6)) && IsWhole(Byte(element, 7))
  }

  function MaskBit(element: bv64, i: bv8): bv64
    requires i <= 7
  {
    if Byte(element, i) == 0xFF then 1 << i else 0
  }

  /** The lowest bit of every byte. */
  function Gather(element: bv64): bv64 {
    (element & 1) | ((element >> 7) & 2) | ((element >> 14) & 4) | ((element >> 21) & 8)
    | ((element >> 28) & 16) | ((element >> 35) & 32) | ((element >> 42) & 64) | ((element >> 49) & 128)
  }

  function GatherBelow(element: bv64, i: bv8): bv64
    requires i <= 8
  {
    Gather(element) & ((1 << i) - 1)
  }

  /** The arms of TryMOVI that shift in ones choose encodings for other constants. */
  predicate UsesOnes(size: bv8, element: bv64) {
    size == 32 && !HasPlain32(element) && HasOnes32(element)
  }

  /** The bits of the low word outside the byte at the shift. */
  function Outside(shift: bv8): bv64
    requires shift <= 24
  {
    var byte: bv64 := 0xFF;
    0xFFFF_FFFF & !(byte << shift)
  }

  predicate ZeroOutside(element: bv64, shift: bv8)
    requires shift <= 24
  {
    element & Outside(shift) == 0
  }

  predicate OnesOutside(element: bv64, shift: bv8)
    requires shift <= 24
  {
    element & Outside(shift) == Outside(shift)
  }

  predicate PlainAt(element: bv64, shift: bv8)
    requires shift <= 24
  {
    ZeroOutside(element, shift) || OnesOutside(element, shift)
  }

  predicate HasPlain32(element: bv64) {
    PlainAt(element, 0) || PlainAt(element, 8) || PlainAt(element, 16) || PlainAt(element, 24)
  }

  /** The byte at the shift, and its complement. */
  function Field(element: bv64, shift: bv8): bv64
    requires shift <= 56
  {
    (element >> shift) & 0xFF
  }

  function InverseField(element: bv64, shift: bv8): bv64
    requires shift <= 56
  {
    (!element >> shift) & 0xFF
  }

  predicate HasOnes32(element: bv64) {
    element & 0xFFFF_00FF == 0xFF || element & 0xFFFF_00FF == 0xFFFF_0000
    || element & 0xFF00_FFFF == 0xFFFF || element & 0xFF00_FFFF == 0xFF00_0000
  }

  /** When TryMOVI finds an instruction. */
  predicate HasImmediate(size: bv8, element: bv64) {
    if size == 8 then true
    else if size == 16 then
      element & 0xFF00 == 0 || element & 0xFF == 0 || element & 0xFF00 == 0xFF00 || element & 0xFF == 0xFF
    else if size == 32 then HasPlain32(element) || HasOnes32(element)
    else AllWhole(element)
  }

  // ----- Each arm -----

  lemma Right8(element: bv64)
    ensures Expand(MOVI(8, Field(element, 0), 0, false)) == Lanes(8, element)
  {
    hide EightTimes, FourTimes, Twice, ByteMasks, At, Not, Field;
    FieldAt0(element);
  }

  function Word(x: bv64): bv64 {
    x & 0xFFFF_FFFF
  }

  function Half(x: bv64): bv64 {
    x & 0xFFFF
  }

  lemma FieldAt0(element: bv64)
    ensures Field(element, 0) == element & 0xFF
  {}

  // The field put back at its shift is the element when the rest of it is 0; the complement of the inverse field is,
  // when the rest is all ones.

  lemma Word0(element: bv64)
    requires element & 0xFFFF_FF00 == 0
    ensures Alike(At(Field(element, 0), 0), Word(element))
  {}

  lemma InverseWord0(element: bv64)
    requires element & 0xFFFF_FF00 == 0xFFFF_FF00
    ensures Alike(Word(Not(At(InverseField(element, 0), 0))), Word(element))
  {}

  lemma Word8(element: bv64)
    requires element & 0xFFFF_00FF == 0
    ensures Alike(At(Field(element, 8), 8), Word(element))
  {}

  lemma InverseWord8(element: bv64)
    requires element & 0xFFFF_00FF == 0xFFFF_00FF
    ensures Alike(Word(Not(At(InverseField(element, 8), 8))), Word(element))
  {}

  lemma Word16(element: bv64)
    requires element & 0xFF00_FFFF == 0
    ensures Alike(At(Field(element, 16), 16), Word(element))
  {}

  lemma InverseWord16(element: bv64)
    requires element & 0xFF00_FFFF == 0xFF00_FFFF
    ensures Alike(Word(Not(At(InverseField(element, 16), 16))), Word(element))
  {}

  lemma Word24(element: bv64)
    requires element & 0x00FF_FFFF == 0
    ensures Alike(At(Field(element, 24), 24), Word(element))
  {}

  lemma InverseWord24(element: bv64)
    requires element & 0x00FF_FFFF == 0x00FF_FFFF
    ensures Alike(Word(Not(At(InverseField(element, 24), 24))), Word(element))
  {}

  lemma Half0(element: bv64)
    requires element & 0xFF00 == 0
    ensures Alike(At(Field(element, 0), 0), Half(element))
  {}

  lemma InverseHalf0(element: bv64)
    requires element & 0xFF00 == 0xFF00
    ensures Alike(Half(Not(At(InverseField(element, 0), 0))), Half(element))
  {}

  lemma Half8(element: bv64)
    requires element & 0xFF == 0
    ensures Alike(At(Field(element, 8), 8), Half(element))
  {}

  lemma InverseHalf8(element: bv64)
    requires element & 0xFF == 0xFF
    ensures Alike(Half(Not(At(InverseField(element, 8), 8))), Half(element))
  {}

  lemma AtFits(x: bv64, shift: bv8)
    requires x <= 0xFF
    ensures At(x, shift) <= 0xFFFF_FFFF && (shift == 0 || shift == 8 ==> At(x, shift) <= 0xFFFF)
  {}

  lemma TwiceOfNot(x: bv64)
    requires x <= 0xFFFF_FFFF
    ensures Alike(Not(Twice(x)), Twice(Word(Not(x))))
  {}

  lemma FourTimesOfNot(x: bv64)
    requires x <= 0xFFFF
    ensures Alike(Not(FourTimes(x)), FourTimes(Half(Not(x))))
  {}

  lemma LanesIs(element: bv64)
    ensures Lanes(8, element) == EightTimes(element & 0xFF)
    ensures Lanes(16, element) == FourTimes(Half(element)) && Lanes(32, element) == Twice(Word(element))
  {
    hide EightTimes, FourTimes, Twice;
  }

  /** What the plain arms' instructions leave. */
  lemma Plain32(x: bv64, shift: bv8)
    requires shift == 0 || shift == 8 || shift == 16 || shift == 24
    ensures Expand(MOVI(32, x, shift, false)) == Twice(At(x, shift))
    ensures Expand(MVNI(32, x, shift, false)) == Not(Twice(At(x, shift)))
  {
    hide EightTimes, FourTimes, Twice, ByteMasks, At, Not;
  }

  lemma Plain16(x: bv64, shift: bv8)
    requires shift == 0 || shift == 8
    ensures Expand(MOVI(16, x, shift, false)) == FourTimes(At(x, shift))
    ensures Expand(MVNI(16, x, shift, false)) == Not(FourTimes(At(x, shift)))
  {
    hide EightTimes, FourTimes, Twice, ByteMasks, At, Not;
  }

  lemma Right16(element: bv64, shift: bv8)
    requires (shift == 0 || shift == 8) && Alike(At(Field(element, shift), shift), Half(element))
    ensures Expand(MOVI(16, Field(element, shift), shift, false)) == Lanes(16, element)
  {
    hide *;
    LanesIs(element);
    Plain16(Field(element, shift), shift);
    Same(At(Field(element, shift), shift), Half(element));
  }

  lemma Inverse16(element: bv64, shift: bv8)
    requires (shift == 0 || shift == 8) && Alike(Half(Not(At(InverseField(element, shift), shift))), Half(element))
    ensures Expand(MVNI(16, InverseField(element, shift), shift, false)) == Lanes(16, element)
  {
    hide *;
    var inverse := InverseField(element, shift);
    LanesIs(element);
    FieldFits(element, shift);
    Plain16(inverse, shift);
    AtFits(inverse, shift);
    FourTimesOfNot(At(inverse, shift));
    Same(Not(FourTimes(At(inverse, shift))), FourTimes(Half(Not(At(inverse, shift)))));
    Same(Half(Not(At(inverse, shift))), Half(element));
  }

  /** The arms that shift in ones: the encoding is right for one constant only. */
  lemma Ones8(element: bv64)
    requires element & 0xFFFF_00FF == 0xFF
    ensures Expand(MOVI(32, Field(element, 8), 8, true)) != Lanes(32, element)
    ensures element & 0xFFFF_FFFF != 0xFFFF_0000
  {}

  lemma InverseOnes8(element: bv64)
    requires element & 0xFFFF_00FF == 0xFFFF_0000
    ensures Expand(MVNI(32, Field(element, 8), 8, true)) == Lanes(32, element) <==> element & 0xFFFF_FFFF == 0xFFFF_0000
  {}

  lemma Ones16(element: bv64)
    requires element & 0xFF00_FFFF == 0xFFFF
    ensures Expand(MOVI(32, Field(element, 16), 16, true)) != Lanes(32, element)
    ensures element & 0xFFFF_FFFF != 0xFFFF_0000
  {}

  lemma InverseOnes16(element: bv64)
    requires element & 0xFF00_FFFF == 0xFF00_0000 && element & 0xFFFF_00FF != 0xFFFF_0000
    ensures Expand(MVNI(32, Field(element, 16), 16, true)) != Lanes(32, element)
    ensures element & 0xFFFF_FFFF != 0xFFFF_0000
  {}

  lemma GatherNothing(element: bv64)
    ensures GatherBelow(element, 0) == 0
  {}

  lemma GatherStep(element: bv64, i: bv8)
    requires i <= 7 && IsWhole(Byte(element, i))
    ensures Alike(Or(GatherBelow(element, i), MaskBit(element, i)), GatherBelow(element, i + 1))
  {}

  lemma GatherAll(element: bv64)
    ensures GatherBelow(element, 8) == Gather(element)
  {}

  lemma Right64(element: bv64)
    requires AllWhole(element)
    ensures Alike(Expand(ModImm(1, 14, Gather(element))), element)
  {}

  lemma Whole(element: bv64, i: bv8)
    requires i <= 7 && !IsWhole(Byte(element, i))
    ensures !AllWhole(element)
  {}

  lemma NextByte(i: bv8)
    requires i < 8
    ensures i <= 7 && i + 1 <= 8 && i < i + 1 && 8 - (i + 1) < 8 - i
  {}

  predicate WholeBelow(element: bv64, i: bv8) {
    (i > 0 ==> IsWhole(Byte(element, 0))) && (i > 1 ==> IsWhole(Byte(element, 1)))
      && (i > 2 ==> IsWhole(Byte(element, 2)))
    && (i > 3 ==> IsWhole(Byte(element, 3))) && (i > 4 ==> IsWhole(Byte(element, 4)))
      && (i > 5 ==> IsWhole(Byte(element, 5)))
    && (i > 6 ==> IsWhole(Byte(element, 6))) && (i > 7 ==> IsWhole(Byte(element, 7)))
  }

  lemma WholeNone(element: bv64)
    ensures WholeBelow(element, 0)
  {}

  lemma WholeNext(element: bv64, i: bv8)
    requires i <= 7 && WholeBelow(element, i) && IsWhole(Byte(element, i))
    ensures WholeBelow(element, i + 1)
  {
    hide IsWhole, Byte;
  }

  lemma WholeEnd(element: bv64, i: bv8)
    requires WholeBelow(element, i) && !(i < 8)
    ensures AllWhole(element)
  {
    hide IsWhole, Byte;
  }

  // ----- The choice of an instruction -----

  /** The 64-bit case: every byte must be 00 or FF. */
  method TryByteMask(element: bv64) returns (ok: bool, m: ModImm)
    ensures ok <==> AllWhole(element)
    ensures ok ==> Expand(m) == element && IsModImm(m)
  {
    hide *;
    var imm8: bv64 := 0;
    m := ModImm(0, 0, 0);
    var i: bv8 := 0;
    GatherNothing(element);
    WholeNone(element);
    while i < 8
      invariant i <= 8 && imm8 == GatherBelow(element, i) && WholeBelow(element, i)
      decreases 8 - i
    {
      NextByte(i);
      if !IsWhole(Byte(element, i)) {
        Whole(element, i);
        return false, m;
      }
      GatherStep(element, i);
      Same(Or(GatherBelow(element, i), MaskBit(element, i)), GatherBelow(element, i + 1));
      WholeNext(element, i);
      imm8 := Or(imm8, MaskBit(element, i));
      i := i + 1;
    }
    WholeEnd(element, i);
    AtEight(i);
    GatherAll(element);
    Right64(element);
    Same(Expand(ModImm(1, 14, Gather(element))), element);
    Choice64(imm8);
    GatherFits(element);
    return true, MOVI(64, imm8, 0, false);
  }

  lemma GatherFits(element: bv64)
    ensures IsModImm(ModImm(1, 14, Gather(element)))
  {}

  /** The fields picked at a shift make a modified immediate. */
  lemma FieldsFit(size: bv8, element: bv64, shift: bv8, msl: bool)
    requires (size == 8 || size == 16 || size == 32) && (shift == 0 || shift == 8 || shift == 16 || shift == 24)
    ensures IsModImm(MOVI(size, Field(element, shift), shift, msl))
            && IsModImm(MVNI(size, InverseField(element, shift), shift, msl))
    ensures IsModImm(MVNI(size, Field(element, shift), shift, msl))
  {
    hide MOVI, MVNI, Field, InverseField, IsModImm;
    FieldFits(element, shift);
    ChosenIsModImm(size, Field(element, shift), shift, msl);
    ChosenIsModImm(size, InverseField(element, shift), shift, msl);
  }

  lemma FieldFits(element: bv64, shift: bv8)
    requires shift <= 56
    ensures Field(element, shift) <= 0xFF && InverseField(element, shift) <= 0xFF
  {}

  lemma AtEight(i: bv8)
    requires i <= 8 && !(i < 8)
    ensures i == 8
  {}

  lemma Choice64(imm8: bv64)
    ensures MOVI(64, imm8, 0, false) == ModImm(1, 14, imm8)
  {}

  predicate IsShift(shift: bv8) {
    shift == 0 || shift == 8 || shift == 16 || shift == 24 || shift == 32
  }

  /** One of the bytes below the shift leaves a plain constant. */
  predicate PlainBelow(element: bv64, shift: bv8) {
    (shift > 0 && PlainAt(element, 0)) || (shift > 8 && PlainAt(element, 8))
    || (shift > 16 && PlainAt(element, 16)) || (shift > 24 && PlainAt(element, 24))
  }

  lemma ShiftStart(element: bv64)
    ensures IsShift(0) && !PlainBelow(element, 0)
  {}

  lemma ShiftRange(shift: bv8)
    requires IsShift(shift) && shift < 32
    ensures shift <= 24 && (shift == 0 || shift == 8 || shift == 16 || shift == 24)
    ensures IsShift(shift + 8) && shift + 8 <= 32 && 32 - (shift + 8) < 32 - shift
  {}

  lemma PlainNext(element: bv64, shift: bv8)
    requires IsShift(shift) && shift < 32 && shift <= 24
    ensures PlainAt(element, shift) <==> ZeroOutside(element, shift) || OnesOutside(element, shift)
    ensures PlainBelow(element, shift + 8) <==> PlainBelow(element, shift) || PlainAt(element, shift)
    ensures PlainAt(element, shift) ==> HasPlain32(element)
  {
    hide ZeroOutside, OnesOutside;
  }

  lemma PlainEnd(element: bv64, shift: bv8)
    requires IsShift(shift) && !(shift < 32) && !PlainBelow(element, shift)
    ensures !HasPlain32(element)
  {
    hide PlainAt;
  }

  lemma OutsideIs(element: bv64, shift: bv8, mask: bv64)
    requires (shift == 0 && mask == 0xFFFF_FF00) || (shift == 8 && mask == 0xFFFF_00FF)
          || (shift == 16 && mask == 0xFF00_FFFF) || (shift == 24 && mask == 0x00FF_FFFF)
    ensures ZeroOutside(element, shift) <==> element & mask == 0
    ensures OnesOutside(element, shift) <==> element & mask == mask
  {}

  lemma Right32(element: bv64, shift: bv8)
    requires shift == 0 || shift == 8 || shift == 16 || shift == 24
    ensures ZeroOutside(element, shift) ==>
      Expand(MOVI(32, Field(element, shift), shift, false)) == Lanes(32, element)
    ensures OnesOutside(element, shift) ==>
      Expand(MVNI(32, InverseField(element, shift), shift, false)) == Lanes(32, element)
  {
    hide *;
    var field, inverse := Field(element, shift), InverseField(element, shift);
    OutsideIs(element, shift, if shift == 0 then 0xFFFF_FF00 else if shift == 8 then 0xFFFF_00FF
                              else if shift == 16 then 0xFF00_FFFF else 0x00FF_FFFF);
    LanesIs(element);
    FieldFits(element, shift);
    Plain32(field, shift);
    Plain32(inverse, shift);
    if ZeroOutside(element, shift) {
      if shift == 0 {
        Word0(element);
      } else if shift == 8 {
        Word8(element);
      } else if shift == 16 {
        Word16(element);
      } else {
        Word24(element);
      }
      Same(At(field, shift), Word(element));
    }
    if OnesOutside(element, shift) {
      AtFits(inverse, shift);
      TwiceOfNot(At(inverse, shift));
      Same(Not(Twice(At(inverse, shift))), Twice(Word(Not(At(inverse, shift)))));
      if shift == 0 {
        InverseWord0(element);
      } else if shift == 8 {
        InverseWord8(element);
      } else if shift == 16 {
        InverseWord16(element);
      } else {
        InverseWord24(element);
      }
      Same(Word(Not(At(inverse, shift))), Word(element));
    }
  }

  /** The 32-bit case without the arms that shift in ones. */
  method TryPlain32(element: bv64) returns (ok: bool, m: ModImm)
    ensures ok <==> HasPlain32(element)
    ensures ok ==> Expand(m) == Lanes(32, element) && IsModImm(m)
  {
    hide *;
    m := ModImm(0, 0, 0);
    var shift: bv8 := 0;
    ShiftStart(element);
    while shift < 32
      invariant IsShift(shift) && shift <= 32 && !PlainBelow(element, shift)
      decreases 32 - shift
    {
      ShiftRange(shift);
      PlainNext(element, shift);
      Right32(element, shift);
      FieldsFit(32, element, shift, false);
      if ZeroOutside(element, shift) {
        return true, MOVI(32, Field(element, shift), shift, false);
      } else if OnesOutside(element, shift) {
        return true, MVNI(32, InverseField(element, shift), shift, false);
      }
      shift := shift + 8;
    }
    PlainEnd(element, shift);
    return false, m;
  }

  /** The 16-bit case. */
  method Try16(element: bv64) returns (ok: bool, m: ModImm)
    ensures ok <==> HasImmediate(16, element)
    ensures ok ==> Expand(m) == Lanes(16, element) && IsModImm(m)
  {
    hide *;
    Immediate16(element);
    FieldsFit(16, element, 0, false);
    FieldsFit(16, element, 8, false);
    m := ModImm(0, 0, 0);
    if element & 0xFF00 == 0 {
      Half0(element);
      Right16(element, 0);
      m := MOVI(16, Field(element, 0), 0, false);
    } else if element & 0xFF == 0 {
      Half8(element);
      Right16(element, 8);
      m := MOVI(16, Field(element, 8), 8, false);
    } else if element & 0xFF00 == 0xFF00 {
      InverseHalf0(element);
      Inverse16(element, 0);
      m := MVNI(16, InverseField(element, 0), 0, false);
    } else if element & 0xFF == 0xFF {
      InverseHalf8(element);
      Inverse16(element, 8);
      m := MVNI(16, InverseField(element, 8), 8, false);
    } else {
      return false, m;
    }
    return true, m;
  }

  lemma Immediate16(element: bv64)
    ensures HasImmediate(16, element) <==>
      element & 0xFF00 == 0 || element & 0xFF == 0 || element & 0xFF00 == 0xFF00 || element & 0xFF == 0xFF
  {}

  /** The two arms of the 32-bit case that shift in ones. */
  method TryOnes32(element: bv64) returns (ok: bool, m: ModImm)
    ensures ok <==> HasOnes32(element)
    ensures ok ==> IsModImm(m) && (Expand(m) == Lanes(32, element) <==> element & 0xFFFF_FFFF == 0xFFFF_0000)
  {
    hide *;
    OnesIs(element);
    FieldsFit(32, element, 8, true);
    FieldsFit(32, element, 16, true);
    m := ModImm(0, 0, 0);
    if element & 0xFFFF_00FF == 0xFF {
      Ones8(element);
      return true, MOVI(32, Field(element, 8), 8, true);
    } else if element & 0xFFFF_00FF == 0xFFFF_0000 {
      InverseOnes8(element);
      return true, MVNI(32, Field(element, 8), 8, true);
    } else if element & 0xFF00_FFFF == 0xFFFF {
      Ones16(element);
      return true, MOVI(32, Field(element, 16), 16, true);
    } else if element & 0xFF00_FFFF == 0xFF00_0000 {
      InverseOnes16(element);
      return true, MVNI(32, Field(element, 16), 16, true);
    }
    return false, m;
  }

  lemma OnesIs(element: bv64)
    ensures HasOnes32(element) <==>
      element & 0xFFFF_00FF == 0xFF || element & 0xFFFF_00FF == 0xFFFF_0000
      || element & 0xFF00_FFFF == 0xFFFF || element & 0xFF00_FFFF == 0xFF00_0000
  {}

  /** The choice TryMOVI makes. It finds an instruction exactly under HasImmediate. What it then leaves is the element
      in every lane, except on the arms that shift in ones, where that holds for the low word FFFF0000 only. */
  method ChooseMOVI(size: bv8, element: bv64) returns (ok: bool, m: ModImm)
    requires IsSize(size)
    ensures ok <==> HasImmediate(size, element)
    ensures ok ==> IsModImm(m)
    ensures ok ==> (Expand(m) == Lanes(size, element) <==> UsesOnes(size, element) ==>
                    element & 0xFFFF_FFFF == 0xFFFF_0000)
  {
    hide *;
    Sizes(size, element);
    m := ModImm(0, 0, 0);
    if size == 8 {
      FieldsFit(8, element, 0, false);
      Right8(element);
      return true, MOVI(8, Field(element, 0), 0, false);
    } else if size == 16 {
      ok, m := Try16(element);
    } else if size == 32 {
      ok, m := TryPlain32(element);
      if !ok {
        ok, m := TryOnes32(element);
      }
    } else {
      ok, m := TryByteMask(element);
    }
  }

  lemma Sizes(size: bv8, element: bv64)
    requires IsSize(size)
    ensures size == 8 || size == 16 || size == 32 || size == 64
    ensures size == 8 ==> HasImmediate(size, element)
    ensures size == 32 ==> (HasImmediate(size, element) <==> HasPlain32(element) || HasOnes32(element))
    ensures size == 64 ==> (HasImmediate(size, element) <==> AllWhole(element)) && Lanes(size, element) == element
    ensures UsesOnes(size, element) <==> size == 32 && !HasPlain32(element) && HasOnes32(element)
  {
    hide HasPlain32, HasOnes32, AllWhole;
  }

  /** For the word 000012FF a ones-shifting arm is taken, and its instruction leaves 0012FFFF. */
  lemma OnesExample()
    ensures var element: bv64 := 0x12FF;
            && UsesOnes(32, element) && Lanes(32, element) == 0x0000_12FF_0000_12FF
            && Expand(MOVI(32, Field(element, 8), 8, true)) == 0x0012_FFFF_0012_FFFF
  {
    hide EightTimes, FourTimes, ByteMasks;
  }

  // ----- No constant is missed -----

  /** The modified immediates that TryMOVI's arms for a lane size are about, the ones-shifting arms aside. */
  predicate IsPlain(size: bv8, m: ModImm) {
    && IsModImm(m)
    && (size == 8 ==> m.op == 0 && m.cmode == 14)
    && (size == 16 ==> m.cmode == 8 || m.cmode == 10)
    && (size == 32 ==> m.cmode == 0 || m.cmode == 2 || m.cmode == 4 || m.cmode == 6)
    && (size == 64 ==> m.op == 1 && m.cmode == 14)
  }

  lemma OnlyHalf0(op: bv8, imm8: bv64, element: bv64)
    requires op <= 1 && imm8 <= 0xFF && Expand(ModImm(op, 8, imm8)) == Lanes(16, element)
    ensures element & 0xFF00 == 0 || element & 0xFF00 == 0xFF00
  {}

  lemma OnlyHalf8(op: bv8, imm8: bv64, element: bv64)
    requires op <= 1 && imm8 <= 0xFF && Expand(ModImm(op, 10, imm8)) == Lanes(16, element)
    ensures element & 0xFF == 0 || element & 0xFF == 0xFF
  {}

  lemma OnlyAt0(op: bv8, imm8: bv64, element: bv64)
    requires op <= 1 && imm8 <= 0xFF && Expand(ModImm(op, 0, imm8)) == Lanes(32, element)
    ensures PlainAt(element, 0)
  {}

  lemma OnlyAt8(op: bv8, imm8: bv64, element: bv64)
    requires op <= 1 && imm8 <= 0xFF && Expand(ModImm(op, 2, imm8)) == Lanes(32, element)
    ensures PlainAt(element, 8)
  {}

  lemma OnlyAt16(op: bv8, imm8: bv64, element: bv64)
    requires op <= 1 && imm8 <= 0xFF && Expand(ModImm(op, 4, imm8)) == Lanes(32, element)
    ensures PlainAt(element, 16)
  {}

  lemma OnlyAt24(op: bv8, imm8: bv64, element: bv64)
    requires op <= 1 && imm8 <= 0xFF && Expand(ModImm(op, 6, imm8)) == Lanes(32, element)
    ensures PlainAt(element, 24)
  {}

  lemma WholeByte(imm8: bv64, i: bv8)
    requires i <= 7
    ensures IsWhole(Byte(ByteMasks(imm8), i))
  {}

  lemma OnlyWhole(imm8: bv64)
    ensures AllWhole(Expand(ModImm(1, 14, imm8)))
  {
    hide IsWhole, Byte, ByteMasks;
    WholeByte(imm8, 0);
    WholeByte(imm8, 1);
    WholeByte(imm8, 2);
    WholeByte(imm8, 3);
    WholeByte(imm8, 4);
    WholeByte(imm8, 5);
    WholeByte(imm8, 6);
    WholeByte(imm8, 7);
  }

  /** A one-word constant of the lane size. */
  ghost predicate HasPlain(size: bv8, element: bv64) {
    exists m :: IsPlain(size, m) && Expand(m) == Lanes(size, element)
  }

  lemma PlainFields(size: bv8, m: ModImm)
    requires IsSize(size) && IsPlain(size, m)
    ensures m == ModImm(m.op, m.cmode, m.imm8) && m.op <= 1 && m.imm8 <= 0xFF
    ensures size == 16 ==> m.cmode == 8 || m.cmode == 10
    ensures size == 32 ==> m.cmode == 0 || m.cmode == 2 || m.cmode == 4 || m.cmode == 6
    ensures size == 64 ==> m == ModImm(1, 14, m.imm8)
  {}

  lemma OnlyPlain(size: bv8, m: ModImm, element: bv64)
    requires IsSize(size) && IsPlain(size, m) && Expand(m) == Lanes(size, element)
    ensures HasImmediate(size, element) && !UsesOnes(size, element)
  {
    hide *;
    Sizes(size, element);
    PlainFields(size, m);
    if size == 16 {
      Immediate16(element);
      if m.cmode == 8 {
        OnlyHalf0(m.op, m.imm8, element);
      } else {
        OnlyHalf8(m.op, m.imm8, element);
      }
    } else if size == 32 {
      PlainIs(element);
      if m.cmode == 0 {
        OnlyAt0(m.op, m.imm8, element);
      } else if m.cmode == 2 {
        OnlyAt8(m.op, m.imm8, element);
      } else if m.cmode == 4 {
        OnlyAt16(m.op, m.imm8, element);
      } else {
        OnlyAt24(m.op, m.imm8, element);
      }
    } else if size == 64 {
      OnlyWhole(m.imm8);
    }
  }

  lemma PlainIs(element: bv64)
    ensures HasPlain32(element) <==>
      PlainAt(element, 0) || PlainAt(element, 8) || PlainAt(element, 16) || PlainAt(element, 24)
  {
    hide PlainAt;
  }

  lemma MoviIsPlain(size: bv8, imm8: bv64, shift: bv8)
    requires (size == 16 && (shift == 0 || shift == 8))
          || (size == 32 && (shift == 0 || shift == 8 || shift == 16 || shift == 24))
    requires imm8 <= 0xFF
    ensures IsPlain(size, MOVI(size, imm8, shift, false)) && IsPlain(size, MVNI(size, imm8, shift, false))
  {}

  lemma PlainAt32(element: bv64, shift: bv8)
    requires (shift == 0 || shift == 8 || shift == 16 || shift == 24) && PlainAt(element, shift)
    ensures HasPlain(32, element)
  {
    hide MOVI, MVNI, Expand, Lanes, IsPlain, Field, InverseField, ZeroOutside, OnesOutside;
    FieldFits(element, shift);
    Right32(element, shift);
    MoviIsPlain(32, Field(element, shift), shift);
    MoviIsPlain(32, InverseField(element, shift), shift);
  }

  lemma PlainHalf(element: bv64)
    requires HasImmediate(16, element)
    ensures HasPlain(16, element)
  {
    hide MOVI, MVNI, Expand, Lanes, IsPlain, Field, InverseField, At, Half, HasImmediate, Alike, Not;
    Immediate16(element);
    FieldFits(element, 0);
    FieldFits(element, 8);
    MoviIsPlain(16, Field(element, 0), 0);
    MoviIsPlain(16, Field(element, 8), 8);
    MoviIsPlain(16, InverseField(element, 0), 0);
    MoviIsPlain(16, InverseField(element, 8), 8);
    if element & 0xFF00 == 0 {
      Half0(element);
      Right16(element, 0);
    } else if element & 0xFF == 0 {
      Half8(element);
      Right16(element, 8);
    } else if element & 0xFF00 == 0xFF00 {
      InverseHalf0(element);
      Inverse16(element, 0);
    } else {
      InverseHalf8(element);
      Inverse16(element, 8);
    }
  }

  lemma PlainByte(element: bv64)
    ensures IsPlain(8, MOVI(8, Field(element, 0), 0, false)) && IsPlain(64, ModImm(1, 14, Gather(element)))
  {}

  /** Apart from the ones-shifting arms, an instruction is found exactly when one of that lane size leaves the element
      in every lane. */
  lemma PlainExactly(size: bv8, element: bv64)
    requires IsSize(size)
    ensures HasImmediate(size, element) && !UsesOnes(size, element) <==> HasPlain(size, element)
  {
    hide *;
    Sizes(size, element);
    PlainIs(element);
    PlainByte(element);
    HasPlainIs(size, element);
    forall m | IsPlain(size, m) && Expand(m) == Lanes(size, element)
      ensures HasImmediate(size, element) && !UsesOnes(size, element)
    {
      OnlyPlain(size, m, element);
    }
    if HasImmediate(size, element) && !UsesOnes(size, element) {
      if size == 8 {
        Right8(element);
      } else if size == 16 {
        PlainHalf(element);
      } else if size == 64 {
        Right64(element);
        Same(Expand(ModImm(1, 14, Gather(element))), element);
      } else if PlainAt(element, 0) {
        PlainAt32(element, 0);
      } else if PlainAt(element, 8) {
        PlainAt32(element, 8);
      } else if PlainAt(element, 16) {
        PlainAt32(element, 16);
      } else {
        PlainAt32(element, 24);
      }
    }
  }

  lemma HasPlainIs(size: bv8, element: bv64)
    ensures HasPlain(size, element) <==> exists m :: IsPlain(size, m) && Expand(m) == Lanes(size, element)
  {
    hide IsPlain, Expand, Lanes;
  }
}
