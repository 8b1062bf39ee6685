/** Facts about constants behind the ARM32 emitter's choices. */
module Arm32Constants {
  import opened Basics
  import opened Words32
  import opened Arm32Machine
  import opened Arm32Encode
  import opened Arm32Operands
  import opened Arm32Operations
  import opened Arm32Windows
  import Compare32

  lemma IsCondIs(cond: bv32)
    requires IsCond(cond)
    ensures cond <= 14
  {}

  lemma WindowBounds(ws: seq<bv32>, pc: bv32, end: bv32, cond: bv32, op: BinaryOp, d: bv32, n: bv32, val: bv32, i: bv32)
    requires WindowState(ws, pc, end, cond, op, d, n, val, i)
    ensures i <= 39 && IsEven(i)
  {
    hide WindowCount, Covers, Partial, IsEven;
  }

  // ----- The shifting loop of TrySetValue_TwoOp -----

  /** What is left of val when the loop is at position i. */
  predicate IsRest(rest: bv32, val: bv32, i: bv32)
    requires i <= 39
  {
    rest == if i >= 32 then 0 else val >> i
  }

  lemma RestStart(val: bv32)
    ensures IsRest(val, val, 0)
  {}

  lemma RestStarts(rest: bv32, val: bv32, i: bv32)
    requires i <= 31 && IsEven(i) && IsRest(rest, val, i)
    ensures rest & 3 != 0 <==> StartsWindow(val, i)
  {}

  lemma RestOperand(rest: bv32, val: bv32, i: bv32)
    requires i <= 31 && IsRest(rest, val, i)
    ensures Operand2(rest & 0xFF, (16 - (i >> 1)) & 0xF) == ShiftOperand(val, i)
  {}

  lemma RestWide(rest: bv32, val: bv32, i: bv32)
    requires i <= 31 && IsRest(rest, val, i)
    ensures i + 8 <= 39 && IsRest(rest >> 8, val, i + 8)
  {}

  lemma RestNarrow(rest: bv32, val: bv32, i: bv32)
    requires i <= 31 && IsRest(rest, val, i)
    ensures i + 2 <= 39 && IsRest(rest >> 2, val, i + 2)
  {}

  lemma RestStep(rest: bv32, val: bv32, i: bv32)
    requires i <= 31 && IsEven(i) && IsRest(rest, val, i)
    ensures rest & 3 != 0 <==> StartsWindow(val, i)
    ensures Operand2(rest & 0xFF, (16 - (i >> 1)) & 0xF) == ShiftOperand(val, i)
    ensures i + 8 <= 39 && i + 2 <= 39 && IsRest(rest >> 8, val, i + 8) && IsRest(rest >> 2, val, i + 2)
  {
    hide *;
    RestStarts(rest, val, i);
    RestOperand(rest, val, i);
    RestWide(rest, val, i);
    RestNarrow(rest, val, i);
  }

  // ----- Moves -----

  lemma NotNot(x: bv32)
    ensures Not(Not(x)) == x
  {}

  /** MOV of the constant, or MVN of its complement. */
  lemma MoveConstant(w: bv32, pc: bv32, cond: bv32, d: bv32, val: bv32, inverse: bool, op2: Operand2)
    requires d <= 14 && Expanded(op2) == if inverse then Not(val) else val
    requires Decode(w) == Some(DataImm(cond, OpCode(if inverse then MvnOp else MovOp), false, 0, d, Imm12Mod(op2)))
    ensures Computes([w], pc, Next(pc), cond, MovOp, d, d, val, 15)
  {
    hide *;
    ExpandedDefinition(op2);
    NotNot(val);
    var via := if inverse then MvnOp else MovOp;
    forall x: bv32
      ensures OpValue(via, x, ExpandImm(Imm12Mod(op2))) == OpValue(MovOp, x, val)
    {
      MovValue(x, val);
      MovValue(x, ExpandImm(Imm12Mod(op2)));
      MvnValue(x, ExpandImm(Imm12Mod(op2)));
    }
    MovIgnores(MovOp, val);
    ImmComputes(w, pc, cond, MovOp, d, d, val, via, 0, Imm12Mod(op2));
  }

  lemma MvnValue(x: bv32, y: bv32)
    ensures OpValue(MvnOp, x, y) == Not(y)
  {
    hide Not;
  }

  function LowHalf(val: bv32): (half: bv32)
    ensures half <= 0xFFFF
  {
    val & 0xFFFF
  }

  function HighHalf(val: bv32): (half: bv32)
    ensures half <= 0xFFFF
  {
    val >> 16
  }

  lemma RunMovw(w: bv32, s: State, cond: bv32, d: bv32, imm16: bv32)
    requires Decode(w) == Some(MovWide(cond, false, d, imm16)) && Holds(cond, s.flags)
    ensures RunOne(w, s) == Some(Put(s, Next(s.pc), d, imm16))
  {
    hide Decode, Next, Holds, Put, Get;
  }

  lemma RunMovt(w: bv32, s: State, cond: bv32, d: bv32, val: bv32)
    requires Decode(w) == Some(MovWide(cond, true, d, HighHalf(val))) && Holds(cond, s.flags)
    ensures RunOne(w, s) == Some(Put(s, Next(s.pc), d, WithHigh(Get(s.r, d), val)))
  {
    hide Decode, Next, Holds, Put, Get, HighHalf, Or, And;
  }

  /** The low half of x below the high half of val. */
  function WithHigh(x: bv32, val: bv32): bv32 {
    Or(And(x, 0xFFFF), HighHalf(val) << 16)
  }

  lemma WithHighLow(val: bv32)
    ensures Alike(WithHigh(LowHalf(val), val), val)
  {}

  lemma MovwComputes(w: bv32, pc: bv32, cond: bv32, d: bv32, val: bv32)
    requires d <= 14 && Decode(w) == Some(MovWide(cond, false, d, LowHalf(val)))
    ensures Computes([w], pc, Next(pc), cond, MovOp, d, d, LowHalf(val), 15)
  {
    hide *;
    SkipsOne(w, pc, cond, MovWide(cond, false, d, LowHalf(val)));
    forall s: State | s.pc == pc && Holds(cond, s.flags)
      ensures Effect(Run([w], s), s, Next(pc), d, OpValue(MovOp, Get(s.r, d), LowHalf(val)), s.flags, 15)
    {
      RunOneWord(w, s);
      RunMovw(w, s, cond, d, LowHalf(val));
      MovValue(Get(s.r, d), LowHalf(val));
      PutEffect(s, Next(pc), d, LowHalf(val), 15);
    }
    ComputesDefinition([w], pc, Next(pc), cond, MovOp, d, d, LowHalf(val), 15);
  }

  lemma MovtComputes(ws: seq<bv32>, w: bv32, pc: bv32, mid: bv32, cond: bv32, d: bv32, val: bv32)
    requires d <= 14 && Computes(ws, pc, mid, cond, MovOp, d, d, LowHalf(val), 15)
    requires Decode(w) == Some(MovWide(cond, true, d, HighHalf(val)))
    ensures Computes(ws + [w], pc, Next(mid), cond, MovOp, d, d, val, 15)
  {
    hide *;
    ComputesDefinition(ws, pc, mid, cond, MovOp, d, d, LowHalf(val), 15);
    SkipsNext(ws, w, pc, mid, cond, MovWide(cond, true, d, HighHalf(val)));
    forall s: State | s.pc == pc && Holds(cond, s.flags)
      ensures Effect(Run(ws + [w], s), s, Next(mid), d, OpValue(MovOp, Get(s.r, d), val), s.flags, 15)
    {
      MovValue(Get(s.r, d), LowHalf(val));
      MovValue(Get(s.r, d), val);
      EffectSome(Run(ws, s), s, mid, d, LowHalf(val), s.flags, 15);
      var t := Run(ws, s).value;
      RunSnoc(ws, w, s);
      EffectThen(t, s, mid, Next(mid), d, LowHalf(val), val, 15);
      RunMovt(w, t, cond, d, val);
      WithHighLow(val);
      Same(WithHigh(LowHalf(val), val), val);
    }
    ComputesDefinition(ws + [w], pc, Next(mid), cond, MovOp, d, d, val, 15);
  }

  lemma NoHighHalf(val: bv32)
    requires HighHalf(val) == 0
    ensures LowHalf(val) == val
  {}

  lemma ZeroIsOperand2()
    ensures IsOperand2(0) && IsOperand2(0x8000_0000)
  {
    assert RotatedByte(0, 0) == 0;
    assert RotatedByte(2, 1) == 0x8000_0000;
  }

  // ----- Additions -----

  lemma NegatedAdds(x: bv32, val: bv32)
    ensures Minus(x, 0 - val) == Plus(x, val) && Plus(x, 0 - val) == Minus(x, val)
  {}

  lemma SumValues(x: bv32, y: bv32)
    ensures OpValue(AddOp, x, y) == Plus(x, y) && OpValue(SubOp, x, y) == Minus(x, y)
  {
    hide Plus, Minus;
  }

  lemma NegatedTwice(val: bv32)
    ensures Negate(val) == 0 - val && Negate(Negate(val)) == val
    ensures Negate(val) == 0 <==> val == 0
  {}

  /** Adding is subtracting the negated constant, and the other way round. */
  lemma NegatedValues(x: bv32, val: bv32)
    ensures OpValue(SubOp, x, Negate(val)) == OpValue(AddOp, x, val)
    ensures OpValue(AddOp, x, Negate(val)) == OpValue(SubOp, x, val)
  {
    hide *;
    NegatedTwice(val);
    NegatedAdds(x, val);
    SumValues(x, val);
    SumValues(x, Negate(val));
  }

  predicate IsShort(val: bv32) {
    val & 0xFFFF_0000 == 0
  }

  lemma IsShortIs(val: bv32)
    ensures IsShort(val) <==> val <= 0xFFFF
  {}

  function UpperByte(val: bv32): Operand2 {
    Operand2((val >> 8) & 0xFF, 12)
  }

  function LowerByte(val: bv32): Operand2 {
    Operand2(val & 0xFF, 0)
  }

  lemma BytesSum(val: bv32)
    requires IsShort(val)
    ensures Plus(Expanded(UpperByte(val)), Expanded(LowerByte(val))) == val
  {}

  lemma MinusSum(x: bv32, y: bv32, z: bv32)
    ensures Minus(x - y, z) == Minus(x, y + z)
  {}

  lemma TwoSteps(op: BinaryOp, x: bv32, val: bv32)
    requires (op == AddOp || op == SubOp) && IsShort(val)
    ensures OpValue(op, OpValue(op, x, Expanded(UpperByte(val))), Expanded(LowerByte(val))) == OpValue(op, x, val)
  {
    hide *;
    var h, l := Expanded(UpperByte(val)), Expanded(LowerByte(val));
    BytesSum(val);
    SumValues(x, h);
    SumValues(OpValue(op, x, h), l);
    SumValues(x, val);
    PlusAssociates(x, h, l);
    MinusIs(x, h);
    PlusIs(h, l);
    MinusSum(x, h, l);
  }

  /** Two immediate instructions that add or subtract a 16-bit constant a byte at a time. */
  lemma TwoStepsCompute(ws: seq<bv32>, w: bv32, v: bv32, pc: bv32, cond: bv32, op: BinaryOp, d: bv32, n: bv32,
                        val: bv32)
    requires d <= 14 && (op == AddOp || op == SubOp) && IsShort(val) && ws == [w, v]
    requires Decode(w) == Some(DataImm(cond, OpCode(op), false, n, d, Imm12Mod(UpperByte(val))))
    requires Decode(v) == Some(DataImm(cond, OpCode(op), false, d, d, Imm12Mod(LowerByte(val))))
    ensures Computes(ws, pc, Next(Next(pc)), cond, op, d, n, val, 15)
  {
    hide *;
    var h := Expanded(UpperByte(val));
    ExpandedDefinition(UpperByte(val));
    ExpandedDefinition(LowerByte(val));
    ImmComputes(w, pc, cond, op, d, n, h, op, n, Imm12Mod(UpperByte(val)));
    forall x: bv32
      ensures OpValue(op, OpValue(op, x, h), ExpandImm(Imm12Mod(LowerByte(val)))) == OpValue(op, x, val)
    {
      TwoSteps(op, x, val);
    }
    ThenComputes([w], v, pc, Next(pc), cond, op, d, n, h, op, Imm12Mod(LowerByte(val)), val);
    assert [w] + [v] == ws;
  }

  /** The same words compute another operation that always has the same value. */
  lemma ComputesAlike(ws: seq<bv32>, pc: bv32, end: bv32, cond: bv32, op: BinaryOp, d: bv32, n: bv32, val: bv32,
                      op': BinaryOp, val': bv32)
    requires Computes(ws, pc, end, cond, op, d, n, val, 15)
    requires forall x: bv32 :: OpValue(op, x, val) == OpValue(op', x, val')
    ensures Computes(ws, pc, end, cond, op', d, n, val', 15)
  {
    hide *;
    ComputesDefinition(ws, pc, end, cond, op, d, n, val, 15);
    ComputesDefinition(ws, pc, end, cond, op', d, n, val', 15);
    forall s: State | s.pc == pc && Holds(cond, s.flags)
      ensures Effect(Run(ws, s), s, end, d, OpValue(op', Get(s.r, n), val'), s.flags, 15)
    {
      assert OpValue(op, Get(s.r, n), val) == OpValue(op', Get(s.r, n), val');
    }
  }

  /** One immediate instruction of op itself. */
  lemma PlainComputes(w: bv32, pc: bv32, cond: bv32, op: BinaryOp, d: bv32, n: bv32, val: bv32, op2: Operand2)
    requires d <= 14 && Expanded(op2) == val && Decode(w) == Some(DataImm(cond, OpCode(op), false, n, d, Imm12Mod(op2)))
    ensures Computes([w], pc, Next(pc), cond, op, d, n, val, 15)
  {
    hide *;
    ExpandedDefinition(op2);
    ImmComputes(w, pc, cond, op, d, n, val, op, n, Imm12Mod(op2));
  }

  // ----- A single run of low bits -----

  /** The two special values of the scan: nothing but ones so far, and more than one run. */
  const UNSET: bv32 := 0xFFFF_FFFF
  const MANY: bv32 := 0xFFFF_FFFE

  /** Ones from bit 0 up to some bit, zeros from there on, and at least one of each. */
  predicate IsLowRun(val: bv32) {
    val != 0 && val != 0xFFFF_FFFF && val & (val + 1) == 0
  }

  predicate BitSet(val: bv32, i: bv32)
    requires i <= 31
  {
    (val >> i) & 1 != 0
  }

  /** What the scan knows after the bits below i. */
  predicate SeqState(val: bv32, i: bv32, seq': bv32) {
    if seq' == UNSET then val & LowMask(i) == LowMask(i)
    else if seq' == MANY then val & (val + 1) != 0
    else seq' < i && seq' <= 31 && val & LowMask(i) == LowMask(seq')
  }

  lemma SeqStart(val: bv32)
    ensures SeqState(val, 0, UNSET)
  {}

  lemma SeqOne(val: bv32, i: bv32, seq': bv32)
    requires i <= 31 && SeqState(val, i, seq') && BitSet(val, i)
    ensures SeqState(val, i + 1, if seq' == UNSET then UNSET else MANY)
  {}

  lemma SeqZero(val: bv32, i: bv32, seq': bv32)
    requires i <= 31 && SeqState(val, i, seq') && !BitSet(val, i)
    ensures SeqState(val, i + 1, if seq' == UNSET then i else seq')
  {}

  /** The scan ends with a positive number exactly for a single run of low bits, and the number is its length. */
  lemma SeqEnd(val: bv32, seq': bv32)
    requires SeqState(val, 32, seq')
    ensures 0 < seq' < 0x8000_0000 <==> IsLowRun(val)
    ensures IsLowRun(val) ==> seq' <= 31 && val == LowMask(seq')
  {}

  lemma SeqNext(i: bv32)
    requires i <= 31
    ensures i + 1 <= 32 && 32 - (i + 1) < 32 - i
  {}

  lemma UbfxValue(x: bv32, width: bv32)
    requires 0 < width <= 31
    ensures Alike(LowBits(x, width), And(x, LowMask(width)))
  {}

  lemma RunUbfx(w: bv32, s: State, cond: bv32, d: bv32, n: bv32, width: bv32)
    requires 0 < width <= 31 && Decode(w) == Some(Ubfx(cond, d, n, 0, width - 1)) && Holds(cond, s.flags)
    ensures RunOne(w, s) == Some(Put(s, Next(s.pc), d, LowBits(Get(s.r, n), width)))
  {
    hide Decode, Next, Holds, Put, Get, LowBits, ShiftDown;
    WidthBack(width);
    NoShift(Get(s.r, n));
  }

  lemma NoShift(x: bv32)
    ensures ShiftDown(x, 0) == x
  {}

  lemma WidthBack(width: bv32)
    requires 0 < width <= 31
    ensures width - 1 <= 31 && width - 1 + 1 == width
  {}

  lemma UbfxComputes(w: bv32, pc: bv32, cond: bv32, d: bv32, n: bv32, val: bv32, width: bv32)
    requires d <= 14 && 0 < width <= 31 && val == LowMask(width) && Decode(w) == Some(Ubfx(cond, d, n, 0, width - 1))
    ensures Computes([w], pc, Next(pc), cond, AndOp, d, n, val, 15)
  {
    hide *;
    SkipsOne(w, pc, cond, Ubfx(cond, d, n, 0, width - 1));
    forall s: State | s.pc == pc && Holds(cond, s.flags)
      ensures Effect(Run([w], s), s, Next(pc), d, OpValue(AndOp, Get(s.r, n), val), s.flags, 15)
    {
      var x := Get(s.r, n);
      RunOneWord(w, s);
      RunUbfx(w, s, cond, d, n, width);
      UbfxValue(x, width);
      Same(LowBits(x, width), And(x, LowMask(width)));
      AndValue(x, val);
      PutEffect(s, Next(pc), d, And(x, val), 15);
    }
    ComputesDefinition([w], pc, Next(pc), cond, AndOp, d, n, val, 15);
  }

  lemma AndValue(x: bv32, y: bv32)
    ensures OpValue(AndOp, x, y) == And(x, y)
  {
    hide And;
  }

  /** Clearing the complement keeps the constant's bits. */
  lemma ClearComplement(x: bv32, val: bv32)
    ensures Clear(x, Not(val)) == And(x, val)
  {}

  lemma BicComplement(x: bv32, val: bv32)
    ensures OpValue(BicOp, x, Not(val)) == OpValue(AndOp, x, val)
  {
    hide Clear, And, Not;
    ClearComplement(x, val);
  }

  lemma AndZeroValue(x: bv32)
    ensures OpValue(AndOp, x, 0) == 0
  {}

  /** MOV of 0 for an AND with 0. */
  lemma ZeroComputesAnd(w: bv32, pc: bv32, cond: bv32, d: bv32, n: bv32, op2: Operand2)
    requires d <= 14 && Expanded(op2) == 0
             && Decode(w) == Some(DataImm(cond, OpCode(MovOp), false, 0, d, Imm12Mod(op2)))
    ensures Computes([w], pc, Next(pc), cond, AndOp, d, n, 0, 15)
  {
    hide *;
    ExpandedDefinition(op2);
    forall x: bv32
      ensures OpValue(MovOp, x, ExpandImm(Imm12Mod(op2))) == OpValue(AndOp, x, 0)
    {
      MovValue(x, ExpandImm(Imm12Mod(op2)));
      AndZeroValue(x);
    }
    forall x: bv32, y: bv32
      ensures OpValue(AndOp, x, 0) == OpValue(AndOp, y, 0)
    {
      AndZeroValue(x);
      AndZeroValue(y);
    }
    ImmComputes(w, pc, cond, AndOp, d, n, 0, MovOp, 0, Imm12Mod(op2));
  }

  lemma ZeroExpands()
    ensures Expanded(Operand2(0, 0)) == 0
  {}

  // ----- Comparisons -----

  /** CMN of the negated constant sets all four flags like CMP, for any register value, exactly when the constant is
      neither 0 nor the sign bit. */
  lemma RewriteKeepsFlags(x: bv32, k: bv32)
    ensures CompareFlags(true, x, Negate(k)) == CompareFlags(false, x, k) <==> k != 0 && k != 0x8000_0000
  {
    hide Compare32.AddFlags, Compare32.SubFlags, Negate;
    Compare32.NegationKeepsFlags(x, k);
  }

  function CompareCode(negated: bool): bv32 {
    if negated then CMN else CMP
  }

  lemma RunCompareImm(w: bv32, s: State, cond: bv32, negated: bool, n: bv32, rd: bv32, imm12: bv32)
    requires Decode(w) == Some(DataImm(cond, CompareCode(negated), true, n, rd, imm12)) && Holds(cond, s.flags)
    ensures RunOne(w, s) == Some(s.(pc := Next(s.pc), flags := CompareFlags(negated, Get(s.r, n), ExpandImm(imm12))))
  {
    hide Decode, Next, Holds, Get, ExpandImm, CompareFlags, DataValue;
  }

  lemma RunCompareReg(w: bv32, s: State, cond: bv32, n: bv32, rd: bv32, m: bv32)
    requires Decode(w) == Some(DataReg(cond, CMP, true, n, rd, m)) && Holds(cond, s.flags)
    ensures RunOne(w, s) == Some(s.(pc := Next(s.pc), flags := CompareFlags(false, Get(s.r, n), Get(s.r, m))))
  {
    hide Decode, Next, Holds, Get, CompareFlags, DataValue;
  }

  lemma FlagsEffect(s: State, end: bv32, f: Flags, sc: bv32)
    ensures Effect(Some(s.(pc := end, flags := f)), s, end, 15, 0, f, sc)
  {}

  lemma ScratchFlags(t: State, s: State, mid: bv32, end: bv32, m: bv32, n: bv32, u: bv32, f: Flags)
    requires m <= 14 && n <= 14 && n != m && Effect(Some(t), s, mid, m, u, s.flags, 15)
    ensures Get(t.r, m) == u && Get(t.r, n) == Get(s.r, n) && t.pc == mid && t.flags == s.flags
    ensures Effect(Some(t.(pc := end, flags := f)), s, end, 15, 0, f, m)
  {}

  lemma ImmCompares(w: bv32, pc: bv32, cond: bv32, n: bv32, val: bv32, negated: bool, op2: Operand2, sc: bv32)
    requires Decode(w) == Some(DataImm(cond, CompareCode(negated), true, n, 0, Imm12Mod(op2)))
    requires Expanded(op2) == if negated then Negate(val) else val
    requires negated ==> !IsOperand2(val)
    ensures Compares([w], pc, Next(pc), cond, n, val, sc)
  {
    hide *;
    SkipsOne(w, pc, cond, DataImm(cond, CompareCode(negated), true, n, 0, Imm12Mod(op2)));
    ExpandedDefinition(op2);
    ZeroIsOperand2();
    forall s: State | s.pc == pc && Holds(cond, s.flags)
      ensures Effect(Run([w], s), s, Next(pc), 15, 0, CompareFlags(false, Get(s.r, n), val), sc)
    {
      RunOneWord(w, s);
      RunCompareImm(w, s, cond, negated, n, 0, Imm12Mod(op2));
      RewriteKeepsFlags(Get(s.r, n), val);
      FlagsEffect(s, Next(pc), CompareFlags(false, Get(s.r, n), val), sc);
    }
    ComparesDefinition([w], pc, Next(pc), cond, n, val, sc);
  }

  lemma FallbackCompares(ws: seq<bv32>, w: bv32, pc: bv32, mid: bv32, cond: bv32, n: bv32, m: bv32, val: bv32)
    requires n <= 14 && m <= 14 && n != m
    requires Computes(ws, pc, mid, cond, MovOp, m, m, val, 15) && Decode(w) == Some(DataReg(cond, CMP, true, n, 0, m))
    ensures Compares(ws + [w], pc, Next(mid), cond, n, val, m)
  {
    hide *;
    ComputesDefinition(ws, pc, mid, cond, MovOp, m, m, val, 15);
    SkipsNext(ws, w, pc, mid, cond, DataReg(cond, CMP, true, n, 0, m));
    forall s: State | s.pc == pc && Holds(cond, s.flags)
      ensures Effect(Run(ws + [w], s), s, Next(mid), 15, 0, CompareFlags(false, Get(s.r, n), val), m)
    {
      MovValue(Get(s.r, m), val);
      EffectSome(Run(ws, s), s, mid, m, val, s.flags, 15);
      var t := Run(ws, s).value;
      RunSnoc(ws, w, s);
      ScratchFlags(t, s, mid, Next(mid), m, n, val, CompareFlags(false, Get(s.r, n), val));
      RunCompareReg(w, t, cond, n, 0, m);
    }
    ComparesDefinition(ws + [w], pc, Next(mid), cond, n, val, m);
  }

  lemma CompareCodes(negated: bool)
    ensures CompareCode(negated) <= 15 && CompareCode(false) == CMP
  {}
}
