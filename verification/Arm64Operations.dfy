/** Register-by-constant operations on ARM64: what they compute and the facts behind each instruction form. */
module Arm64Operations {
  import opened BitmaskEncoding
  import opened Basics
  import opened Arm64Machine
  import opened Words
  import opened Arm64Moves
  import opened Arm64Loads
  import opened Arm64Addresses
  import opened Arm64Encode
  import Compare64

  datatype BinaryOp = AddOp | SubOp | AndOp | OrrOp | EorOp

  function OpValue(op: BinaryOp, x: bv64, y: bv64): bv64 {
    match op
    case AddOp => Plus(x, y)
    case SubOp => Minus(x, y)
    case AndOp => And(x, y)
    case OrrOp => Or(x, y)
    case EorOp => Xor(x, y)
  }

  // ----- Specification -----

  /** v went to register d (31 for none) and the flags are as given; only register sc besides may have changed. */
  ghost predicate Effect(t: Option<State>, s: State, end: bv64, d: bv32, v: bv64, flags: Flags, sc: bv32) {
    && t.Some?
    && t.value.pc == end && t.value.flags == flags
    && t.value.sp == s.sp && t.value.d == s.d && t.value.mem == s.mem
    && (d != 31 ==> Get(t.value.x, d) == v)
    && forall r: bv32 :: r <= 30 && r != d && r != sc ==> Get(t.value.x, r) == Get(s.x, r)
  }

  /** From pc, the words leave x_n op imm in x_d at the register width. */
  ghost predicate Computes(ws: seq<bv32>, pc: bv64, end: bv64, op: BinaryOp, sf: bool, d: bv32, n: bv32, imm: bv64,
                           sc: bv32) {
    forall s: State :: s.pc == pc ==>
      Effect(Run(ws, s), s, end, d, Trunc(sf, OpValue(op, Get(s.x, n), imm)), s.flags, sc)
  }

  predicate IsNegative(sf: bool, x: bv64) {
    if sf then x >= 0x8000_0000_0000_0000 else Trunc(sf, x) >= 0x8000_0000
  }

  predicate IsBelow(sf: bool, x: bv64, y: bv64) {
    Compare64.IsBelow(Trunc(sf, x), Trunc(sf, y))
  }

  /** x < y as signed numbers of the register width. */
  predicate IsLess(sf: bool, x: bv64, y: bv64) {
    if IsNegative(sf, x) == IsNegative(sf, y) then IsBelow(sf, x, y) else IsNegative(sf, x)
  }

  /** Flags that order x and y at the register width: N is the sign of x - y, Z equality, C unsigned order; N and V
      differ exactly when x is less. */
  function Comparison(sf: bool, x: bv64, y: bv64): Flags {
    var negative := IsNegative(sf, Minus(x, y));
    Flags(negative, Trunc(sf, x) == Trunc(sf, y), !IsBelow(sf, x, y), negative != IsLess(sf, x, y))
  }

  /** Flags of a logical result: its sign and whether it is 0. */
  function Sign(sf: bool, x: bv64): Flags {
    Flags(IsNegative(sf, x), Trunc(sf, x) == 0, false, false)
  }

  /** From pc, the words leave flags that order x_n and imm. */
  ghost predicate Compares(ws: seq<bv32>, pc: bv64, end: bv64, sf: bool, n: bv32, imm: bv64, sc: bv32) {
    forall s: State :: s.pc == pc ==>
      Effect(Run(ws, s), s, end, 31, 0, Comparison(sf, Get(s.x, n), imm), sc)
  }

  /** From pc, the words leave x_n & imm in x_d, and its sign in the flags. */
  ghost predicate ComputesAnds(ws: seq<bv32>, pc: bv64, end: bv64, sf: bool, d: bv32, n: bv32, imm: bv64, sc: bv32) {
    forall s: State :: s.pc == pc ==>
      var v := And(Get(s.x, n), imm);
      Effect(Run(ws, s), s, end, d, Trunc(sf, v), Sign(sf, v), sc)
  }

  // ----- Arithmetic immediates -----

  predicate IsArithmetic(x: bv64) {
    x < 4096 || x & 0xFF_F000 == x
  }

  /** The negated constant as a 64-bit number; for W registers the 32-bit negation, sign-extended. */
  function Negated(sf: bool, imm: bv64): bv64 {
    if sf then 0 - imm else Signed32(0 - imm)
  }

  predicate IsAddSubConstant(sf: bool, imm: bv64) {
    imm == 0 || IsArithmetic(imm) || IsArithmetic(Negated(sf, imm))
  }

  function Width(sf: bool): bv8 {
    if sf then 64 else 32
  }

  // ----- Effects -----

  lemma PutEffect(s: State, end: bv64, d: bv32, v: bv64, sc: bv32)
    requires d <= 30
    ensures Effect(Some(Put(s, end, d, v)), s, end, d, v, s.flags, sc)
  {}

  lemma PutPutEffect(s: State, mid: bv64, end: bv64, d: bv32, v: bv64, sc: bv32, u: bv64)
    requires d <= 30 && sc <= 30
    ensures Effect(Some(Put(Put(s, mid, sc, u), end, d, v)), s, end, d, v, s.flags, sc)
  {}

  lemma EffectValue(t: Option<State>, s: State, end: bv64, d: bv32, v: bv64, u: bv64, flags: Flags, sc: bv32)
    requires d != 31 && Effect(t, s, end, d, v, flags, sc) && Effect(t, s, end, d, u, flags, sc)
    ensures u == v
  {}

  lemma RunOneWord(w: bv32, s: State)
    ensures Run([w], s) == RunOne(w, s)
  {
    hide RunOne;
    assert [] + [w] == [w];
    RunSnoc([], w, s);
  }

  lemma ComputesOne(w: bv32, pc: bv64, op: BinaryOp, sf: bool, d: bv32, n: bv32, imm: bv64, sc: bv32)
    requires d <= 30
    requires forall s: State :: s.pc == pc ==>
      RunOne(w, s) == Some(Put(s, Next(pc), d, Trunc(sf, OpValue(op, Get(s.x, n), imm))))
    ensures Computes([w], pc, Next(pc), op, sf, d, n, imm, sc)
  {
    hide *;
    forall s: State | s.pc == pc
      ensures Effect(Run([w], s), s, Next(pc), d, Trunc(sf, OpValue(op, Get(s.x, n), imm)), s.flags, sc)
    {
      RunOneWord(w, s);
      PutEffect(s, Next(pc), d, Trunc(sf, OpValue(op, Get(s.x, n), imm)), sc);
    }
    ComputesDefinition([w], pc, Next(pc), op, sf, d, n, imm, sc);
  }

  lemma ComputesDefinition(ws: seq<bv32>, pc: bv64, end: bv64, op: BinaryOp, sf: bool, d: bv32, n: bv32, imm: bv64,
                           sc: bv32)
    ensures Computes(ws, pc, end, op, sf, d, n, imm, sc) <==> forall s: State :: s.pc == pc ==>
      Effect(Run(ws, s), s, end, d, Trunc(sf, OpValue(op, Get(s.x, n), imm)), s.flags, sc)
  {
    hide Run, Effect, Trunc, OpValue;
  }

  // ----- Instruction forms -----

  function LogicalCode(op: BinaryOp): bv32 {
    if op == OrrOp then 1 else if op == EorOp then 2 else 0
  }

  /** The register form of op. */
  function RegInstr(op: BinaryOp, sf: bool, m: bv32, n: bv32, d: bv32): Instr {
    if op == AddOp || op == SubOp then AddSubReg(sf, op == SubOp, false, m, n, d)
    else LogicalReg(sf, LogicalCode(op), false, m, n, d)
  }

  lemma RunArithReg(w: bv32, s: State, sub: bool, sf: bool, m: bv32, n: bv32, d: bv32)
    requires d <= 30 && n <= 30 && m <= 30 && Decode(w) == Some(AddSubReg(sf, sub, false, m, n, d))
    ensures RunOne(w, s) == Some(Put(s, Next(s.pc), d, Trunc(sf, AddSubValue(sub, Get(s.x, n), Get(s.x, m)))))
  {
    hide Decode, Next, Trunc, AddSubValue, AddSubFlags;
  }

  lemma RunLogicalReg(w: bv32, s: State, opc: bv32, sf: bool, m: bv32, n: bv32, d: bv32)
    requires d <= 30 && n <= 30 && m <= 30 && opc <= 2 && Decode(w) == Some(LogicalReg(sf, opc, false, m, n, d))
    ensures RunOne(w, s) == Some(Put(s, Next(s.pc), d, Trunc(sf, LogicalValue(opc, Get(s.x, n), Get(s.x, m)))))
  {
    hide Decode, Next, Trunc, LogicalValue, LogicalFlags;
  }

  lemma OpValueIs(op: BinaryOp, x: bv64, y: bv64)
    ensures op == AddOp || op == SubOp ==> OpValue(op, x, y) == AddSubValue(op == SubOp, x, y)
    ensures !(op == AddOp || op == SubOp) ==>
      OpValue(op, x, y) == LogicalValue(LogicalCode(op), x, y) && LogicalCode(op) <= 2
  {
    hide Plus, Minus, And, Or, Xor;
  }

  lemma RunRegOp(op: BinaryOp, w: bv32, s: State, sf: bool, m: bv32, n: bv32, d: bv32)
    requires d <= 30 && n <= 30 && m <= 30 && Decode(w) == Some(RegInstr(op, sf, m, n, d))
    ensures RunOne(w, s) == Some(Put(s, Next(s.pc), d, Trunc(sf, OpValue(op, Get(s.x, n), Get(s.x, m)))))
  {
    hide Decode, Next, Trunc, LogicalValue, AddSubValue, OpValue, LogicalCode, RunOne, Put, Get;
    OpValueIs(op, Get(s.x, n), Get(s.x, m));
    if op == AddOp || op == SubOp {
      RunArithReg(w, s, op == SubOp, sf, m, n, d);
    } else {
      RunLogicalReg(w, s, LogicalCode(op), sf, m, n, d);
    }
  }

  lemma RunMov(w: bv32, s: State, sf: bool, m: bv32, d: bv32)
    requires d <= 30 && m <= 30 && Decode(w) == Some(LogicalReg(sf, 1, false, m, 31, d))
    ensures RunOne(w, s) == Some(Put(s, Next(s.pc), d, Trunc(sf, Or(0, Get(s.x, m)))))
  {
    hide Decode, Next, Trunc, Plus, Minus, And, Or, Xor;
  }

  lemma RunArithImm(w: bv32, s: State, sub: bool, sf: bool, shift: bool, imm12: bv32, n: bv32, d: bv32)
    requires d <= 30 && n <= 30 && Decode(w) == Some(AddSubImm(sf, sub, false, shift, imm12, n, d))
    ensures RunOne(w, s) == Some(Put(s, Next(s.pc), d,
      Trunc(sf, AddSubValue(sub, Get(s.x, n), ShiftedImm12(shift, imm12)))))
  {
    hide Decode, Next, Trunc, AddSubValue, AddSubFlags, ShiftedImm12;
  }

  lemma RunLogicalImm(w: bv32, s: State, opc: bv32, sf: bool, n1: bv8, immr: bv8, imms: bv8, n: bv32, d: bv32)
    requires opc <= 2 && d <= 30 && n <= 30 && Decode(w) == Some(LogicalImm(sf, opc, n1, immr, imms, n, d))
    requires ValidEncoding(n1, imms, immr) && (sf || n1 == 0)
    ensures RunOne(w, s) == Some(Put(s, Next(s.pc), d,
      Trunc(sf, LogicalValue(opc, Get(s.x, n), DecodeBitMasks(n1, imms, immr)))))
  {
    hide Decode, Next, Trunc, LogicalValue, LogicalFlags, ValidEncoding, DecodeBitMasks;
  }

  // ----- Values -----

  lemma OpZero(sf: bool, op: BinaryOp, x: bv64)
    requires op != AndOp
    ensures OpValue(op, x, 0) == Or(0, x)
  {}

  lemma SubNegatedX(x: bv64, imm: bv64)
    ensures Minus(x, 0 - imm) == Plus(x, imm)
  {}

  lemma AddNegatedX(x: bv64, imm: bv64)
    ensures Plus(x, 0 - imm) == Minus(x, imm)
  {}

  lemma SubNegatedW(x: bv64, imm: bv64)
    ensures Trunc(false, x - ((0 - imm) & 0xFFFF_FFFF)) == Trunc(false, x + imm)
    ensures Minus(x, (0 - imm) & 0xFFFF_FFFF) == x - ((0 - imm) & 0xFFFF_FFFF)
  {}

  lemma AddNegatedW(x: bv64, imm: bv64)
    ensures Trunc(false, x + ((0 - imm) & 0xFFFF_FFFF)) == Trunc(false, x - imm)
    ensures Plus(x, (0 - imm) & 0xFFFF_FFFF) == x + ((0 - imm) & 0xFFFF_FFFF)
  {}

  lemma NegatedIs(sf: bool, imm: bv64)
    requires IsArithmetic(Negated(sf, imm))
    ensures Negated(sf, imm) == if sf then 0 - imm else (0 - imm) & 0xFFFF_FFFF
  {}

  /** Subtracting the negated constant adds it, and adding the negated constant subtracts it. */
  lemma NegatedValue(sf: bool, x: bv64, imm: bv64)
    requires IsArithmetic(Negated(sf, imm))
    ensures Trunc(sf, Minus(x, Negated(sf, imm))) == Trunc(sf, Plus(x, imm))
    ensures Trunc(sf, Plus(x, Negated(sf, imm))) == Trunc(sf, Minus(x, imm))
  {
    hide *;
    NegatedIs(sf, imm);
    if sf {
      SubNegatedX(x, imm);
      AddNegatedX(x, imm);
    } else {
      SubNegatedW(x, imm);
      AddNegatedW(x, imm);
      PlusIs(x, imm);
      MinusIs(x, imm);
    }
  }

  // ----- Words that compute an operation -----

  lemma MovComputes(w: bv32, pc: bv64, op: BinaryOp, sf: bool, d: bv32, n: bv32)
    requires d <= 30 && n <= 30 && Decode(w) == Some(LogicalReg(sf, 1, false, n, 31, d)) && op != AndOp
    ensures Computes([w], pc, Next(pc), op, sf, d, n, 0, 31)
  {
    hide *;
    forall s: State | s.pc == pc
      ensures RunOne(w, s) == Some(Put(s, Next(pc), d, Trunc(sf, OpValue(op, Get(s.x, n), 0))))
    {
      RunMov(w, s, sf, n, d);
      OpZero(sf, op, Get(s.x, n));
    }
    ComputesOne(w, pc, op, sf, d, n, 0, 31);
  }

  /** ADD or SUB of an immediate k that has the effect of op with imm. */
  lemma ArithComputes(w: bv32, pc: bv64, op: BinaryOp, sf: bool, d: bv32, n: bv32, imm: bv64,
                      sub: bool, shift: bool, imm12: bv32, k: bv64)
    requires d <= 30 && n <= 30 && Decode(w) == Some(AddSubImm(sf, sub, false, shift, imm12, n, d))
    requires ShiftedImm12(shift, imm12) == k
    requires op == AddOp || op == SubOp
    requires if sub == (op == SubOp) then k == imm else k == Negated(sf, imm) && IsArithmetic(k)
    ensures Computes([w], pc, Next(pc), op, sf, d, n, imm, 31)
  {
    hide *;
    forall s: State | s.pc == pc
      ensures RunOne(w, s) == Some(Put(s, Next(pc), d, Trunc(sf, OpValue(op, Get(s.x, n), imm))))
    {
      var x := Get(s.x, n);
      RunArithImm(w, s, sub, sf, shift, imm12, n, d);
      AddSubValueIs(sub, x, k);
      SumOpValue(op, x, imm);
      if sub != (op == SubOp) {
        NegatedValue(sf, x, imm);
      }
    }
    ComputesOne(w, pc, op, sf, d, n, imm, 31);
  }

  lemma SumOpValue(op: BinaryOp, x: bv64, y: bv64)
    requires op == AddOp || op == SubOp
    ensures OpValue(op, x, y) == if op == SubOp then Minus(x, y) else Plus(x, y)
  {
    hide Plus, Minus;
  }

  lemma AddSubValueIs(sub: bool, x: bv64, y: bv64)
    ensures AddSubValue(sub, x, y) == if sub then Minus(x, y) else Plus(x, y)
  {}

  lemma WidenedLowX(opc: bv32, x: bv64, imm: bv64)
    requires opc <= 2
    ensures Widened(imm, 64) == imm
  {}

  lemma WidenedLowAnd(x: bv64, imm: bv64)
    ensures Alike(Trunc(false, And(x, Widened(imm, 32))), Trunc(false, And(x, imm)))
  {}

  lemma WidenedLowOr(x: bv64, imm: bv64)
    ensures Alike(Trunc(false, Or(x, Widened(imm, 32))), Trunc(false, Or(x, imm)))
  {}

  lemma WidenedLowXor(x: bv64, imm: bv64)
    ensures Alike(Trunc(false, Xor(x, Widened(imm, 32))), Trunc(false, Xor(x, imm)))
  {}

  lemma WidenedOperand(opc: bv32, sf: bool, x: bv64, imm: bv64)
    requires opc <= 2
    ensures Trunc(sf, LogicalValue(opc, x, Widened(imm, Width(sf)))) == Trunc(sf, LogicalValue(opc, x, imm))
  {
    hide Trunc, Widened, And, Or, Xor, Alike;
    if sf {
      WidenedLowX(opc, x, imm);
    } else if opc == 1 {
      WidenedLowOr(x, imm);
      Same(Trunc(false, Or(x, Widened(imm, 32))), Trunc(false, Or(x, imm)));
    } else if opc == 2 {
      WidenedLowXor(x, imm);
      Same(Trunc(false, Xor(x, Widened(imm, 32))), Trunc(false, Xor(x, imm)));
    } else {
      WidenedLowAnd(x, imm);
      Same(Trunc(false, And(x, Widened(imm, 32))), Trunc(false, And(x, imm)));
    }
  }

  lemma LogicalComputes(w: bv32, pc: bv64, op: BinaryOp, sf: bool, d: bv32, n: bv32, imm: bv64, n1: bv8, immr: bv8,
                        imms: bv8)
    requires op == AndOp || op == OrrOp || op == EorOp
    requires d <= 30 && n <= 30 && Decode(w) == Some(LogicalImm(sf, LogicalCode(op), n1, immr, imms, n, d))
    requires ValidEncoding(n1, imms, immr) && (sf || n1 == 0)
             && DecodeBitMasks(n1, imms, immr) == Widened(imm, Width(sf))
    ensures Computes([w], pc, Next(pc), op, sf, d, n, imm, 31)
  {
    hide *;
    var opc := LogicalCode(op);
    forall s: State | s.pc == pc
      ensures RunOne(w, s) == Some(Put(s, Next(pc), d, Trunc(sf, OpValue(op, Get(s.x, n), imm))))
    {
      OpValueIs(op, Get(s.x, n), imm);
      RunLogicalImm(w, s, opc, sf, n1, immr, imms, n, d);
      WidenedOperand(opc, sf, Get(s.x, n), imm);
    }
    ComputesOne(w, pc, op, sf, d, n, imm, 31);
  }

  lemma AndZero(sf: bool, x: bv64)
    ensures Trunc(sf, And(x, 0)) == 0
  {}

  lemma OpAnd(x: bv64, y: bv64)
    ensures OpValue(AndOp, x, y) == And(x, y)
  {}

  lemma ZeroComputesAnd(ws: seq<bv32>, pc: bv64, end: bv64, sf: bool, d: bv32, n: bv32)
    requires d <= 30 && Loads(ws, pc, end, d, 0)
    ensures Computes(ws, pc, end, AndOp, sf, d, n, 0, 31)
  {
    hide *;
    forall s: State | s.pc == pc
      ensures Effect(Run(ws, s), s, end, d, Trunc(sf, OpValue(AndOp, Get(s.x, n), 0)), s.flags, 31)
    {
      LoadsAt(ws, pc, end, d, 0, s);
      OpAnd(Get(s.x, n), 0);
      AndZero(sf, Get(s.x, n));
      PutEffect(s, end, d, 0, 31);
    }
    ComputesDefinition(ws, pc, end, AndOp, sf, d, n, 0, 31);
  }

  /** The fallback: the constant u is loaded into register m, then the register form is used. */
  /** The register form run where the words before put u in the scratch register m. */
  lemma FallbackRuns(ws: seq<bv32>, w: bv32, s: State, mid: bv64, op: BinaryOp, sf: bool, d: bv32, n: bv32, m: bv32,
                     u: bv64)
    requires d <= 30 && n <= 30 && m <= 30 && n != m
    requires Run(ws, s) == Some(Put(s, mid, m, u)) && Decode(w) == Some(RegInstr(op, sf, m, n, d))
    ensures Effect(Run(ws + [w], s), s, Next(mid), d, Trunc(sf, OpValue(op, Get(s.x, n), u)), s.flags, m)
  {
    hide *;
    RunSnoc(ws, w, s);
    var t := Put(s, mid, m, u);
    RunRegOp(op, w, t, sf, m, n, d);
    PutGets(s, mid, m, u, n);
    PutPutEffect(s, mid, Next(mid), d, Trunc(sf, OpValue(op, Get(s.x, n), u)), m, u);
  }

  lemma FallbackComputes(ws: seq<bv32>, w: bv32, pc: bv64, mid: bv64, op: BinaryOp, sf: bool, d: bv32, n: bv32,
                         m: bv32, u: bv64)
    requires d <= 30 && n <= 30 && m <= 30 && n != m
    requires Loads(ws, pc, mid, m, u) && Decode(w) == Some(RegInstr(op, sf, m, n, d))
    ensures Computes(ws + [w], pc, Next(mid), op, sf, d, n, u, m)
  {
    hide *;
    forall s: State | s.pc == pc
      ensures Effect(Run(ws + [w], s), s, Next(mid), d, Trunc(sf, OpValue(op, Get(s.x, n), u)), s.flags, m)
    {
      LoadsAt(ws, pc, mid, m, u, s);
      FallbackRuns(ws, w, s, mid, op, sf, d, n, m, u);
    }
    ComputesDefinition(ws + [w], pc, Next(mid), op, sf, d, n, u, m);
  }

  lemma PutGets(s: State, mid: bv64, m: bv32, u: bv64, n: bv32)
    ensures Get(Put(s, mid, m, u).x, m) == u && Put(s, mid, m, u).pc == mid
    ensures n != m ==> Get(Put(s, mid, m, u).x, n) == Get(s.x, n)
  {}

  // ----- When the loaded constant is not the one asked for -----

  // At 32 bits only the low half of the operand matters.

  lemma LowPlus(x: bv64, y: bv64)
    ensures Trunc(false, x + (y & 0xFFFF_FFFF)) == Trunc(false, x + y)
  {}

  lemma LowMinus(x: bv64, y: bv64)
    ensures Trunc(false, x - (y & 0xFFFF_FFFF)) == Trunc(false, x - y)
  {}

  lemma LowAnd(x: bv64, y: bv64)
    ensures Alike(Trunc(false, And(x, Low32(y))), Trunc(false, And(x, y)))
  {}

  lemma LowOr(x: bv64, y: bv64)
    ensures Alike(Trunc(false, Or(x, Low32(y))), Trunc(false, Or(x, y)))
  {}

  lemma LowXor(x: bv64, y: bv64)
    ensures Alike(Trunc(false, Xor(x, Low32(y))), Trunc(false, Xor(x, y)))
  {}

  lemma Low32Is(y: bv64)
    ensures Low32(y) == y & 0xFFFF_FFFF
  {}

  lemma LowSum(x: bv64, y: bv64)
    ensures Trunc(false, Plus(x, Low32(y))) == Trunc(false, Plus(x, y))
    ensures Trunc(false, Minus(x, Low32(y))) == Trunc(false, Minus(x, y))
  {
    hide *;
    Low32Is(y);
    LowPlus(x, y);
    PlusIs(x, y);
    PlusIs(x, y & 0xFFFF_FFFF);
    LowMinus(x, y);
    MinusIs(x, y);
    MinusIs(x, y & 0xFFFF_FFFF);
  }

  lemma LowOperation(op: BinaryOp, x: bv64, y: bv64)
    ensures Trunc(false, OpValue(op, x, Low32(y))) == Trunc(false, OpValue(op, x, y))
  {
    hide *;
    OpValues(op, x, y);
    OpValues(op, x, Low32(y));
    match op
    case AddOp => LowSum(x, y);
    case SubOp => LowSum(x, y);
    case AndOp =>
      LowAnd(x, y);
      Same(Trunc(false, And(x, Low32(y))), Trunc(false, And(x, y)));
    case OrrOp =>
      LowOr(x, y);
      Same(Trunc(false, Or(x, Low32(y))), Trunc(false, Or(x, y)));
    case EorOp =>
      LowXor(x, y);
      Same(Trunc(false, Xor(x, Low32(y))), Trunc(false, Xor(x, y)));
  }

  lemma OpValues(op: BinaryOp, x: bv64, y: bv64)
    ensures op == AddOp ==> OpValue(op, x, y) == Plus(x, y)
    ensures op == SubOp ==> OpValue(op, x, y) == Minus(x, y)
    ensures op == AndOp ==> OpValue(op, x, y) == And(x, y)
    ensures op == OrrOp ==> OpValue(op, x, y) == Or(x, y)
    ensures op == EorOp ==> OpValue(op, x, y) == Xor(x, y)
  {
    hide Plus, Minus, And, Or, Xor;
  }

  /** Any x tells the two constants apart at full width, for a suitable x. */
  function Witness(op: BinaryOp): bv64 {
    if op == AndOp then 0xFFFF_FFFF_FFFF_FFFF else 0
  }

  lemma WitnessValue(op: BinaryOp, y: bv64)
    ensures Trunc(true, OpValue(op, Witness(op), y)) == if op == SubOp then 0 - y else y
  {}

  lemma NegationDiffers(y: bv64, z: bv64)
    requires y != z
    ensures 0 - y != 0 - z
  {}

  lemma OperandsDiffer(op: BinaryOp, imm: bv64, u: bv64)
    requires u != imm
    ensures Trunc(true, OpValue(op, Witness(op), u)) != Trunc(true, OpValue(op, Witness(op), imm))
  {
    hide *;
    WitnessValue(op, u);
    WitnessValue(op, imm);
    NegationDiffers(u, imm);
  }

  function Start(pc: bv64, n: bv32, x: bv64): (s: State)
    ensures s.pc == pc && Get(s.x, n) == x
  {
    State(pc, map[R(n) := x], 0, Flags(false, false, false, false), map[], map[])
  }

  /** Computing with any constant of the same low half gives the operation at 32 bits. */
  lemma LowOutcome(ws: seq<bv32>, pc: bv64, end: bv64, op: BinaryOp, d: bv32, n: bv32, m: bv32, u: bv64, imm: bv64)
    requires Computes(ws, pc, end, op, false, d, n, u, m) && Low32(u) == Low32(imm)
    ensures Computes(ws, pc, end, op, false, d, n, imm, m)
  {
    hide *;
    ComputesDefinition(ws, pc, end, op, false, d, n, u, m);
    ComputesDefinition(ws, pc, end, op, false, d, n, imm, m);
    forall s: State | s.pc == pc
      ensures Effect(Run(ws, s), s, end, d, Trunc(false, OpValue(op, Get(s.x, n), imm)), s.flags, m)
    {
      LowOperation(op, Get(s.x, n), imm);
      LowOperation(op, Get(s.x, n), u);
    }
  }

  /** Two general registers of the same width. */
  predicate SameWidth(rd: bv32, rn: bv32) {
    Is64Bit(rd) == Is64Bit(rn) && DecodeReg(rd) != 31 && DecodeReg(rn) != 31
  }

  lemma SameWidthDefinition(rd: bv32, rn: bv32)
    requires SameWidth(rd, rn)
    ensures Is64Bit(rd) == Is64Bit(rn) && DecodeReg(rd) <= 30 && DecodeReg(rn) <= 30
  {
    hide Is64Bit, DecodeReg;
    Below31(DecodeReg(rd));
    Below31(DecodeReg(rn));
  }

  /** A general register, of either width, other than rn. */
  predicate IsScratch(scratch: bv32, rn: bv32) {
    DecodeReg(scratch) != 31 && DecodeReg(rn) != 31 && DecodeReg(scratch) != DecodeReg(rn)
  }

  lemma IsScratchDefinition(scratch: bv32, rn: bv32)
    requires IsScratch(scratch, rn)
    ensures DecodeReg(scratch) <= 30 && DecodeReg(rn) <= 30 && DecodeReg(scratch) != DecodeReg(rn)
  {
    hide DecodeReg;
    Below31(DecodeReg(scratch));
    Below31(DecodeReg(rn));
  }

  lemma IsAddSubConstantDefinition(sf: bool, imm: bv64)
    ensures IsAddSubConstant(sf, imm) <==> imm == 0 || IsArithmetic(imm) || IsArithmetic(Negated(sf, imm))
  {
    hide IsArithmetic, Negated;
  }

  lemma EffectWeaken(t: Option<State>, s: State, end: bv64, d: bv32, v: bv64, f: Flags, sc: bv32)
    requires Effect(t, s, end, d, v, f, 31)
    ensures Effect(t, s, end, d, v, f, sc)
  {
    hide Get;
  }

  lemma ComputesWeaken(ws: seq<bv32>, pc: bv64, end: bv64, op: BinaryOp, sf: bool, d: bv32, n: bv32, imm: bv64,
                       sc: bv32)
    requires Computes(ws, pc, end, op, sf, d, n, imm, 31)
    ensures Computes(ws, pc, end, op, sf, d, n, imm, sc)
  {
    hide *;
    ComputesDefinition(ws, pc, end, op, sf, d, n, imm, 31);
    ComputesDefinition(ws, pc, end, op, sf, d, n, imm, sc);
    forall s: State | s.pc == pc
      ensures Effect(Run(ws, s), s, end, d, Trunc(sf, OpValue(op, Get(s.x, n), imm)), s.flags, sc)
    {
      EffectWeaken(Run(ws, s), s, end, d, Trunc(sf, OpValue(op, Get(s.x, n), imm)), s.flags, sc);
    }
  }

  /** What MOVI2R has done to the scratch register m: it holds a number with the low half of imm, and imm itself exactly
      under the condition for that; or, when the low half is 0, nothing was emitted for a W register. */
  ghost predicate Prepared(ws: seq<bv32>, pc: bv64, mid: bv64, m: bv32, sf: bool, imm: bv64, undefined: seq<bool>)
    requires |undefined| == 4
  {
    if ws == [] then mid == pc && !Leaves(sf, imm, pc, true, undefined)
    else
      exists u: bv64 :: Loads(ws, pc, mid, m, u) && Low32(u) == Low32(imm)
        && (u == imm <==> Leaves(sf, imm, pc, true, undefined))
  }

  lemma PreparedBy(ws: seq<bv32>, pc: bv64, mid: bv64, m: bv32, sf: bool, imm: bv64, undefined: seq<bool>, u: bv64)
    requires |undefined| == 4 && (Loads(ws, pc, mid, m, imm) <==> Leaves(sf, imm, pc, true, undefined))
    requires ws == [] ==> mid == pc
    requires ws != [] ==> Loads(ws, pc, mid, m, u) && Low32(u) == Low32(imm)
    ensures Prepared(ws, pc, mid, m, sf, imm, undefined)
  {
    hide Loads, Low32, Leaves;
    if ws == [] {
      NothingLoads(pc, mid, m, imm);
    } else {
      OutcomeOf(ws, pc, mid, m, u, imm);
    }
  }

  lemma PreparedWitness(ws: seq<bv32>, pc: bv64, mid: bv64, m: bv32, sf: bool, imm: bv64, undefined: seq<bool>)
    returns (u: bv64)
    requires |undefined| == 4 && ws != [] && Prepared(ws, pc, mid, m, sf, imm, undefined)
    ensures Loads(ws, pc, mid, m, u) && Low32(u) == Low32(imm)
    ensures u == imm <==> Leaves(sf, imm, pc, true, undefined)
  {
    hide Loads, Low32, Leaves;
    u :| Loads(ws, pc, mid, m, u) && Low32(u) == Low32(imm) && (u == imm <==> Leaves(sf, imm, pc, true, undefined));
  }

  lemma PreparedNothing(pc: bv64, mid: bv64, m: bv32, sf: bool, imm: bv64, undefined: seq<bool>)
    requires |undefined| == 4 && Prepared([], pc, mid, m, sf, imm, undefined)
    ensures mid == pc && !Leaves(sf, imm, pc, true, undefined)
  {
    hide Leaves;
  }

  /** A state with x in register n from which the scratch register ends up with another number than imm. */
  lemma Exposes(ws: seq<bv32>, pc: bv64, mid: bv64, n: bv32, m: bv32, x: bv64, sf: bool, imm: bv64,
                undefined: seq<bool>)
    returns (s: State, u: bv64)
    requires n != m && |undefined| == 4 && Prepared(ws, pc, mid, m, sf, imm, undefined)
    requires !Leaves(sf, imm, pc, true, undefined)
    ensures s.pc == pc && Get(s.x, n) == x && Run(ws, s) == Some(Put(s, mid, m, u)) && u != imm
  {
    hide *;
    s := Start(pc, n, x);
    if ws == [] {
      PreparedNothing(pc, mid, m, sf, imm, undefined);
      u := if imm == 0 then 1 else 0;
      PutGets(s, pc, m, u, n);
      PutTwice(s, pc, pc, m, u, u);
      s := Put(s, pc, m, u);
      RunNothing(s);
    } else {
      u := PreparedWitness(ws, pc, mid, m, sf, imm, undefined);
      LoadsAt(ws, pc, mid, m, u, s);
    }
  }

  lemma LoadsLowWitness(ws: seq<bv32>, pc: bv64, mid: bv64, m: bv32, imm: bv64) returns (u: bv64)
    requires LoadsLow(ws, pc, mid, m, imm)
    ensures Loads(ws, pc, mid, m, u) && Low32(u) == Low32(imm)
  {
    hide Loads, Low32;
    u :| Loads(ws, pc, mid, m, u) && Low32(u) == Low32(imm);
  }

  /** Only a constant whose low half is 0 can leave nothing in a W register. */
  lemma LowHalfLoads(imm: bv64, pc: bv64, undefined: seq<bool>)
    requires |undefined| == 4 && Low32(imm) != 0
    ensures !MissesLow(imm, pc, true, undefined)
  {
    hide *;
    MissesLowDefinition(imm, pc, true, undefined);
  }

  lemma InRangeWide(imm: bv64)
    ensures InRange(true, imm)
  {}

  lemma ZeroArithmetic()
    ensures IsArithmetic(0)
  {}

  lemma ArithmeticTrunc(sf: bool, imm: bv64)
    requires IsArithmetic(imm)
    ensures imm == 0 || Trunc(sf, imm) != 0
  {}

  lemma LowHalfSet(imm: bv64)
    ensures InRange(false, imm) && imm != 0 ==> Low32(imm) != 0
    ensures !IsAddSubConstant(false, imm) ==> Low32(imm) != 0
  {}

  /** MOVI2R into the scratch register m, then the register form. */
  lemma FallbackOutcome(ws: seq<bv32>, w: bv32, pc: bv64, mid: bv64, op: BinaryOp, sf: bool, d: bv32, n: bv32, m: bv32,
                        wide: bool, imm: bv64, undefined: seq<bool>)
    requires d <= 30 && n <= 30 && m <= 30 && n != m && |undefined| == 4 && (sf || ws != [])
    requires Decode(w) == Some(RegInstr(op, sf, m, n, d)) && Prepared(ws, pc, mid, m, wide, imm, undefined)
    ensures Computes(ws + [w], pc, Next(mid), op, sf, d, n, imm, m) <==> !sf || Leaves(wide, imm, pc, true, undefined)
  {
    hide *;
    if sf && !Leaves(wide, imm, pc, true, undefined) {
      var s, u := Exposes(ws, pc, mid, n, m, Witness(op), wide, imm, undefined);
      var got, asked := Trunc(sf, OpValue(op, Get(s.x, n), u)), Trunc(sf, OpValue(op, Get(s.x, n), imm));
      FallbackRuns(ws, w, s, mid, op, sf, d, n, m, u);
      OperandsDiffer(op, imm, u);
      ComputesDefinition(ws + [w], pc, Next(mid), op, sf, d, n, imm, m);
      if Effect(Run(ws + [w], s), s, Next(mid), d, asked, s.flags, m) {
        EffectValue(Run(ws + [w], s), s, Next(mid), d, got, asked, s.flags, m);
      }
    } else {
      if ws == [] {
        PreparedNothing(pc, mid, m, wide, imm, undefined);
      }
      var u := PreparedWitness(ws, pc, mid, m, wide, imm, undefined);
      FallbackComputes(ws, w, pc, mid, op, sf, d, n, m, u);
      if !sf {
        LowOutcome(ws + [w], pc, Next(mid), op, d, n, m, u, imm);
      }
    }
  }

  lemma RegInstrIs(op: BinaryOp, sf: bool, m: bv32, n: bv32, d: bv32)
    ensures op == AddOp || op == SubOp ==> RegInstr(op, sf, m, n, d) == AddSubReg(sf, op == SubOp, false, m, n, d)
    ensures !(op == AddOp || op == SubOp) ==>
      RegInstr(op, sf, m, n, d) == LogicalReg(sf, LogicalCode(op), false, m, n, d)
    ensures LogicalCode(op) <= 2
  {}

  /** What the logical-immediate recogniser is asked for, and what makes the constant usable. */
  ghost predicate IsLogicalConstant(sf: bool, imm: bv64) {
    imm == 0 || IsLogicalPattern(Widened(imm, Width(sf)))
  }

  lemma EncodingFields(n1: bv8, imms: bv8, immr: bv8)
    requires ValidEncoding(n1, imms, immr)
    ensures n1 <= 1 && immr <= 63 && imms <= 63
  {}

  lemma WidthIs(sf: bool)
    ensures Width(sf) == if sf then 64 else 32
  {}

  lemma TruncFits(sf: bool, imm: bv64)
    ensures InRange(sf, Trunc(sf, imm)) && Trunc(sf, Trunc(sf, imm)) == Trunc(sf, imm)
    ensures sf ==> Trunc(sf, imm) == imm
  {}

  /** At the register width, an operation with a constant is one with its low bits. */
  lemma TruncOutcome(ws: seq<bv32>, pc: bv64, end: bv64, op: BinaryOp, sf: bool, d: bv32, n: bv32, m: bv32, imm: bv64)
    ensures Computes(ws, pc, end, op, sf, d, n, Trunc(sf, imm), m) <==> Computes(ws, pc, end, op, sf, d, n, imm, m)
  {
    hide *;
    TruncIs(sf, imm);
    LowOfTrunc(sf, imm);
    if !sf && Computes(ws, pc, end, op, sf, d, n, Low32(imm), m) {
      LowOutcome(ws, pc, end, op, d, n, m, Low32(imm), imm);
    }
    if !sf && Computes(ws, pc, end, op, sf, d, n, imm, m) {
      LowOutcome(ws, pc, end, op, d, n, m, imm, Low32(imm));
    }
  }

  lemma IsLogicalConstantDefinition(sf: bool, imm: bv64)
    ensures IsLogicalConstant(sf, imm) <==> imm == 0 || IsLogicalPattern(Widened(imm, Width(sf)))
  {
    hide IsLogicalPattern, Widened, Width;
  }

  lemma LogicalCodes()
    ensures LogicalCode(AndOp) == 0 && LogicalCode(OrrOp) == 1 && LogicalCode(EorOp) == 2
  {}

  lemma ZeroLoads(sf: bool, pc: bv64, undefined: seq<bool>)
    requires |undefined| == 4
    ensures Leaves(sf, 0, pc, true, undefined)
  {
    hide *;
    MisloadsDefinition(sf, 0, pc, true, undefined);
    LeavesDefinition(sf, 0, pc, true, undefined);
  }

  lemma WidenedZero(sf: bool)
    ensures Widened(0, Width(sf)) == 0
  {}

  lemma ZeroNotLogical(sf: bool)
    ensures !IsLogicalPattern(Widened(0, Width(sf)))
  {
    hide *;
    WidenedZero(sf);
    PatternExactly(0);
  }

}
