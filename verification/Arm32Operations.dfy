/** Register-by-constant operations on ARM32: what they compute, and the instructions that compute them. */
module Arm32Operations {
  import opened Basics
  import opened Words32
  import opened Arm32Machine
  import Compare32

  datatype BinaryOp = AddOp | SubOp | AndOp | OrrOp | EorOp | BicOp | MovOp | MvnOp

  function OpValue(op: BinaryOp, x: bv32, y: bv32): bv32 {
    match op
    case AddOp => Plus(x, y)
    case SubOp => Minus(x, y)
    case AndOp => And(x, y)
    case OrrOp => Or(x, y)
    case EorOp => Xor(x, y)
    case BicOp => Clear(x, y)
    case MovOp => y
    case MvnOp => Not(y)
  }

  function OpCode(op: BinaryOp): bv32 {
    match op
    case AddOp => ADD
    case SubOp => SUB
    case AndOp => AND
    case OrrOp => ORR
    case EorOp => EOR
    case BicOp => BIC
    case MovOp => MOV
    case MvnOp => MVN
  }

  // ----- Specification -----

  /** v went to register d (15 for none) and the flags are as given; only register sc besides may have changed. */
  ghost predicate Effect(t: Option<State>, s: State, end: bv32, d: bv32, v: bv32, flags: Flags, sc: bv32) {
    && t.Some?
    && t.value.pc == end && t.value.flags == flags
    && (d != 15 ==> Get(t.value.r, d) == v)
    && forall r: bv32 :: r <= 14 && r != d && r != sc ==> Get(t.value.r, r) == Get(s.r, r)
  }

  /** From pc, when the condition does not hold, the words only move on to end. */
  ghost predicate Skips(ws: seq<bv32>, pc: bv32, end: bv32, cond: bv32) {
    forall s: State :: s.pc == pc && !Holds(cond, s.flags) ==> Run(ws, s) == Some(s.(pc := end))
  }

  /** From pc, the words leave r_n op val in r_d when the condition holds, and do nothing otherwise. */
  ghost predicate Computes(ws: seq<bv32>, pc: bv32, end: bv32, cond: bv32, op: BinaryOp, d: bv32, n: bv32, val: bv32,
                           sc: bv32) {
    && Skips(ws, pc, end, cond)
    && forall s: State :: s.pc == pc && Holds(cond, s.flags) ==>
         Effect(Run(ws, s), s, end, d, OpValue(op, Get(s.r, n), val), s.flags, sc)
  }

  /** From pc, the words leave flags that order r_n and val when the condition holds, and do nothing otherwise. */
  ghost predicate Compares(ws: seq<bv32>, pc: bv32, end: bv32, cond: bv32, n: bv32, val: bv32, sc: bv32) {
    && Skips(ws, pc, end, cond)
    && forall s: State :: s.pc == pc && Holds(cond, s.flags) ==>
         Effect(Run(ws, s), s, end, 15, 0, Compare32.Comparison(Get(s.r, n), val), sc)
  }

  lemma ComputesDefinition(ws: seq<bv32>, pc: bv32, end: bv32, cond: bv32, op: BinaryOp, d: bv32, n: bv32, val: bv32,
                           sc: bv32)
    ensures Computes(ws, pc, end, cond, op, d, n, val, sc)
       <==>
         && Skips(ws, pc, end, cond)
         && forall s: State :: s.pc == pc && Holds(cond, s.flags) ==>
              Effect(Run(ws, s), s, end, d, OpValue(op, Get(s.r, n), val), s.flags, sc)
  {
    hide Run, Effect, OpValue, Holds, Skips;
  }

  lemma OrderingFlags(x: bv32, y: bv32)
    ensures CompareFlags(false, x, y) == Compare32.Comparison(x, y)
  {
    hide Compare32.SubFlags, Compare32.Comparison;
    Compare32.SubFlagsOrder(x, y);
  }

  /** Which operands each condition picks after a comparison: equality, unsigned order, the sign of the difference,
      overflow, unsigned order again, and signed order. */
  lemma ConditionsOrder(x: bv32, y: bv32)
    ensures var f, below, less := Compare32.Comparison(x, y), Compare32.IsBelow(x, y), Compare32.IsLess(x, y);
            && (Holds(0, f) <==> x == y) && (Holds(1, f) <==> x != y)
            && (Holds(2, f) <==> !below) && (Holds(3, f) <==> below)
            && (Holds(4, f) <==> Compare32.IsNegative(Minus(x, y)))
            && (Holds(5, f) <==> !Compare32.IsNegative(Minus(x, y)))
            && (Holds(6, f) <==> Compare32.IsNegative(Minus(x, y)) != less)
            && (Holds(7, f) <==> Compare32.IsNegative(Minus(x, y)) == less)
            && (Holds(8, f) <==> !below && x != y) && (Holds(9, f) <==> below || x == y)
            && (Holds(10, f) <==> !less) && (Holds(11, f) <==> less)
            && (Holds(12, f) <==> !less && x != y) && (Holds(13, f) <==> less || x == y)
            && Holds(14, f)
  {
    hide Compare32.IsLess, Compare32.IsBelow, Compare32.IsNegative, Minus;
  }

  lemma ComparesDefinition(ws: seq<bv32>, pc: bv32, end: bv32, cond: bv32, n: bv32, val: bv32, sc: bv32)
    ensures Compares(ws, pc, end, cond, n, val, sc)
       <==>
         && Skips(ws, pc, end, cond)
         && forall s: State :: s.pc == pc && Holds(cond, s.flags) ==>
              Effect(Run(ws, s), s, end, 15, 0, CompareFlags(false, Get(s.r, n), val), sc)
  {
    hide Run, Effect, CompareFlags, Holds, Skips, Compare32.Comparison;
    forall s: State
      ensures CompareFlags(false, Get(s.r, n), val) == Compare32.Comparison(Get(s.r, n), val)
    {
      OrderingFlags(Get(s.r, n), val);
    }
  }

  // ----- Appending words -----

  /** One word was appended, and it decodes to i. */
  ghost predicate Emits(before: seq<bv32>, after: seq<bv32>, i: Instr) {
    |after| == |before| + 1 && after[..|before|] == before && Decode(after[|before|]) == Some(i)
  }

  lemma EmitsLast(before: seq<bv32>, after: seq<bv32>, w: bv32, i: Instr)
    requires after == before + [w] && Decode(w) == Some(i)
    ensures Emits(before, after, i)
  {
    hide Decode;
  }

  lemma EmitsSuffix(start: nat, before: seq<bv32>, after: seq<bv32>, i: Instr) returns (w: bv32)
    requires Emits(before, after, i) && start <= |before|
    ensures start <= |after| && after[start..] == before[start..] + [w] && Decode(w) == Some(i)
    ensures after[..start] == before[..start]
  {
    hide Decode;
    w := after[|before|];
    assert after == before + [w];
  }

  // ----- Values -----

  lemma OpCodes(op: BinaryOp)
    ensures OpCode(op) <= 15 && OpCode(op) & 0xC != 8 && IsModelled(OpCode(op))
  {}

  lemma OpValues(op: BinaryOp, x: bv32, y: bv32)
    ensures DataValue(OpCode(op), x, y) == OpValue(op, x, y)
  {
    hide And, Or, Xor, Plus, Minus, Not, Clear;
  }

  lemma RunDataImm(w: bv32, s: State, cond: bv32, op: BinaryOp, n: bv32, d: bv32, imm12: bv32)
    requires Decode(w) == Some(DataImm(cond, OpCode(op), false, n, d, imm12)) && Holds(cond, s.flags)
    ensures RunOne(w, s) == Some(Put(s, Next(s.pc), d, OpValue(op, Get(s.r, n), ExpandImm(imm12))))
  {
    hide Decode, Next, ExpandImm, OpCode, DataValue, OpValue, Holds, IsModelled, Put, Get;
    OpCodes(op);
    OpValues(op, Get(s.r, n), ExpandImm(imm12));
  }

  lemma RunDataReg(w: bv32, s: State, cond: bv32, op: BinaryOp, n: bv32, d: bv32, m: bv32)
    requires Decode(w) == Some(DataReg(cond, OpCode(op), false, n, d, m)) && Holds(cond, s.flags)
    ensures RunOne(w, s) == Some(Put(s, Next(s.pc), d, OpValue(op, Get(s.r, n), Get(s.r, m))))
  {
    hide Decode, Next, OpCode, DataValue, OpValue, Holds, IsModelled, Put, Get;
    OpCodes(op);
    OpValues(op, Get(s.r, n), Get(s.r, m));
  }

  lemma PutEffect(s: State, end: bv32, d: bv32, v: bv32, sc: bv32)
    requires d <= 14
    ensures Effect(Some(Put(s, end, d, v)), s, end, d, v, s.flags, sc)
  {}

  /** One more word after words with an effect on the same register. */
  lemma EffectThen(t: State, s: State, mid: bv32, end: bv32, d: bv32, u: bv32, v: bv32, sc: bv32)
    requires d <= 14 && Effect(Some(t), s, mid, d, u, s.flags, sc)
    ensures Get(t.r, d) == u && t.pc == mid && t.flags == s.flags
    ensures Effect(Some(Put(t, end, d, v)), s, end, d, v, s.flags, sc)
  {}

  lemma EffectSome(t: Option<State>, s: State, end: bv32, d: bv32, v: bv32, flags: Flags, sc: bv32)
    requires Effect(t, s, end, d, v, flags, sc)
    ensures t.Some?
  {
    hide Get;
  }

  lemma ScratchThen(t: State, s: State, mid: bv32, end: bv32, m: bv32, n: bv32, d: bv32, u: bv32, v: bv32)
    requires d <= 14 && m <= 14 && n <= 14 && n != m && Effect(Some(t), s, mid, m, u, s.flags, 15)
    ensures Get(t.r, m) == u && Get(t.r, n) == Get(s.r, n) && t.pc == mid && t.flags == s.flags
    ensures Effect(Some(Put(t, end, d, v)), s, end, d, v, s.flags, m)
  {}

  lemma RunOneWord(w: bv32, s: State)
    ensures Run([w], s) == RunOne(w, s)
  {
    hide RunOne;
    assert [] + [w] == [w];
    RunSnoc([], w, s);
  }

  // ----- Words that are skipped -----

  lemma SkipsNothing(pc: bv32, cond: bv32)
    ensures Skips([], pc, pc, cond)
  {
    hide Holds;
  }

  lemma SkipsNext(ws: seq<bv32>, w: bv32, pc: bv32, mid: bv32, cond: bv32, i: Instr)
    requires Skips(ws, pc, mid, cond) && Decode(w) == Some(i) && !i.Branch? && i.cond == cond
    ensures Skips(ws + [w], pc, Next(mid), cond)
  {
    hide Run, Decode, Holds, Next, StepData;
    forall s: State | s.pc == pc && !Holds(cond, s.flags)
      ensures Run(ws + [w], s) == Some(s.(pc := Next(mid)))
    {
      RunSnoc(ws, w, s);
    }
  }

  lemma SkipsOne(w: bv32, pc: bv32, cond: bv32, i: Instr)
    requires Decode(w) == Some(i) && !i.Branch? && i.cond == cond
    ensures Skips([w], pc, Next(pc), cond)
  {
    hide *;
    SkipsNothing(pc, cond);
    SkipsNext([], w, pc, pc, cond, i);
    assert [] + [w] == [w];
  }

  // ----- Words that compute an operation -----

  /** One immediate instruction `via` that has the effect of op with val. */
  lemma ImmComputes(w: bv32, pc: bv32, cond: bv32, op: BinaryOp, d: bv32, n: bv32, val: bv32, via: BinaryOp,
                    from: bv32, imm12: bv32)
    requires d <= 14 && Decode(w) == Some(DataImm(cond, OpCode(via), false, from, d, imm12))
    requires from == n || via == MovOp || via == MvnOp
    requires forall x: bv32 :: OpValue(via, x, ExpandImm(imm12)) == OpValue(op, x, val)
    requires from != n ==> forall x: bv32, y: bv32 :: OpValue(op, x, val) == OpValue(op, y, val)
    ensures Computes([w], pc, Next(pc), cond, op, d, n, val, 15)
  {
    hide *;
    SkipsOne(w, pc, cond, DataImm(cond, OpCode(via), false, from, d, imm12));
    forall s: State | s.pc == pc && Holds(cond, s.flags)
      ensures Effect(Run([w], s), s, Next(pc), d, OpValue(op, Get(s.r, n), val), s.flags, 15)
    {
      RunOneWord(w, s);
      RunDataImm(w, s, cond, via, from, d, imm12);
      assert OpValue(op, Get(s.r, from), val) == OpValue(op, Get(s.r, n), val);
      PutEffect(s, Next(pc), d, OpValue(op, Get(s.r, n), val), 15);
    }
    ComputesDefinition([w], pc, Next(pc), cond, op, d, n, val, 15);
  }

  /** A plain move stands for an operation with a constant that changes nothing. */
  lemma MoveComputes(w: bv32, pc: bv32, cond: bv32, op: BinaryOp, d: bv32, n: bv32)
    requires d <= 14 && Decode(w) == Some(DataReg(cond, OpCode(MovOp), false, 0, d, n))
    requires forall x: bv32 :: OpValue(op, x, 0) == x
    ensures Computes([w], pc, Next(pc), cond, op, d, n, 0, 15)
  {
    hide *;
    SkipsOne(w, pc, cond, DataReg(cond, OpCode(MovOp), false, 0, d, n));
    forall s: State | s.pc == pc && Holds(cond, s.flags)
      ensures Effect(Run([w], s), s, Next(pc), d, OpValue(op, Get(s.r, n), 0), s.flags, 15)
    {
      RunOneWord(w, s);
      RunDataReg(w, s, cond, MovOp, 0, d, n);
      MovValue(Get(s.r, 0), Get(s.r, n));
      PutEffect(s, Next(pc), d, Get(s.r, n), 15);
    }
    ComputesDefinition([w], pc, Next(pc), cond, op, d, n, 0, 15);
  }

  lemma MovValue(x: bv32, y: bv32)
    ensures OpValue(MovOp, x, y) == y
  {}

  lemma NothingComputes(pc: bv32, cond: bv32, op: BinaryOp, d: bv32)
    requires d <= 14
    requires forall x: bv32 :: OpValue(op, x, 0) == x
    ensures Computes([], pc, pc, cond, op, d, d, 0, 15)
  {
    hide *;
    SkipsNothing(pc, cond);
    forall s: State | s.pc == pc && Holds(cond, s.flags)
      ensures Effect(Run([], s), s, pc, d, OpValue(op, Get(s.r, d), 0), s.flags, 15)
    {
      NoEffect(s, d);
    }
    ComputesDefinition([], pc, pc, cond, op, d, d, 0, 15);
  }

  lemma NoEffect(s: State, d: bv32)
    ensures Run([], s) == Some(s) && Effect(Some(s), s, s.pc, d, Get(s.r, d), s.flags, 15)
  {}

  lemma ZeroNeutral(op: BinaryOp, x: bv32)
    requires op == AddOp || op == SubOp || op == OrrOp || op == EorOp
    ensures OpValue(op, x, 0) == x
  {}

  /** A second immediate instruction on the result of the first words. */
  lemma ThenComputes(ws: seq<bv32>, w: bv32, pc: bv32, mid: bv32, cond: bv32, op: BinaryOp, d: bv32, n: bv32,
                     val: bv32, via: BinaryOp, imm12: bv32, val': bv32)
    requires d <= 14 && Computes(ws, pc, mid, cond, op, d, n, val, 15)
    requires Decode(w) == Some(DataImm(cond, OpCode(via), false, d, d, imm12))
    requires forall x: bv32 :: OpValue(via, OpValue(op, x, val), ExpandImm(imm12)) == OpValue(op, x, val')
    ensures Computes(ws + [w], pc, Next(mid), cond, op, d, n, val', 15)
  {
    hide *;
    ComputesDefinition(ws, pc, mid, cond, op, d, n, val, 15);
    SkipsNext(ws, w, pc, mid, cond, DataImm(cond, OpCode(via), false, d, d, imm12));
    forall s: State | s.pc == pc && Holds(cond, s.flags)
      ensures Effect(Run(ws + [w], s), s, Next(mid), d, OpValue(op, Get(s.r, n), val'), s.flags, 15)
    {
      var u := OpValue(op, Get(s.r, n), val);
      EffectSome(Run(ws, s), s, mid, d, u, s.flags, 15);
      var t := Run(ws, s).value;
      RunSnoc(ws, w, s);
      EffectThen(t, s, mid, Next(mid), d, u, OpValue(op, Get(s.r, n), val'), 15);
      RunDataImm(w, t, cond, via, d, d, imm12);
    }
    ComputesDefinition(ws + [w], pc, Next(mid), cond, op, d, n, val', 15);
  }

  /** A constant loaded into the scratch register m, then the register form. */
  lemma FallbackComputes(ws: seq<bv32>, w: bv32, pc: bv32, mid: bv32, cond: bv32, op: BinaryOp, d: bv32, n: bv32,
                         m: bv32, val: bv32)
    requires d <= 14 && n <= 14 && m <= 14 && n != m
    requires Computes(ws, pc, mid, cond, MovOp, m, m, val, 15)
             && Decode(w) == Some(DataReg(cond, OpCode(op), false, n, d, m))
    ensures Computes(ws + [w], pc, Next(mid), cond, op, d, n, val, m)
  {
    hide *;
    ComputesDefinition(ws, pc, mid, cond, MovOp, m, m, val, 15);
    SkipsNext(ws, w, pc, mid, cond, DataReg(cond, OpCode(op), false, n, d, m));
    forall s: State | s.pc == pc && Holds(cond, s.flags)
      ensures Effect(Run(ws + [w], s), s, Next(mid), d, OpValue(op, Get(s.r, n), val), s.flags, m)
    {
      MovValue(Get(s.r, m), val);
      EffectSome(Run(ws, s), s, mid, m, val, s.flags, 15);
      var t := Run(ws, s).value;
      RunSnoc(ws, w, s);
      ScratchThen(t, s, mid, Next(mid), m, n, d, val, OpValue(op, Get(s.r, n), val));
      RunDataReg(w, t, cond, op, n, d, m);
    }
    ComputesDefinition(ws + [w], pc, Next(mid), cond, op, d, n, val, m);
  }

  lemma EffectWeaken(t: Option<State>, s: State, end: bv32, d: bv32, v: bv32, f: Flags, sc: bv32)
    requires Effect(t, s, end, d, v, f, 15)
    ensures Effect(t, s, end, d, v, f, sc)
  {
    hide Get;
  }

  lemma ComputesWeaken(ws: seq<bv32>, pc: bv32, end: bv32, cond: bv32, op: BinaryOp, d: bv32, n: bv32, val: bv32,
                       sc: bv32)
    requires Computes(ws, pc, end, cond, op, d, n, val, 15)
    ensures Computes(ws, pc, end, cond, op, d, n, val, sc)
  {
    hide *;
    ComputesDefinition(ws, pc, end, cond, op, d, n, val, 15);
    ComputesDefinition(ws, pc, end, cond, op, d, n, val, sc);
    forall s: State | s.pc == pc && Holds(cond, s.flags)
      ensures Effect(Run(ws, s), s, end, d, OpValue(op, Get(s.r, n), val), s.flags, sc)
    {
      EffectWeaken(Run(ws, s), s, end, d, OpValue(op, Get(s.r, n), val), s.flags, sc);
    }
  }
}
