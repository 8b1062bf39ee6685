/** The ARM32 emitter: constants and operations with constants. */
module Arm32Emission {
  import opened Words32
  import opened Arm32Machine
  import opened Arm32Encode
  import opened Arm32Operands
  import opened Arm32Operations
  import opened Arm32Windows
  import opened Arm32Constants
  import opened Arm32Branches

  class ARMXEmitter {
    /** Whether the instructions of ARMv7 (MOVW, MOVT, UBFX) may be used. */
    const v7: bool
    var words: seq<bv32>
    var code: bv32
    /** The condition of everything emitted now. */
    var condition: bv32

    constructor (v7: bool, start: bv32)
      ensures this.v7 == v7 && words == [] && code == start && condition == 14
    {
      this.v7 := v7;
      words, code, condition := [], start, 14;
    }

    method SetCC(cond: bv32)
      requires IsCond(cond)
      modifies this`condition
      ensures condition == cond
    {
      condition := cond;
    }

    // ----- Encoders -----

    method Write32(word: bv32)
      modifies this`words, this`code
      ensures words == old(words) + [word] && code == Next(old(code))
    {
      words := words + [word];
      code := Next(code);
    }

    method WriteInstruction(op: bv32, rd: bv32, rn: bv32, operand: DataOperand, setFlags: bool)
      requires IsCond(condition) && IsDataOp(op, setFlags) && rd <= 15 && rn <= 15 && Fits(operand)
      modifies this`words, this`code
      ensures Emits(old(words), words, DataInstr(condition, op, setFlags, rn, rd, operand))
              && code == Next(old(code))
    {
      hide *;
      IsCondIs(condition);
      var word := DataWord(condition, op, setFlags, rn, rd, operand);
      Write32(word);
      EmitsLast(old(words), words, word, DataInstr(condition, op, setFlags, rn, rd, operand));
    }

    method WriteImm(op: BinaryOp, rd: bv32, rn: bv32, op2: Operand2)
      requires IsCond(condition) && rd <= 15 && rn <= 15
      modifies this`words, this`code
      ensures Emits(old(words), words, DataImm(condition, OpCode(op), false, rn, rd, Imm12Mod(op2)))
              && code == Next(old(code))
    {
      hide *;
      OpCodes(op);
      DataOpIs(OpCode(op), false);
      ImmediateIs(condition, OpCode(op), false, rn, rd, Imm12Mod(op2));
      WriteInstruction(OpCode(op), rd, rn, Immediate(Imm12Mod(op2)), false);
    }

    method WriteReg(op: BinaryOp, rd: bv32, rn: bv32, rm: bv32)
      requires IsCond(condition) && rd <= 15 && rn <= 15 && rm <= 15
      modifies this`words, this`code
      ensures Emits(old(words), words, DataReg(condition, OpCode(op), false, rn, rd, rm)) && code == Next(old(code))
    {
      hide *;
      OpCodes(op);
      DataOpIs(OpCode(op), false);
      RegisterIs(condition, OpCode(op), false, rn, rd, rm);
      WriteInstruction(OpCode(op), rd, rn, Register(rm), false);
    }

    method WriteMovw(rd: bv32, value: bv32)
      requires IsCond(condition) && rd <= 15 && value <= 0xFFFF
      modifies this`words, this`code
      ensures Emits(old(words), words, MovWide(condition, false, rd, value)) && code == Next(old(code))
    {
      hide *;
      IsCondIs(condition);
      var word := MovwWord(condition, rd, value);
      Write32(word);
      EmitsLast(old(words), words, word, MovWide(condition, false, rd, value));
    }

    /** MOVT of the top half of value. */
    method WriteMovt(rd: bv32, value: bv32)
      requires IsCond(condition) && rd <= 15
      modifies this`words, this`code
      ensures Emits(old(words), words, MovWide(condition, true, rd, HighHalf(value))) && code == Next(old(code))
    {
      hide *;
      IsCondIs(condition);
      var word := MovtWord(condition, rd, HighHalf(value));
      Write32(word);
      EmitsLast(old(words), words, word, MovWide(condition, true, rd, HighHalf(value)));
    }

    // ----- Windows -----

    /** How many windows the loop over val takes. */
    static method CountWindows(val: bv32) returns (ops: nat)
      ensures ops == WindowCount(val, 0)
    {
      hide *;
      ops := 0;
      var i: bv32 := 0;
      ZeroEven();
      while i < 32
        invariant i <= 39 && IsEven(i) && ops + WindowCount(val, i) == WindowCount(val, 0)
        decreases 64 - i
      {
        CountIs(val, i);
        Advance(i);
        if StartsWindow(val, i) {
          ops := ops + 1;
          i := i + 8;
        } else {
          i := i + 2;
        }
      }
      CountEnd(val, i);
    }

    /** The loops that combine a constant from windows: ORR, BIC of the complement, or MOV and then ORR. */
    method EmitWindows(op: BinaryOp, rd: bv32, rs: bv32, val: bv32)
      requires IsCond(condition) && rd <= 14 && rs <= 14 && TakesWindows(op)
      modifies this`words, this`code
      ensures old(words) <= words && |words| - |old(words)| == WindowCount(val, 0) <= 4
      ensures val == 0 ==> words == old(words) && code == old(code)
      ensures val != 0 ==> words != old(words)
      ensures val != 0 ==> Computes(words[|old(words)|..], old(code), code, condition, op, rd, rs, val, 15)
    {
      hide *;
      ghost var before, pc := words, code;
      var first := true;
      var i: bv32 := 0;
      assert words[|before|..] == [];
      WindowStart(pc, condition, op, rd, rs, val);
      WindowBounds([], pc, pc, condition, op, rd, rs, val, 0);
      while i < 32
        invariant before <= words && first == (words[|before|..] == []) && i <= 39
        invariant WindowState(words[|before|..], pc, code, condition, op, rd, rs, val, i)
        decreases 64 - i
      {
        ghost var middle, mid, wide, narrow := words, code, i + 8, i + 2;
        WindowBounds(words[|before|..], pc, code, condition, op, rd, rs, val, i);
        Advance(i);
        if StartsWindow(val, i) {
          var op2 := WindowOperand(val, i);
          WriteWindow(op, first, rd, rs, op2);
          ghost var w := EmitsSuffix(|before|, middle, words, WindowInstr(condition, op, first, rd, rs, op2));
          WindowTaken(middle[|before|..], w, pc, mid, condition, op, rd, rs, val, i, wide, op2);
          first := false;
          i := i + 8;
        } else {
          WindowSkipped(words[|before|..], pc, code, condition, op, rd, rs, val, i, narrow);
          i := i + 2;
        }
      }
      WindowEnd(words[|before|..], pc, code, condition, op, rd, rs, val, i);
    }

    method WriteWindow(op: BinaryOp, first: bool, rd: bv32, rs: bv32, op2: Operand2)
      requires IsCond(condition) && rd <= 14 && rs <= 14
      modifies this`words, this`code
      ensures Emits(old(words), words, WindowInstr(condition, op, first, rd, rs, op2)) && code == Next(old(code))
    {
      hide *;
      WindowInstrIs(condition, op, first, rd, rs, op2);
      if first {
        WriteImm(op, rd, if op == MovOp then 0 else rs, op2);
      } else {
        WriteImm(Following(op), rd, rd, op2);
      }
    }

    /** A MOV and at most one ORR, from windows that do not wrap. */
    method TrySetValueTwoOp(rd: bv32, val: bv32) returns (ok: bool)
      requires IsCond(condition) && rd <= 14
      modifies this`words, this`code
      ensures ok <==> WindowCount(val, 0) <= 2
      ensures old(words) <= words && |words| - |old(words)| <= 2
      ensures !ok || val == 0 ==> words == old(words) && code == old(code)
      ensures ok && val != 0 ==> words != old(words)
      ensures ok && val != 0 ==> Computes(words[|old(words)|..], old(code), code, condition, MovOp, rd, rd, val, 15)
    {
      hide *;
      ghost var before, pc := words, code;
      var ops := CountWindows(val);
      if ops > 2 {
        return false;
      }
      var first := true;
      var i, rest: bv32 := 0, val;
      assert words[|before|..] == [];
      TakesWindowsIs(MovOp);
      WindowStart(pc, condition, MovOp, rd, rd, val);
      WindowBounds([], pc, pc, condition, MovOp, rd, rd, val, 0);
      RestStart(val);
      while i < 32
        invariant before <= words && first == (words[|before|..] == []) && i <= 39 && IsRest(rest, val, i)
        invariant WindowState(words[|before|..], pc, code, condition, MovOp, rd, rd, val, i)
        decreases 64 - i
      {
        ghost var middle, mid, wide, narrow := words, code, i + 8, i + 2;
        WindowBounds(words[|before|..], pc, code, condition, MovOp, rd, rd, val, i);
        Advance(i);
        RestStep(rest, val, i);
        if rest & 3 != 0 {
          var op2 := Operand2(rest & 0xFF, (16 - (i >> 1)) & 0xF);
          WriteWindow(MovOp, first, rd, rd, op2);
          ghost var w := EmitsSuffix(|before|, middle, words, WindowInstr(condition, MovOp, first, rd, rd, op2));
          WindowTaken(middle[|before|..], w, pc, mid, condition, MovOp, rd, rd, val, i, wide, op2);
          first := false;
          rest := rest >> 8;
          i := i + 8;
        } else {
          WindowSkipped(words[|before|..], pc, code, condition, MovOp, rd, rd, val, i, narrow);
          rest := rest >> 2;
          i := i + 2;
        }
      }
      WindowEnd(words[|before|..], pc, code, condition, MovOp, rd, rd, val, i);
      return true;
    }

    // ----- Constants -----

    method MOVI2R(rd: bv32, val: bv32, optimize: bool)
      requires IsCond(condition) && rd <= 14
      modifies this`words, this`code
      ensures old(words) <= words && 1 <= |words| - |old(words)| <= 4
      ensures Computes(words[|old(words)|..], old(code), code, condition, MovOp, rd, rd, val, 15)
    {
      hide *;
      ghost var before, pc := words, code;
      ghost var w: bv32;
      if v7 && !optimize {
        MoveHalves(rd, val, true);
        return;
      }
      var found, op2, inverse := TryMakeOperand2AllowInverse(val);
      if found {
        WriteImm(if inverse then MvnOp else MovOp, rd, 0, op2);
        w := EmitsSuffix(|before|, before, words,
                         DataImm(condition, OpCode(if inverse then MvnOp else MovOp), false, 0, rd, Imm12Mod(op2)));
        assert words[|before|..] == [w];
        MoveConstant(w, pc, condition, rd, val, inverse, op2);
        return;
      }
      if v7 {
        MoveHalves(rd, val, false);
        return;
      }
      ZeroIsOperand2();
      var done := TrySetValueTwoOp(rd, val);
      if !done {
        TakesWindowsIs(MovOp);
        EmitWindows(MovOp, rd, rd, val);
      }
    }

    /** MOVW and then MOVT, which may be left out when the top half is 0. */
    method MoveHalves(rd: bv32, val: bv32, both: bool)
      requires IsCond(condition) && rd <= 14
      modifies this`words, this`code
      ensures old(words) <= words && 1 <= |words| - |old(words)| <= 2
      ensures Computes(words[|old(words)|..], old(code), code, condition, MovOp, rd, rd, val, 15)
    {
      hide *;
      ghost var before, pc := words, code;
      WriteMovw(rd, LowHalf(val));
      ghost var w := EmitsSuffix(|before|, before, words, MovWide(condition, false, rd, LowHalf(val)));
      assert words[|before|..] == [w];
      MovwComputes(w, pc, condition, rd, val);
      if both || HighHalf(val) != 0 {
        ghost var middle, mid := words, code;
        WriteMovt(rd, val);
        ghost var v := EmitsSuffix(|before|, middle, words, MovWide(condition, true, rd, HighHalf(val)));
        MovtComputes(middle[|before|..], v, pc, mid, condition, rd, val);
      } else {
        NoHighHalf(val);
      }
    }

    // ----- Operations with a constant -----

    /** An operation with 0 that changes nothing: a move, or nothing at all. */
    method WriteMove(op: BinaryOp, rd: bv32, rs: bv32)
      requires IsCond(condition) && rd <= 14 && rs <= 14
      requires op == AddOp || op == SubOp || op == OrrOp || op == EorOp
      modifies this`words, this`code
      ensures old(words) <= words && |words| - |old(words)| <= 1
      ensures Computes(words[|old(words)|..], old(code), code, condition, op, rd, rs, 0, 15)
    {
      hide *;
      ghost var before, pc := words, code;
      forall x: bv32
        ensures OpValue(op, x, 0) == x
      {
        ZeroNeutral(op, x);
      }
      if rd != rs {
        WriteReg(MovOp, rd, 0, rs);
        ghost var w := EmitsSuffix(|before|, before, words, DataReg(condition, OpCode(MovOp), false, 0, rd, rs));
        assert words[|before|..] == [w];
        MoveComputes(w, pc, condition, op, rd, rs);
      } else {
        assert words[|before|..] == [];
        NothingComputes(pc, condition, op, rd);
      }
    }

    /** One immediate instruction. */
    method WritePlain(op: BinaryOp, rd: bv32, rs: bv32, op2: Operand2, ghost val: bv32)
      requires IsCond(condition) && rd <= 14 && rs <= 14 && Expanded(op2) == val
      modifies this`words, this`code
      ensures old(words) <= words && |words| - |old(words)| == 1
      ensures Computes(words[|old(words)|..], old(code), code, condition, op, rd, rs, val, 15)
    {
      hide *;
      ghost var before, pc := words, code;
      WriteImm(op, rd, rs, op2);
      ghost var w := EmitsSuffix(|before|, before, words, DataImm(condition, OpCode(op), false, rs, rd, Imm12Mod(op2)));
      assert words[|before|..] == [w];
      PlainComputes(w, pc, condition, op, rd, rs, val, op2);
    }

    /** Two immediate instructions for a 16-bit constant. */
    method WriteTwoSteps(op: BinaryOp, rd: bv32, rs: bv32, val: bv32)
      requires IsCond(condition) && rd <= 14 && rs <= 14 && (op == AddOp || op == SubOp) && IsShort(val)
      modifies this`words, this`code
      ensures old(words) <= words && |words| - |old(words)| == 2
      ensures Computes(words[|old(words)|..], old(code), code, condition, op, rd, rs, val, 15)
    {
      hide *;
      ghost var before, pc := words, code;
      WriteImm(op, rd, rs, UpperByte(val));
      ghost var middle := words;
      ghost var w := EmitsSuffix(|before|, before, words,
                                 DataImm(condition, OpCode(op), false, rs, rd, Imm12Mod(UpperByte(val))));
      WriteImm(op, rd, rd, LowerByte(val));
      ghost var v := EmitsSuffix(|before|, middle, words,
                                 DataImm(condition, OpCode(op), false, rd, rd, Imm12Mod(LowerByte(val))));
      assert words[|before|..] == [w, v];
      TwoStepsCompute(words[|before|..], w, v, pc, condition, op, rd, rs, val);
    }

    method TryADDI2R(rd: bv32, rs: bv32, val: bv32) returns (ok: bool)
      requires IsCond(condition) && rd <= 14 && rs <= 14
      modifies this`words, this`code
      ensures ok <==> val == 0 || IsOperand2(val) || IsOperand2(Negate(val)) || val <= 0xFFFF || Negate(val) <= 0xFFFF
      ensures old(words) <= words && |words| - |old(words)| <= 2
      ensures ok ==> Computes(words[|old(words)|..], old(code), code, condition, AddOp, rd, rs, val, 15)
      ensures !ok ==> words == old(words) && code == old(code)
    {
      hide *;
      ghost var before, pc := words, code;
      IsShortIs(val);
      IsShortIs(Negate(val));
      if val == 0 {
        WriteMove(AddOp, rd, rs);
        return true;
      }
      forall x: bv32
        ensures OpValue(SubOp, x, Negate(val)) == OpValue(AddOp, x, val)
      {
        NegatedValues(x, val);
      }
      var found, op2, negated := TryMakeOperand2AllowNegation(val);
      if found {
        if !negated {
          WritePlain(AddOp, rd, rs, op2, val);
        } else {
          WritePlain(SubOp, rd, rs, op2, Negate(val));
          ComputesAlike(words[|before|..], pc, code, condition, SubOp, rd, rs, Negate(val), AddOp, val);
        }
        return true;
      } else if IsShort(val) {
        WriteTwoSteps(AddOp, rd, rs, val);
        return true;
      } else if IsShort(Negate(val)) {
        WriteTwoSteps(SubOp, rd, rs, Negate(val));
        ComputesAlike(words[|before|..], pc, code, condition, SubOp, rd, rs, Negate(val), AddOp, val);
        return true;
      }
      return false;
    }

    method TrySUBI2R(rd: bv32, rs: bv32, val: bv32) returns (ok: bool)
      requires IsCond(condition) && rd <= 14 && rs <= 14
      modifies this`words, this`code
      ensures ok <==>
        || val == 0 || IsOperand2(val) || IsOperand2(Negate(val)) || val <= 0xFFFF || Negate(val) <= 0xFFFF
      ensures old(words) <= words && |words| - |old(words)| <= 2
      ensures ok ==> Computes(words[|old(words)|..], old(code), code, condition, SubOp, rd, rs, val, 15)
      ensures !ok ==> words == old(words) && code == old(code)
    {
      hide *;
      ghost var before, pc := words, code;
      NegatedTwice(val);
      ok := TryADDI2R(rd, rs, Negate(val));
      if ok {
        forall x: bv32
          ensures OpValue(AddOp, x, Negate(val)) == OpValue(SubOp, x, val)
        {
          NegatedValues(x, val);
        }
        ComputesAlike(words[|before|..], pc, code, condition, AddOp, rd, rs, Negate(val), SubOp, val);
      }
    }

    method TryORI2R(rd: bv32, rs: bv32, val: bv32) returns (ok: bool)
      requires IsCond(condition) && rd <= 14 && rs <= 14
      modifies this`words, this`code
      ensures ok <==>
        || val == 0 || IsOperand2(val)
        || (!(IsOperand2(Not(val)) && WindowCount(val, 0) >= 3) && (v7 ==> WindowCount(val, 0) <= 3))
      ensures old(words) <= words && |words| - |old(words)| <= 4
      ensures ok ==> Computes(words[|old(words)|..], old(code), code, condition, OrrOp, rd, rs, val, 15)
      ensures !ok ==> words == old(words) && code == old(code)
    {
      hide *;
      if val == 0 {
        WriteMove(OrrOp, rd, rs);
        return true;
      }
      var found, op2 := TryMakeOperand2(val);
      if found {
        WritePlain(OrrOp, rd, rs, op2, val);
        return true;
      }
      var ops := CountWindows(val);
      var either, op3, inversed := TryMakeOperand2AllowInverse(val);
      if either && ops >= 3 {
        return false;
      } else if v7 && ops > 3 {
        return false;
      }
      TakesWindowsIs(OrrOp);
      EmitWindows(OrrOp, rd, rs, val);
      return true;
    }

    method TryEORI2R(rd: bv32, rs: bv32, val: bv32) returns (ok: bool)
      requires IsCond(condition) && rd <= 14 && rs <= 14
      modifies this`words, this`code
      ensures ok <==> val == 0 || IsOperand2(val)
      ensures old(words) <= words && |words| - |old(words)| <= 1
      ensures ok ==> Computes(words[|old(words)|..], old(code), code, condition, EorOp, rd, rs, val, 15)
      ensures !ok ==> words == old(words) && code == old(code)
    {
      hide *;
      if val == 0 {
        WriteMove(EorOp, rd, rs);
        return true;
      }
      var found, op2 := TryMakeOperand2(val);
      if found {
        WritePlain(EorOp, rd, rs, op2, val);
        return true;
      }
      return false;
    }

    /** The scan for a single run of low bits: its length, or 0, UNSET or MANY. */
    static method FindLowRun(val: bv32) returns (length: bv32)
      ensures SeqState(val, 32, length)
    {
      hide *;
      length := UNSET;
      var i: bv32 := 0;
      SeqStart(val);
      while i < 32
        invariant i <= 32 && SeqState(val, i, length)
        decreases 32 - i
      {
        SeqNext(i);
        if BitSet(val, i) {
          SeqOne(val, i, length);
          if length != UNSET {
            length := MANY;
          }
        } else {
          SeqZero(val, i, length);
          if length == UNSET {
            length := i;
          }
        }
        i := i + 1;
      }
    }

    method UBFX(rd: bv32, rn: bv32, lsb: bv32, width: bv32)
      requires IsCond(condition) && rd <= 15 && rn <= 15 && lsb <= 31 && 0 < width <= 32
      modifies this`words, this`code
      ensures Emits(old(words), words, Ubfx(condition, rd, rn, lsb, width - 1)) && code == Next(old(code))
    {
      hide *;
      IsCondIs(condition);
      var word := UbfxWord(condition, rd, rn, lsb, width);
      Write32(word);
      EmitsLast(old(words), words, word, Ubfx(condition, rd, rn, lsb, width - 1));
    }

    method TryANDI2R(rd: bv32, rs: bv32, val: bv32) returns (ok: bool)
      requires IsCond(condition) && rd <= 14 && rs <= 14
      modifies this`words, this`code
      ensures ok <==>
        || !v7 || val == 0 || IsOperand2(val) || IsOperand2(Not(val)) || IsLowRun(val)
        || WindowCount(Not(val), 0) <= 3
      ensures old(words) <= words && |words| - |old(words)| <= 4
      ensures ok ==> Computes(words[|old(words)|..], old(code), code, condition, AndOp, rd, rs, val, 15)
      ensures !ok ==> words == old(words) && code == old(code)
    {
      hide *;
      ghost var before, pc := words, code;
      ghost var w: bv32;
      if val == 0 {
        ZeroExpands();
        WriteImm(MovOp, rd, 0, Operand2(0, 0));
        w := EmitsSuffix(|before|, before, words,
                         DataImm(condition, OpCode(MovOp), false, 0, rd, Imm12Mod(Operand2(0, 0))));
        assert words[|before|..] == [w];
        ZeroComputesAnd(w, pc, condition, rd, rs, Operand2(0, 0));
        return true;
      }
      forall x: bv32
        ensures OpValue(BicOp, x, Not(val)) == OpValue(AndOp, x, val)
      {
        BicComplement(x, val);
      }
      var found, op2, inverse := TryMakeOperand2AllowInverse(val);
      if found {
        if !inverse {
          WritePlain(AndOp, rd, rs, op2, val);
        } else {
          WritePlain(BicOp, rd, rs, op2, Not(val));
          ComputesAlike(words[|before|..], pc, code, condition, BicOp, rd, rs, Not(val), AndOp, val);
        }
        return true;
      }
      if v7 {
        var length := FindLowRun(val);
        SeqEnd(val, length);
        if 0 < length < 0x8000_0000 {
          UBFX(rd, rs, 0, length);
          w := EmitsSuffix(|before|, before, words, Ubfx(condition, rd, rs, 0, length - 1));
          assert words[|before|..] == [w];
          UbfxComputes(w, pc, condition, rd, rs, val, length);
          return true;
        }
      }
      var ops := CountWindows(Not(val));
      if v7 && ops > 3 {
        return false;
      }
      TakesWindowsIs(BicOp);
      EmitWindows(BicOp, rd, rs, Not(val));
      if Not(val) == 0 {
        ZeroIsOperand2();
        assert false;
      }
      ComputesAlike(words[|before|..], pc, code, condition, BicOp, rd, rs, Not(val), AndOp, val);
      return true;
    }

    // ----- With a scratch register -----

    /** Loads the constant into the scratch register and uses the register form. */
    method UseScratch(op: BinaryOp, rd: bv32, rs: bv32, val: bv32, scratch: bv32)
      requires IsCond(condition) && rd <= 14 && rs <= 14 && scratch <= 14 && scratch != rs
      modifies this`words, this`code
      ensures old(words) <= words
      ensures Computes(words[|old(words)|..], old(code), code, condition, op, rd, rs, val, scratch)
    {
      hide *;
      ghost var before, pc := words, code;
      MOVI2R(scratch, val, true);
      ghost var middle, mid := words, code;
      WriteReg(op, rd, rs, scratch);
      ghost var w := EmitsSuffix(|before|, middle, words, DataReg(condition, OpCode(op), false, rs, rd, scratch));
      FallbackComputes(middle[|before|..], w, pc, mid, condition, op, rd, rs, scratch, val);
    }

    /** ADDI2R, SUBI2R, ANDI2R, ORI2R and EORI2R: the short form, or the scratch register when there is none. */
    method OperateI2R(op: BinaryOp, rd: bv32, rs: bv32, val: bv32, scratch: bv32)
      requires op == AddOp || op == SubOp || op == AndOp || op == OrrOp || op == EorOp
      requires IsCond(condition) && rd <= 14 && rs <= 14 && scratch <= 14 && scratch != rs
      modifies this`words, this`code
      ensures old(words) <= words
      ensures Computes(words[|old(words)|..], old(code), code, condition, op, rd, rs, val, scratch)
    {
      hide *;
      ghost var before, pc := words, code;
      var done: bool;
      match op {
        case AddOp => done := TryADDI2R(rd, rs, val);
        case SubOp => done := TrySUBI2R(rd, rs, val);
        case AndOp => done := TryANDI2R(rd, rs, val);
        case OrrOp => done := TryORI2R(rd, rs, val);
        case EorOp => done := TryEORI2R(rd, rs, val);
        case _ =>
      }
      if done {
        ComputesWeaken(words[|before|..], pc, code, condition, op, rd, rs, val, scratch);
      } else {
        UseScratch(op, rd, rs, val, scratch);
      }
    }

    // ----- Comparisons -----

    method TryCMPI2R(rs: bv32, val: bv32) returns (ok: bool)
      requires IsCond(condition) && rs <= 14
      modifies this`words, this`code
      ensures ok <==> IsOperand2(val) || IsOperand2(Negate(val))
      ensures old(words) <= words
      ensures ok ==> forall sc: bv32 :: Compares(words[|old(words)|..], old(code), code, condition, rs, val, sc)
      ensures !ok ==> words == old(words) && code == old(code)
    {
      hide *;
      ghost var before, pc := words, code;
      var found, op2, negated := TryMakeOperand2AllowNegation(val);
      if found {
        CompareCodes(negated);
        DataOpIs(CompareCode(negated), true);
        ImmediateIs(condition, CompareCode(negated), true, rs, 0, Imm12Mod(op2));
        WriteInstruction(CompareCode(negated), 0, rs, Immediate(Imm12Mod(op2)), true);
        ghost var word := EmitsSuffix(|before|, before, words,
                                      DataImm(condition, CompareCode(negated), true, rs, 0, Imm12Mod(op2)));
        assert words[|before|..] == [word];
        forall sc: bv32
          ensures Compares(words[|before|..], pc, code, condition, rs, val, sc)
        {
          ImmCompares(word, pc, condition, rs, val, negated, op2, sc);
        }
      }
      return found;
    }

    method CMPI2R(rs: bv32, val: bv32, scratch: bv32)
      requires IsCond(condition) && rs <= 14 && scratch <= 14 && scratch != rs
      modifies this`words, this`code
      ensures old(words) <= words
      ensures Compares(words[|old(words)|..], old(code), code, condition, rs, val, scratch)
    {
      hide *;
      ghost var before, pc := words, code;
      var done := TryCMPI2R(rs, val);
      if !done {
        MOVI2R(scratch, val, true);
        ghost var middle, mid := words, code;
        CompareCodes(false);
        DataOpIs(CMP, true);
        RegisterIs(condition, CMP, true, rs, 0, scratch);
        WriteInstruction(CMP, 0, rs, Register(scratch), true);
        ghost var word := EmitsSuffix(|before|, middle, words, DataReg(condition, CMP, true, rs, 0, scratch));
        FallbackCompares(middle[|before|..], word, pc, mid, condition, rs, scratch, val);
      }
    }

    // ----- Branches -----

    /** Reserves a word, a NOP under the current condition, for a branch with a condition of its own. */
    method BeginBranch(cond: bv32, link: bool) returns (branch: FixupBranch)
      requires IsCond(condition)
      modifies this`words, this`code
      ensures branch == FixupBranch(old(code), |old(words)|, cond, link)
      ensures words == old(words) + [(condition << 28) | 0x01A0_0000] && code == Next(old(code))
    {
      branch := FixupBranch(code, |words|, cond, link);
      Write32((condition << 28) | 0x01A0_0000);
    }

    /** Makes the reserved word a branch to the current code pointer; ok is false when it is out of range. */
    method SetJumpTarget(branch: FixupBranch) returns (ok: bool)
      requires branch.slot < |words| && IsCond(branch.cond)
      modifies this`words
      ensures |words| == |old(words)|
      ensures forall i :: 0 <= i < |words| && i != branch.slot ==> words[i] == old(words[i])
      ensures ok <==> IsNear(code, branch.ptr)
      ensures !ok ==> words == old(words)
      ensures ok ==> words[branch.slot] == DirectWord(branch.cond, branch.link, code, branch.ptr)
      ensures ok && Minus(code, branch.ptr) & 3 == 0 ==>
        Goes(words[branch.slot], branch.cond, branch.link, branch.ptr, code)
    {
      hide *;
      var distance := PatchDistance(code, branch.ptr);
      SameDistance(code, branch.ptr);
      InRangeExactly(code, branch.ptr);
      IsWordMultipleIs(code, branch.ptr);
      if !InRange(distance) {
        return false;
      }
      IsCondIs(branch.cond);
      words := words[branch.slot := BranchWord(branch.cond, branch.link, Field(distance))];
      DirectWordIs(branch.cond, branch.link, code, branch.ptr);
      if IsWordMultiple(distance) {
        DirectGoes(branch.cond, branch.link, code, branch.ptr);
      }
      return true;
    }

    /** A branch to a known target. */
    method BranchTo(cond: bv32, link: bool, target: bv32) returns (ok: bool)
      requires IsCond(cond)
      modifies this`words, this`code
      ensures ok <==> IsNear(target, old(code))
      ensures !ok ==> words == old(words) && code == old(code)
      ensures ok ==> words == old(words) + [DirectWord(cond, link, target, old(code))] && code == Next(old(code))
      ensures ok && Minus(target, old(code)) & 3 == 0 ==>
        Goes(words[|old(words)|], cond, link, old(code), target)
    {
      hide *;
      var distance := DistanceTo(target, code);
      InRangeExactly(target, code);
      IsWordMultipleIs(target, code);
      if InRange(distance) && IsWordMultiple(distance) {
        DirectGoes(cond, link, target, code);
      }
      if !InRange(distance) {
        return false;
      }
      IsCondIs(cond);
      DirectWordIs(cond, link, target, code);
      Write32(BranchWord(cond, link, Field(distance)));
      return true;
    }
  }
}
