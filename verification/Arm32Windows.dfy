/** Building a constant from 8-bit windows: the loops of TryANDI2R, TryORI2R and MOVI2R on ARM32. */
module Arm32Windows {
  import opened Basics
  import opened Words32
  import opened Arm32Machine
  import opened Arm32Operands
  import opened Arm32Operations

  /** The eight bits of val from position i on, wrapping past bit 31. */
  function Window(val: bv32, i: bv32): bv32
    requires i <= 31
  {
    RotR(val, i) & 0xFF
  }

  /** Those bits in place. */
  function Placed(val: bv32, i: bv32): bv32
    requires i <= 31
  {
    RotL(Window(val, i), i)
  }

  predicate StartsWindow(val: bv32, i: bv32)
    requires i <= 31
  {
    Window(val, i) & 3 != 0
  }

  function WindowOperand(val: bv32, i: bv32): Operand2
    requires i <= 31
  {
    Operand2(Window(val, i), if i == 0 then 0 else 16 - (i >> 1))
  }

  predicate IsEven(i: bv32) {
    i & 1 == 0
  }

  lemma WindowExpands(val: bv32, i: bv32)
    requires i <= 31 && IsEven(i)
    ensures Alike(Expanded(WindowOperand(val, i)), Placed(val, i))
  {}

  function LowMask(i: bv32): bv32 {
    if i >= 32 then 0xFFFF_FFFF else (1 << i) - 1
  }

  predicate Inside(acc: bv32, val: bv32) {
    acc & !val == 0
  }

  /** acc has the bits of val that lie in mask. */
  predicate Has(acc: bv32, val: bv32, mask: bv32) {
    val & !acc & mask == 0
  }

  /** The bits from one mask up to a larger one. */
  function Between(low: bv32, high: bv32): bv32 {
    high & !low
  }

  /** acc holds only bits of val, and all of them below position i. */
  predicate Covers(acc: bv32, val: bv32, i: bv32) {
    Inside(acc, val) && Has(acc, val, LowMask(i))
  }

  lemma CoversIs(acc: bv32, val: bv32, i: bv32)
    ensures Covers(acc, val, i) <==> Inside(acc, val) && Has(acc, val, LowMask(i))
  {
    hide Inside, Has, LowMask;
  }

  lemma CoversNothing(val: bv32)
    ensures Covers(0, val, 0)
  {}

  lemma PlacedInside(val: bv32, i: bv32)
    requires i <= 31
    ensures Inside(Placed(val, i), val)
  {}

  lemma PlacedBits(val: bv32, i: bv32)
    requires i <= 31
    ensures Has(Placed(val, i), val, Between(LowMask(i), LowMask(i + 8)))
  {}

  /** The window without wrapping, as TrySetValue_TwoOp takes it. */
  function ShiftOperand(val: bv32, i: bv32): Operand2
    requires i <= 31
  {
    Operand2((val >> i) & 0xFF, (16 - (i >> 1)) & 0xF)
  }

  function Shifted(val: bv32, i: bv32): bv32
    requires i <= 31
  {
    ((val >> i) & 0xFF) << i
  }

  lemma ShiftedBits(val: bv32, i: bv32)
    requires i <= 31
    ensures Inside(Shifted(val, i), val) && Has(Shifted(val, i), val, Between(LowMask(i), LowMask(i + 8)))
  {}

  lemma ShiftExpands(val: bv32, i: bv32)
    requires i <= 31 && IsEven(i)
    ensures Alike(Expanded(ShiftOperand(val, i)), Shifted(val, i))
  {}

  lemma SkippedBits(val: bv32, i: bv32)
    requires i <= 30 && !StartsWindow(val, i)
    ensures Has(0, val, Between(LowMask(i), LowMask(i + 2)))
  {}

  lemma CombineBits(acc: bv32, val: bv32, w: bv32, low: bv32, high: bv32)
    requires Inside(acc, val) && Has(acc, val, low) && Inside(w, val) && Has(w, val, Between(low, high))
    ensures Inside(Or(acc, w), val) && Has(Or(acc, w), val, high)
  {}

  lemma CoversWindow(acc: bv32, val: bv32, i: bv32, next: bv32, placed: bv32)
    requires i <= 31 && Covers(acc, val, i) && next == i + 8 && IsEven(i)
    requires placed == Placed(val, i) || placed == Shifted(val, i)
    ensures Covers(Or(acc, placed), val, next)
  {
    hide *;
    CoversIs(acc, val, i);
    PlacedInside(val, i);
    PlacedBits(val, i);
    ShiftedBits(val, i);
    CombineBits(acc, val, placed, LowMask(i), LowMask(next));
    CoversIs(Or(acc, placed), val, next);
  }

  lemma CoversSkip(acc: bv32, val: bv32, i: bv32, next: bv32)
    requires i <= 30 && Covers(acc, val, i) && !StartsWindow(val, i) && next == i + 2
    ensures Covers(acc, val, next)
  {
    hide *;
    CoversIs(acc, val, i);
    SkippedBits(val, i);
    NothingInside(val);
    CombineBits(acc, val, 0, LowMask(i), LowMask(next));
    OrZero(acc);
    CoversIs(acc, val, next);
  }

  lemma NothingInside(val: bv32)
    ensures Inside(0, val)
  {}

  lemma OrZero(acc: bv32)
    ensures Or(acc, 0) == acc
  {}

  lemma CoversAll(acc: bv32, val: bv32, i: bv32)
    requires Covers(acc, val, i) && 32 <= i
    ensures Alike(acc, val)
  {}

  // ----- How many windows -----

  /** The number of windows from position i on. */
  function WindowCount(val: bv32, i: bv32): nat
    requires i <= 39
    decreases 64 - i
  {
    if i >= 32 then 0
    else if i <= 31 && StartsWindow(val, i) then 1 + WindowCount(val, i + 8)
    else WindowCount(val, i + 2)
  }

  lemma {:induction false} AtMostFour(val: bv32, i: bv32)
    requires i <= 39
    ensures 8 * WindowCount(val, i) <= 39 - i as int
    decreases 64 - i
  {
    hide StartsWindow;
    if i < 32 {
      Advance(i);
      if StartsWindow(val, i) {
        AtMostFour(val, i + 8);
      } else {
        AtMostFour(val, i + 2);
      }
    }
  }

  lemma Advance(i: bv32)
    requires i <= 31
    ensures (i + 8) as int == i as int + 8 && (i + 2) as int == i as int + 2
    ensures i + 8 <= 39 && i + 2 <= 39 && 64 - (i + 8) < 64 - i && 64 - (i + 2) < 64 - i
    ensures IsEven(i) ==> IsEven(i + 8) && IsEven(i + 2) && i <= 30
  {}

  // ----- The loop takes as few windows as possible -----

  /** val without the eight bits from position p on. */
  function Cut(val: bv32, p: bv32): bv32
    requires p <= 31
  {
    val & !(0xFF << p)
  }

  predicate IsPosition(p: bv32) {
    p <= 30 && IsEven(p)
  }

  /** What the windows at these positions leave of val. */
  function Remaining(val: bv32, positions: seq<bv32>): bv32
    requires forall p :: p in positions ==> IsPosition(p)
    decreases |positions|
  {
    if positions == [] then val
    else
      assert IsPosition(positions[0]);
      Remaining(Cut(val, positions[0]), positions[1..])
  }

  lemma CutElsewhere(val: bv32, p: bv32, i: bv32)
    requires IsPosition(p) && IsPosition(i) && (p + 8 <= i || i + 2 <= p)
    ensures StartsWindow(Cut(val, p), i) <==> StartsWindow(val, i)
  {}

  lemma CutStarts(val: bv32, p: bv32, i: bv32)
    requires IsPosition(p) && IsPosition(i) && StartsWindow(Cut(val, p), i)
    ensures StartsWindow(val, i)
  {}

  lemma NothingStarts(i: bv32)
    requires i <= 31
    ensures !StartsWindow(0, i)
  {}

  /** Starting one place later takes as many windows or fewer; starting eight places later saves one at most. */
  lemma {:induction false} CountLater(val: bv32, i: bv32)
    requires i <= 37 && IsEven(i)
    ensures WindowCount(val, i + 2) <= WindowCount(val, i)
    ensures i < 32 ==> WindowCount(val, i) <= 1 + WindowCount(val, i + 8)
    decreases 64 - i
  {
    hide StartsWindow;
    if i < 32 {
      Advance(i);
      CountLater(val, i + 2);
      if i + 8 <= 37 {
        CountLater(val, i + 8);
      }
    }
  }

  lemma {:induction false} CutBehind(val: bv32, p: bv32, i: bv32)
    requires IsPosition(p) && IsEven(i) && p + 8 <= i <= 38
    ensures WindowCount(Cut(val, p), i) == WindowCount(val, i)
    decreases 64 - i
  {
    hide StartsWindow, Cut;
    if i < 32 {
      Advance(i);
      CutElsewhere(val, p, i);
      CutBehind(val, p, i + 2);
      if i + 8 <= 38 {
        CutBehind(val, p, i + 8);
      }
    }
  }

  lemma CountLater8(val: bv32, i: bv32)
    requires IsPosition(i)
    ensures WindowCount(val, i + 8) <= WindowCount(val, i)
  {
    hide StartsWindow, WindowCount;
    CountLater(val, i);
    CountLater(val, i + 2);
    CountLater(val, i + 4);
    CountLater(val, i + 6);
  }

  /** One window anywhere saves at most one. */
  lemma {:induction false} CutSavesOne(val: bv32, p: bv32, i: bv32)
    requires IsPosition(p) && IsEven(i) && i <= 38
    ensures WindowCount(val, i) <= 1 + WindowCount(Cut(val, p), i)
    decreases 64 - i
  {
    hide StartsWindow, Cut;
    if i < 32 {
      Advance(i);
      if !StartsWindow(val, i) {
        if StartsWindow(Cut(val, p), i) {
          CutStarts(val, p, i);
        }
        CutSavesOne(val, p, i + 2);
      } else if i < p {
        Apart(p, i);
        CutElsewhere(val, p, i);
        CutSavesOne(val, p, i + 8);
      } else {
        CutBehind(val, p, i + 8);
        CountLater8(Cut(val, p), i);
      }
    }
  }

  lemma Apart(p: bv32, i: bv32)
    requires IsPosition(p) && IsPosition(i) && i < p
    ensures i + 2 <= p
  {}

  lemma {:induction false} NothingLeft(i: bv32)
    requires i <= 39
    ensures WindowCount(0, i) == 0
    decreases 64 - i
  {
    hide StartsWindow;
    if i < 32 {
      Advance(i);
      NothingStarts(i);
      NothingLeft(i + 2);
    }
  }

  /** No choice of windows that leaves nothing of val is smaller. */
  lemma {:induction false} NoFewerWindows(val: bv32, positions: seq<bv32>)
    requires (forall p :: p in positions ==> IsPosition(p)) && Remaining(val, positions) == 0
    ensures WindowCount(val, 0) <= |positions|
    decreases |positions|
  {
    hide WindowCount, Cut;
    if positions == [] {
      NothingLeft(0);
    } else {
      assert IsPosition(positions[0]);
      CutSavesOne(val, positions[0], 0);
      NoFewerWindows(Cut(val, positions[0]), positions[1..]);
    }
  }

  predicate IsClearBelow(val: bv32, i: bv32) {
    val & LowMask(i) == 0
  }

  lemma ClearSteps(val: bv32, i: bv32)
    requires IsPosition(i) && IsClearBelow(val, i)
    ensures IsClearBelow(Cut(val, i), i + 8)
    ensures !StartsWindow(val, i) ==> IsClearBelow(val, i + 2)
  {}

  lemma ClearEnds(val: bv32, i: bv32)
    ensures IsClearBelow(val, 0)
    ensures 32 <= i && IsClearBelow(val, i) ==> val == 0
  {}

  lemma {:induction false} TakenWindows(val: bv32, i: bv32) returns (positions: seq<bv32>)
    requires IsEven(i) && i <= 38 && IsClearBelow(val, i)
    ensures (forall p :: p in positions ==> IsPosition(p)) && Remaining(val, positions) == 0
    ensures |positions| == WindowCount(val, i)
    decreases 64 - i
  {
    hide StartsWindow, Cut, IsClearBelow;
    ClearEnds(val, i);
    positions := [];
    if i < 32 {
      Advance(i);
      ClearSteps(val, i);
      if StartsWindow(val, i) {
        CutBehind(val, i, i + 8);
        var rest := TakenWindows(Cut(val, i), i + 8);
        positions := [i] + rest;
        assert positions[1..] == rest;
      } else {
        positions := TakenWindows(val, i + 2);
      }
    }
  }

  /** n windows can make val exactly when the loop takes no more than n. */
  lemma LeastWindows(val: bv32, n: nat)
    ensures WindowCount(val, 0) <= n <==>
      exists positions: seq<bv32> :: (forall p :: p in positions ==> IsPosition(p)) && |positions| <= n
        && Remaining(val, positions) == 0
  {
    hide WindowCount, Remaining, IsPosition;
    ClearEnds(val, 0);
    ZeroEven();
    if WindowCount(val, 0) <= n {
      var positions := TakenWindows(val, 0);
    }
    forall positions: seq<bv32> | (forall p :: p in positions ==> IsPosition(p)) && Remaining(val, positions) == 0
      ensures WindowCount(val, 0) <= |positions|
    {
      NoFewerWindows(val, positions);
    }
  }

  lemma ZeroEven()
    ensures IsEven(0)
  {}

  // ----- Instructions -----

  /** The words so far combine acc; none are written while acc is empty. */
  ghost predicate Partial(ws: seq<bv32>, pc: bv32, end: bv32, cond: bv32, op: BinaryOp, d: bv32, n: bv32, acc: bv32) {
    if ws == [] then acc == 0 && end == pc else Computes(ws, pc, end, cond, op, d, n, acc, 15)
  }

  lemma PartialIs(ws: seq<bv32>, pc: bv32, end: bv32, cond: bv32, op: BinaryOp, d: bv32, n: bv32, acc: bv32)
    ensures Partial(ws, pc, end, cond, op, d, n, acc)
       <==> if ws == [] then acc == 0 && end == pc else Computes(ws, pc, end, cond, op, d, n, acc, 15)
  {
    hide Computes;
  }

  /** The instruction for every window after the first. */
  function Following(op: BinaryOp): BinaryOp {
    if op == MovOp then OrrOp else op
  }

  predicate TakesWindows(op: BinaryOp) {
    op == OrrOp || op == BicOp || op == MovOp
  }

  lemma ClearIs(x: bv32, y: bv32)
    ensures Clear(x, y) == x & !y
  {}

  lemma OrrCombines(x: bv32, acc: bv32, w: bv32)
    ensures Or(x | acc, w) == Or(x, acc | w)
  {}

  lemma BicCombines(x: bv32, acc: bv32, w: bv32)
    ensures Clear(x & !acc, w) == Clear(x, acc | w)
  {}

  lemma OpIs(op: BinaryOp, x: bv32, y: bv32)
    ensures op == OrrOp ==> OpValue(op, x, y) == Or(x, y) && Following(op) == OrrOp
    ensures op == BicOp ==> OpValue(op, x, y) == Clear(x, y) && Following(op) == BicOp
    ensures op == MovOp ==> OpValue(op, x, y) == y && Following(op) == OrrOp
  {}

  lemma FollowingCombines(op: BinaryOp, x: bv32, acc: bv32, w: bv32)
    requires TakesWindows(op)
    ensures OpValue(Following(op), OpValue(op, x, acc), w) == OpValue(op, x, Or(acc, w))
  {
    hide *;
    TakesWindowsIs(op);
    OpIs(op, x, acc);
    OpIs(op, x, Or(acc, w));
    OpIs(Following(op), OpValue(op, x, acc), w);
    OrIs(acc, w);
    OrIs(x, acc);
    ClearIs(x, acc);
    OrrCombines(x, acc, w);
    BicCombines(x, acc, w);
  }

  lemma TakesWindowsIs(op: BinaryOp)
    ensures TakesWindows(op) <==> op == OrrOp || op == BicOp || op == MovOp
  {}

  lemma OrNothing(w: bv32)
    ensures Or(0, w) == w
  {}

  /** The instruction for a window. */
  function WindowInstr(cond: bv32, op: BinaryOp, first: bool, d: bv32, n: bv32, op2: Operand2): Instr {
    if first then DataImm(cond, OpCode(op), false, if op == MovOp then 0 else n, d, Imm12Mod(op2))
    else DataImm(cond, OpCode(Following(op)), false, d, d, Imm12Mod(op2))
  }

  lemma WindowInstrIs(cond: bv32, op: BinaryOp, first: bool, d: bv32, n: bv32, op2: Operand2)
    ensures WindowInstr(cond, op, first, d, n, op2)
         == if first then DataImm(cond, OpCode(op), false, if op == MovOp then 0 else n, d, Imm12Mod(op2))
            else DataImm(cond, OpCode(Following(op)), false, d, d, Imm12Mod(op2))
  {
    hide OpCode, Imm12Mod, Following;
  }

  /** Both kinds of window operand expand to the bits in place. */
  lemma OperandsExpand(val: bv32, i: bv32)
    requires i <= 31 && IsEven(i)
    ensures Expanded(WindowOperand(val, i)) == Placed(val, i)
    ensures Expanded(ShiftOperand(val, i)) == Shifted(val, i)
  {
    hide *;
    WindowExpands(val, i);
    Same(Expanded(WindowOperand(val, i)), Placed(val, i));
    ShiftExpands(val, i);
    Same(Expanded(ShiftOperand(val, i)), Shifted(val, i));
  }

  lemma ExpandedDefinition(op2: Operand2)
    ensures Expanded(op2) == ExpandImm(Imm12Mod(op2))
  {
    hide ExpandImm, Imm12Mod;
  }

  lemma MovIgnores(op: BinaryOp, val: bv32)
    requires op == MovOp
    ensures forall x: bv32, y: bv32 :: OpValue(op, x, val) == OpValue(op, y, val)
  {}

  lemma WindowStep(ws: seq<bv32>, w: bv32, pc: bv32, mid: bv32, cond: bv32, op: BinaryOp, d: bv32, n: bv32, acc: bv32,
                   op2: Operand2, placed: bv32)
    requires d <= 14 && TakesWindows(op) && Partial(ws, pc, mid, cond, op, d, n, acc) && Expanded(op2) == placed
    requires Decode(w) == Some(WindowInstr(cond, op, ws == [], d, n, op2))
    ensures Partial(ws + [w], pc, Next(mid), cond, op, d, n, Or(acc, placed))
  {
    hide *;
    var imm12 := Imm12Mod(op2);
    PartialIs(ws, pc, mid, cond, op, d, n, acc);
    PartialIs(ws + [w], pc, Next(mid), cond, op, d, n, Or(acc, placed));
    ExpandedDefinition(op2);
    WindowInstrIs(cond, op, ws == [], d, n, op2);
    if ws == [] {
      OrNothing(placed);
      if op == MovOp {
        MovIgnores(op, placed);
      }
      ImmComputes(w, pc, cond, op, d, n, placed, op, if op == MovOp then 0 else n, imm12);
      assert ws + [w] == [w];
    } else {
      forall x: bv32
        ensures OpValue(Following(op), OpValue(op, x, acc), ExpandImm(imm12)) == OpValue(op, x, Or(acc, placed))
      {
        FollowingCombines(op, x, acc, placed);
      }
      ThenComputes(ws, w, pc, mid, cond, op, d, n, acc, Following(op), imm12, Or(acc, placed));
    }
  }

  /** When the loop is over, the words compute the operation with the whole constant. */
  lemma WindowsDone(ws: seq<bv32>, pc: bv32, end: bv32, cond: bv32, op: BinaryOp, d: bv32, n: bv32, val: bv32,
                    acc: bv32, i: bv32)
    requires Partial(ws, pc, end, cond, op, d, n, acc) && Covers(acc, val, i) && 32 <= i && val != 0
    ensures ws != [] && Computes(ws, pc, end, cond, op, d, n, val, 15)
  {
    hide *;
    PartialIs(ws, pc, end, cond, op, d, n, acc);
    CoversAll(acc, val, i);
    Same(acc, val);
  }

  // ----- Where the loops are -----

  /** A loop has passed the positions below i; written is how many windows it took. */
  ghost predicate WindowState(ws: seq<bv32>, pc: bv32, end: bv32, cond: bv32, op: BinaryOp, d: bv32, n: bv32,
                              val: bv32, i: bv32) {
    && i <= 39 && IsEven(i) && |ws| + WindowCount(val, i) == WindowCount(val, 0)
    && exists acc: bv32 :: Partial(ws, pc, end, cond, op, d, n, acc) && Covers(acc, val, i)
  }

  lemma CountIs(val: bv32, i: bv32)
    requires i <= 31
    ensures i + 8 <= 39 && i + 2 <= 39
    ensures WindowCount(val, i) == if StartsWindow(val, i) then 1 + WindowCount(val, i + 8) else WindowCount(val, i + 2)
  {
    hide StartsWindow;
  }

  lemma CountEnd(val: bv32, i: bv32)
    requires 32 <= i <= 39
    ensures WindowCount(val, i) == 0
  {}

  lemma WindowStart(pc: bv32, cond: bv32, op: BinaryOp, d: bv32, n: bv32, val: bv32)
    ensures WindowState([], pc, pc, cond, op, d, n, val, 0)
  {
    hide WindowCount, Covers, Computes;
    CoversNothing(val);
    assert Partial([], pc, pc, cond, op, d, n, 0);
  }

  lemma WindowTaken(ws: seq<bv32>, w: bv32, pc: bv32, mid: bv32, cond: bv32, op: BinaryOp, d: bv32, n: bv32, val: bv32,
                    i: bv32, next: bv32, op2: Operand2)
    requires WindowState(ws, pc, mid, cond, op, d, n, val, i) && i <= 31 && StartsWindow(val, i) && next == i + 8
    requires d <= 14 && TakesWindows(op) && (op2 == WindowOperand(val, i) || op2 == ShiftOperand(val, i))
    requires Decode(w) == Some(WindowInstr(cond, op, ws == [], d, n, op2))
    ensures WindowState(ws + [w], pc, Next(mid), cond, op, d, n, val, next)
  {
    hide WindowCount, Covers, Partial, Computes, Decode, WindowInstr, Expanded, Placed, Shifted, WindowOperand,
      ShiftOperand, Next, Or, StartsWindow, IsEven, TakesWindows;
    var acc: bv32 :| Partial(ws, pc, mid, cond, op, d, n, acc) && Covers(acc, val, i);
    OperandsExpand(val, i);
    WindowStep(ws, w, pc, mid, cond, op, d, n, acc, op2, Expanded(op2));
    CoversWindow(acc, val, i, next, Expanded(op2));
    CountIs(val, i);
    Advance(i);
  }

  lemma WindowSkipped(ws: seq<bv32>, pc: bv32, mid: bv32, cond: bv32, op: BinaryOp, d: bv32, n: bv32, val: bv32,
                      i: bv32, next: bv32)
    requires WindowState(ws, pc, mid, cond, op, d, n, val, i) && i <= 31 && !StartsWindow(val, i) && next == i + 2
    ensures WindowState(ws, pc, mid, cond, op, d, n, val, next)
  {
    hide WindowCount, Covers, Partial, Computes, StartsWindow, IsEven;
    var acc: bv32 :| Partial(ws, pc, mid, cond, op, d, n, acc) && Covers(acc, val, i);
    CountIs(val, i);
    Advance(i);
    CoversSkip(acc, val, i, next);
  }

  lemma WindowEnd(ws: seq<bv32>, pc: bv32, end: bv32, cond: bv32, op: BinaryOp, d: bv32, n: bv32, val: bv32, i: bv32)
    requires WindowState(ws, pc, end, cond, op, d, n, val, i) && 32 <= i
    ensures |ws| == WindowCount(val, 0) <= 4
    ensures val != 0 ==> ws != [] && Computes(ws, pc, end, cond, op, d, n, val, 15)
    ensures val == 0 ==> ws == [] && end == pc
  {
    hide WindowCount, Covers, Partial, Computes, IsEven;
    var acc: bv32 :| Partial(ws, pc, end, cond, op, d, n, acc) && Covers(acc, val, i);
    CountEnd(val, i);
    AtMostFour(val, 0);
    if val != 0 {
      WindowsDone(ws, pc, end, cond, op, d, n, val, acc, i);
    } else {
      CountZero(0);
      PartialIs(ws, pc, end, cond, op, d, n, acc);
    }
  }

  lemma {:induction false} CountZero(i: bv32)
    requires i <= 39
    ensures WindowCount(0, i) == 0
    decreases 64 - i
  {
    hide StartsWindow;
    if i < 32 {
      Advance(i);
      ZeroStarts(i);
      CountZero(i + 2);
    }
  }

  lemma ZeroStarts(i: bv32)
    requires i <= 31
    ensures !StartsWindow(0, i)
  {}
}
