/** The ARM instructions that the modelled ARM32 emitter paths produce: a decoder and an interpreter. */
module Arm32Machine {
  import opened Basics
  import opened Words32
  import Compare32

  // ----- Instructions -----

  const AND: bv32 := 0
  const EOR: bv32 := 1
  const SUB: bv32 := 2
  const ADD: bv32 := 4
  const CMP: bv32 := 10
  const CMN: bv32 := 11
  const ORR: bv32 := 12
  const MOV: bv32 := 13
  const BIC: bv32 := 14
  const MVN: bv32 := 15

  datatype Instr =
    | DataImm(cond: bv32, op: bv32, setFlags: bool, rn: bv32, rd: bv32, imm12: bv32)
    | DataReg(cond: bv32, op: bv32, setFlags: bool, rn: bv32, rd: bv32, rm: bv32)
    | MovWide(cond: bv32, top: bool, rd: bv32, imm16: bv32)
    | Ubfx(cond: bv32, rd: bv32, rn: bv32, lsb: bv32, widthMinus1: bv32)
    | Branch(cond: bv32, link: bool, imm24: bv32)

  /** Register operands are decoded only without a shift. */
  function Decode(w: bv32): Option<Instr> {
    var cond, op, setFlags := w >> 28, (w >> 21) & 0xF, (w >> 20) & 1 == 1;
    var rn, rd := (w >> 16) & 0xF, (w >> 12) & 0xF;
    if cond == 15 then None
    else if (w >> 25) & 7 == 1 then
      if op & 0xC == 8 && !setFlags then
        if op & 1 == 0 then Some(MovWide(cond, op & 2 == 2, rd, ((w >> 4) & 0xF000) | (w & 0xFFF))) else None
      else Some(DataImm(cond, op, setFlags, rn, rd, w & 0xFFF))
    else if (w >> 25) & 7 == 0 && (w >> 4) & 0xFF == 0 then
      if op & 0xC == 8 && !setFlags then None else Some(DataReg(cond, op, setFlags, rn, rd, w & 0xF))
    else if (w >> 21) & 0x7F == 0x3F && (w >> 4) & 7 == 5 then
      Some(Ubfx(cond, rd, w & 0xF, (w >> 7) & 0x1F, (w >> 16) & 0x1F))
    else if (w >> 25) & 7 == 5 then
      Some(Branch(cond, (w >> 24) & 1 == 1, w & 0xFF_FFFF))
    else None
  }

  // ----- State -----

  /** Registers 0 to 14; register 15 is not an operand in this model. */
  datatype State = State(pc: bv32, r: map<Reg, bv32>, flags: Flags)

  function Get(m: map<Reg, bv32>, r: bv32): bv32 {
    if R(r) in m then m[R(r)] else 0
  }

  function Put(s: State, end: bv32, d: bv32, v: bv32): State {
    s.(pc := end, r := s.r[R(d) := v])
  }

  predicate Holds(cond: bv32, f: Flags) {
    if cond == 0 then f.z
    else if cond == 1 then !f.z
    else if cond == 2 then f.c
    else if cond == 3 then !f.c
    else if cond == 4 then f.n
    else if cond == 5 then !f.n
    else if cond == 6 then f.v
    else if cond == 7 then !f.v
    else if cond == 8 then f.c && !f.z
    else if cond == 9 then !f.c || f.z
    else if cond == 10 then f.n == f.v
    else if cond == 11 then f.n != f.v
    else if cond == 12 then !f.z && f.n == f.v
    else if cond == 13 then f.z || f.n != f.v
    else true
  }

  // ----- Values -----

  function RotR(a: bv32, amount: bv32): bv32
    requires amount <= 31
  {
    (a >> amount) | (a << (32 - amount))
  }

  function RotL(a: bv32, amount: bv32): bv32
    requires amount <= 31
  {
    (a << amount) | (a >> (32 - amount))
  }

  function RotatedByte(value: bv32, rotation: bv32): bv32
    requires rotation <= 15
  {
    RotR(value, rotation << 1)
  }

  /** An 8-bit value rotated right by twice a 4-bit amount. */
  function ExpandImm(imm12: bv32): bv32 {
    RotatedByte(imm12 & 0xFF, (imm12 >> 8) & 0xF)
  }

  function DataValue(op: bv32, x: bv32, y: bv32): bv32 {
    if op == AND then And(x, y)
    else if op == EOR then Xor(x, y)
    else if op == SUB then Minus(x, y)
    else if op == ADD then Plus(x, y)
    else if op == ORR then Or(x, y)
    else if op == MOV then y
    else if op == BIC then Clear(x, y)
    else Not(y)
  }

  predicate IsModelled(op: bv32) {
    op == AND || op == EOR || op == SUB || op == ADD || op == ORR || op == MOV || op == BIC || op == MVN
  }

  function CompareFlags(negated: bool, x: bv32, y: bv32): Flags {
    if negated then Compare32.AddFlags(x, y) else Compare32.SubFlags(x, y)
  }

  function ShiftDown(x: bv32, n: bv32): bv32
    requires n <= 31
  {
    x >> n
  }

  function LowBits(x: bv32, width: bv32): bv32
    requires 0 < width <= 32
  {
    x & (0xFFFF_FFFF >> (32 - width))
  }

  function BranchOffset(imm24: bv32): bv32 {
    (imm24 | (if imm24 & 0x80_0000 != 0 then 0xFF00_0000 else 0)) << 2
  }

  /** The program counter reads as two instructions ahead. */
  function BranchTarget(i: Instr, pc: bv32): Option<bv32> {
    if i.Branch? then Some(Plus(Plus(pc, 8), BranchOffset(i.imm24))) else None
  }

  // ----- Execution -----

  function StepData(s: State, op: bv32, setFlags: bool, rn: bv32, rd: bv32, y: bv32): Option<State> {
    var x := Get(s.r, rn);
    if !setFlags && IsModelled(op) then Some(Put(s, Next(s.pc), rd, DataValue(op, x, y)))
    else if setFlags && (op == CMP || op == CMN) then Some(s.(pc := Next(s.pc), flags := CompareFlags(op == CMN, x, y)))
    else None
  }

  function Step(i: Instr, s: State): Option<State> {
    if i.Branch? then None
    else if !Holds(i.cond, s.flags) then Some(s.(pc := Next(s.pc)))
    else
      match i
      case DataImm(_, op, setFlags, rn, rd, imm12) => StepData(s, op, setFlags, rn, rd, ExpandImm(imm12))
      case DataReg(_, op, setFlags, rn, rd, rm) => StepData(s, op, setFlags, rn, rd, Get(s.r, rm))
      case MovWide(_, top, rd, imm16) =>
        Some(Put(s, Next(s.pc), rd, if top then Or(And(Get(s.r, rd), 0xFFFF), imm16 << 16) else imm16))
      case Ubfx(_, rd, rn, lsb, widthMinus1) =>
        if lsb <= 31 && widthMinus1 <= 31 - lsb then
          Some(Put(s, Next(s.pc), rd, LowBits(ShiftDown(Get(s.r, rn), lsb), widthMinus1 + 1)))
        else None
  }

  /** Straight-line execution; None when a word is not a straight-line instruction. */
  function Run(ws: seq<bv32>, s: State): Option<State>
    decreases |ws|
  {
    if ws == [] then Some(s)
    else
      match Run(ws[..|ws| - 1], s)
      case None => None
      case Some(t) => RunOne(ws[|ws| - 1], t)
  }

  function RunOne(w: bv32, s: State): Option<State> {
    match Decode(w)
    case None => None
    case Some(i) => Step(i, s)
  }

  lemma RunSnoc(ws: seq<bv32>, w: bv32, s: State)
    ensures Run(ws + [w], s) == match Run(ws, s) case None => None case Some(t) => RunOne(w, t)
  {
    assert (ws + [w])[..|ws|] == ws;
  }
}
