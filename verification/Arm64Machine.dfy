/** The AArch64 instructions that the modelled emitter paths produce: a decoder and an interpreter. */
module Arm64Machine {
  import opened Basics
  import opened VfpImmediates
  import opened BitmaskEncoding
  import opened Words
  import Compare32
  import Compare64

  // ----- Instructions -----

  datatype PairMode = PostIndex | SignedOffset | PreIndex

  datatype Instr =
    | MoveWide(sf: bool, opc: bv32, hw: bv32, imm16: bv32, rd: bv32)
    | AddSubImm(sf: bool, sub: bool, setFlags: bool, shift12: bool, imm12: bv32, rn: bv32, rd: bv32)
    | AddSubReg(sf: bool, sub: bool, setFlags: bool, rm: bv32, rn: bv32, rd: bv32)
    | LogicalImm(sf: bool, opc: bv32, n: bv8, immr: bv8, imms: bv8, rn: bv32, rd: bv32)
    | LogicalReg(sf: bool, opc: bv32, invert: bool, rm: bv32, rn: bv32, rd: bv32)
    | Adr(page: bool, imm21: bv32, rd: bv32)
    | Branch(link: bool, imm26: bv32)
    | BranchCond(cond: bv32, imm19: bv32)
    | CompareBranch(sf: bool, nonzero: bool, imm19: bv32, rt: bv32)
    | TestBranch(bit: bv32, nonzero: bool, imm14: bv32, rt: bv32)
    | LoadStorePair(load: bool, vector: bool, mode: PairMode, imm7: bv32, rt2: bv32, rn: bv32, rt: bv32)
    | LoadStoreWordPair(load: bool, mode: PairMode, imm7: bv32, rt2: bv32, rn: bv32, rt: bv32)
    | LoadStore(load: bool, vector: bool, imm12: bv32, rn: bv32, rt: bv32)
    | FmovImm(imm8: bv32, rd: bv32)
    | FmovFromGpr(rn: bv32, rd: bv32)
    | Fneg(rn: bv32, rd: bv32)

  /** Shifted-register forms are decoded only with a zero shift, single loads and stores only for 64-bit registers. */
  function Decode(w: bv32): Option<Instr> {
    var sf := (w >> 31) == 1;
    var rd := w & 0x1F;
    var rn := (w >> 5) & 0x1F;
    if (w >> 23) & 0x3F == 0x25 then
      var opc, hw := (w >> 29) & 3, (w >> 21) & 3;
      if opc == 1 || (!sf && hw >= 2) then None else Some(MoveWide(sf, opc, hw, (w >> 5) & 0xFFFF, rd))
    else if (w >> 23) & 0x3F == 0x22 then
      Some(AddSubImm(sf, (w >> 30) & 1 == 1, (w >> 29) & 1 == 1, (w >> 22) & 1 == 1, (w >> 10) & 0xFFF, rn, rd))
    else if (w >> 23) & 0x3F == 0x24 then
      Some(LogicalImm(sf, (w >> 29) & 3, ((w >> 22) & 1) as bv8, ((w >> 16) & 0x3F) as bv8, ((w >> 10) & 0x3F) as bv8,
                      rn, rd))
    else if (w >> 24) & 0x1F == 0x0A && (w >> 22) & 3 == 0 && (w >> 10) & 0x3F == 0 then
      Some(LogicalReg(sf, (w >> 29) & 3, (w >> 21) & 1 == 1, (w >> 16) & 0x1F, rn, rd))
    else if (w >> 24) & 0x1F == 0x0B && (w >> 21) & 7 == 0 && (w >> 10) & 0x3F == 0 then
      Some(AddSubReg(sf, (w >> 30) & 1 == 1, (w >> 29) & 1 == 1, (w >> 16) & 0x1F, rn, rd))
    else if (w >> 24) & 0x1F == 0x10 then
      Some(Adr(sf, (((w >> 5) & 0x7FFFF) << 2) | ((w >> 29) & 3), rd))
    else
      DecodeOther(w)
  }

  function Mode(code: bv32): PairMode {
    if code == 1 then PostIndex else if code == 2 then SignedOffset else PreIndex
  }

  function DecodeOther(w: bv32): Option<Instr> {
    var rd := w & 0x1F;
    var rn := (w >> 5) & 0x1F;
    if (w >> 26) & 0x1F == 0x05 then
      Some(Branch(w >> 31 == 1, w & 0x3FFFFFF))
    else if w >> 24 == 0x54 && (w >> 4) & 1 == 0 then
      Some(BranchCond(w & 0xF, (w >> 5) & 0x7FFFF))
    else if (w >> 25) & 0x3F == 0x1A then
      Some(CompareBranch(w >> 31 == 1, (w >> 24) & 1 == 1, (w >> 5) & 0x7FFFF, rd))
    else if (w >> 25) & 0x3F == 0x1B then
      Some(TestBranch(((w >> 31) << 5) | ((w >> 19) & 0x1F), (w >> 24) & 1 == 1, (w >> 5) & 0x3FFF, rd))
    else if (w >> 27) & 7 == 5 && (w >> 25) & 1 == 0 && (w >> 30) == (if (w >> 26) & 1 == 1 then 1 else 2)
      && (w >> 23) & 3 != 0 then
      Some(LoadStorePair((w >> 22) & 1 == 1, (w >> 26) & 1 == 1, Mode((w >> 23) & 3), (w >> 15) & 0x7F,
                         (w >> 10) & 0x1F, rn, rd))
    else if w >> 25 == 0x14 && (w >> 23) & 3 != 0 then
      Some(LoadStoreWordPair((w >> 22) & 1 == 1, Mode((w >> 23) & 3), (w >> 15) & 0x7F, (w >> 10) & 0x1F, rn, rd))
    else if (w >> 27) == 0x1F && (w >> 24) & 3 == 1 && (w >> 23) & 1 == 0 then
      Some(LoadStore((w >> 22) & 1 == 1, (w >> 26) & 1 == 1, (w >> 10) & 0xFFF, rn, rd))
    else if w >> 21 == 0xF1 && (w >> 5) & 0xFF == 0x80 then
      Some(FmovImm((w >> 13) & 0xFF, rd))
    else if w >> 10 == 0x789C0 then
      Some(FmovFromGpr(rn, rd))
    else if w >> 10 == 0x78850 then
      Some(Fneg(rn, rd))
    else
      None
  }

  // ----- State -----

  /** Keys of memory. */
  datatype Address = At(a: bv64)

  /** General registers 0-30, stack pointer, low halves of the vector registers, and memory by doubleword address. */
  datatype State = State(pc: bv64, x: map<Reg, bv64>, sp: bv64, flags: Flags, d: map<Reg, bv64>,
                         mem: map<Address, bv64>)

  function Get(m: map<Reg, bv64>, r: bv32): bv64 {
    if R(r) in m then m[R(r)] else 0
  }

  function Load(m: map<Address, bv64>, a: bv64): bv64 {
    if At(a) in m then m[At(a)] else 0
  }

  /** Register 31 read as the zero register. */
  function ReadX(s: State, r: bv32): bv64 {
    if r == 31 then 0 else Get(s.x, r)
  }

  /** Register 31 read as the stack pointer. */
  function ReadSP(s: State, r: bv32): bv64 {
    if r == 31 then s.sp else Get(s.x, r)
  }

  function WriteX(s: State, r: bv32, v: bv64): State {
    if r == 31 then s else s.(x := s.x[R(r) := v])
  }

  function WriteSP(s: State, r: bv32, v: bv64): State {
    if r == 31 then s.(sp := v) else s.(x := s.x[R(r) := v])
  }

  // ----- Values -----

  /** The low 32 bits of v for a W register, all of it for an X register. */
  function Trunc(sf: bool, v: bv64): bv64 {
    if sf then v else v & 0xFFFF_FFFF
  }

  function Lane16(hw: bv32, v: bv64): bv64 {
    if hw == 0 then v else if hw == 1 then v << 16 else if hw == 2 then v << 32 else v << 48
  }

  function MoveWideValue(sf: bool, opc: bv32, hw: bv32, imm16: bv32, prev: bv64): bv64 {
    var part := Lane16(hw, imm16 as bv64);
    Trunc(sf, if opc == 0 then !part else if opc == 2 then part else (prev & !(Lane16(hw, 0xFFFF))) | part)
  }

  function LogicalValue(opc: bv32, x: bv64, y: bv64): bv64 {
    if opc == 1 then Or(x, y) else if opc == 2 then Xor(x, y) else And(x, y)
  }

  function AddSubValue(sub: bool, x: bv64, y: bv64): bv64 {
    if sub then Minus(x, y) else Plus(x, y)
  }

  function ShiftedImm12(shift12: bool, imm12: bv32): bv64 {
    if shift12 then (imm12 as bv64) << 12 else imm12 as bv64
  }

  /** The low half of x as a signed number. */
  function Signed32(x: bv64): bv64 {
    (x & 0xFFFF_FFFF) | (if x & 0x8000_0000 != 0 then 0xFFFF_FFFF_0000_0000 else 0)
  }

  function Low32(x: bv64): bv64 {
    x & 0xFFFF_FFFF
  }

  function LowWord(x: bv64): bv32 {
    (x & 0xFFFF_FFFF) as bv32
  }

  function AddSubFlags(sf: bool, sub: bool, x: bv64, y: bv64): Flags {
    if sf then
      if sub then Compare64.SubFlags(x, y) else Compare64.AddFlags(x, y)
    else
      if sub then Compare32.SubFlags(LowWord(x), LowWord(y)) else Compare32.AddFlags(LowWord(x), LowWord(y))
  }

  function LogicalFlags(sf: bool, v: bv64): Flags {
    Flags(if sf then v >> 63 == 1 else (v >> 31) & 1 == 1, Trunc(sf, v) == 0, false, false)
  }

  function PageOf(pc: bv64): bv64 {
    pc & 0xFFFF_FFFF_FFFF_F000
  }

  /** A 21-bit field as a signed number. */
  function Offset21(imm21: bv32): bv64 {
    (imm21 as bv64) | (if imm21 & 0x10_0000 != 0 then 0xFFFF_FFFF_FFE0_0000 else 0)
  }

  function Imm21(x: bv32): bv32 {
    x & 0x1F_FFFF
  }

  function Pages(imm21: bv32): bv64 {
    Offset21(imm21) << 12
  }

  function PcRelative(page: bool, imm21: bv32, pc: bv64): bv64 {
    if page then Plus(PageOf(pc), Pages(imm21)) else Plus(pc, Offset21(imm21))
  }

  function PairDistance(imm7: bv32): bv64 {
    ((imm7 as bv64) << 3) | (if imm7 & 0x40 != 0 then 0xFFFF_FFFF_FFFF_FC00 else 0)
  }

  function ScaledOffset(imm12: bv32): bv64 {
    (imm12 as bv64) << 3
  }

  function Next(pc: bv64): bv64 {
    pc + 4
  }

  lemma NextIs(pc: bv64)
    ensures Next(pc) == pc + 4
  {}

  /** The page of an address starts at a multiple of 4096, at most 4095 bytes below it. */
  lemma PageOfIs(pc: bv64)
    ensures PageOf(pc) & 0xFFF == 0 && PageOf(pc) <= pc && pc - PageOf(pc) <= 0xFFF
  {}

  // ----- Branch targets -----

  function Offset26(imm26: bv32): bv64 {
    ((imm26 as bv64) | (if imm26 & 0x200_0000 != 0 then 0xFFFF_FFFF_FC00_0000 else 0)) << 2
  }

  function Offset19(imm19: bv32): bv64 {
    ((imm19 as bv64) | (if imm19 & 0x4_0000 != 0 then 0xFFFF_FFFF_FFF8_0000 else 0)) << 2
  }

  function Offset14(imm14: bv32): bv64 {
    ((imm14 as bv64) | (if imm14 & 0x2000 != 0 then 0xFFFF_FFFF_FFFF_C000 else 0)) << 2
  }

  /** Where a branch at pc goes when it is taken. */
  function BranchTarget(i: Instr, pc: bv64): Option<bv64> {
    match i
    case Branch(_, imm26) => Some(Plus(pc, Offset26(imm26)))
    case BranchCond(_, imm19) => Some(Plus(pc, Offset19(imm19)))
    case CompareBranch(_, _, imm19, _) => Some(Plus(pc, Offset19(imm19)))
    case TestBranch(_, _, imm14, _) => Some(Plus(pc, Offset14(imm14)))
    case _ => None
  }

  // ----- Execution -----

  /** A stack-pointer base must be 16-aligned; accesses that are not doubleword-aligned are outside the model, and so
      are those of 32-bit pairs. */
  predicate Aligned(rn: bv32, start: bv64, a: bv64) {
    (rn == 31 ==> start & 15 == 0) && a & 7 == 0
  }

  function Transfer(s: State, load: bool, vector: bool, r: bv32, a: bv64): State {
    if load then
      if vector then s.(d := s.d[R(r) := Load(s.mem, a)]) else WriteX(s, r, Load(s.mem, a))
    else
      s.(mem := s.mem[At(a) := if vector then Get(s.d, r) else ReadX(s, r)])
  }

  function Step(i: Instr, s: State): Option<State> {
    match i
    case MoveWide(sf, opc, hw, imm16, rd) =>
      Some(WriteX(s, rd, MoveWideValue(sf, opc, hw, imm16, ReadX(s, rd))).(pc := Next(s.pc)))
    case AddSubImm(sf, sub, setFlags, shift12, imm12, rn, rd) =>
      var x, y := ReadSP(s, rn), ShiftedImm12(shift12, imm12);
      var v := Trunc(sf, AddSubValue(sub, x, y));
      if setFlags then Some(WriteX(s, rd, v).(flags := AddSubFlags(sf, sub, x, y), pc := Next(s.pc)))
      else Some(WriteSP(s, rd, v).(pc := Next(s.pc)))
    case AddSubReg(sf, sub, setFlags, rm, rn, rd) =>
      var x, y := ReadX(s, rn), ReadX(s, rm);
      var t := WriteX(s, rd, Trunc(sf, AddSubValue(sub, x, y))).(pc := Next(s.pc));
      Some(if setFlags then t.(flags := AddSubFlags(sf, sub, x, y)) else t)
    case LogicalImm(sf, opc, n, immr, imms, rn, rd) =>
      if !ValidEncoding(n, imms, immr) || (!sf && n == 1) then None
      else
        var v := LogicalValue(opc, ReadX(s, rn), DecodeBitMasks(n, imms, immr));
        if opc == 3 then Some(WriteX(s, rd, Trunc(sf, v)).(flags := LogicalFlags(sf, v), pc := Next(s.pc)))
        else Some(WriteSP(s, rd, Trunc(sf, v)).(pc := Next(s.pc)))
    case LogicalReg(sf, opc, invert, rm, rn, rd) =>
      var y := ReadX(s, rm);
      var v := LogicalValue(opc, ReadX(s, rn), if invert then Not(y) else y);
      var t := WriteX(s, rd, Trunc(sf, v)).(pc := Next(s.pc));
      Some(if opc == 3 then t.(flags := LogicalFlags(sf, v)) else t)
    case Adr(page, imm21, rd) =>
      Some(WriteX(s, rd, PcRelative(page, imm21, s.pc)).(pc := Next(s.pc)))
    case LoadStorePair(load, vector, mode, imm7, rt2, rn, rt) =>
      var start := ReadSP(s, rn);
      var moved := Plus(start, PairDistance(imm7));
      var a := if mode == PostIndex then start else moved;
      if !Aligned(rn, start, a) then None
      else
        var t := Transfer(Transfer(s, load, vector, rt, a), load, vector, rt2, Plus(a, 8));
        Some((if mode == SignedOffset then t else WriteSP(t, rn, moved)).(pc := Next(s.pc)))
    case LoadStore(load, vector, imm12, rn, rt) =>
      var start := ReadSP(s, rn);
      var a := Plus(start, ScaledOffset(imm12));
      if !Aligned(rn, start, a) then None else Some(Transfer(s, load, vector, rt, a).(pc := Next(s.pc)))
    case FmovImm(imm8, rd) =>
      Some(s.(d := s.d[R(rd) := ExpandFloatImm(imm8) as bv64], pc := Next(s.pc)))
    case FmovFromGpr(rn, rd) =>
      Some(s.(d := s.d[R(rd) := Low32(ReadX(s, rn))], pc := Next(s.pc)))
    case Fneg(rn, rd) =>
      Some(s.(d := s.d[R(rd) := Xor(Low32(Get(s.d, rn)), 0x8000_0000)], pc := Next(s.pc)))
    case LoadStoreWordPair(_, _, _, _, _, _) => None
    case Branch(_, _) => None
    case BranchCond(_, _) => None
    case CompareBranch(_, _, _, _) => None
    case TestBranch(_, _, _, _) => None
  }

  /** Straight-line execution; None when a word is not a straight-line instruction or faults. */
  function Run(ws: seq<bv32>, s: State): Option<State>
    decreases |ws|
  {
    if ws == [] then Some(s)
    else
      match Run(ws[..|ws| - 1], s)
      case None => None
      case Some(t) => RunOne(ws[|ws| - 1], t)
  }

  function RunOne(w: bv32, s: State): Option<State> {
    match Decode(w)
    case None => None
    case Some(i) => Step(i, s)
  }

  lemma RunSnoc(ws: seq<bv32>, w: bv32, s: State)
    ensures Run(ws + [w], s) == match Run(ws, s) case None => None case Some(t) => RunOne(w, t)
  {
    assert (ws + [w])[..|ws|] == ws;
  }

  lemma {:induction false} RunAppend(ws: seq<bv32>, vs: seq<bv32>, s: State)
    ensures Run(ws + vs, s) == match Run(ws, s) case None => None case Some(t) => Run(vs, t)
    decreases |vs|
  {
    hide RunOne;
    if vs == [] {
      assert ws + vs == ws;
    } else {
      var front, last := vs[..|vs| - 1], vs[|vs| - 1];
      assert vs == front + [last];
      assert ws + vs == (ws + front) + [last];
      RunSnoc(ws + front, last, s);
      RunAppend(ws, front, s);
    }
  }

  /** The address n words further. */
  function Onward(pc: bv64, n: nat): bv64 {
    if n == 0 then pc else Next(Onward(pc, n - 1))
  }

  lemma StepAdvances(i: Instr, s: State)
    requires Step(i, s).Some?
    ensures Step(i, s).value.pc == Next(s.pc)
  {
    hide Next, Trunc, MoveWideValue, AddSubValue, AddSubFlags, ShiftedImm12, LogicalValue, LogicalFlags, PcRelative,
      Plus, PairDistance, ScaledOffset, Aligned, Load, Get, DecodeBitMasks, ValidEncoding, ExpandFloatImm, Low32,
      Xor, Not;
  }

  lemma {:induction false} RunAdvances(ws: seq<bv32>, s: State)
    requires Run(ws, s).Some?
    ensures Run(ws, s).value.pc == Onward(s.pc, |ws|)
    decreases |ws|
  {
    hide Step, Decode, Next;
    if ws != [] {
      var n := |ws| - 1;
      RunAdvances(ws[..n], s);
      StepAdvances(Decode(ws[n]).value, Run(ws[..n], s).value);
    }
  }
}
