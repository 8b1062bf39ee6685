/** The LoongArch64 instructions that the modelled emitter paths produce: a decoder and an interpreter. */
module LoongMachine {
  import opened Basics
  import opened Words

  // ----- Instructions -----

  datatype Instr =
    | AddiD(rd: bv32, rj: bv32, si12: bv32)
    | Ori(rd: bv32, rj: bv32, ui12: bv32)
    | Lu12iW(rd: bv32, si20: bv32)
    | Lu32iD(rd: bv32, si20: bv32)
    | Lu52iD(rd: bv32, rj: bv32, si12: bv32)
    | Jirl(rd: bv32, rj: bv32, offs16: bv32)
    | Jump(link: bool, offs26: bv32)
    | BranchZero(nonzero: bool, rj: bv32, offs21: bv32)
    | Branch(op: bv32, rj: bv32, rd: bv32, offs16: bv32)

  function Decode(w: bv32): Option<Instr> {
    var rd, rj := w & 0x1F, (w >> 5) & 0x1F;
    var imm12, imm16 := (w >> 10) & 0xFFF, (w >> 10) & 0xFFFF;
    if w >> 22 == 0x0B then Some(AddiD(rd, rj, imm12))
    else if w >> 22 == 0x0C then Some(Lu52iD(rd, rj, imm12))
    else if w >> 22 == 0x0E then Some(Ori(rd, rj, imm12))
    else if w >> 25 == 0x0A then Some(Lu12iW(rd, (w >> 5) & 0xFFFFF))
    else if w >> 25 == 0x0B then Some(Lu32iD(rd, (w >> 5) & 0xFFFFF))
    else if w >> 26 == 0x10 || w >> 26 == 0x11 then Some(BranchZero(w >> 26 == 0x11, rj, imm16 | (rd << 16)))
    else if w >> 26 == 0x13 then Some(Jirl(rd, rj, imm16))
    else if w >> 26 == 0x14 || w >> 26 == 0x15 then Some(Jump(w >> 26 == 0x15, imm16 | ((w & 0x3FF) << 16)))
    else if 0x16 <= w >> 26 <= 0x1B then Some(Branch(w >> 26, rj, rd, imm16))
    else None
  }

  // ----- State -----

  datatype State = State(pc: bv64, r: map<Reg, bv64>)

  /** Register 0 reads as 0. */
  function Get(m: map<Reg, bv64>, r: bv32): bv64 {
    if r == 0 then 0 else if R(r) in m then m[R(r)] else 0
  }

  function Put(s: State, end: bv64, d: bv32, v: bv64): State {
    if d == 0 then s.(pc := end) else s.(pc := end, r := s.r[R(d) := v])
  }

  function Next(pc: bv64): bv64 {
    pc + 4
  }

  lemma NextIs(pc: bv64)
    ensures Next(pc) == pc + 4
  {}

  // ----- Values -----

  /** A 12-bit field as a signed number. */
  function Signed12(imm: bv32): bv64 {
    (imm as bv64) | (if imm & 0x800 != 0 then 0xFFFF_FFFF_FFFF_F000 else 0)
  }

  /** A 20-bit field shifted up by 12, as a signed 32-bit number. */
  function Upper20(imm: bv32): bv64 {
    ((imm as bv64) << 12) | (if imm & 0x8_0000 != 0 then 0xFFFF_FFFF_0000_0000 else 0)
  }

  /** The low 32 bits of x below a 20-bit field, sign-extended. */
  function WithUpper32(x: bv64, imm: bv32): bv64 {
    (x & 0xFFFF_FFFF) | ((imm as bv64) << 32) | (if imm & 0x8_0000 != 0 then 0xFFF0_0000_0000_0000 else 0)
  }

  /** The low 52 bits of x below a 12-bit field. */
  function WithTop12(x: bv64, imm: bv32): bv64 {
    (x & 0x000F_FFFF_FFFF_FFFF) | ((imm as bv64) << 52)
  }

  function Zero12(imm: bv32): bv64 {
    imm as bv64
  }

  function Offset16(imm: bv32): bv64 {
    ((imm as bv64) | (if imm & 0x8000 != 0 then 0xFFFF_FFFF_FFFF_0000 else 0)) << 2
  }

  function Offset21(imm: bv32): bv64 {
    ((imm as bv64) | (if imm & 0x10_0000 != 0 then 0xFFFF_FFFF_FFE0_0000 else 0)) << 2
  }

  function Offset26(imm: bv32): bv64 {
    ((imm as bv64) | (if imm & 0x200_0000 != 0 then 0xFFFF_FFFF_FC00_0000 else 0)) << 2
  }

  /** Where a PC-relative branch at pc goes when it is taken. */
  function BranchTarget(i: Instr, pc: bv64): Option<bv64> {
    match i
    case Jump(_, offs26) => Some(Plus(pc, Offset26(offs26)))
    case BranchZero(_, _, offs21) => Some(Plus(pc, Offset21(offs21)))
    case Branch(_, _, _, offs16) => Some(Plus(pc, Offset16(offs16)))
    case _ => None
  }

  // ----- Execution -----

  function Step(i: Instr, s: State): Option<State> {
    match i
    case AddiD(rd, rj, si12) => Some(Put(s, Next(s.pc), rd, Plus(Get(s.r, rj), Signed12(si12))))
    case Ori(rd, rj, ui12) => Some(Put(s, Next(s.pc), rd, Or(Get(s.r, rj), Zero12(ui12))))
    case Lu12iW(rd, si20) => Some(Put(s, Next(s.pc), rd, Upper20(si20)))
    case Lu32iD(rd, si20) => Some(Put(s, Next(s.pc), rd, WithUpper32(Get(s.r, rd), si20)))
    case Lu52iD(rd, rj, si12) => Some(Put(s, Next(s.pc), rd, WithTop12(Get(s.r, rj), si12)))
    case Jirl(rd, rj, offs16) => Some(Put(s, Plus(Get(s.r, rj), Offset16(offs16)), rd, Next(s.pc)))
    case Jump(link, offs26) => Some(Put(s, Plus(s.pc, Offset26(offs26)), if link then 1 else 0, Next(s.pc)))
    case BranchZero(_, _, _) => None
    case Branch(_, _, _, _) => None
  }

  /** Execution of words in turn; None when one of them is not modelled. */
  function Run(ws: seq<bv32>, s: State): Option<State>
    decreases |ws|
  {
    if ws == [] then Some(s)
    else
      match Run(ws[..|ws| - 1], s)
      case None => None
      case Some(t) => RunOne(ws[|ws| - 1], t)
  }

  function RunOne(w: bv32, s: State): Option<State> {
    match Decode(w)
    case None => None
    case Some(i) => Step(i, s)
  }

  lemma RunSnoc(ws: seq<bv32>, w: bv32, s: State)
    ensures Run(ws + [w], s) == match Run(ws, s) case None => None case Some(t) => RunOne(w, t)
  {
    assert (ws + [w])[..|ws|] == ws;
  }
}
