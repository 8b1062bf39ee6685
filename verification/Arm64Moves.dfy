/** What the words of an ARM64 constant load leave in the register: the facts behind MOVI2R. */
module Arm64Moves {
  import opened Basics
  import opened Arm64Machine
  import opened Words

  // ----- What a run of words does to one register -----

  function Blend(x: bv64, keep: bv64, value: bv64): bv64 {
    (x & keep) | value
  }

  function Put(s: State, end: bv64, d: bv32, v: bv64): State {
    s.(pc := end, x := s.x[R(d) := v])
  }

  /** From pc, the words leave (previous & keep) | value in register d, move on to end and touch nothing else. */
  ghost predicate Blends(ws: seq<bv32>, pc: bv64, end: bv64, d: bv32, keep: bv64, value: bv64) {
    forall s: State :: s.pc == pc ==> Run(ws, s) == Some(Put(s, end, d, Blend(Get(s.x, d), keep, value)))
  }

  /** From pc, the words leave value in register d, move on to end and touch nothing else. */
  ghost predicate Loads(ws: seq<bv32>, pc: bv64, end: bv64, d: bv32, value: bv64) {
    forall s: State :: s.pc == pc ==> Run(ws, s) == Some(Put(s, end, d, value))
  }

  lemma BlendNothing(ws: seq<bv32>, pc: bv64, end: bv64, d: bv32, value: bv64)
    requires Blends(ws, pc, end, d, 0, value)
    ensures Loads(ws, pc, end, d, value)
  {
    hide Run, Put;
    forall s: State | s.pc == pc
      ensures Run(ws, s) == Some(Put(s, end, d, value))
    {
      assert Blend(Get(s.x, d), 0, value) == value;
    }
  }

  lemma LoadsOnce(ws: seq<bv32>, pc: bv64, end: bv64, d: bv32, value: bv64, other: bv64)
    requires Loads(ws, pc, end, d, value) && value != other
    ensures !Loads(ws, pc, end, d, other)
  {
    hide Run;
    var x: map<Reg, bv64> := map[];
    var s := State(pc, x, 0, Flags(false, false, false, false), map[], map[]);
    assert x[R(d) := value][R(d)] == value && x[R(d) := other][R(d)] == other;
    assert Run(ws, s) == Some(Put(s, end, d, value));
  }

  // ----- Appending one move-wide instruction -----

  lemma PutTwice(s: State, mid: bv64, end: bv64, d: bv32, u: bv64, v: bv64)
    ensures Put(Put(s, mid, d, u), end, d, v) == Put(s, end, d, v)
    ensures Get(Put(s, mid, d, u).x, d) == u && Put(s, mid, d, u).pc == mid
  {
    assert s.x[R(d) := u][R(d) := v] == s.x[R(d) := v];
  }

  lemma RunMoveWide(w: bv32, s: State, d: bv32, sf: bool, opc: bv32, hw: bv32, imm16: bv32)
    requires d <= 30 && Decode(w) == Some(MoveWide(sf, opc, hw, imm16, d))
    ensures RunOne(w, s) == Some(Put(s, Next(s.pc), d, MoveWideValue(sf, opc, hw, imm16, Get(s.x, d))))
  {
    hide Decode, MoveWideValue, Next;
  }

  lemma AppendMoveWide(ws: seq<bv32>, pc: bv64, mid: bv64, d: bv32, keep: bv64, value: bv64,
                       w: bv32, sf: bool, opc: bv32, hw: bv32, imm16: bv32, keep': bv64, value': bv64)
    requires d <= 30 && Decode(w) == Some(MoveWide(sf, opc, hw, imm16, d))
    requires Blends(ws, pc, mid, d, keep, value)
    requires forall x: bv64 :: MoveWideValue(sf, opc, hw, imm16, Blend(x, keep, value)) == Blend(x, keep', value')
    ensures Blends(ws + [w], pc, Next(mid), d, keep', value')
  {
    hide *;
    forall s: State | s.pc == pc
      ensures Run(ws + [w], s) == Some(Put(s, Next(mid), d, Blend(Get(s.x, d), keep', value')))
    {
      BlendsAt(ws, pc, mid, d, keep, value, s);
      var x := Get(s.x, d);
      var u := Blend(x, keep, value);
      RunSnoc(ws, w, s);
      PutTwice(s, mid, Next(mid), d, u, Blend(x, keep', value'));
      RunMoveWide(w, Put(s, mid, d, u), d, sf, opc, hw, imm16);
    }
    BlendsDefinition(ws + [w], pc, Next(mid), d, keep', value');
  }

  lemma BlendsAt(ws: seq<bv32>, pc: bv64, end: bv64, d: bv32, keep: bv64, value: bv64, s: State)
    requires Blends(ws, pc, end, d, keep, value) && s.pc == pc
    ensures Run(ws, s) == Some(Put(s, end, d, Blend(Get(s.x, d), keep, value)))
  {
    hide Run, Blend, Put;
  }

  lemma BlendsDefinition(ws: seq<bv32>, pc: bv64, end: bv64, d: bv32, keep: bv64, value: bv64)
    requires forall s: State :: s.pc == pc ==> Run(ws, s) == Some(Put(s, end, d, Blend(Get(s.x, d), keep, value)))
    ensures Blends(ws, pc, end, d, keep, value)
  {
    hide Run, Blend, Put;
  }

  lemma LoadsDefinition(ws: seq<bv32>, pc: bv64, end: bv64, d: bv32, value: bv64)
    requires forall s: State :: s.pc == pc ==> Run(ws, s) == Some(Put(s, end, d, value))
    ensures Loads(ws, pc, end, d, value)
  {
    hide Run, Put;
  }

  lemma LoadsAt(ws: seq<bv32>, pc: bv64, end: bv64, d: bv32, value: bv64, s: State)
    requires Loads(ws, pc, end, d, value) && s.pc == pc
    ensures Run(ws, s) == Some(Put(s, end, d, value))
  {
    hide Run, Put;
  }

  // ----- Sixteen-bit parts of a constant -----

  function LowLanes(i: nat): bv64 {
    if i == 0 then 0 else if i == 1 then 0xFFFF else if i == 2 then 0xFFFF_FFFF
    else if i == 3 then 0xFFFF_FFFF_FFFF else 0xFFFF_FFFF_FFFF_FFFF
  }

  /** The lanes of imm from `first` up to but not including `end`, elsewhere 0. */
  function Lanes(imm: bv64, first: nat, end: nat): bv64 {
    imm & LowLanes(end) & !LowLanes(first)
  }

  function Part(imm: bv64, i: nat): (part: bv32)
    requires i <= 3
    ensures part <= 0xFFFF
  {
    var shifted := if i == 0 then imm else if i == 1 then imm >> 16 else if i == 2 then imm >> 32 else imm >> 48;
    (shifted & 0xFFFF) as bv32
  }

  /** A lane number as a field of an instruction. */
  function ShiftAmount(i: nat): (hw: bv32)
    requires i <= 3
    ensures hw <= 3
  {
    if i == 0 then 0 else if i == 1 then 1 else if i == 2 then 2 else 3
  }

  function Keep(sf: bool, i: nat): bv64 {
    if i == 0 then 0xFFFF_FFFF_FFFF_FFFF
    else if sf then !LowLanes(i) else 0xFFFF_FFFF & !LowLanes(i)
  }

  function LaneCount(sf: bool): nat {
    if sf then 4 else 2
  }

  // One fact for each lane, as a difference that is 0; X for 64-bit registers, W for 32-bit ones.

  lemma InsertPartX0(imm: bv64, x: bv64)
    ensures Alike(MoveWideValue(true, 3, ShiftAmount(0), Part(imm, 0), Blend(x, Keep(true, 0), Lanes(imm, 0, 0))),
                  Blend(x, Keep(true, 1), Lanes(imm, 0, 1)))
  {}

  lemma FirstPartX0(imm: bv64, x: bv64)
    ensures Alike(MoveWideValue(true, 2, ShiftAmount(0), Part(imm, 0), x), Blend(x, 0, Lanes(imm, 0, 1)))
  {}

  lemma InsertPartX1(imm: bv64, x: bv64)
    ensures Alike(MoveWideValue(true, 3, ShiftAmount(1), Part(imm, 1), Blend(x, Keep(true, 1), Lanes(imm, 0, 1))),
                  Blend(x, Keep(true, 2), Lanes(imm, 0, 2)))
  {}

  lemma FirstPartX1(imm: bv64, x: bv64)
    ensures Alike(MoveWideValue(true, 2, ShiftAmount(1), Part(imm, 1), x), Blend(x, 0, Lanes(imm, 1, 2)))
  {}

  lemma NextPartX1(imm: bv64, first: nat, x: bv64)
    requires first < 1
    ensures Alike(MoveWideValue(true, 3, ShiftAmount(1), Part(imm, 1), Blend(x, 0, Lanes(imm, first, 1))),
                  Blend(x, 0, Lanes(imm, first, 2)))
  {}

  lemma InsertPartX2(imm: bv64, x: bv64)
    ensures Alike(MoveWideValue(true, 3, ShiftAmount(2), Part(imm, 2), Blend(x, Keep(true, 2), Lanes(imm, 0, 2))),
                  Blend(x, Keep(true, 3), Lanes(imm, 0, 3)))
  {}

  lemma FirstPartX2(imm: bv64, x: bv64)
    ensures Alike(MoveWideValue(true, 2, ShiftAmount(2), Part(imm, 2), x), Blend(x, 0, Lanes(imm, 2, 3)))
  {}

  lemma NextPartX2(imm: bv64, first: nat, x: bv64)
    requires first < 2
    ensures Alike(MoveWideValue(true, 3, ShiftAmount(2), Part(imm, 2), Blend(x, 0, Lanes(imm, first, 2))),
                  Blend(x, 0, Lanes(imm, first, 3)))
  {}

  lemma InsertPartX3(imm: bv64, x: bv64)
    ensures Alike(MoveWideValue(true, 3, ShiftAmount(3), Part(imm, 3), Blend(x, Keep(true, 3), Lanes(imm, 0, 3))),
                  Blend(x, Keep(true, 4), Lanes(imm, 0, 4)))
  {}

  lemma FirstPartX3(imm: bv64, x: bv64)
    ensures Alike(MoveWideValue(true, 2, ShiftAmount(3), Part(imm, 3), x), Blend(x, 0, Lanes(imm, 3, 4)))
  {}

  lemma NextPartX3(imm: bv64, first: nat, x: bv64)
    requires first < 3
    ensures Alike(MoveWideValue(true, 3, ShiftAmount(3), Part(imm, 3), Blend(x, 0, Lanes(imm, first, 3))),
                  Blend(x, 0, Lanes(imm, first, 4)))
  {}

  lemma InsertPartW0(imm: bv64, x: bv64)
    ensures Alike(MoveWideValue(false, 3, ShiftAmount(0), Part(imm, 0), Blend(x, Keep(false, 0), Lanes(imm, 0, 0))),
                  Blend(x, Keep(false, 1), Lanes(imm, 0, 1)))
  {}

  lemma FirstPartW0(imm: bv64, x: bv64)
    ensures Alike(MoveWideValue(false, 2, ShiftAmount(0), Part(imm, 0), x), Blend(x, 0, Lanes(imm, 0, 1)))
  {}

  lemma InsertPartW1(imm: bv64, x: bv64)
    ensures Alike(MoveWideValue(false, 3, ShiftAmount(1), Part(imm, 1), Blend(x, Keep(false, 1), Lanes(imm, 0, 1))),
                  Blend(x, Keep(false, 2), Lanes(imm, 0, 2)))
  {}

  lemma FirstPartW1(imm: bv64, x: bv64)
    ensures Alike(MoveWideValue(false, 2, ShiftAmount(1), Part(imm, 1), x), Blend(x, 0, Lanes(imm, 1, 2)))
  {}

  lemma NextPartW1(imm: bv64, first: nat, x: bv64)
    requires first < 1
    ensures Alike(MoveWideValue(false, 3, ShiftAmount(1), Part(imm, 1), Blend(x, 0, Lanes(imm, first, 1))),
                  Blend(x, 0, Lanes(imm, first, 2)))
  {}

  lemma LaneCountIs(sf: bool)
    ensures LaneCount(sf) == if sf then 4 else 2
  {}

  /** A MOVK of lane i extends a value whose lower lanes are already those of imm. */
  lemma InsertPart(sf: bool, imm: bv64, i: nat, x: bv64)
    requires i < LaneCount(sf)
    ensures MoveWideValue(sf, 3, ShiftAmount(i), Part(imm, i), Blend(x, Keep(sf, i), Lanes(imm, 0, i)))
         == Blend(x, Keep(sf, i + 1), Lanes(imm, 0, i + 1))
  {
    hide *;
    LaneCountIs(sf);
    if sf {
      if i == 0 { InsertPartX0(imm, x); } else if i == 1 { InsertPartX1(imm, x); }
      else if i == 2 { InsertPartX2(imm, x); } else { InsertPartX3(imm, x); }
    } else {
      if i == 0 { InsertPartW0(imm, x); } else { InsertPartW1(imm, x); }
    }
    Same(MoveWideValue(sf, 3, ShiftAmount(i), Part(imm, i), Blend(x, Keep(sf, i), Lanes(imm, 0, i))),
         Blend(x, Keep(sf, i + 1), Lanes(imm, 0, i + 1)));
  }

  /** A MOVZ of lane i leaves that lane alone. */
  lemma FirstPart(sf: bool, imm: bv64, i: nat, x: bv64)
    requires i < LaneCount(sf)
    ensures MoveWideValue(sf, 2, ShiftAmount(i), Part(imm, i), x) == Blend(x, 0, Lanes(imm, i, i + 1))
  {
    hide *;
    LaneCountIs(sf);
    if sf {
      if i == 0 { FirstPartX0(imm, x); } else if i == 1 { FirstPartX1(imm, x); }
      else if i == 2 { FirstPartX2(imm, x); } else { FirstPartX3(imm, x); }
    } else {
      if i == 0 { FirstPartW0(imm, x); } else { FirstPartW1(imm, x); }
    }
    Same(MoveWideValue(sf, 2, ShiftAmount(i), Part(imm, i), x), Blend(x, 0, Lanes(imm, i, i + 1)));
  }

  /** A MOVK of lane i extends a value made of the lanes from `first` on. */
  lemma NextPart(sf: bool, imm: bv64, first: nat, i: nat, x: bv64)
    requires first < i < LaneCount(sf)
    ensures MoveWideValue(sf, 3, ShiftAmount(i), Part(imm, i), Blend(x, 0, Lanes(imm, first, i)))
         == Blend(x, 0, Lanes(imm, first, i + 1))
  {
    hide *;
    LaneCountIs(sf);
    if sf {
      if i == 1 { NextPartX1(imm, first, x); } else if i == 2 { NextPartX2(imm, first, x); }
      else { NextPartX3(imm, first, x); }
    } else {
      NextPartW1(imm, first, x);
    }
    Same(MoveWideValue(sf, 3, ShiftAmount(i), Part(imm, i), Blend(x, 0, Lanes(imm, first, i))),
         Blend(x, 0, Lanes(imm, first, i + 1)));
  }

  lemma SkipPart0(imm: bv64)
    requires Part(imm, 0) == 0
    ensures Lanes(imm, 0, 0) == Lanes(imm, 0, 1)
  {}

  lemma SkipPart1(imm: bv64, first: nat)
    requires Part(imm, 1) == 0 && first <= 1
    ensures Lanes(imm, first, 1) == Lanes(imm, first, 2)
  {}

  lemma SkipPart2(imm: bv64, first: nat)
    requires Part(imm, 2) == 0 && first <= 2
    ensures Lanes(imm, first, 2) == Lanes(imm, first, 3)
  {}

  lemma SkipPart3(imm: bv64, first: nat)
    requires Part(imm, 3) == 0 && first <= 3
    ensures Lanes(imm, first, 3) == Lanes(imm, first, 4)
  {}

  lemma SkipPart(imm: bv64, first: nat, i: nat)
    requires first <= i < 4 && Part(imm, i) == 0
    ensures Lanes(imm, first, i) == Lanes(imm, first, i + 1)
  {
    hide *;
    if i == 0 { SkipPart0(imm); } else if i == 1 { SkipPart1(imm, first); }
    else if i == 2 { SkipPart2(imm, first); } else { SkipPart3(imm, first); }
  }
}
