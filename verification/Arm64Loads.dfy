/** When the words of a constant load leave the constant: the specification of MOVI2R and its proof steps. */
module Arm64Loads {
  import opened Basics
  import opened Arm64Machine
  import opened Words
  import opened Arm64Moves
  import opened Arm64Addresses

  // ----- Appending words -----

  /** One word was appended, and it decodes to i. */
  ghost predicate Emits(before: seq<bv32>, after: seq<bv32>, i: Instr) {
    |after| == |before| + 1 && after[..|before|] == before && Decode(after[|before|]) == Some(i)
  }

  lemma EmitsLast(before: seq<bv32>, after: seq<bv32>, w: bv32, i: Instr)
    requires after == before + [w] && Decode(w) == Some(i)
    ensures Emits(before, after, i)
  {
    hide Decode;
  }

  lemma EmitsSuffix(start: nat, before: seq<bv32>, after: seq<bv32>, i: Instr) returns (w: bv32)
    requires Emits(before, after, i) && start <= |before|
    ensures start <= |after| && after[start..] == before[start..] + [w] && Decode(w) == Some(i)
    ensures after[..start] == before[..start]
  {
    hide Decode;
    w := after[|before|];
    assert after == before + [w];
  }

  // ----- The upload table -----

  function CountTrue(part: seq<bool>): nat {
    if part == [] then 0 else CountTrue(part[..|part| - 1]) + (if part[|part| - 1] then 1 else 0)
  }

  /** Slot k ends up set when the lane is nonzero, or when that is what the uninitialised table held. */
  function UploadTable(sf: bool, imm: bv64, optimize: bool, undefined: seq<bool>): (part: seq<bool>)
    requires |undefined| == 4
    ensures |part| == 4
    ensures forall k :: 0 <= k < 4 ==> part[k] == (undefined[k] || (optimize && k < LaneCount(sf) && Part(imm, k) != 0))
  {
    hide Part;
    seq(4, k requires 0 <= k < 4 => undefined[k] || (optimize && k < LaneCount(sf) && Part(imm, k) != 0))
  }

  // ----- The specification -----

  predicate InRange(sf: bool, imm: bv64) {
    sf || imm <= 0xFFFF_FFFF
  }

  predicate IsAllOnes(sf: bool, imm: bv64) {
    imm == if sf then 0xFFFF_FFFF_FFFF_FFFF else 0xFFFF_FFFF
  }

  predicate IsSmallNegative(sf: bool, imm: bv64) {
    !sf && imm | 0xFFFF_0000 == imm
  }

  /** Whether the constant is loaded relative to the code pointer. */
  predicate IsAddress(part: seq<bool>, imm: bv64, page: bv64) {
    CountTrue(part) > 1 && IsNear(Minus(imm, page))
  }

  predicate NoneBefore(part: seq<bool>, i: nat)
    requires i <= |part|
  {
    forall k :: 0 <= k < i ==> !part[k]
  }

  predicate IsFirstUpload(part: seq<bool>, first: nat) {
    first < |part| && part[first] && NoneBefore(part, first)
  }

  /** The MOVZ clears nonzero lanes below it. */
  ghost predicate DropsLanes(sf: bool, imm: bv64, part: seq<bool>)
    requires |part| == 4
  {
    exists first: nat :: first < LaneCount(sf) && IsFirstUpload(part, first) && Lanes(imm, 0, first) != 0
  }

  /** Exactly when MOVI2R leaves something other than imm, for a constant that fits the register. */
  ghost predicate Misloads(sf: bool, imm: bv64, pc: bv64, optimize: bool, undefined: seq<bool>)
    requires |undefined| == 4
  {
    var part := UploadTable(sf, imm, optimize, undefined);
    && imm != 0 && !IsAllOnes(sf, imm) && !IsSmallNegative(sf, imm)
    && if IsAddress(part, imm, PageOf(pc)) then Minus(imm, PageOf(pc)) == FARTHEST else DropsLanes(sf, imm, part)
  }

  /** Whether one ADRP or ADR reaches imm; these write all of a W register's X register. */
  predicate IsWhole(imm: bv64, pc: bv64) {
    var offset := Minus(imm, PageOf(pc));
    offset != FARTHEST && (IsPageMultiple(offset) || IsWithin1MB(Minus(imm, pc)))
  }

  /** Exactly when MOVI2R leaves imm. A constant that does not fit the register takes an address in one word. */
  ghost predicate Leaves(sf: bool, imm: bv64, pc: bv64, optimize: bool, undefined: seq<bool>)
    requires |undefined| == 4
  {
    if InRange(sf, imm) then !Misloads(sf, imm, pc, optimize, undefined)
    else
      && !IsSmallNegative(sf, imm)
      && IsAddress(UploadTable(sf, imm, optimize, undefined), imm, PageOf(pc)) && IsWhole(imm, pc)
  }

  /** No slot of a lane of the register is set. */
  predicate NoUpload(sf: bool, part: seq<bool>)
    requires |part| == 4
  {
    NoneBefore(part, LaneCount(sf))
  }

  /** From pc, the words leave the low half of imm in the low half of register d, move on to end and touch nothing
      else. */
  ghost predicate LoadsLow(ws: seq<bv32>, pc: bv64, end: bv64, d: bv32, imm: bv64) {
    exists u: bv64 :: Loads(ws, pc, end, d, u) && Low32(u) == Low32(imm)
  }

  /** Exactly when MOVI2R of a W register leaves another low half. With optimize this takes a constant whose low half is
      0: nothing is emitted for it unless the uninitialised table asks for a lane. */
  ghost predicate MissesLow(imm: bv64, pc: bv64, optimize: bool, undefined: seq<bool>)
    requires |undefined| == 4
  {
    var part := UploadTable(false, imm, optimize, undefined);
    && imm != 0 && !IsAllOnes(false, imm) && !IsSmallNegative(false, imm) && !IsAddress(part, imm, PageOf(pc))
    && if optimize then Low32(imm) == 0 && !undefined[0] && !undefined[1] else DropsLanes(false, imm, part)
  }

  // ----- One word that loads a register -----

  lemma OneWordLoads(w: bv32, pc: bv64, d: bv32, value: bv64)
    requires forall s: State :: s.pc == pc ==> RunOne(w, s) == Some(Put(s, Next(pc), d, value))
    ensures Loads([w], pc, Next(pc), d, value)
  {
    hide RunOne, Put, Next;
    forall s: State | s.pc == pc
      ensures Run([w], s) == Some(Put(s, Next(pc), d, value))
    {
      assert [] + [w] == [w];
      RunSnoc([], w, s);
      assert Run([], s) == Some(s);
    }
  }

  lemma MoveWideLoads(w: bv32, pc: bv64, d: bv32, sf: bool, opc: bv32, hw: bv32, imm16: bv32, value: bv64)
    requires d <= 30 && Decode(w) == Some(MoveWide(sf, opc, hw, imm16, d))
    requires forall x: bv64 :: MoveWideValue(sf, opc, hw, imm16, x) == value
    ensures Loads([w], pc, Next(pc), d, value)
  {
    hide *;
    forall s: State | s.pc == pc
      ensures RunOne(w, s) == Some(Put(s, Next(pc), d, value))
    {
      RunMoveWide(w, s, d, sf, opc, hw, imm16);
    }
    OneWordLoads(w, pc, d, value);
  }

  lemma RunAdr(w: bv32, s: State, d: bv32, page: bool, imm21: bv32)
    requires d <= 30 && Decode(w) == Some(Adr(page, imm21, d))
    ensures RunOne(w, s) == Some(Put(s, Next(s.pc), d, PcRelative(page, imm21, s.pc)))
  {
    hide Decode, PcRelative, Next;
  }

  lemma AdrLoads(w: bv32, pc: bv64, d: bv32, page: bool, imm21: bv32, value: bv64)
    requires d <= 30 && Decode(w) == Some(Adr(page, imm21, d)) && PcRelative(page, imm21, pc) == value
    ensures Loads([w], pc, Next(pc), d, value)
  {
    hide *;
    forall s: State | s.pc == pc
      ensures RunOne(w, s) == Some(Put(s, Next(pc), d, value))
    {
      RunAdr(w, s, d, page, imm21);
    }
    OneWordLoads(w, pc, d, value);
  }

  lemma RunOrnZero(w: bv32, s: State, d: bv32, sf: bool)
    requires d <= 30 && Decode(w) == Some(LogicalReg(sf, 1, true, 31, 31, d))
    ensures RunOne(w, s) == Some(Put(s, Next(s.pc), d, Trunc(sf, 0xFFFF_FFFF_FFFF_FFFF)))
  {
    hide Decode, Next;
  }

  lemma OrnLoads(w: bv32, pc: bv64, d: bv32, sf: bool, imm: bv64)
    requires d <= 30 && Decode(w) == Some(LogicalReg(sf, 1, true, 31, 31, d)) && IsAllOnes(sf, imm)
    ensures Loads([w], pc, Next(pc), d, imm)
  {
    hide *;
    forall s: State | s.pc == pc
      ensures RunOne(w, s) == Some(Put(s, Next(pc), d, imm))
    {
      RunOrnZero(w, s, d, sf);
      AllOnesTrunc(sf, imm);
    }
    OneWordLoads(w, pc, d, imm);
  }

  lemma AllOnesTrunc(sf: bool, imm: bv64)
    requires IsAllOnes(sf, imm)
    ensures Trunc(sf, 0xFFFF_FFFF_FFFF_FFFF) == imm
  {}

  lemma MovzZero(sf: bool, x: bv64)
    ensures MoveWideValue(sf, 2, 0, 0, x) == 0
  {}

  lemma MovnSmall(imm: bv64, low: bv32, x: bv64)
    requires imm | 0xFFFF_0000 == imm && low == (!imm & 0xFFFF_FFFF) as bv32
    ensures low <= 0xFFFF && Alike(MoveWideValue(false, 0, 0, low, x), Low32(imm))
  {}

  lemma MovnLoads(w: bv32, pc: bv64, d: bv32, imm: bv64, low: bv32)
    requires d <= 30 && Decode(w) == Some(MoveWide(false, 0, 0, low, d))
    requires IsSmallNegative(false, imm) && low == LowComplement(imm)
    ensures Loads([w], pc, Next(pc), d, Low32(imm))
  {
    hide *;
    forall x: bv64
      ensures MoveWideValue(false, 0, 0, low, x) == Low32(imm)
    {
      MovnValue(imm, low, x);
    }
    MoveWideLoads(w, pc, d, false, 0, 0, low, Low32(imm));
  }

  /** The low half of the complement of imm. */
  function LowComplement(imm: bv64): bv32 {
    (!imm & 0xFFFF_FFFF) as bv32
  }

  lemma MovnValue(imm: bv64, low: bv32, x: bv64)
    requires IsSmallNegative(false, imm) && low == LowComplement(imm)
    ensures low <= 0xFFFF && MoveWideValue(false, 0, 0, low, x) == Low32(imm)
  {
    hide MoveWideValue, Alike, Low32;
    MovnSmall(imm, low, x);
    Same(MoveWideValue(false, 0, 0, low, x), Low32(imm));
  }

  lemma MovzLoads(w: bv32, pc: bv64, d: bv32, sf: bool)
    requires d <= 30 && Decode(w) == Some(MoveWide(sf, 2, 0, 0, d))
    ensures Loads([w], pc, Next(pc), d, 0)
  {
    hide *;
    forall x: bv64
      ensures MoveWideValue(sf, 2, 0, 0, x) == 0
    {
      MovzZero(sf, x);
    }
    MoveWideLoads(w, pc, d, sf, 2, 0, 0, 0);
  }

  // ----- ADRP and ADD -----

  lemma RunAddImm(w: bv32, s: State, d: bv32, sf: bool, imm12: bv32)
    requires d <= 30 && Decode(w) == Some(AddSubImm(sf, false, false, false, imm12, d, d))
    ensures RunOne(w, s) == Some(Put(s, Next(s.pc), d, Trunc(sf, Plus(Get(s.x, d), ShiftedImm12(false, imm12)))))
  {
    hide Decode, Next, Plus, ShiftedImm12, Trunc;
  }

  function Low12(imm: bv64): bv32 {
    (imm & 0xFFF) as bv32
  }

  lemma Low12Value(imm: bv64)
    ensures Low12(imm) <= 0xFFF && ShiftedImm12(false, Low12(imm)) == And(imm, 0xFFF)
  {}

  lemma TruncInRange(sf: bool, imm: bv64)
    ensures Trunc(sf, imm) == imm <==> InRange(sf, imm)
  {}

  /** A load followed by one more word that rewrites the register from its own value. */
  lemma LoadThen(ws: seq<bv32>, w: bv32, pc: bv64, mid: bv64, d: bv32, value: bv64, value': bv64)
    requires Loads(ws, pc, mid, d, value)
    requires forall s: State :: Get(s.x, d) == value ==> RunOne(w, s) == Some(Put(s, Next(s.pc), d, value'))
    ensures Loads(ws + [w], pc, Next(mid), d, value')
  {
    hide *;
    forall s: State | s.pc == pc
      ensures Run(ws + [w], s) == Some(Put(s, Next(mid), d, value'))
    {
      LoadsAt(ws, pc, mid, d, value, s);
      RunSnoc(ws, w, s);
      PutTwice(s, mid, Next(mid), d, value, value');
    }
    LoadsDefinition(ws + [w], pc, Next(mid), d, value');
  }

  lemma AddLowLoads(ws: seq<bv32>, w: bv32, pc: bv64, mid: bv64, d: bv32, sf: bool, value: bv64, imm: bv64, low: bv64)
    requires d <= 30 && Decode(w) == Some(AddSubImm(sf, false, false, false, Low12(imm), d, d))
    requires Loads(ws, pc, mid, d, value) && low == And(imm, 0xFFF) && Plus(value, low) == imm
    ensures Loads(ws + [w], pc, Next(mid), d, Trunc(sf, imm))
  {
    hide *;
    Low12Value(imm);
    forall s: State | Get(s.x, d) == value
      ensures RunOne(w, s) == Some(Put(s, Next(s.pc), d, Trunc(sf, imm)))
    {
      RunAddImm(w, s, d, sf, Low12(imm));
    }
    LoadThen(ws, w, pc, mid, d, value, Trunc(sf, imm));
  }

  // ----- The MOVZ/MOVK loop -----

  lemma StartMoveWide(w: bv32, pc: bv64, d: bv32, sf: bool, opc: bv32, hw: bv32, imm16: bv32, keep: bv64, value: bv64)
    requires d <= 30 && Decode(w) == Some(MoveWide(sf, opc, hw, imm16, d))
    requires forall x: bv64 :: MoveWideValue(sf, opc, hw, imm16, x) == Blend(x, keep, value)
    ensures Blends([w], pc, Next(pc), d, keep, value)
  {
    hide *;
    forall s: State | s.pc == pc
      ensures Run([w], s) == Some(Put(s, Next(pc), d, Blend(Get(s.x, d), keep, value)))
    {
      RunMoveWide(w, s, d, sf, opc, hw, imm16);
      assert [] + [w] == [w];
      RunSnoc([], w, s);
      RunNothing(s);
    }
    BlendsDefinition([w], pc, Next(pc), d, keep, value);
  }

  lemma RunNothing(s: State)
    ensures Run([], s) == Some(s)
  {}

  lemma NothingKept(sf: bool, imm: bv64, x: bv64)
    ensures Blend(x, Keep(sf, 0), Lanes(imm, 0, 0)) == x
  {}

  lemma BlendZero(x: bv64, value: bv64)
    ensures Blend(x, 0, value) == value
  {}

  /** Before the first upload: nothing emitted when optimizing, otherwise the lanes below i inserted one by one. */
  ghost predicate Inserted(ws: seq<bv32>, pc: bv64, end: bv64, d: bv32, sf: bool, imm: bv64, i: nat) {
    if i == 0 then ws == [] && end == pc else Blends(ws, pc, end, d, Keep(sf, i), Lanes(imm, 0, i))
  }

  lemma InsertStep(ws: seq<bv32>, w: bv32, pc: bv64, mid: bv64, d: bv32, sf: bool, imm: bv64, i: nat)
    requires i < LaneCount(sf)
    requires d <= 30 && Decode(w) == Some(MoveWide(sf, 3, ShiftAmount(i), Part(imm, i), d))
    requires Inserted(ws, pc, mid, d, sf, imm, i)
    ensures Inserted(ws + [w], pc, Next(mid), d, sf, imm, i + 1)
  {
    hide *;
    LaneCountIs(sf);
    InsertedDefinition(ws, pc, mid, d, sf, imm, i);
    forall x: bv64
      ensures MoveWideValue(sf, 3, ShiftAmount(i), Part(imm, i), Blend(x, Keep(sf, i), Lanes(imm, 0, i)))
           == Blend(x, Keep(sf, i + 1), Lanes(imm, 0, i + 1))
    {
      InsertPart(sf, imm, i, x);
    }
    if i == 0 {
      forall x: bv64
        ensures MoveWideValue(sf, 3, ShiftAmount(i), Part(imm, i), x) == Blend(x, Keep(sf, i + 1), Lanes(imm, 0, i + 1))
      {
        NothingKept(sf, imm, x);
      }
      StartMoveWide(w, pc, d, sf, 3, ShiftAmount(i), Part(imm, i), Keep(sf, i + 1), Lanes(imm, 0, i + 1));
      assert ws + [w] == [w];
    } else {
      AppendMoveWide(ws, pc, mid, d, Keep(sf, i), Lanes(imm, 0, i), w, sf, 3, ShiftAmount(i), Part(imm, i),
                     Keep(sf, i + 1), Lanes(imm, 0, i + 1));
    }
    InsertedDefinition(ws + [w], pc, Next(mid), d, sf, imm, i + 1);
  }

  lemma InsertedDefinition(ws: seq<bv32>, pc: bv64, end: bv64, d: bv32, sf: bool, imm: bv64, i: nat)
    ensures Inserted(ws, pc, end, d, sf, imm, i)
       <==> if i == 0 then ws == [] && end == pc else Blends(ws, pc, end, d, Keep(sf, i), Lanes(imm, 0, i))
  {
    hide Blends, Keep, Lanes;
  }

  lemma FirstStep(ws: seq<bv32>, w: bv32, pc: bv64, mid: bv64, d: bv32, sf: bool, imm: bv64, i: nat, n: nat)
    requires i < LaneCount(sf)
    requires d <= 30 && Decode(w) == Some(MoveWide(sf, 2, ShiftAmount(i), Part(imm, i), d))
    requires Inserted(ws, pc, mid, d, sf, imm, n)
    ensures Loads(ws + [w], pc, Next(mid), d, Lanes(imm, i, i + 1))
  {
    hide *;
    LaneCountIs(sf);
    InsertedDefinition(ws, pc, mid, d, sf, imm, n);
    forall x: bv64
      ensures MoveWideValue(sf, 2, ShiftAmount(i), Part(imm, i), x) == Lanes(imm, i, i + 1)
    {
      FirstPart(sf, imm, i, x);
      BlendZero(x, Lanes(imm, i, i + 1));
    }
    if n == 0 {
      MoveWideLoads(w, pc, d, sf, 2, ShiftAmount(i), Part(imm, i), Lanes(imm, i, i + 1));
      assert ws + [w] == [w];
    } else {
      forall x: bv64
        ensures MoveWideValue(sf, 2, ShiftAmount(i), Part(imm, i), Blend(x, Keep(sf, n), Lanes(imm, 0, n)))
                == Blend(x, 0, Lanes(imm, i, i + 1))
      {
        BlendZero(x, Lanes(imm, i, i + 1));
      }
      AppendMoveWide(ws, pc, mid, d, Keep(sf, n), Lanes(imm, 0, n), w, sf, 2, ShiftAmount(i), Part(imm, i), 0,
                     Lanes(imm, i, i + 1));
      BlendNothing(ws + [w], pc, Next(mid), d, Lanes(imm, i, i + 1));
    }
  }

  lemma NextStep(ws: seq<bv32>, w: bv32, pc: bv64, mid: bv64, d: bv32, sf: bool, imm: bv64, first: nat, i: nat)
    requires first < i < LaneCount(sf)
    requires d <= 30 && Decode(w) == Some(MoveWide(sf, 3, ShiftAmount(i), Part(imm, i), d))
    requires Loads(ws, pc, mid, d, Lanes(imm, first, i))
    ensures Loads(ws + [w], pc, Next(mid), d, Lanes(imm, first, i + 1))
  {
    hide *;
    LaneCountIs(sf);
    forall s: State | Get(s.x, d) == Lanes(imm, first, i)
      ensures RunOne(w, s) == Some(Put(s, Next(s.pc), d, Lanes(imm, first, i + 1)))
    {
      RunMoveWide(w, s, d, sf, 3, ShiftAmount(i), Part(imm, i));
      NextPart(sf, imm, first, i, 0);
      BlendZero(0, Lanes(imm, first, i));
      BlendZero(0, Lanes(imm, first, i + 1));
    }
    LoadThen(ws, w, pc, mid, d, Lanes(imm, first, i), Lanes(imm, first, i + 1));
  }

  // ----- What the loop leaves -----

  lemma AllLanes(sf: bool, imm: bv64)
    ensures Alike(Lanes(imm, 0, LaneCount(sf)), Trunc(sf, imm)) && Keep(sf, LaneCount(sf)) == 0
  {}

  lemma InsertedAll(ws: seq<bv32>, pc: bv64, end: bv64, d: bv32, sf: bool, imm: bv64, i: nat)
    requires Inserted(ws, pc, end, d, sf, imm, i) && i == LaneCount(sf)
    ensures Loads(ws, pc, end, d, Lanes(imm, 0, i))
  {
    hide *;
    LaneCountIs(sf);
    InsertedDefinition(ws, pc, end, d, sf, imm, i);
    AllLanes(sf, imm);
    BlendNothing(ws, pc, end, d, Lanes(imm, 0, i));
  }

  lemma LanesAll(sf: bool, imm: bv64)
    ensures Lanes(imm, 0, LaneCount(sf)) == Trunc(sf, imm)
  {
    hide *;
    AllLanes(sf, imm);
    Same(Lanes(imm, 0, LaneCount(sf)), Trunc(sf, imm));
  }

  lemma LanesSplit1(imm: bv64)
    ensures Alike(Xor(Lanes(imm, 1, 4), imm), Lanes(imm, 0, 1))
  {}

  lemma LanesSplit2(imm: bv64)
    ensures Alike(Xor(Lanes(imm, 2, 4), imm), Lanes(imm, 0, 2))
  {}

  lemma LanesSplit3(imm: bv64)
    ensures Alike(Xor(Lanes(imm, 3, 4), imm), Lanes(imm, 0, 3))
  {}

  lemma LanesSplit0(imm: bv64)
    ensures Alike(Xor(Lanes(imm, 0, 4), imm), Lanes(imm, 0, 0))
  {}

  lemma LanesSplitW(imm: bv64, first: nat)
    requires first <= 1
    ensures Alike(Xor(Lanes(imm, first, 2), Low32(imm)), Lanes(imm, 0, first))
  {}

  lemma LanesFrom(imm: bv64, sf: bool, first: nat)
    requires first < LaneCount(sf)
    ensures Lanes(imm, first, LaneCount(sf)) == Trunc(sf, imm) <==> Lanes(imm, 0, first) == 0
  {
    hide *;
    LaneCountIs(sf);
    TruncIs(sf, imm);
    if !sf {
      LanesSplitW(imm, first);
    } else if first == 0 {
      LanesSplit0(imm);
    } else if first == 1 {
      LanesSplit1(imm);
    } else if first == 2 {
      LanesSplit2(imm);
    } else {
      LanesSplit3(imm);
    }
    Same(Xor(Lanes(imm, first, LaneCount(sf)), Trunc(sf, imm)), Lanes(imm, 0, first));
    XorIsZero(Lanes(imm, first, LaneCount(sf)), Trunc(sf, imm));
  }

  lemma TruncIs(sf: bool, imm: bv64)
    ensures Trunc(sf, imm) == if sf then imm else Low32(imm)
  {}

  /** When the loop found an upload, it drops lanes exactly when what it leaves is not the constant at the register
      width. */
  lemma DropsAfterFirst(sf: bool, imm: bv64, part: seq<bool>, first: nat)
    requires |part| == 4 && first < LaneCount(sf) && IsFirstUpload(part, first)
    ensures DropsLanes(sf, imm, part) <==> Lanes(imm, first, LaneCount(sf)) != Trunc(sf, imm)
  {
    hide Lanes, LaneCount, Trunc;
    LanesFrom(imm, sf, first);
    forall other: nat | IsFirstUpload(part, other)
      ensures other == first
    {
    }
  }

  lemma LanesEmpty(imm: bv64)
    ensures Lanes(imm, 0, 0) == 0
  {}

  lemma OutcomeOf(ws: seq<bv32>, pc: bv64, end: bv64, d: bv32, value: bv64, imm: bv64)
    requires Loads(ws, pc, end, d, value)
    ensures Loads(ws, pc, end, d, imm) <==> value == imm
  {
    hide Loads;
    if value != imm {
      LoadsOnce(ws, pc, end, d, value, imm);
    }
  }

  // ----- At the register width -----

  lemma LoadsLowOf(ws: seq<bv32>, pc: bv64, end: bv64, d: bv32, u: bv64, imm: bv64)
    requires Loads(ws, pc, end, d, u)
    ensures LoadsLow(ws, pc, end, d, imm) <==> Low32(u) == Low32(imm)
  {
    hide Loads, Low32;
    forall v: bv64 | Loads(ws, pc, end, d, v)
      ensures v == u
    {
      if v != u {
        LoadsOnce(ws, pc, end, d, u, v);
      }
    }
  }

  lemma NothingLoads(pc: bv64, end: bv64, d: bv32, u: bv64)
    ensures !Loads([], pc, end, d, u)
  {
    var x: map<Reg, bv64> := map[];
    var s := State(pc, x, 0, Flags(false, false, false, false), map[], map[]);
    assert x[R(d) := u][R(d)] == u && Run([], s) == Some(s);
  }

  lemma NothingLoadsLow(pc: bv64, end: bv64, d: bv32, imm: bv64)
    ensures !LoadsLow([], pc, end, d, imm)
  {
    hide Loads, Low32;
    forall u: bv64
      ensures !Loads([], pc, end, d, u)
    {
      NothingLoads(pc, end, d, u);
    }
  }

  lemma LowOfTrunc(sf: bool, imm: bv64)
    ensures Low32(Trunc(sf, imm)) == Low32(imm)
  {}

  /** The address forms miss the exact constant at the farthest offset, and when the ADD cuts it; its low half never. */
  lemma AddressOutcome(ws: seq<bv32>, pc: bv64, end: bv64, d: bv32, sf: bool, imm: bv64, page: bv64)
    requires page == PageOf(pc) && (Minus(imm, page) == FARTHEST ==> Loads(ws, pc, end, d, page))
    requires Minus(imm, page) != FARTHEST ==> Loads(ws, pc, end, d, if IsWhole(imm, pc) then imm else Trunc(sf, imm))
    ensures Loads(ws, pc, end, d, imm) <==> Minus(imm, page) != FARTHEST && (InRange(sf, imm) || IsWhole(imm, pc))
    ensures LoadsLow(ws, pc, end, d, imm) && ws != []
  {
    hide *;
    var u := if Minus(imm, page) == FARTHEST then page else if IsWhole(imm, pc) then imm else Trunc(sf, imm);
    if Minus(imm, page) == FARTHEST {
      FarthestLow(imm, page);
      FarthestMisses(imm, page);
    }
    TruncInRange(sf, imm);
    LowOfTrunc(sf, imm);
    LoadsLowOf(ws, pc, end, d, u, imm);
    OutcomeOf(ws, pc, end, d, u, imm);
    NothingLoads(pc, end, d, u);
  }

  lemma FarthestLow(imm: bv64, page: bv64)
    requires Minus(imm, page) == FARTHEST
    ensures Low32(page) == Low32(imm)
  {}

  /** With optimize, a slot that is not set belongs to a lane of zeros. */
  ghost predicate MarksParts(sf: bool, imm: bv64, part: seq<bool>) {
    |part| == 4 && forall k: nat :: k < LaneCount(sf) && !part[k] ==> Part(imm, k) == 0
  }

  lemma TableMarksParts(sf: bool, imm: bv64, undefined: seq<bool>)
    requires |undefined| == 4
    ensures MarksParts(sf, imm, UploadTable(sf, imm, true, undefined))
  {
    hide Part;
  }

  /** What the loop of moves leaves: the lanes from the first upload on, all of them when there is none and every lane
      is inserted, and nothing at all when there is none and lanes are skipped. */
  ghost predicate LoadsParts(ws: seq<bv32>, pc: bv64, end: bv64, d: bv32, sf: bool, imm: bv64, optimize: bool,
                             part: seq<bool>)
    requires |part| == 4
  {
    && (NoUpload(sf, part) ==> if optimize then ws == [] && end == pc
        else Loads(ws, pc, end, d, Lanes(imm, 0, LaneCount(sf))))
    && (forall first: nat :: first < LaneCount(sf) && IsFirstUpload(part, first) ==>
          Loads(ws, pc, end, d, Lanes(imm, first, LaneCount(sf))))
  }

  lemma FirstUpload(sf: bool, part: seq<bool>) returns (first: nat)
    requires |part| == 4 && !NoUpload(sf, part)
    ensures first < LaneCount(sf) && IsFirstUpload(part, first)
  {
    first := 0;
    while !part[first]
      invariant first < LaneCount(sf) && NoneBefore(part, first)
      decreases LaneCount(sf) - first
    {
      first := first + 1;
      assert NoneBefore(part, first);
    }
  }

  lemma LanesLow(imm: bv64, first: nat)
    requires first <= 2
    ensures Low32(Lanes(imm, first, 2)) == Lanes(imm, first, 2)
  {}

  lemma LanesOutcome(ws: seq<bv32>, pc: bv64, end: bv64, d: bv32, sf: bool, imm: bv64, first: nat)
    requires first < LaneCount(sf) && Loads(ws, pc, end, d, Lanes(imm, first, LaneCount(sf)))
    ensures Loads(ws, pc, end, d, Trunc(sf, imm)) <==> Lanes(imm, first, LaneCount(sf)) == Trunc(sf, imm)
    ensures !sf ==> (LoadsLow(ws, pc, end, d, imm) <==> Loads(ws, pc, end, d, Trunc(sf, imm)))
    ensures !InRange(sf, imm) ==> !Loads(ws, pc, end, d, imm)
    ensures ws != []
  {
    hide *;
    var value := Lanes(imm, first, LaneCount(sf));
    LaneCountIs(sf);
    TruncIs(sf, imm);
    OutcomeOf(ws, pc, end, d, value, Trunc(sf, imm));
    if !sf {
      LanesLow(imm, first);
      LoadsLowOf(ws, pc, end, d, value, imm);
    }
    OutcomeOf(ws, pc, end, d, value, imm);
    TruncInRange(sf, imm);
    NothingLoads(pc, end, d, value);
  }

  lemma LoadsPartsIs(ws: seq<bv32>, pc: bv64, end: bv64, d: bv32, sf: bool, imm: bv64, optimize: bool, part: seq<bool>)
    requires |part| == 4
    ensures LoadsParts(ws, pc, end, d, sf, imm, optimize, part) <==>
      && (NoUpload(sf, part) ==> if optimize then ws == [] && end == pc
          else Loads(ws, pc, end, d, Lanes(imm, 0, LaneCount(sf))))
      && (forall first: nat :: first < LaneCount(sf) && IsFirstUpload(part, first) ==>
            Loads(ws, pc, end, d, Lanes(imm, first, LaneCount(sf))))
  {
    hide NoUpload, Loads, Lanes, LaneCount, IsFirstUpload;
  }

  /** The loop leaves the constant at the register width unless it drops lanes, or emits nothing for want of an
      upload. */
  lemma PartsOutcome(ws: seq<bv32>, pc: bv64, end: bv64, d: bv32, sf: bool, imm: bv64, optimize: bool, part: seq<bool>)
    requires |part| == 4 && LoadsParts(ws, pc, end, d, sf, imm, optimize, part)
    ensures ws == [] <==> optimize && NoUpload(sf, part)
    ensures ws == [] ==> end == pc
    ensures ws != [] ==> (Loads(ws, pc, end, d, Trunc(sf, imm)) <==> !DropsLanes(sf, imm, part))
    ensures !sf ==> (LoadsLow(ws, pc, end, d, imm) <==> ws != [] && !DropsLanes(sf, imm, part))
    ensures ws == [] || !InRange(sf, imm) ==> !Loads(ws, pc, end, d, imm)
  {
    hide *;
    LaneCountIs(sf);
    LoadsPartsIs(ws, pc, end, d, sf, imm, optimize, part);
    if NoUpload(sf, part) {
      NoUploadDrops(sf, imm, part);
      LanesAll(sf, imm);
      if optimize {
        NothingLoadsLow(pc, end, d, imm);
        NothingLoads(pc, end, d, imm);
      } else {
        LanesOutcome(ws, pc, end, d, sf, imm, 0);
      }
    } else {
      var first := FirstUpload(sf, part);
      DropsAfterFirst(sf, imm, part, first);
      LanesOutcome(ws, pc, end, d, sf, imm, first);
    }
  }

  lemma NoneUploaded(sf: bool, part: seq<bool>)
    requires |part| == 4 && forall k :: 0 <= k < LaneCount(sf) ==> !part[k]
    ensures NoUpload(sf, part)
  {
    hide LaneCount;
    LaneCountIs(sf);
  }

  lemma MarkedPart(sf: bool, imm: bv64, part: seq<bool>, i: nat)
    requires MarksParts(sf, imm, part) && i < LaneCount(sf) && !part[i]
    ensures Part(imm, i) == 0
  {
    hide Part;
  }

  /** At the end of the loop, first is the first upload, or the number of lanes when there is none. */
  lemma LoopLeaves(ws: seq<bv32>, pc: bv64, end: bv64, d: bv32, sf: bool, imm: bv64, optimize: bool, part: seq<bool>,
                   first: nat)
    requires |part| == 4 && first <= LaneCount(sf)
    requires if first == LaneCount(sf) then NoUpload(sf, part) else IsFirstUpload(part, first)
    requires first == LaneCount(sf) ==>
      if optimize then ws == [] && end == pc else Loads(ws, pc, end, d, Lanes(imm, 0, LaneCount(sf)))
    requires first < LaneCount(sf) ==> Loads(ws, pc, end, d, Lanes(imm, first, LaneCount(sf)))
    ensures LoadsParts(ws, pc, end, d, sf, imm, optimize, part)
  {
    hide Loads, Lanes;
    forall other: nat | other < LaneCount(sf) && IsFirstUpload(part, other)
      ensures other == first
    {
    }
  }

  lemma NoUploadDrops(sf: bool, imm: bv64, part: seq<bool>)
    requires |part| == 4 && NoUpload(sf, part)
    ensures !DropsLanes(sf, imm, part)
  {
    hide Lanes;
  }

  /** With optimize there is no upload only for a constant that is 0 at the register width. */
  lemma NoUploadTable(sf: bool, imm: bv64, undefined: seq<bool>)
    requires |undefined| == 4
    ensures NoUpload(sf, UploadTable(sf, imm, true, undefined)) ==> Trunc(sf, imm) == 0
    ensures NoUpload(false, UploadTable(false, imm, true, undefined))
       <==> Low32(imm) == 0 && !undefined[0] && !undefined[1]
  {
    hide Lanes, Part, Trunc, Low32;
    TruncIs(sf, imm);
    LanesAll(sf, imm);
    LanesAll(false, imm);
    TruncIs(false, imm);
    if NoUpload(sf, UploadTable(sf, imm, true, undefined)) {
      assert forall k: nat :: k < LaneCount(sf) ==> !UploadTable(sf, imm, true, undefined)[k];
      LanesBelow(imm, LaneCount(sf));
    }
    if NoUpload(false, UploadTable(false, imm, true, undefined)) {
      assert forall k: nat :: k < 2 ==> !UploadTable(false, imm, true, undefined)[k];
      LanesBelow(imm, 2);
    }
    if Low32(imm) == 0 {
      LowParts(imm);
    }
  }

  lemma LowParts(imm: bv64)
    requires Low32(imm) == 0
    ensures Part(imm, 0) == 0 && Part(imm, 1) == 0
  {}

  lemma Below31(d: bv32)
    requires d <= 31 && d != 31
    ensures d <= 30
  {}

  lemma MisloadsDefinition(sf: bool, imm: bv64, pc: bv64, optimize: bool, undefined: seq<bool>)
    requires |undefined| == 4
    ensures var part := UploadTable(sf, imm, optimize, undefined);
      Misloads(sf, imm, pc, optimize, undefined) <==>
      (&& imm != 0 && !IsAllOnes(sf, imm) && !IsSmallNegative(sf, imm)
       && if IsAddress(part, imm, PageOf(pc)) then Minus(imm, PageOf(pc)) == FARTHEST else DropsLanes(sf, imm, part))
  {
    hide UploadTable, IsAllOnes, IsSmallNegative, IsAddress, PageOf, DropsLanes;
  }

  lemma LeavesDefinition(sf: bool, imm: bv64, pc: bv64, optimize: bool, undefined: seq<bool>)
    requires |undefined| == 4
    ensures var part := UploadTable(sf, imm, optimize, undefined);
      Leaves(sf, imm, pc, optimize, undefined) <==>
      if InRange(sf, imm) then !Misloads(sf, imm, pc, optimize, undefined)
      else !IsSmallNegative(sf, imm) && IsAddress(part, imm, PageOf(pc)) && IsWhole(imm, pc)
    ensures imm == 0 || IsAllOnes(sf, imm) ==> InRange(sf, imm)
    ensures IsWhole(imm, pc) ==> Minus(imm, PageOf(pc)) != FARTHEST
  {
    hide UploadTable, IsSmallNegative, IsAddress, PageOf, Misloads, IsPageMultiple, IsWithin1MB, Minus;
  }

  lemma IsWholeIs(imm: bv64, pc: bv64)
    ensures Minus(imm, PageOf(pc)) != FARTHEST ==>
      (IsWhole(imm, pc) <==> IsPageMultiple(Minus(imm, PageOf(pc))) || IsWithin1MB(Minus(imm, pc)))
  {
    hide PageOf, IsPageMultiple, IsWithin1MB, Minus;
  }

  lemma MissesLowDefinition(imm: bv64, pc: bv64, optimize: bool, undefined: seq<bool>)
    requires |undefined| == 4
    ensures var part := UploadTable(false, imm, optimize, undefined);
      MissesLow(imm, pc, optimize, undefined) <==>
      (&& imm != 0 && !IsAllOnes(false, imm) && !IsSmallNegative(false, imm) && !IsAddress(part, imm, PageOf(pc))
       && if optimize then Low32(imm) == 0 && !undefined[0] && !undefined[1] else DropsLanes(false, imm, part))
  {
    hide UploadTable, IsAllOnes, IsSmallNegative, IsAddress, PageOf, DropsLanes, Low32;
  }

  lemma SingleWord(before: seq<bv32>, after: seq<bv32>, i: Instr) returns (w: bv32)
    requires Emits(before, after, i)
    ensures after[|before|..] == [w] && Decode(w) == Some(i) && before <= after && |after| == |before| + 1
  {
    hide Decode;
    w := EmitsSuffix(|before|, before, after, i);
    assert before[|before|..] == [];
  }

  lemma NegativeIsNarrow(sf: bool, imm: bv64)
    requires IsSmallNegative(sf, imm)
    ensures !sf
  {}

  lemma IsAddressDefinition(part: seq<bool>, imm: bv64, page: bv64, offset: bv64)
    requires offset == Minus(imm, page)
    ensures IsAddress(part, imm, page) <==> CountTrue(part) > 1 && IsNear(offset)
  {
    hide CountTrue, IsNear;
  }

  lemma FirstUploadHere(part: seq<bool>, i: nat)
    requires i < |part| && part[i] && forall k :: 0 <= k < i ==> !part[k]
    ensures IsFirstUpload(part, i)
  {}

  lemma ShiftAmountZero()
    ensures ShiftAmount(0) == 0
  {}

  lemma ShiftAmountRange(sf: bool, pos: nat)
    requires pos < LaneCount(sf)
    ensures sf || ShiftAmount(pos) <= 1
  {}

  // ----- With optimize -----

  lemma LanesBelow(imm: bv64, i: nat)
    requires i <= 4 && forall k :: 0 <= k < i ==> Part(imm, k) == 0
    ensures Lanes(imm, 0, i) == 0
  {
    hide Lanes, Part;
    LanesEmpty(imm);
    for k := 0 to i
      invariant Lanes(imm, 0, k) == 0
    {
      SkipPart(imm, 0, k);
    }
  }

  lemma OptimizedDropsNothing(sf: bool, imm: bv64, undefined: seq<bool>)
    requires |undefined| == 4
    ensures !DropsLanes(sf, imm, UploadTable(sf, imm, true, undefined))
  {
    hide Lanes, Part, UploadTable;
    var part := UploadTable(sf, imm, true, undefined);
    forall first: nat | first < LaneCount(sf) && IsFirstUpload(part, first)
      ensures Lanes(imm, 0, first) == 0
    {
      forall k | 0 <= k < first
        ensures Part(imm, k) == 0
      {
        assert !part[k];
      }
      LanesBelow(imm, first);
    }
  }

  /** With optimize, MOVI2R loads imm unless imm is exactly 2^63 away from the page of the code pointer. */
  lemma OptimizedMisloads(sf: bool, imm: bv64, pc: bv64, undefined: seq<bool>)
    requires |undefined| == 4 && Misloads(sf, imm, pc, true, undefined)
    ensures Minus(imm, PageOf(pc)) == FARTHEST
  {
    hide *;
    MisloadsDefinition(sf, imm, pc, true, undefined);
    OptimizedDropsNothing(sf, imm, undefined);
  }

  lemma FarFromUserSpace(imm: bv64, pc: bv64)
    requires pc < 0x8000_0000_0000_0000 && Minus(imm, PageOf(pc)) == FARTHEST
    ensures 0x8000_0000_0000_0000 <= imm
  {}

  /** For code in the lower half of the address space, every 32-bit constant and every lower-half address is loaded. */
  lemma UserSpaceLoads(sf: bool, imm: bv64, pc: bv64, undefined: seq<bool>)
    requires |undefined| == 4 && pc < 0x8000_0000_0000_0000 && imm < 0x8000_0000_0000_0000
    ensures !Misloads(sf, imm, pc, true, undefined)
    ensures InRange(sf, imm) ==> Leaves(sf, imm, pc, true, undefined)
  {
    hide *;
    LeavesDefinition(sf, imm, pc, true, undefined);
    if Misloads(sf, imm, pc, true, undefined) {
      OptimizedMisloads(sf, imm, pc, undefined);
      FarFromUserSpace(imm, pc);
    }
  }

  // ----- Whatever the table holds -----

  predicate IsShortForm(sf: bool, imm: bv64) {
    imm == 0 || IsAllOnes(sf, imm) || IsSmallNegative(sf, imm)
  }

  function AsNumber(b: bool): nat {
    if b then 1 else 0
  }

  lemma CountFour(part: seq<bool>)
    requires |part| == 4
    ensures CountTrue(part) == AsNumber(part[0]) + AsNumber(part[1]) + AsNumber(part[2]) + AsNumber(part[3])
  {
    assert part[..3][..2] == part[..2] && part[..2][..1] == part[..1] && part[..1][..0] == [];
    assert CountTrue(part[..1]) == AsNumber(part[0]);
    assert CountTrue(part[..2]) == CountTrue(part[..1]) + AsNumber(part[1]);
    assert CountTrue(part[..3]) == CountTrue(part[..2]) + AsNumber(part[2]);
  }

  /** With every slot set, the farthest offset is taken for an address. */
  lemma FullTableMisloads(sf: bool, imm: bv64, pc: bv64, optimize: bool)
    requires !IsShortForm(sf, imm) && Minus(imm, PageOf(pc)) == FARTHEST
    ensures Misloads(sf, imm, pc, optimize, [true, true, true, true])
  {
    hide Part, PageOf, Minus, IsNear, LaneCount, IsAllOnes, IsSmallNegative, CountTrue;
    var table := [true, true, true, true];
    assert UploadTable(sf, imm, optimize, table) == table;
    CountFour(table);
    FarthestPages();
  }

  /** With optimize, there is a table for which MOVI2R misloads exactly when the constant, unless it has a one-word form
      of its own, is 2^63 away from the page of the code pointer. */
  lemma SomeTableMisloads(sf: bool, imm: bv64, pc: bv64)
    ensures (exists u: seq<bool> :: |u| == 4 && Misloads(sf, imm, pc, true, u))
       <==> !IsShortForm(sf, imm) && Minus(imm, PageOf(pc)) == FARTHEST
  {
    hide Misloads, PageOf, Minus, IsAllOnes, IsSmallNegative;
    forall u: seq<bool> | |u| == 4 && Misloads(sf, imm, pc, true, u)
      ensures !IsShortForm(sf, imm) && Minus(imm, PageOf(pc)) == FARTHEST
    {
      OptimizedMisloads(sf, imm, pc, u);
      MisloadsDefinition(sf, imm, pc, true, u);
    }
    if !IsShortForm(sf, imm) && Minus(imm, PageOf(pc)) == FARTHEST {
      FullTableMisloads(sf, imm, pc, true);
    }
  }

  lemma LanesGrow(imm: bv64, first: nat, end: nat)
    requires first <= end <= 3 && Lanes(imm, 0, first) != 0
    ensures Lanes(imm, 0, end) != 0
  {}

  lemma DropsGrow(sf: bool, imm: bv64, part: seq<bool>)
    requires |part| == 4 && DropsLanes(sf, imm, part)
    ensures Lanes(imm, 0, LaneCount(sf) - 1) != 0
  {
    hide Lanes;
    var first: nat :| first < LaneCount(sf) && IsFirstUpload(part, first) && Lanes(imm, 0, first) != 0;
    LanesGrow(imm, first, LaneCount(sf) - 1);
  }

  /** Only the slot of the topmost lane is set. */
  function LastTable(sf: bool): (u: seq<bool>)
    ensures |u| == 4
  {
    if sf then [false, false, false, true] else [false, true, false, false]
  }

  lemma LastTableDrops(sf: bool, imm: bv64)
    requires Lanes(imm, 0, LaneCount(sf) - 1) != 0
    ensures DropsLanes(sf, imm, LastTable(sf)) && CountTrue(LastTable(sf)) == 1
    ensures UploadTable(sf, imm, false, LastTable(sf)) == LastTable(sf)
  {
    hide Lanes, Part, CountTrue;
    CountFour(LastTable(sf));
    assert IsFirstUpload(LastTable(sf), LaneCount(sf) - 1);
  }

  /** Without optimize, there is a table for which MOVI2R misloads exactly when, besides that, a lane below the topmost
      one is not 0. */
  lemma SomeTableMisloadsUnoptimized(sf: bool, imm: bv64, pc: bv64)
    ensures (exists u: seq<bool> :: |u| == 4 && Misloads(sf, imm, pc, false, u))
       <==> !IsShortForm(sf, imm) && (Minus(imm, PageOf(pc)) == FARTHEST || Lanes(imm, 0, LaneCount(sf) - 1) != 0)
  {
    hide Misloads, PageOf, Minus, IsAllOnes, IsSmallNegative, Lanes, UploadTable, CountTrue, DropsLanes, IsNear,
      LastTable;
    forall u: seq<bool> | |u| == 4 && Misloads(sf, imm, pc, false, u)
      ensures !IsShortForm(sf, imm) && (Minus(imm, PageOf(pc)) == FARTHEST || Lanes(imm, 0, LaneCount(sf) - 1) != 0)
    {
      MisloadsDefinition(sf, imm, pc, false, u);
      if DropsLanes(sf, imm, UploadTable(sf, imm, false, u)) {
        DropsGrow(sf, imm, UploadTable(sf, imm, false, u));
      }
    }
    if !IsShortForm(sf, imm) {
      if Minus(imm, PageOf(pc)) == FARTHEST {
        FullTableMisloads(sf, imm, pc, false);
      } else if Lanes(imm, 0, LaneCount(sf) - 1) != 0 {
        LastTableDrops(sf, imm);
        MisloadsDefinition(sf, imm, pc, false, LastTable(sf));
      }
    }
  }

  lemma EmptyTable(imm: bv64)
    requires Low32(imm) == 0
    ensures UploadTable(false, imm, true, [false, false, false, false]) == [false, false, false, false]
    ensures CountTrue([false, false, false, false]) == 0
    ensures !IsAllOnes(false, imm) && !IsSmallNegative(false, imm)
  {
    hide Part, CountTrue;
    LowParts(imm);
    CountFour([false, false, false, false]);
    LowNotShort(imm);
  }

  lemma LowNotShort(imm: bv64)
    requires Low32(imm) == 0
    ensures !IsAllOnes(false, imm) && !IsSmallNegative(false, imm)
  {}

  /** The same for the low half of a W register: with optimize, exactly a constant other than 0 whose low half is 0;
      without, exactly one whose lowest lane is not 0 and that has no one-word form. */
  lemma SomeTableMissesLow(imm: bv64, pc: bv64)
    ensures (exists u: seq<bool> :: |u| == 4 && MissesLow(imm, pc, true, u)) <==> imm != 0 && Low32(imm) == 0
    ensures (exists u: seq<bool> :: |u| == 4 && MissesLow(imm, pc, false, u))
       <==> !IsShortForm(false, imm) && Lanes(imm, 0, 1) != 0
  {
    hide MissesLow, PageOf, Minus, IsAllOnes, IsSmallNegative, Lanes, UploadTable, CountTrue, DropsLanes, IsNear,
      LastTable, Low32;
    forall u: seq<bool> | |u| == 4
      ensures MissesLow(imm, pc, true, u) ==> imm != 0 && Low32(imm) == 0
      ensures MissesLow(imm, pc, false, u) ==> !IsShortForm(false, imm) && Lanes(imm, 0, 1) != 0
    {
      MissesLowDefinition(imm, pc, true, u);
      MissesLowDefinition(imm, pc, false, u);
      if DropsLanes(false, imm, UploadTable(false, imm, false, u)) {
        DropsGrow(false, imm, UploadTable(false, imm, false, u));
      }
    }
    if imm != 0 && Low32(imm) == 0 {
      EmptyTable(imm);
      MissesLowDefinition(imm, pc, true, [false, false, false, false]);
      assert MissesLow(imm, pc, true, [false, false, false, false]);
    }
    if !IsShortForm(false, imm) && Lanes(imm, 0, 1) != 0 {
      LastTableDrops(false, imm);
      MissesLowDefinition(imm, pc, false, LastTable(false));
      assert MissesLow(imm, pc, false, LastTable(false));
    }
  }

  /** 2^32 into a W register, with optimize and an upload table that reads false: nothing is emitted. */
  lemma NothingEmittedExample(pc: bv64)
    ensures MissesLow(0x1_0000_0000, pc, true, [false, false, false, false])
  {
    hide MissesLow, UploadTable, CountTrue, PageOf, IsNear;
    EmptyTable(0x1_0000_0000);
    MissesLowDefinition(0x1_0000_0000, pc, true, [false, false, false, false]);
  }

  /** The page at 0x1000 and a constant 2^63 above it: misloaded with optimize, whatever the table holds. */
  lemma OptimizedExample(undefined: seq<bool>)
    requires |undefined| == 4
    ensures Misloads(true, 0x8000_0000_0000_1000, 0x1000, true, undefined)
  {
    hide CountTrue;
    var part := UploadTable(true, 0x8000_0000_0000_1000, true, undefined);
    assert part[0] && part[3];
    CountFour(part);
  }

  /** Without optimize, an uninitialised table whose second slot reads true drops the low lane of 0x1234_5678. */
  lemma UnoptimizedExample()
    ensures Misloads(true, 0x1234_5678, 0, false, [false, true, false, false])
  {
    var undefined := [false, true, false, false];
    var part := UploadTable(true, 0x1234_5678, false, undefined);
    assert part == undefined;
    CountFour(part);
    assert IsFirstUpload(part, 1);
    assert Lanes(0x1234_5678, 0, 1) == 0x5678;
  }
}
