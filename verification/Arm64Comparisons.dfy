/** Flag-setting operations with constants on ARM64: CMPI2R and ANDSI2R. */
module Arm64Comparisons {
  import opened BitmaskEncoding
  import opened Basics
  import opened Arm64Machine
  import opened Words
  import opened Arm64Moves
  import opened Arm64Loads
  import opened Arm64Addresses
  import opened Arm64Operations
  import opened Arm64Flags

  function SetFlags(s: State, end: bv64, f: Flags): State {
    s.(flags := f, pc := end)
  }

  lemma SetFlagsEffect(s: State, end: bv64, f: Flags, sc: bv32)
    ensures Effect(Some(SetFlags(s, end, f)), s, end, 31, 0, f, sc)
  {}

  lemma PutSetFlagsEffect(s: State, mid: bv64, end: bv64, m: bv32, u: bv64, f: Flags)
    requires m <= 30
    ensures Effect(Some(SetFlags(Put(s, mid, m, u), end, f)), s, end, 31, 0, f, m)
  {}

  lemma EffectFlags(t: Option<State>, s: State, end: bv64, d: bv32, v: bv64, f: Flags, g: Flags, sc: bv32)
    requires Effect(t, s, end, d, v, f, sc) && Effect(t, s, end, d, v, g, sc)
    ensures f == g
  {}

  // ----- CMP and CMN -----

  lemma RunCmpImm(w: bv32, s: State, sub: bool, sf: bool, shift: bool, imm12: bv32, n: bv32)
    requires n <= 30 && Decode(w) == Some(AddSubImm(sf, sub, true, shift, imm12, n, 31))
    ensures RunOne(w, s) == Some(SetFlags(s, Next(s.pc), AddSubFlags(sf, sub, Get(s.x, n), ShiftedImm12(shift, imm12))))
  {
    hide Decode, Next, Trunc, AddSubValue, AddSubFlags, ShiftedImm12;
  }

  lemma RunCmpReg(w: bv32, s: State, sf: bool, m: bv32, n: bv32)
    requires n <= 30 && m <= 30 && Decode(w) == Some(AddSubReg(sf, true, true, m, n, 31))
    ensures RunOne(w, s) == Some(SetFlags(s, Next(s.pc), AddSubFlags(sf, true, Get(s.x, n), Get(s.x, m))))
  {
    hide Decode, Next, Trunc, AddSubValue, AddSubFlags;
  }

  lemma ComparesDefinition(ws: seq<bv32>, pc: bv64, end: bv64, sf: bool, n: bv32, imm: bv64, sc: bv32)
    ensures Compares(ws, pc, end, sf, n, imm, sc) <==> forall s: State :: s.pc == pc ==>
      Effect(Run(ws, s), s, end, 31, 0, AddSubFlags(sf, true, Get(s.x, n), imm), sc)
  {
    hide Run, Effect, AddSubFlags, Comparison;
    forall s: State
      ensures AddSubFlags(sf, true, Get(s.x, n), imm) == Comparison(sf, Get(s.x, n), imm)
    {
      ComparisonOrders(sf, Get(s.x, n), imm);
    }
  }

  lemma RunsCompare(w: bv32, pc: bv64, sf: bool, n: bv32, sub: bool, shift: bool, imm12: bv32, k: bv64, s: State)
    requires n <= 30 && Decode(w) == Some(AddSubImm(sf, sub, true, shift, imm12, n, 31))
             && ShiftedImm12(shift, imm12) == k
    requires s.pc == pc
    ensures Effect(Run([w], s), s, Next(pc), 31, 0, AddSubFlags(sf, sub, Get(s.x, n), k), 31)
  {
    hide *;
    RunOneWord(w, s);
    RunCmpImm(w, s, sub, sf, shift, imm12, n);
    SetFlagsEffect(s, Next(pc), AddSubFlags(sf, sub, Get(s.x, n), k), 31);
  }

  /** CMP of the constant. */
  lemma ImmCompares(w: bv32, pc: bv64, sf: bool, n: bv32, imm: bv64, shift: bool, imm12: bv32)
    requires n <= 30 && Decode(w) == Some(AddSubImm(sf, true, true, shift, imm12, n, 31))
             && ShiftedImm12(shift, imm12) == imm
    ensures Compares([w], pc, Next(pc), sf, n, imm, 31)
  {
    hide *;
    forall s: State | s.pc == pc
      ensures Effect(Run([w], s), s, Next(pc), 31, 0, AddSubFlags(sf, true, Get(s.x, n), imm), 31)
    {
      RunsCompare(w, pc, sf, n, true, shift, imm12, imm, s);
    }
    ComparesDefinition([w], pc, Next(pc), sf, n, imm, 31);
  }

  /** CMN of its negation: right exactly when the constant is not 0 at the register width. */
  lemma NegatedCompares(w: bv32, pc: bv64, sf: bool, n: bv32, imm: bv64, shift: bool, imm12: bv32, sc: bv32)
    requires n <= 30 && Decode(w) == Some(AddSubImm(sf, false, true, shift, imm12, n, 31))
    requires ShiftedImm12(shift, imm12) == Negated(sf, imm) && IsArithmetic(Negated(sf, imm)) && !IsArithmetic(imm)
    ensures Compares([w], pc, Next(pc), sf, n, imm, sc) <==> Trunc(sf, imm) != 0
  {
    hide *;
    ComparesDefinition([w], pc, Next(pc), sf, n, imm, sc);
    if Trunc(sf, imm) != 0 {
      forall s: State | s.pc == pc
        ensures Effect(Run([w], s), s, Next(pc), 31, 0, AddSubFlags(sf, true, Get(s.x, n), imm), sc)
      {
        RunsCompare(w, pc, sf, n, false, shift, imm12, Negated(sf, imm), s);
        RewrittenExactly(sf, Get(s.x, n), imm);
        EffectWeaken(Run([w], s), s, Next(pc), 31, 0, AddSubFlags(sf, true, Get(s.x, n), imm), sc);
      }
    } else {
      var s := Start(pc, n, 0);
      var f, g := AddSubFlags(sf, false, 0, Negated(sf, imm)), AddSubFlags(sf, true, 0, imm);
      RunsCompare(w, pc, sf, n, false, shift, imm12, Negated(sf, imm), s);
      RewrittenExactly(sf, 0, imm);
      EffectWeaken(Run([w], s), s, Next(pc), 31, 0, f, sc);
      if Effect(Run([w], s), s, Next(pc), 31, 0, g, sc) {
        EffectFlags(Run([w], s), s, Next(pc), 31, 0, f, g, sc);
      }
    }
  }

  lemma FallbackComparesRuns(ws: seq<bv32>, w: bv32, s: State, mid: bv64, sf: bool, n: bv32, m: bv32, u: bv64)
    requires n <= 30 && m <= 30 && n != m
    requires Run(ws, s) == Some(Put(s, mid, m, u)) && Decode(w) == Some(AddSubReg(sf, true, true, m, n, 31))
    ensures Effect(Run(ws + [w], s), s, Next(mid), 31, 0, AddSubFlags(sf, true, Get(s.x, n), u), m)
  {
    hide *;
    RunSnoc(ws, w, s);
    RunCmpReg(w, Put(s, mid, m, u), sf, m, n);
    PutGets(s, mid, m, u, n);
    PutSetFlagsEffect(s, mid, Next(mid), m, u, AddSubFlags(sf, true, Get(s.x, n), u));
  }

  lemma FallbackCompares(ws: seq<bv32>, w: bv32, pc: bv64, mid: bv64, sf: bool, n: bv32, m: bv32, u: bv64)
    requires n <= 30 && m <= 30 && n != m
    requires Loads(ws, pc, mid, m, u) && Decode(w) == Some(AddSubReg(sf, true, true, m, n, 31))
    ensures Compares(ws + [w], pc, Next(mid), sf, n, u, m)
  {
    hide *;
    forall s: State | s.pc == pc
      ensures Effect(Run(ws + [w], s), s, Next(mid), 31, 0, AddSubFlags(sf, true, Get(s.x, n), u), m)
    {
      LoadsAt(ws, pc, mid, m, u, s);
      FallbackComparesRuns(ws, w, s, mid, sf, n, m, u);
    }
    ComparesDefinition(ws + [w], pc, Next(mid), sf, n, u, m);
  }

  lemma EqualSetsZ(x: bv64)
    ensures AddSubFlags(true, true, x, x).z
  {}

  lemma OtherClearsZ(x: bv64, u: bv64)
    requires u != x
    ensures !AddSubFlags(true, true, x, u).z
  {}

  /** A W register is compared with the low half of the constant. */
  lemma LowCompares(ws: seq<bv32>, pc: bv64, end: bv64, n: bv32, m: bv32, u: bv64, imm: bv64)
    requires Compares(ws, pc, end, false, n, u, m) && Low32(u) == Low32(imm)
    ensures Compares(ws, pc, end, false, n, imm, m)
  {
    hide *;
    ComparesDefinition(ws, pc, end, false, n, u, m);
    ComparesDefinition(ws, pc, end, false, n, imm, m);
    forall s: State | s.pc == pc
      ensures Effect(Run(ws, s), s, end, 31, 0, AddSubFlags(false, true, Get(s.x, n), imm), m)
    {
      LowFlags(Get(s.x, n), imm);
      LowFlags(Get(s.x, n), u);
    }
  }

  // ----- ANDS -----

  function PutFlags(s: State, end: bv64, d: bv32, v: bv64, f: Flags): State {
    Put(s, end, d, v).(flags := f)
  }

  lemma PutFlagsEffect(s: State, end: bv64, d: bv32, v: bv64, f: Flags, sc: bv32)
    requires d <= 30
    ensures Effect(Some(PutFlags(s, end, d, v, f)), s, end, d, v, f, sc)
  {}

  lemma PutPutFlagsEffect(s: State, mid: bv64, end: bv64, m: bv32, u: bv64, d: bv32, v: bv64, f: Flags)
    requires d <= 30 && m <= 30
    ensures Effect(Some(PutFlags(Put(s, mid, m, u), end, d, v, f)), s, end, d, v, f, m)
  {}

  /** The value and the flags of an ANDS. */
  function AndsState(s: State, end: bv64, sf: bool, d: bv32, v: bv64): State {
    PutFlags(s, end, d, Trunc(sf, v), LogicalFlags(sf, v))
  }

  lemma RunAndsImm(w: bv32, s: State, sf: bool, n1: bv8, immr: bv8, imms: bv8, n: bv32, d: bv32)
    requires d <= 30 && n <= 30 && Decode(w) == Some(LogicalImm(sf, 3, n1, immr, imms, n, d))
    requires ValidEncoding(n1, imms, immr) && (sf || n1 == 0)
    ensures RunOne(w, s) == Some(AndsState(s, Next(s.pc), sf, d, And(Get(s.x, n), DecodeBitMasks(n1, imms, immr))))
  {
    hide Decode, Next, Trunc, And, LogicalFlags, ValidEncoding, DecodeBitMasks;
  }

  lemma RunAndsReg(w: bv32, s: State, sf: bool, m: bv32, n: bv32, d: bv32)
    requires d <= 30 && n <= 30 && Decode(w) == Some(LogicalReg(sf, 3, false, m, n, d))
    ensures RunOne(w, s) == Some(AndsState(s, Next(s.pc), sf, d, And(Get(s.x, n), ReadX(s, m))))
  {
    hide Decode, Next, Trunc, And, LogicalFlags, ReadX;
    assert ReadX(s, n) == Get(s.x, n) by { ReadGeneral(s, n); }
  }

  lemma ReadGeneral(s: State, n: bv32)
    requires n <= 30
    ensures ReadX(s, n) == Get(s.x, n)
  {}

  lemma ComputesAndsDefinition(ws: seq<bv32>, pc: bv64, end: bv64, sf: bool, d: bv32, n: bv32, imm: bv64, sc: bv32)
    ensures ComputesAnds(ws, pc, end, sf, d, n, imm, sc) <==> forall s: State :: s.pc == pc ==>
      Effect(Run(ws, s), s, end, d, Trunc(sf, And(Get(s.x, n), imm)), LogicalFlags(sf, And(Get(s.x, n), imm)), sc)
  {
    hide Run, Effect, Trunc, And, LogicalFlags, Sign;
    forall s: State
      ensures LogicalFlags(sf, And(Get(s.x, n), imm)) == Sign(sf, And(Get(s.x, n), imm))
    {
      SignIs(sf, And(Get(s.x, n), imm));
    }
  }

  lemma FlagsOfTrunc(sf: bool, v: bv64)
    ensures LogicalFlags(sf, Trunc(sf, v)) == LogicalFlags(sf, v)
  {}

  lemma SameAnds(sf: bool, u: bv64, v: bv64)
    requires Trunc(sf, u) == Trunc(sf, v)
    ensures LogicalFlags(sf, u) == LogicalFlags(sf, v)
  {
    hide *;
    FlagsOfTrunc(sf, u);
    FlagsOfTrunc(sf, v);
  }

  lemma AndsStateEffect(s: State, end: bv64, sf: bool, d: bv32, v: bv64, sc: bv32)
    requires d <= 30
    ensures Effect(Some(AndsState(s, end, sf, d, v)), s, end, d, Trunc(sf, v), LogicalFlags(sf, v), sc)
  {
    hide Trunc, LogicalFlags, PutFlags, Effect;
    PutFlagsEffect(s, end, d, Trunc(sf, v), LogicalFlags(sf, v), sc);
  }

  lemma ImmAnds(w: bv32, pc: bv64, sf: bool, d: bv32, n: bv32, imm: bv64, n1: bv8, immr: bv8, imms: bv8)
    requires d <= 30 && n <= 30 && Decode(w) == Some(LogicalImm(sf, 3, n1, immr, imms, n, d))
    requires ValidEncoding(n1, imms, immr) && (sf || n1 == 0)
             && DecodeBitMasks(n1, imms, immr) == Widened(imm, Width(sf))
    ensures ComputesAnds([w], pc, Next(pc), sf, d, n, imm, 31)
  {
    hide *;
    forall s: State | s.pc == pc
      ensures Effect(Run([w], s), s, Next(pc), d, Trunc(sf, And(Get(s.x, n), imm)),
                     LogicalFlags(sf, And(Get(s.x, n), imm)), 31)
    {
      var x := Get(s.x, n);
      var v := And(x, Widened(imm, Width(sf)));
      RunOneWord(w, s);
      RunAndsImm(w, s, sf, n1, immr, imms, n, d);
      AndsStateEffect(s, Next(pc), sf, d, v, 31);
      WidenedAnd(sf, x, imm);
      SameAnds(sf, v, And(x, imm));
    }
    ComputesAndsDefinition([w], pc, Next(pc), sf, d, n, imm, 31);
  }

  lemma WidenedAnd(sf: bool, x: bv64, imm: bv64)
    ensures Trunc(sf, And(x, Widened(imm, Width(sf)))) == Trunc(sf, And(x, imm))
  {
    hide Trunc, And, Or, Xor, Widened;
    WidenedOperand(0, sf, x, imm);
  }

  lemma ZeroAnds(w: bv32, pc: bv64, sf: bool, d: bv32, n: bv32)
    requires d <= 30 && n <= 30 && Decode(w) == Some(LogicalReg(sf, 3, false, 31, n, d))
    ensures ComputesAnds([w], pc, Next(pc), sf, d, n, 0, 31)
  {
    hide *;
    forall s: State | s.pc == pc
      ensures Effect(Run([w], s), s, Next(pc), d, Trunc(sf, And(Get(s.x, n), 0)),
                     LogicalFlags(sf, And(Get(s.x, n), 0)), 31)
    {
      RunOneWord(w, s);
      RunAndsReg(w, s, sf, 31, n, d);
      ReadZero(s);
      AndsStateEffect(s, Next(pc), sf, d, And(Get(s.x, n), 0), 31);
    }
    ComputesAndsDefinition([w], pc, Next(pc), sf, d, n, 0, 31);
  }

  lemma ReadZero(s: State)
    ensures ReadX(s, 31) == 0
  {}

  lemma FallbackAndsRuns(ws: seq<bv32>, w: bv32, s: State, mid: bv64, sf: bool, d: bv32, n: bv32, m: bv32, u: bv64)
    requires d <= 30 && n <= 30 && m <= 30 && n != m
    requires Run(ws, s) == Some(Put(s, mid, m, u)) && Decode(w) == Some(LogicalReg(sf, 3, false, m, n, d))
    ensures Effect(Run(ws + [w], s), s, Next(mid), d, Trunc(sf, And(Get(s.x, n), u)),
                   LogicalFlags(sf, And(Get(s.x, n), u)), m)
  {
    hide *;
    RunSnoc(ws, w, s);
    var t := Put(s, mid, m, u);
    RunAndsReg(w, t, sf, m, n, d);
    ReadGeneral(t, m);
    PutGets(s, mid, m, u, n);
    AndsTwoEffect(s, mid, Next(mid), m, u, sf, d, And(Get(s.x, n), u));
  }

  lemma FallbackAnds(ws: seq<bv32>, w: bv32, pc: bv64, mid: bv64, sf: bool, d: bv32, n: bv32, m: bv32, u: bv64)
    requires d <= 30 && n <= 30 && m <= 30 && n != m
    requires Loads(ws, pc, mid, m, u) && Decode(w) == Some(LogicalReg(sf, 3, false, m, n, d))
    ensures ComputesAnds(ws + [w], pc, Next(mid), sf, d, n, u, m)
  {
    hide *;
    forall s: State | s.pc == pc
      ensures Effect(Run(ws + [w], s), s, Next(mid), d, Trunc(sf, And(Get(s.x, n), u)),
                     LogicalFlags(sf, And(Get(s.x, n), u)), m)
    {
      LoadsAt(ws, pc, mid, m, u, s);
      FallbackAndsRuns(ws, w, s, mid, sf, d, n, m, u);
    }
    ComputesAndsDefinition(ws + [w], pc, Next(mid), sf, d, n, u, m);
  }

  lemma AndsTwoEffect(s: State, mid: bv64, end: bv64, m: bv32, u: bv64, sf: bool, d: bv32, v: bv64)
    requires d <= 30 && m <= 30
    ensures Effect(Some(AndsState(Put(s, mid, m, u), end, sf, d, v)), s, end, d, Trunc(sf, v), LogicalFlags(sf, v), m)
  {
    hide Trunc, LogicalFlags, PutFlags, Effect, Put;
    PutPutFlagsEffect(s, mid, end, m, u, d, Trunc(sf, v), LogicalFlags(sf, v));
  }

  lemma EffectBoth(t: Option<State>, s: State, end: bv64, d: bv32, v: bv64, f: Flags, u: bv64, g: Flags, sc: bv32)
    requires d != 31 && Effect(t, s, end, d, v, f, sc) && Effect(t, s, end, d, u, g, sc)
    ensures u == v && f == g
  {}

  lemma LowAnds(ws: seq<bv32>, pc: bv64, end: bv64, d: bv32, n: bv32, m: bv32, u: bv64, imm: bv64)
    requires ComputesAnds(ws, pc, end, false, d, n, u, m) && Low32(u) == Low32(imm)
    ensures ComputesAnds(ws, pc, end, false, d, n, imm, m)
  {
    hide *;
    ComputesAndsDefinition(ws, pc, end, false, d, n, u, m);
    ComputesAndsDefinition(ws, pc, end, false, d, n, imm, m);
    forall s: State | s.pc == pc
      ensures Effect(Run(ws, s), s, end, d, Trunc(false, And(Get(s.x, n), imm)),
                     LogicalFlags(false, And(Get(s.x, n), imm)), m)
    {
      var x := Get(s.x, n);
      LowOperation(AndOp, x, imm);
      LowOperation(AndOp, x, u);
      OpAnd(x, u);
      OpAnd(x, imm);
      SameAnds(false, And(x, u), And(x, imm));
    }
  }

  lemma TruncAnds(ws: seq<bv32>, pc: bv64, end: bv64, sf: bool, d: bv32, n: bv32, m: bv32, imm: bv64)
    ensures ComputesAnds(ws, pc, end, sf, d, n, Trunc(sf, imm), m) <==> ComputesAnds(ws, pc, end, sf, d, n, imm, m)
  {
    hide *;
    TruncIs(sf, imm);
    LowOfTrunc(sf, imm);
    if !sf && ComputesAnds(ws, pc, end, sf, d, n, Low32(imm), m) {
      LowAnds(ws, pc, end, d, n, m, Low32(imm), imm);
    }
    if !sf && ComputesAnds(ws, pc, end, sf, d, n, imm, m) {
      LowAnds(ws, pc, end, d, n, m, imm, Low32(imm));
    }
  }

  // ----- With a scratch register -----

  lemma ComparesWeaken(ws: seq<bv32>, pc: bv64, end: bv64, sf: bool, n: bv32, imm: bv64, sc: bv32)
    requires Compares(ws, pc, end, sf, n, imm, 31)
    ensures Compares(ws, pc, end, sf, n, imm, sc)
  {
    hide *;
    ComparesDefinition(ws, pc, end, sf, n, imm, 31);
    ComparesDefinition(ws, pc, end, sf, n, imm, sc);
    forall s: State | s.pc == pc
      ensures Effect(Run(ws, s), s, end, 31, 0, AddSubFlags(sf, true, Get(s.x, n), imm), sc)
    {
      EffectWeaken(Run(ws, s), s, end, 31, 0, AddSubFlags(sf, true, Get(s.x, n), imm), sc);
    }
  }

  lemma AndsWeaken(ws: seq<bv32>, pc: bv64, end: bv64, sf: bool, d: bv32, n: bv32, imm: bv64, sc: bv32)
    requires ComputesAnds(ws, pc, end, sf, d, n, imm, 31)
    ensures ComputesAnds(ws, pc, end, sf, d, n, imm, sc)
  {
    hide *;
    ComputesAndsDefinition(ws, pc, end, sf, d, n, imm, 31);
    ComputesAndsDefinition(ws, pc, end, sf, d, n, imm, sc);
    forall s: State | s.pc == pc
      ensures Effect(Run(ws, s), s, end, d, Trunc(sf, And(Get(s.x, n), imm)), LogicalFlags(sf, And(Get(s.x, n), imm)),
                     sc)
    {
      EffectWeaken(Run(ws, s), s, end, d, Trunc(sf, And(Get(s.x, n), imm)), LogicalFlags(sf, And(Get(s.x, n), imm)),
                   sc);
    }
  }

  lemma FallbackComparesOutcome(ws: seq<bv32>, w: bv32, pc: bv64, mid: bv64, sf: bool, n: bv32, m: bv32, wide: bool,
                                imm: bv64, undefined: seq<bool>)
    requires n <= 30 && m <= 30 && n != m && |undefined| == 4 && (sf || ws != [])
    requires Decode(w) == Some(AddSubReg(sf, true, true, m, n, 31)) && Prepared(ws, pc, mid, m, wide, imm, undefined)
    ensures Compares(ws + [w], pc, Next(mid), sf, n, imm, m) <==> !sf || Leaves(wide, imm, pc, true, undefined)
  {
    hide *;
    if sf && !Leaves(wide, imm, pc, true, undefined) {
      var s, u := Exposes(ws, pc, mid, n, m, imm, wide, imm, undefined);
      var got, asked := AddSubFlags(sf, true, Get(s.x, n), u), AddSubFlags(sf, true, Get(s.x, n), imm);
      FallbackComparesRuns(ws, w, s, mid, sf, n, m, u);
      EqualSetsZ(imm);
      OtherClearsZ(imm, u);
      ComparesDefinition(ws + [w], pc, Next(mid), sf, n, imm, m);
      if Effect(Run(ws + [w], s), s, Next(mid), 31, 0, asked, m) {
        EffectFlags(Run(ws + [w], s), s, Next(mid), 31, 0, got, asked, m);
      }
    } else {
      if ws == [] {
        PreparedNothing(pc, mid, m, wide, imm, undefined);
      }
      var u := PreparedWitness(ws, pc, mid, m, wide, imm, undefined);
      FallbackCompares(ws, w, pc, mid, sf, n, m, u);
      if !sf {
        LowCompares(ws + [w], pc, Next(mid), n, m, u, imm);
      }
    }
  }

  lemma FallbackAndsOutcome(ws: seq<bv32>, w: bv32, pc: bv64, mid: bv64, sf: bool, d: bv32, n: bv32, m: bv32,
                            wide: bool, imm: bv64, undefined: seq<bool>)
    requires d <= 30 && n <= 30 && m <= 30 && n != m && |undefined| == 4 && (sf || ws != [])
    requires Decode(w) == Some(LogicalReg(sf, 3, false, m, n, d)) && Prepared(ws, pc, mid, m, wide, imm, undefined)
    ensures ComputesAnds(ws + [w], pc, Next(mid), sf, d, n, imm, m) <==> !sf || Leaves(wide, imm, pc, true, undefined)
  {
    hide *;
    if sf && !Leaves(wide, imm, pc, true, undefined) {
      var s, u := Exposes(ws, pc, mid, n, m, Witness(AndOp), wide, imm, undefined);
      var v, v' := And(Get(s.x, n), u), And(Get(s.x, n), imm);
      FallbackAndsRuns(ws, w, s, mid, sf, d, n, m, u);
      OperandsDiffer(AndOp, imm, u);
      OpAnd(Get(s.x, n), u);
      OpAnd(Get(s.x, n), imm);
      ComputesAndsDefinition(ws + [w], pc, Next(mid), sf, d, n, imm, m);
      if Effect(Run(ws + [w], s), s, Next(mid), d, Trunc(sf, v'), LogicalFlags(sf, v'), m) {
        EffectBoth(Run(ws + [w], s), s, Next(mid), d, Trunc(sf, v), LogicalFlags(sf, v), Trunc(sf, v'),
                   LogicalFlags(sf, v'), m);
      }
    } else {
      if ws == [] {
        PreparedNothing(pc, mid, m, wide, imm, undefined);
      }
      var u := PreparedWitness(ws, pc, mid, m, wide, imm, undefined);
      FallbackAnds(ws, w, pc, mid, sf, d, n, m, u);
      if !sf {
        LowAnds(ws + [w], pc, Next(mid), d, n, m, u, imm);
      }
    }
  }
}
