/** Single-precision constants on ARM64: the 8-bit immediates and the loads built from them, on bit patterns. */
module Arm64Floats {
  import opened Words
  import opened Basics
  import opened VfpImmediates
  import opened Arm64Machine
  import opened Arm64Moves
  import opened Arm64Loads
  import opened Arm64Operations

  // ----- The 8-bit immediates -----

  predicate IsNaN(f: bv32) {
    f & 0x7FFF_FFFF > 0x7F80_0000
  }

  predicate IsZero(f: bv32) {
    f & 0x7FFF_FFFF == 0
  }

  /** Floating-point equality: NaN is unequal to itself and the two zeros are equal. */
  predicate FloatEquals(f: bv32, g: bv32) {
    !IsNaN(f) && !IsNaN(g) && (f == g || (IsZero(f) && IsZero(g)))
  }

  function Negate(f: bv32): bv32 {
    f ^ 0x8000_0000
  }

  function FPImm8ToFloat(bits: bv32): bv32 {
    var bit6 := (bits >> 6) & 1;
    var exponent := ((if bit6 == 0 then 1 else 0) << 7) | (0x7C * bit6) | ((bits >> 4) & 3);
    ((bits >> 7) << 31) | (exponent << 23) | ((bits & 0xF) << 19)
  }

  /** The emitter expands immediates as the architecture does. */
  lemma ExpandsAlike(bits: bv32)
    requires bits <= 0xFF
    ensures FPImm8ToFloat(bits) == ExpandFloatImm(bits)
  {}

  /** The field FPImm8FromFloat composes. */
  function CandidateImm8(f: bv32): bv32 {
    var exponent := (f >> 23) & 0xFF;
    ((f >> 31) << 7) | ((if exponent >> 7 == 0 then 1 else 0) << 6) | ((exponent & 3) << 4) | ((f & 0x7F_FFFF) >> 19)
  }

  predicate HasShortExponent(f: bv32) {
    (f >> 30) & 1 != (f >> 29) & 1
  }

  lemma CandidateRange(f: bv32)
    ensures CandidateImm8(f) <= 0xFF
  {}

  lemma ExponentBits(f: bv32)
    ensures var exponent := (f >> 23) & 0xFF; exponent >> 7 == (exponent >> 6) & 1 <==> !HasShortExponent(f)
  {}

  lemma ExpandedHasShortExponent(imm8: bv32)
    requires imm8 <= 0xFF
    ensures HasShortExponent(ExpandFloatImm(imm8)) && CandidateImm8(ExpandFloatImm(imm8)) == imm8
  {}

  lemma ShortNotSpecial(f: bv32)
    requires HasShortExponent(f)
    ensures !IsNaN(f) && !IsZero(f)
  {}

  lemma CandidateDecides(f: bv32)
    requires HasShortExponent(f)
    ensures FloatEquals(FPImm8ToFloat(CandidateImm8(f)), f) <==> FPImm8ToFloat(CandidateImm8(f)) == f
  {
    hide *;
    var g := CandidateImm8(f);
    CandidateRange(f);
    ExpandsAlike(g);
    ExpandedHasShortExponent(g);
    ShortNotSpecial(f);
    ShortNotSpecial(ExpandFloatImm(g));
    FloatEqualsIs(FPImm8ToFloat(g), f);
  }

  lemma FloatEqualsIs(f: bv32, g: bv32)
    ensures FloatEquals(f, g) <==> !IsNaN(f) && !IsNaN(g) && (f == g || (IsZero(f) && IsZero(g)))
  {}

  lemma NotShortNoImm(f: bv32)
    requires !HasShortExponent(f)
    ensures !IsFloatImm(f)
  {
    hide HasShortExponent, ExpandFloatImm, CandidateImm8;
    forall imm8: bv32 | imm8 <= 0xFF
      ensures ExpandFloatImm(imm8) != f
    {
      ExpandedHasShortExponent(imm8);
    }
  }

  lemma OtherCandidateNoImm(f: bv32)
    requires ExpandFloatImm(CandidateImm8(f)) != f
    ensures !IsFloatImm(f)
  {
    hide HasShortExponent, ExpandFloatImm, CandidateImm8;
    forall imm8: bv32 | imm8 <= 0xFF
      ensures ExpandFloatImm(imm8) != f
    {
      ExpandedHasShortExponent(imm8);
    }
  }

  method FPImm8FromFloat(f: bv32) returns (ok: bool, imm8: bv32)
    ensures ok <==> IsFloatImm(f)
    ensures ok ==> imm8 <= 0xFF && ExpandFloatImm(imm8) == f
  {
    hide *;
    var exponent := (f >> 23) & 0xFF;
    ExponentBits(f);
    if exponent >> 7 == (exponent >> 6) & 1 {
      NotShortNoImm(f);
      return false, 0;
    }
    imm8 := CandidateImm8(f);
    CandidateRange(f);
    CandidateDecides(f);
    ExpandsAlike(imm8);
    var newFloat := FPImm8ToFloat(imm8);
    if FloatEquals(newFloat, f) {
      IsFloatImmAt(f, imm8);
      return true, imm8;
    }
    OtherCandidateNoImm(f);
    return false, 0;
  }

  // ----- Loading a constant into a vector register -----

  function Bits(f: bv32): bv64 {
    f as bv64
  }

  function PutF(s: State, end: bv64, d: bv32, v: bv64): State {
    s.(pc := end, d := s.d[R(d) := v])
  }

  /** t is s with v in vector register d; only the general register sc besides may have changed. */
  ghost predicate FloatEffect(t: Option<State>, s: State, end: bv64, d: bv32, v: bv64, sc: bv32) {
    && t.Some?
    && t.value.pc == end && t.value.sp == s.sp && t.value.flags == s.flags && t.value.mem == s.mem
    && t.value.d == s.d[R(d) := v]
    && forall r: bv32 :: r <= 30 && r != sc ==> Get(t.value.x, r) == Get(s.x, r)
  }

  /** From pc, the words leave the number f in vector register d. */
  ghost predicate LoadsFloat(ws: seq<bv32>, pc: bv64, end: bv64, d: bv32, f: bv32, sc: bv32) {
    forall s: State :: s.pc == pc ==> FloatEffect(Run(ws, s), s, end, d, Bits(f), sc)
  }

  lemma LoadsFloatDefinition(ws: seq<bv32>, pc: bv64, end: bv64, d: bv32, f: bv32, sc: bv32)
    ensures LoadsFloat(ws, pc, end, d, f, sc)
       <==> forall s: State :: s.pc == pc ==> FloatEffect(Run(ws, s), s, end, d, Bits(f), sc)
  {
    hide Run, FloatEffect, Bits;
  }

  lemma PutFEffect(s: State, end: bv64, d: bv32, v: bv64, sc: bv32)
    ensures FloatEffect(Some(PutF(s, end, d, v)), s, end, d, v, sc)
  {}

  lemma ScratchFEffect(s: State, mid: bv64, end: bv64, sc: bv32, u: bv64, d: bv32, v: bv64)
    ensures FloatEffect(Some(PutF(Put(s, mid, sc, u), end, d, v)), s, end, d, v, sc)
  {}

  lemma RunFmovImm(w: bv32, s: State, imm8: bv32, d: bv32)
    requires Decode(w) == Some(FmovImm(imm8, d))
    ensures RunOne(w, s) == Some(PutF(s, Next(s.pc), d, Bits(ExpandFloatImm(imm8))))
  {
    hide Decode, ExpandFloatImm, Next;
  }

  lemma RunFmovFromGpr(w: bv32, s: State, rn: bv32, d: bv32)
    requires Decode(w) == Some(FmovFromGpr(rn, d))
    ensures RunOne(w, s) == Some(PutF(s, Next(s.pc), d, Low32(ReadX(s, rn))))
  {
    hide Decode, ReadX, Next;
  }

  lemma RunFneg(w: bv32, s: State, rn: bv32, d: bv32)
    requires Decode(w) == Some(Fneg(rn, d))
    ensures RunOne(w, s) == Some(PutF(s, Next(s.pc), d, Xor(Low32(Get(s.d, rn)), 0x8000_0000)))
  {
    hide Decode, Get, Next;
  }

  lemma NegateBitsAlike(f: bv32)
    ensures Alike(Xor(Low32(Bits(f)), 0x8000_0000), Bits(Negate(f)))
  {}

  lemma NegateBits(f: bv32)
    ensures Xor(Low32(Bits(f)), 0x8000_0000) == Bits(Negate(f))
  {
    hide *;
    NegateBitsAlike(f);
    Same(Xor(Low32(Bits(f)), 0x8000_0000), Bits(Negate(f)));
  }

  lemma EffectSome(t: Option<State>, s: State, end: bv64, d: bv32, v: bv64, sc: bv32)
    requires FloatEffect(t, s, end, d, v, sc)
    ensures t.Some?
  {
    hide Get;
  }

  lemma FmovImmLoads(w: bv32, pc: bv64, d: bv32, imm8: bv32, f: bv32, sc: bv32)
    requires Decode(w) == Some(FmovImm(imm8, d)) && ExpandFloatImm(imm8) == f
    ensures LoadsFloat([w], pc, Next(pc), d, f, sc)
  {
    hide *;
    forall s: State | s.pc == pc
      ensures FloatEffect(Run([w], s), s, Next(pc), d, Bits(f), sc)
    {
      RunOneWord(w, s);
      RunFmovImm(w, s, imm8, d);
      PutFEffect(s, Next(pc), d, Bits(f), sc);
    }
    LoadsFloatDefinition([w], pc, Next(pc), d, f, sc);
  }

  lemma FmovZeroLoads(w: bv32, pc: bv64, d: bv32, sc: bv32)
    requires Decode(w) == Some(FmovFromGpr(31, d))
    ensures LoadsFloat([w], pc, Next(pc), d, 0, sc)
  {
    hide *;
    forall s: State | s.pc == pc
      ensures FloatEffect(Run([w], s), s, Next(pc), d, Bits(0), sc)
    {
      RunOneWord(w, s);
      RunFmovFromGpr(w, s, 31, d);
      ReadZeroBits(s);
      PutFEffect(s, Next(pc), d, Bits(0), sc);
    }
    LoadsFloatDefinition([w], pc, Next(pc), d, 0, sc);
  }

  lemma ReadZeroBits(s: State)
    ensures Low32(ReadX(s, 31)) == Bits(0)
  {}

  /** FNEG of the register after a load of f. */
  lemma FnegLoads(w: bv32, v: bv32, pc: bv64, mid: bv64, d: bv32, f: bv32, sc: bv32)
    requires LoadsFloat([w], pc, mid, d, f, sc) && Decode(v) == Some(Fneg(d, d))
    ensures LoadsFloat([w, v], pc, Next(mid), d, Negate(f), sc)
  {
    hide *;
    LoadsFloatDefinition([w], pc, mid, d, f, sc);
    forall s: State | s.pc == pc
      ensures FloatEffect(Run([w, v], s), s, Next(mid), d, Bits(Negate(f)), sc)
    {
      EffectSome(Run([w], s), s, mid, d, Bits(f), sc);
      RunTwo(w, v, s);
      var u := Run([w], s).value;
      RunFneg(v, u, d, d);
      NegateBits(f);
      EffectThen(u, s, mid, Next(mid), d, Bits(f), Bits(Negate(f)), sc);
    }
    LoadsFloatDefinition([w, v], pc, Next(mid), d, Negate(f), sc);
  }

  lemma RunTwo(w: bv32, v: bv32, s: State)
    requires Run([w], s).Some?
    ensures Run([w, v], s) == RunOne(v, Run([w], s).value)
  {
    hide RunOne;
    assert [w] + [v] == [w, v];
    RunSnoc([w], v, s);
  }

  lemma EffectThen(u: State, s: State, mid: bv64, end: bv64, d: bv32, a: bv64, b: bv64, sc: bv32)
    requires FloatEffect(Some(u), s, mid, d, a, sc)
    ensures Get(u.d, d) == a && u.pc == mid
    ensures FloatEffect(Some(PutF(u, end, d, b)), s, end, d, b, sc)
  {
    assert s.d[R(d) := a][R(d) := b] == s.d[R(d) := b];
  }

  /** MOVI2R into the scratch register, then a move to the vector register. */
  lemma ScratchLoads(ws: seq<bv32>, w: bv32, pc: bv64, mid: bv64, d: bv32, f: bv32, sc: bv32, u: bv64)
    requires sc <= 30 && Loads(ws, pc, mid, sc, u) && Low32(u) == Bits(f) && Decode(w) == Some(FmovFromGpr(sc, d))
    ensures LoadsFloat(ws + [w], pc, Next(mid), d, f, sc)
  {
    hide *;
    forall s: State | s.pc == pc
      ensures FloatEffect(Run(ws + [w], s), s, Next(mid), d, Bits(f), sc)
    {
      LoadsAt(ws, pc, mid, sc, u, s);
      RunSnoc(ws, w, s);
      var t := Put(s, mid, sc, u);
      RunFmovFromGpr(w, t, sc, d);
      PutGets(s, mid, sc, u, sc);
      ReadGpr(t, sc);
      ScratchFEffect(s, mid, Next(mid), sc, u, d, Bits(f));
    }
    LoadsFloatDefinition(ws + [w], pc, Next(mid), d, f, sc);
  }

  lemma ReadGpr(s: State, n: bv32)
    requires n <= 30
    ensures ReadX(s, n) == Get(s.x, n)
  {}

  lemma BitsLow(f: bv32)
    ensures Low32(Bits(f)) == Bits(f) && InRange(false, Bits(f))
  {}

  lemma NonzeroBits(f: bv32)
    requires !IsZero(f)
    ensures Low32(Bits(f)) != 0 && Low32(Bits(Negate(f))) != 0
  {}

  lemma ZeroPatterns(f: bv32)
    requires IsZero(f)
    ensures f == if f >> 31 == 1 then Negate(0) else 0
    ensures Negate(Negate(f)) == f && Negate(Negate(0)) == 0
  {}

  /** The pattern MOVI2F is asked for. */
  function Wanted(f: bv32, negate: bool): bv32 {
    if negate then Negate(f) else f
  }

  lemma WantedIs(f: bv32, negate: bool)
    ensures Wanted(f, negate) == if negate then Negate(f) else f
  {}
}
