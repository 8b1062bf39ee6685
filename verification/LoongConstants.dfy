/** Constants and distances on LoongArch64: the arithmetic behind SetRegToImmediate, QuickJump and the range checks. */
module LoongConstants {
  import opened Basics
  import opened Words
  import opened LoongMachine
  import opened LoongEncode
  import Compare64

  // ----- Sign reduction -----

  function ShiftRightSigned(x: bv64, n: bv8): bv64
    requires n <= 63
  {
    (x >> n) | (if x & 0x8000_0000_0000_0000 != 0 then !(0xFFFF_FFFF_FFFF_FFFF >> n) else 0)
  }

  function SignReduce64(v: bv64, width: bv8): bv64
    requires 1 <= width <= 64
  {
    ShiftRightSigned(v << (64 - width), 64 - width)
  }

  function ShiftRightSigned32(x: bv32, n: bv8): bv32
    requires n <= 31
  {
    (x >> n) | (if x & 0x8000_0000 != 0 then !(0xFFFF_FFFF >> n) else 0)
  }

  function SignReduce32(v: bv32, width: bv8): bv32
    requires 1 <= width <= 32
  {
    ShiftRightSigned32(v << (32 - width), 32 - width)
  }

  /** A 32-bit signed number at 64 bits. */
  function Extend32(x: bv32): bv64 {
    (x as bv64) | (if x & 0x8000_0000 != 0 then 0xFFFF_FFFF_0000_0000 else 0)
  }

  /** From -2^(bits-1) up to 2^(bits-1) - 1. */
  predicate FitsSigned(v: bv64, bits: bv8)
    requires 1 <= bits <= 64
  {
    v < (1 << (bits - 1)) || !((1 << (bits - 1)) - 1) <= v
  }

  /** The range check of the branch wrappers. */
  predicate BJInRange(src: bv64, dst: bv64, bits: bv8)
    requires 1 <= bits <= 32
  {
    var distance := Minus(dst, src);
    Extend32(SignReduce32(Low(distance), bits)) == distance
  }

  lemma ReduceForward(d: bv64, bits: bv8)
    requires 1 <= bits <= 32 && d < (1 << (bits - 1))
    ensures Alike(Extend32(SignReduce32((d & 0xFFFF_FFFF) as bv32, bits)), d)
  {}

  lemma ReduceBackward(d: bv64, bits: bv8)
    requires 1 <= bits <= 32 && !((1 << (bits - 1)) - 1) <= d
    ensures Alike(Extend32(SignReduce32((d & 0xFFFF_FFFF) as bv32, bits)), d)
  {}

  lemma ReducedFits(x: bv32, bits: bv8)
    requires 1 <= bits <= 32
    ensures FitsSigned(Extend32(SignReduce32(x, bits)), bits)
  {}

  function Low(d: bv64): bv32 {
    (d & 0xFFFF_FFFF) as bv32
  }

  lemma LowIs(d: bv64)
    ensures Low(d) == (d & 0xFFFF_FFFF) as bv32
  {}

  lemma ReduceKeeps(d: bv64, bits: bv8)
    requires 1 <= bits <= 32 && FitsSigned(d, bits)
    ensures Alike(Extend32(SignReduce32(Low(d), bits)), d)
  {
    hide Extend32, SignReduce32, Alike, Low;
    LowIs(d);
    if d < (1 << (bits - 1)) {
      ReduceForward(d, bits);
    } else {
      ReduceBackward(d, bits);
    }
  }

  /** The range check holds exactly for the distances that fit the signed field, whatever its width. */
  lemma InRangeExactly(src: bv64, dst: bv64, bits: bv8)
    requires 1 <= bits <= 32
    ensures BJInRange(src, dst, bits) <==> FitsSigned(Minus(dst, src), bits)
  {
    hide Extend32, SignReduce32, FitsSigned, Minus, Alike, Low;
    var d := Minus(dst, src);
    if FitsSigned(d, bits) {
      ReduceKeeps(d, bits);
      Same(Extend32(SignReduce32(Low(d), bits)), d);
    }
    ReducedFits(Low(d), bits);
  }

  // ----- Loading a constant -----

  /** From pc, the words leave value in register d, move on to end and touch nothing else. */
  ghost predicate Loads(ws: seq<bv32>, pc: bv64, end: bv64, d: bv32, value: bv64) {
    forall s: State :: s.pc == pc ==> Run(ws, s) == Some(Put(s, end, d, value))
  }

  lemma LoadsDefinition(ws: seq<bv32>, pc: bv64, end: bv64, d: bv32, value: bv64)
    ensures Loads(ws, pc, end, d, value) <==> forall s: State :: s.pc == pc ==>
      Run(ws, s) == Some(Put(s, end, d, value))
  {
    hide Run, Put;
  }

  lemma PutTwice(s: State, mid: bv64, end: bv64, d: bv32, u: bv64, v: bv64)
    requires d != 0
    ensures Put(Put(s, mid, d, u), end, d, v) == Put(s, end, d, v)
    ensures Get(Put(s, mid, d, u).r, d) == u && Put(s, mid, d, u).pc == mid
  {
    assert s.r[R(d) := u][R(d) := v] == s.r[R(d) := v];
  }

  lemma RunOneWord(w: bv32, s: State)
    ensures Run([w], s) == RunOne(w, s)
  {
    hide RunOne;
    assert [] + [w] == [w];
    RunSnoc([], w, s);
  }

  lemma OneWordLoads(w: bv32, pc: bv64, d: bv32, value: bv64)
    requires forall s: State :: s.pc == pc ==> RunOne(w, s) == Some(Put(s, Next(pc), d, value))
    ensures Loads([w], pc, Next(pc), d, value)
  {
    hide *;
    forall s: State | s.pc == pc
      ensures Run([w], s) == Some(Put(s, Next(pc), d, value))
    {
      RunOneWord(w, s);
    }
    LoadsDefinition([w], pc, Next(pc), d, value);
  }

  /** One more word that rewrites the register from its own value. */
  lemma LoadThen(ws: seq<bv32>, w: bv32, pc: bv64, mid: bv64, d: bv32, value: bv64, value': bv64)
    requires d != 0 && Loads(ws, pc, mid, d, value)
    requires forall s: State :: Get(s.r, d) == value ==> RunOne(w, s) == Some(Put(s, Next(s.pc), d, value'))
    ensures Loads(ws + [w], pc, Next(mid), d, value')
  {
    hide *;
    LoadsDefinition(ws, pc, mid, d, value);
    forall s: State | s.pc == pc
      ensures Run(ws + [w], s) == Some(Put(s, Next(mid), d, value'))
    {
      RunSnoc(ws, w, s);
      PutTwice(s, mid, Next(mid), d, value, value');
    }
    LoadsDefinition(ws + [w], pc, Next(mid), d, value');
  }

  // ----- The fields of a constant -----

  function Field0(v: bv64): bv32 {
    (v & 0xFFF) as bv32
  }

  function Field12(v: bv64): bv32 {
    ((v & 0xFFFF_FFFF) >> 12) as bv32
  }

  function Field32(v: bv64): bv32 {
    ((v >> 32) & 0xFFFFF) as bv32
  }

  function Field52(v: bv64): bv32 {
    (v >> 52) as bv32
  }

  /** The low 32 or 52 bits of v as a signed number. */
  function Low32(v: bv64): bv64 {
    (v & 0xFFFF_FFFF) | (if v & 0x8000_0000 != 0 then 0xFFFF_FFFF_0000_0000 else 0)
  }

  function Low52(v: bv64): bv64 {
    (v & 0x000F_FFFF_FFFF_FFFF) | (if v & 0x0008_0000_0000_0000 != 0 then 0xFFF0_0000_0000_0000 else 0)
  }

  predicate Fits12(v: bv64) {
    SignReduce64(v, 12) == v
  }

  /** The signed range checks of the 32-bit and the 52-bit case. */
  predicate Fits32(v: bv64) {
    v <= 0x7FFF_FFFF || 0xFFFF_FFFF_8000_0000 <= v
  }

  predicate Fits52(v: bv64) {
    v <= 0x0007_FFFF_FFFF_FFFF || 0xFFF8_0000_0000_0000 <= v
  }

  /** -reach <= v < reach, as signed numbers. */
  predicate IsWithin(v: bv64, reach: bv64) {
    !Compare64.IsLess(v, 0 - reach) && Compare64.IsLess(v, reach)
  }

  lemma ReducesInto(v: bv64)
    ensures SignReduce64(v, 12) <= 0x7FF || 0xFFFF_FFFF_FFFF_F800 <= SignReduce64(v, 12)
  {}

  lemma ReducesAhead(v: bv64)
    requires v <= 0x7FF
    ensures Alike(SignReduce64(v, 12), v)
  {}

  lemma ReducesBehind(v: bv64)
    requires 0xFFFF_FFFF_FFFF_F800 <= v
    ensures Alike(SignReduce64(v, 12), v)
  {}

  lemma Reduced12(v: bv64)
    ensures Fits12(v) <==> v <= 0x7FF || 0xFFFF_FFFF_FFFF_F800 <= v
  {
    hide SignReduce64, Alike;
    ReducesInto(v);
    if v <= 0x7FF {
      ReducesAhead(v);
      Same(SignReduce64(v, 12), v);
    } else if 0xFFFF_FFFF_FFFF_F800 <= v {
      ReducesBehind(v);
      Same(SignReduce64(v, 12), v);
    }
  }

  lemma Within12(v: bv64)
    ensures IsWithin(v, 0x800) <==> v <= 0x7FF || 0xFFFF_FFFF_FFFF_F800 <= v
  {}

  lemma Fits12Exactly(v: bv64)
    ensures Fits12(v) <==> IsWithin(v, 0x800)
  {
    hide *;
    Reduced12(v);
    Within12(v);
  }

  lemma Fits32Exactly(v: bv64)
    ensures Fits32(v) <==> IsWithin(v, 0x8000_0000)
  {}

  lemma Fits52Exactly(v: bv64)
    ensures Fits52(v) <==> IsWithin(v, 0x8_0000_0000_0000)
  {}

  lemma SmallForward(v: bv64)
    requires v <= 0x7FF
    ensures Alike(Signed12(Imm12(Field0(v))), v)
  {}

  lemma SmallBackward(v: bv64)
    requires 0xFFFF_FFFF_FFFF_F800 <= v
    ensures Alike(Signed12(Imm12(Field0(v))), v)
  {}

  lemma SmallRange(v: bv64)
    requires Fits12(v)
    ensures v <= 0x7FF || 0xFFFF_FFFF_FFFF_F800 <= v
  {}

  lemma SmallValue(v: bv64)
    requires Fits12(v)
    ensures Alike(Signed12(Imm12(Field0(v))), v)
  {
    hide *;
    SmallRange(v);
    if v <= 0x7FF {
      SmallForward(v);
    } else {
      SmallBackward(v);
    }
  }

  lemma ZeroPlus(x: bv64)
    ensures Plus(0, x) == x
  {}

  /** The bits that are copied upwards by the instructions. */
  predicate Bit31(v: bv64) {
    v & 0x8000_0000 != 0
  }

  predicate Bit51(v: bv64) {
    v & 0x0008_0000_0000_0000 != 0
  }

  lemma LowClear(v: bv64)
    requires !Bit31(v)
    ensures Alike(Or(Upper20(Imm20(Field12(v))), Zero12(Imm12(Field0(v)))), Low32(v))
  {}

  lemma LowSet(v: bv64)
    requires Bit31(v)
    ensures Alike(Or(Upper20(Imm20(Field12(v))), Zero12(Imm12(Field0(v)))), Low32(v))
  {}

  lemma LowValue(v: bv64)
    ensures Alike(Or(Upper20(Imm20(Field12(v))), Zero12(Imm12(Field0(v)))), Low32(v))
  {
    hide *;
    if Bit31(v) { LowSet(v); } else { LowClear(v); }
  }

  lemma MiddleClearClear(v: bv64)
    requires !Bit51(v) && !Bit31(v)
    ensures Alike(WithUpper32(Low32(v), Imm20(Field32(v))), Low52(v))
  {}

  lemma MiddleClearSet(v: bv64)
    requires !Bit51(v) && Bit31(v)
    ensures Alike(WithUpper32(Low32(v), Imm20(Field32(v))), Low52(v))
  {}

  lemma MiddleSetClear(v: bv64)
    requires Bit51(v) && !Bit31(v)
    ensures Alike(WithUpper32(Low32(v), Imm20(Field32(v))), Low52(v))
  {}

  lemma MiddleSetSet(v: bv64)
    requires Bit51(v) && Bit31(v)
    ensures Alike(WithUpper32(Low32(v), Imm20(Field32(v))), Low52(v))
  {}

  lemma MiddleValue(v: bv64)
    ensures Alike(WithUpper32(Low32(v), Imm20(Field32(v))), Low52(v))
  {
    hide *;
    if Bit51(v) {
      if Bit31(v) { MiddleSetSet(v); } else { MiddleSetClear(v); }
    } else {
      if Bit31(v) { MiddleClearSet(v); } else { MiddleClearClear(v); }
    }
  }

  lemma TopClear(v: bv64)
    requires !Bit51(v)
    ensures Alike(WithTop12(Low52(v), Imm12(Field52(v))), v)
  {}

  lemma TopSet(v: bv64)
    requires Bit51(v)
    ensures Alike(WithTop12(Low52(v), Imm12(Field52(v))), v)
  {}

  lemma TopValue(v: bv64)
    ensures Alike(WithTop12(Low52(v), Imm12(Field52(v))), v)
  {
    hide *;
    if Bit51(v) { TopSet(v); } else { TopClear(v); }
  }

  lemma Low32Clear(v: bv64)
    requires Fits32(v) && !Bit31(v)
    ensures Alike(Low32(v), v)
  {}

  lemma Low32Set(v: bv64)
    requires Fits32(v) && Bit31(v)
    ensures Alike(Low32(v), v)
  {}

  lemma Low52Clear(v: bv64)
    requires Fits52(v) && !Bit51(v)
    ensures Alike(Low52(v), v)
  {}

  lemma Low52Set(v: bv64)
    requires Fits52(v) && Bit51(v)
    ensures Alike(Low52(v), v)
  {}

  lemma RunAddi(w: bv32, s: State, d: bv32, imm: bv32)
    requires Decode(w) == Some(AddiD(d, 0, imm))
    ensures RunOne(w, s) == Some(Put(s, Next(s.pc), d, Plus(0, Signed12(imm))))
  {
    hide Decode, Next, Plus, Signed12, Put;
  }

  lemma RunOri(w: bv32, s: State, d: bv32, imm: bv32)
    requires Decode(w) == Some(Ori(d, d, imm))
    ensures RunOne(w, s) == Some(Put(s, Next(s.pc), d, Or(Get(s.r, d), Zero12(imm))))
  {
    hide Decode, Next, Or, Zero12, Put, Get;
  }

  lemma RunLu12i(w: bv32, s: State, d: bv32, imm: bv32)
    requires Decode(w) == Some(Lu12iW(d, imm))
    ensures RunOne(w, s) == Some(Put(s, Next(s.pc), d, Upper20(imm)))
  {
    hide Decode, Next, Upper20, Put;
  }

  lemma RunLu32i(w: bv32, s: State, d: bv32, imm: bv32)
    requires Decode(w) == Some(Lu32iD(d, imm))
    ensures RunOne(w, s) == Some(Put(s, Next(s.pc), d, WithUpper32(Get(s.r, d), imm)))
  {
    hide Decode, Next, WithUpper32, Put, Get;
  }

  lemma RunLu52i(w: bv32, s: State, d: bv32, imm: bv32)
    requires Decode(w) == Some(Lu52iD(d, d, imm))
    ensures RunOne(w, s) == Some(Put(s, Next(s.pc), d, WithTop12(Get(s.r, d), imm)))
  {
    hide Decode, Next, WithTop12, Put, Get;
  }

  lemma SmallLoads(w: bv32, pc: bv64, d: bv32, v: bv64)
    requires Fits12(v) && Decode(w) == Some(AddiD(d, 0, Imm12(Field0(v))))
    ensures Loads([w], pc, Next(pc), d, v)
  {
    hide *;
    SmallValue(v);
    Same(Signed12(Imm12(Field0(v))), v);
    ZeroPlus(v);
    forall s: State | s.pc == pc
      ensures RunOne(w, s) == Some(Put(s, Next(pc), d, v))
    {
      RunAddi(w, s, d, Imm12(Field0(v)));
    }
    OneWordLoads(w, pc, d, v);
  }

  /** LU12I.W and ORI leave the low 32 bits, sign-extended. */
  lemma LowLoads(w: bv32, u: bv32, pc: bv64, d: bv32, v: bv64)
    requires d != 0 && Decode(w) == Some(Lu12iW(d, Imm20(Field12(v)))) && Decode(u) == Some(Ori(d, d, Imm12(Field0(v))))
    ensures Loads([w] + [u], pc, Next(Next(pc)), d, Low32(v))
  {
    hide *;
    var upper := Upper20(Imm20(Field12(v)));
    LowValue(v);
    Same(Or(upper, Zero12(Imm12(Field0(v)))), Low32(v));
    forall s: State | s.pc == pc
      ensures RunOne(w, s) == Some(Put(s, Next(pc), d, upper))
    {
      RunLu12i(w, s, d, Imm20(Field12(v)));
    }
    OneWordLoads(w, pc, d, upper);
    forall s: State | Get(s.r, d) == upper
      ensures RunOne(u, s) == Some(Put(s, Next(s.pc), d, Low32(v)))
    {
      RunOri(u, s, d, Imm12(Field0(v)));
    }
    LoadThen([w], u, pc, Next(pc), d, upper, Low32(v));
  }

  lemma MiddleLoads(ws: seq<bv32>, w: bv32, pc: bv64, mid: bv64, d: bv32, v: bv64)
    requires d != 0 && Loads(ws, pc, mid, d, Low32(v)) && Decode(w) == Some(Lu32iD(d, Imm20(Field32(v))))
    ensures Loads(ws + [w], pc, Next(mid), d, Low52(v))
  {
    hide *;
    MiddleValue(v);
    Same(WithUpper32(Low32(v), Imm20(Field32(v))), Low52(v));
    forall s: State | Get(s.r, d) == Low32(v)
      ensures RunOne(w, s) == Some(Put(s, Next(s.pc), d, Low52(v)))
    {
      RunLu32i(w, s, d, Imm20(Field32(v)));
    }
    LoadThen(ws, w, pc, mid, d, Low32(v), Low52(v));
  }

  lemma TopLoads(ws: seq<bv32>, w: bv32, pc: bv64, mid: bv64, d: bv32, v: bv64)
    requires d != 0 && Loads(ws, pc, mid, d, Low52(v)) && Decode(w) == Some(Lu52iD(d, d, Imm12(Field52(v))))
    ensures Loads(ws + [w], pc, Next(mid), d, v)
  {
    hide *;
    TopValue(v);
    Same(WithTop12(Low52(v), Imm12(Field52(v))), v);
    forall s: State | Get(s.r, d) == Low52(v)
      ensures RunOne(w, s) == Some(Put(s, Next(s.pc), d, v))
    {
      RunLu52i(w, s, d, Imm12(Field52(v)));
    }
    LoadThen(ws, w, pc, mid, d, Low52(v), v);
  }

  lemma FitsLow(v: bv64)
    ensures Fits32(v) ==> Low32(v) == v
    ensures Fits52(v) ==> Low52(v) == v
  {
    hide *;
    if Fits32(v) {
      if Bit31(v) { Low32Set(v); } else { Low32Clear(v); }
      Same(Low32(v), v);
    }
    if Fits52(v) {
      if Bit51(v) { Low52Set(v); } else { Low52Clear(v); }
      Same(Low52(v), v);
    }
  }
}
