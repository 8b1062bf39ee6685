/** The stack frame of ABI_PushRegisters and ABI_PopRegisters: its layout and what saving and restoring do. */
module Arm64Frames {
  import opened Words
  import opened Basics
  import opened Arm64Machine
  import opened Arm64Encode
  import Words32

  // ----- The selected registers -----

  predicate HasBit(mask: bv32, i: bv32)
    requires i <= 31
  {
    mask & (1 << i) != 0
  }

  /** The numbers below n whose bits are set, in increasing order. */
  function Selected(mask: bv32, n: bv32): (regs: seq<bv32>)
    requires n <= 32
    ensures forall k :: 0 <= k < |regs| ==> regs[k] < n
    decreases n
  {
    if n == 0 then []
    else Selected(mask, n - 1) + (if HasBit(mask, n - 1) then [n - 1] else [])
  }

  lemma HasBitIs(mask: bv32, i: bv32)
    requires i <= 31
    ensures HasBit(mask, i) <==> (mask >> i) & 1 == 1
  {}

  lemma {:induction false} SelectedHasBit(mask: bv32, n: bv32, r: bv32)
    requires n <= 32 && r <= 31
    ensures r in Selected(mask, n) <==> r < n && HasBit(mask, r)
    decreases n
  {
    hide HasBit;
    if n != 0 {
      SelectedHasBit(mask, n - 1, r);
    }
  }

  lemma SelectedExactly(mask: bv32, n: bv32, r: bv32)
    requires n <= 32 && r <= 31
    ensures r in Selected(mask, n) <==> r < n && (mask >> r) & 1 == 1
  {
    hide *;
    SelectedHasBit(mask, n, r);
    HasBitIs(mask, r);
  }

  predicate Distinct(regs: seq<bv32>) {
    forall i, j :: 0 <= i < j < |regs| ==> regs[i] != regs[j]
  }

  lemma {:induction false} SelectedDistinct(mask: bv32, n: bv32)
    requires n <= 32
    ensures Distinct(Selected(mask, n))
    decreases n
  {
    hide HasBit;
    if n != 0 {
      SelectedDistinct(mask, n - 1);
    }
  }

  lemma {:induction false} SelectedLength(mask: bv32, n: bv32)
    requires n <= 32
    ensures |Selected(mask, n)| <= n as int
    decreases n
  {
    hide HasBit;
    if n != 0 {
      SelectedLength(mask, n - 1);
    }
  }

  // ----- Slots -----

  /** The offset of doubleword slot k of the frame. */
  function SlotOffset(k: nat): bv32 {
    if k == 0 then 0 else SlotOffset(k - 1) + 8
  }

  function Extend(offset: bv32): bv64 {
    offset as bv64
  }

  function Slot(start: bv64, k: nat): Address {
    At(Plus(start, Extend(SlotOffset(k))))
  }

  lemma {:induction false} SlotOffsetInt(k: nat)
    requires k <= 64
    ensures SlotOffset(k) as int == 8 * k && SlotOffset(k) <= 512
  {
    if k > 0 {
      SlotOffsetInt(k - 1);
      AddEight(SlotOffset(k - 1));
    }
  }

  lemma AddEight(x: bv32)
    requires x <= 512
    ensures (x + 8) as int == x as int + 8
  {}

  lemma ExtendInjective(x: bv32, y: bv32)
    requires Extend(x) == Extend(y)
    ensures x == y
  {}

  lemma PlusInjective(start: bv64, x: bv32, y: bv32)
    requires Plus(start, Extend(x)) == Plus(start, Extend(y))
    ensures x == y
  {
    hide *;
    MinusOfPlus(start, Extend(x));
    MinusOfPlus(start, Extend(y));
    ExtendInjective(x, y);
  }

  lemma SlotsDiffer(start: bv64, i: nat, j: nat)
    requires i < j <= 64
    ensures Slot(start, i) != Slot(start, j)
  {
    hide Plus, Extend, SlotOffset;
    SlotOffsetInt(i);
    SlotOffsetInt(j);
    if Slot(start, i) == Slot(start, j) {
      PlusInjective(start, SlotOffset(i), SlotOffset(j));
    }
  }

  /** Memory after the values are stored in consecutive slots from slot k on. */
  function Saved(mem: map<Address, bv64>, start: bv64, k: nat, values: seq<bv64>): map<Address, bv64> {
    if values == [] then mem
    else Saved(mem, start, k, values[..|values| - 1])[Slot(start, k + |values| - 1) := values[|values| - 1]]
  }

  lemma SavedSnoc(mem: map<Address, bv64>, start: bv64, k: nat, values: seq<bv64>, v: bv64)
    ensures Saved(mem, start, k, values + [v]) == Saved(mem, start, k, values)[Slot(start, k + |values|) := v]
  {
    hide Slot;
    assert (values + [v])[..|values|] == values;
  }

  lemma {:induction false} SavedLoad(mem: map<Address, bv64>, start: bv64, k: nat, values: seq<bv64>, i: nat)
    requires i < |values| && k + |values| <= 64
    ensures Load(Saved(mem, start, k, values), Slot(start, k + i).a) == values[i]
  {
    hide Slot;
    var n := |values| - 1;
    if i < n {
      SavedLoad(mem, start, k, values[..n], i);
      SlotsDiffer(start, k + i, k + n);
    }
  }

  lemma {:induction false} SavedElsewhere(mem: map<Address, bv64>, start: bv64, k: nat, values: seq<bv64>, a: bv64)
    requires forall i :: k <= i < k + |values| ==> At(a) != Slot(start, i)
    ensures Load(Saved(mem, start, k, values), a) == Load(mem, a)
  {
    hide Slot;
    if values != [] {
      SavedElsewhere(mem, start, k, values[..|values| - 1], a);
    }
  }

  /** Slots outside the stored ones keep their contents. */
  lemma SavedOther(mem: map<Address, bv64>, start: bv64, k: nat, values: seq<bv64>, i: nat)
    requires (i < k || k + |values| <= i) && k + |values| <= 64 && i <= 64
    ensures Load(Saved(mem, start, k, values), Slot(start, i).a) == Load(mem, Slot(start, i).a)
  {
    hide Slot;
    forall j | k <= j < k + |values|
      ensures Slot(start, i) != Slot(start, j)
    {
      if i < j {
        SlotsDiffer(start, i, j);
      } else {
        SlotsDiffer(start, j, i);
      }
    }
    SavedElsewhere(mem, start, k, values, Slot(start, i).a);
  }

  // ----- Values of registers -----

  function Values(x: map<Reg, bv64>, regs: seq<bv32>): (values: seq<bv64>)
    ensures |values| == |regs|
  {
    seq(|regs|, i requires 0 <= i < |regs| => Get(x, regs[i]))
  }

  /** Registers after they were loaded from consecutive slots from slot k on. */
  function Restored(x: map<Reg, bv64>, regs: seq<bv32>, mem: map<Address, bv64>, start: bv64, k: nat): map<Reg, bv64> {
    if regs == [] then x
    else
      var n := |regs| - 1;
      Restored(x, regs[..n], mem, start, k)[R(regs[n]) := Load(mem, Slot(start, k + n).a)]
  }

  lemma RestoredSnoc(x: map<Reg, bv64>, regs: seq<bv32>, r: bv32, mem: map<Address, bv64>, start: bv64, k: nat)
    ensures Restored(x, regs + [r], mem, start, k)
         == Restored(x, regs, mem, start, k)[R(r) := Load(mem, Slot(start, k + |regs|).a)]
  {
    hide Slot;
    assert (regs + [r])[..|regs|] == regs;
  }

  lemma {:induction false} RestoredGet(x: map<Reg, bv64>, regs: seq<bv32>, mem: map<Address, bv64>, start: bv64,
                                       k: nat, i: nat)
    requires Distinct(regs) && i < |regs|
    ensures Get(Restored(x, regs, mem, start, k), regs[i]) == Load(mem, Slot(start, k + i).a)
  {
    hide Slot;
    var n := |regs| - 1;
    if i < n {
      RestoredGet(x, regs[..n], mem, start, k, i);
    }
  }

  lemma {:induction false} RestoredOther(x: map<Reg, bv64>, regs: seq<bv32>, mem: map<Address, bv64>, start: bv64,
                                         k: nat, r: bv32)
    requires r !in regs
    ensures Get(Restored(x, regs, mem, start, k), r) == Get(x, r)
  {
    hide Slot;
    if regs != [] {
      RestoredOther(x, regs[..|regs| - 1], mem, start, k, r);
    }
  }

  // ----- Addressing -----

  /** What the architecture asks of a stack pointer used as a base. */
  predicate IsAligned16(a: bv64) {
    a & 15 == 0
  }

  lemma IsAligned16Is(a: bv64)
    ensures IsAligned16(a) <==> a % 16 == 0
  {}

  lemma {:induction false} SlotOffsetAligned(k: nat)
    ensures IsAligned8(SlotOffset(k))
  {
    if k > 0 {
      SlotOffsetAligned(k - 1);
      StaysAligned(SlotOffset(k - 1));
    }
  }

  lemma StaysAligned(x: bv32)
    requires IsAligned8(x)
    ensures IsAligned8(x + 8)
  {}

  lemma AlignedSum(rn: bv32, start: bv64, offset: bv32)
    requires IsAligned16(start) && IsAligned8(offset)
    ensures Aligned(rn, start, Plus(start, Extend(offset)))
  {}

  lemma AlignedSlot(rn: bv32, start: bv64, k: nat)
    requires IsAligned16(start)
    ensures Aligned(rn, start, Plus(start, Extend(SlotOffset(k))))
  {
    hide *;
    SlotOffsetAligned(k);
    AlignedSum(rn, start, SlotOffset(k));
  }

  lemma ExtendNext(x: bv32)
    requires x <= 512
    ensures Plus(Extend(x), 8) == Extend(x + 8)
  {}

  lemma SlotOffsetNext(k: nat)
    ensures SlotOffset(k + 1) == SlotOffset(k) + 8
  {}

  lemma SlotNext(start: bv64, k: nat)
    requires k < 64
    ensures Plus(Plus(start, Extend(SlotOffset(k))), 8) == Plus(start, Extend(SlotOffset(k + 1)))
  {
    hide *;
    SlotOffsetInt(k);
    SlotOffsetNext(k);
    ExtendNext(SlotOffset(k));
    PlusAssociates(start, Extend(SlotOffset(k)), 8);
  }

  lemma SlotIs(start: bv64, k: nat)
    ensures Slot(start, k) == At(Plus(start, Extend(SlotOffset(k))))
  {
    hide Plus, Extend, SlotOffset;
  }

  // ----- The load and store words -----

  lemma RunPair(w: bv32, s: State, load: bool, vector: bool, imm7: bv32, rt2: bv32, rn: bv32, rt: bv32, k: nat)
    requires Decode(w) == Some(LoadStorePair(load, vector, SignedOffset, imm7, rt2, rn, rt))
    requires IsAligned16(ReadSP(s, rn)) && k < 64 && PairDistance(imm7) == Extend(SlotOffset(k))
    ensures RunOne(w, s) == Some(Transfer(Transfer(s, load, vector, rt, Slot(ReadSP(s, rn), k).a), load, vector, rt2,
                                          Slot(ReadSP(s, rn), k + 1).a).(pc := Next(s.pc)))
  {
    hide Decode, Plus, PairDistance, Extend, SlotOffset, Next, Aligned, Transfer, ReadSP, Slot;
    var start := ReadSP(s, rn);
    AlignedSlot(rn, start, k);
    SlotNext(start, k);
    SlotIs(start, k);
    SlotIs(start, k + 1);
  }

  lemma RunSingle(w: bv32, s: State, load: bool, vector: bool, imm12: bv32, rn: bv32, rt: bv32, k: nat)
    requires Decode(w) == Some(LoadStore(load, vector, imm12, rn, rt))
    requires IsAligned16(ReadSP(s, rn)) && ScaledOffset(imm12) == Extend(SlotOffset(k))
    ensures RunOne(w, s) == Some(Transfer(s, load, vector, rt, Slot(ReadSP(s, rn), k).a).(pc := Next(s.pc)))
  {
    hide Decode, Plus, ScaledOffset, Extend, SlotOffset, Next, Aligned, Transfer, ReadSP, Slot;
    AlignedSlot(rn, ReadSP(s, rn), k);
    SlotIs(ReadSP(s, rn), k);
  }

  lemma RunAddImm(w: bv32, s: State, imm12: bv32, rn: bv32, rd: bv32)
    requires Decode(w) == Some(AddSubImm(true, false, false, false, imm12, rn, rd))
    ensures RunOne(w, s) == Some(WriteSP(s, rd, Plus(ReadSP(s, rn), Extend(imm12))).(pc := Next(s.pc)))
  {
    hide Decode, Plus, ReadSP, WriteSP, Next;
  }

  // ----- The fields of the words -----

  lemma PairField(offset: bv32)
    requires IsAligned8(offset) && offset <= 504
    ensures PairDistance(PairImm(offset)) == Extend(offset)
  {}

  lemma SingleField(offset: bv32)
    requires IsAligned8(offset) && offset <= 512
    ensures ScaledOffset(SingleImm(offset)) == Extend(offset)
  {}

  /** The distance of the pre-indexed store that makes room for the frame. */
  function Down(size: bv32): bv64 {
    0 - Extend(size)
  }

  function DownImm(size: bv32): (imm7: bv32)
    ensures imm7 <= 0x7F
  {
    ((0 - size) >> 3) & 0x7F
  }

  lemma DownField(size: bv32)
    requires IsAligned8(size) && 0 < size <= 256
    ensures PairDistance(DownImm(size)) == Down(size)
  {}

  lemma DownUpSum(start: bv64, size: bv32)
    ensures Plus(start + Down(size), Extend(size)) == start
  {}

  lemma DownUp(start: bv64, size: bv32)
    ensures Plus(Plus(start, Down(size)), Extend(size)) == start
  {
    hide *;
    PlusIs(start, Down(size));
    DownUpSum(start, size);
  }

  lemma DownAligned(start: bv64, size: bv32)
    requires IsAligned16(start) && size & 15 == 0
    ensures IsAligned16(Plus(start, Down(size)))
  {}

  // ----- Frame size -----

  /** Registers come in pairs; the last one may leave its second slot unused. */
  function Even(n: nat): nat {
    n + n % 2
  }

  function FprSlot(gprs: nat): nat {
    2 + Even(gprs)
  }

  function FrameSlots(registers: bv32, fpRegisters: bv32): nat {
    FprSlot(|Selected(registers, 29)|) + Even(|Selected(fpRegisters, 32)|)
  }

  function FrameSize(registers: bv32, fpRegisters: bv32): bv32 {
    SlotOffset(FrameSlots(registers, fpRegisters))
  }

  function FrameStart(sp: bv64, registers: bv32, fpRegisters: bv32): bv64 {
    Plus(sp, Down(FrameSize(registers, fpRegisters)))
  }

  lemma FrameSlotsBound(registers: bv32, fpRegisters: bv32)
    ensures 2 <= FrameSlots(registers, fpRegisters) <= 64 && FrameSlots(registers, fpRegisters) % 2 == 0
    ensures |Selected(registers, 29)| <= 29 && |Selected(fpRegisters, 32)| <= 32
  {
    hide Selected;
    SelectedLength(registers, 29);
    SelectedLength(fpRegisters, 32);
  }

  lemma {:induction false} SlotOffsetParity(k: nat)
    ensures SlotOffset(k) & 15 == if k % 2 == 0 then 0 else 8
  {
    if k > 0 {
      SlotOffsetParity(k - 1);
      AddEightParity(SlotOffset(k - 1));
    }
  }

  lemma AddEightParity(x: bv32)
    ensures x & 15 == 0 ==> (x + 8) & 15 == 8
    ensures x & 15 == 8 ==> (x + 8) & 15 == 0
  {}

  lemma FrameSizeAligned(registers: bv32, fpRegisters: bv32)
    ensures FrameSize(registers, fpRegisters) & 15 == 0
  {
    hide SlotOffset, FrameSlots;
    FrameSlotsBound(registers, fpRegisters);
    SlotOffsetParity(FrameSlots(registers, fpRegisters));
  }

  // ----- Pushing -----

  /** s after its frame record, the general registers and the vector registers were stored, the latter from slot kf. */
  function SavedState(s: State, end: bv64, start: bv64, gprs: seq<bv32>, fprs: seq<bv32>, kf: nat): State {
    s.(pc := end, sp := start, x := s.x[R(29) := start],
       mem := Saved(Saved(Saved(s.mem, start, 0, Values(s.x, [29, 30])), start, 2, Values(s.x, gprs)),
                    start, kf, Values(s.d, fprs)))
  }

  /** From pc with an aligned stack, the words make a frame of the given size and store the registers in it. */
  ghost predicate PushesTo(ws: seq<bv32>, pc: bv64, end: bv64, size: bv32, gprs: seq<bv32>, fprs: seq<bv32>, kf: nat) {
    forall s: State :: s.pc == pc && IsAligned16(s.sp) ==>
      Run(ws, s) == Some(SavedState(s, end, Plus(s.sp, Down(size)), gprs, fprs, kf))
  }

  lemma PushesToDefinition(ws: seq<bv32>, pc: bv64, end: bv64, size: bv32, gprs: seq<bv32>, fprs: seq<bv32>, kf: nat)
    ensures PushesTo(ws, pc, end, size, gprs, fprs, kf) <==> forall s: State :: s.pc == pc && IsAligned16(s.sp) ==>
      Run(ws, s) == Some(SavedState(s, end, Plus(s.sp, Down(size)), gprs, fprs, kf))
  {
    hide Run, IsAligned16, SavedState, Plus, Down;
  }

  lemma ValuesSnoc(x: map<Reg, bv64>, regs: seq<bv32>, r: bv32)
    ensures Values(x, regs + [r]) == Values(x, regs) + [Get(x, r)]
  {
    hide Get;
  }

  lemma StoreGpr(s: State, end: bv64, start: bv64, gprs: seq<bv32>, r: bv32, kf: nat)
    requires r <= 28
    ensures Transfer(SavedState(s, end, start, gprs, [], kf), false, false, r, Slot(start, 2 + |gprs|).a)
         == SavedState(s, end, start, gprs + [r], [], kf)
  {
    hide Slot, Saved, Plus;
    ValuesSnoc(s.x, gprs, r);
    var mem := Saved(s.mem, start, 0, Values(s.x, [29, 30]));
    SavedSnoc(mem, start, 2, Values(s.x, gprs), Get(s.x, r));
    SavedNothing(Saved(mem, start, 2, Values(s.x, gprs)), start, kf, Values(s.d, []));
    SavedNothing(Saved(mem, start, 2, Values(s.x, gprs + [r])), start, kf, Values(s.d, []));
    assert Get(s.x[R(29) := start], r) == Get(s.x, r);
  }

  lemma SavedNothing(mem: map<Address, bv64>, start: bv64, k: nat, values: seq<bv64>)
    requires values == []
    ensures Saved(mem, start, k, values) == mem
  {}

  lemma StoreFpr(s: State, end: bv64, start: bv64, gprs: seq<bv32>, fprs: seq<bv32>, r: bv32, kf: nat)
    ensures Transfer(SavedState(s, end, start, gprs, fprs, kf), false, true, r, Slot(start, kf + |fprs|).a)
         == SavedState(s, end, start, gprs, fprs + [r], kf)
  {
    hide Slot, Saved, Plus;
    ValuesSnoc(s.d, fprs, r);
    SavedSnoc(Saved(Saved(s.mem, start, 0, Values(s.x, [29, 30])), start, 2, Values(s.x, gprs)), start, kf,
              Values(s.d, fprs), Get(s.d, r));
  }

  lemma SavedStatePc(s: State, end: bv64, next: bv64, start: bv64, gprs: seq<bv32>, fprs: seq<bv32>, kf: nat)
    ensures SavedState(s, end, start, gprs, fprs, kf).(pc := next) == SavedState(s, next, start, gprs, fprs, kf)
    ensures SavedState(s, end, start, gprs, fprs, kf).pc == end
    ensures ReadSP(SavedState(s, end, start, gprs, fprs, kf), 31) == start
    ensures ReadSP(SavedState(s, end, start, gprs, fprs, kf), 29) == start
  {
    hide Saved;
  }

  lemma PushGprPair(ws: seq<bv32>, w: bv32, pc: bv64, mid: bv64, size: bv32, gprs: seq<bv32>, kf: nat, r1: bv32,
                    r2: bv32)
    requires PushesTo(ws, pc, mid, size, gprs, [], kf) && r1 <= 28 && r2 <= 28 && |gprs| <= 60 && size & 15 == 0
    requires Decode(w) == Some(LoadStorePair(false, false, SignedOffset, PairImm(SlotOffset(2 + |gprs|)), r2, 29, r1))
    ensures PushesTo(ws + [w], pc, Next(mid), size, gprs + [r1, r2], [], kf)
  {
    hide *;
    PushesToDefinition(ws, pc, mid, size, gprs, [], kf);
    forall s: State | s.pc == pc && IsAligned16(s.sp)
      ensures Run(ws + [w], s) == Some(SavedState(s, Next(mid), Plus(s.sp, Down(size)), gprs + [r1, r2], [], kf))
    {
      var start := Plus(s.sp, Down(size));
      var u := SavedState(s, mid, start, gprs, [], kf);
      RunSnoc(ws, w, s);
      DownAligned(s.sp, size);
      SavedStatePc(s, mid, mid, start, gprs, [], kf);
      PairSlot(2 + |gprs|);
      RunPair(w, u, false, false, PairImm(SlotOffset(2 + |gprs|)), r2, 29, r1, 2 + |gprs|);
      StoreGpr(s, mid, start, gprs, r1, kf);
      StoreGpr(s, mid, start, gprs + [r1], r2, kf);
      assert gprs + [r1] + [r2] == gprs + [r1, r2];
      SavedStatePc(s, mid, Next(mid), start, gprs + [r1, r2], [], kf);
    }
    PushesToDefinition(ws + [w], pc, Next(mid), size, gprs + [r1, r2], [], kf);
  }

  lemma PushGpr(ws: seq<bv32>, w: bv32, pc: bv64, mid: bv64, size: bv32, gprs: seq<bv32>, kf: nat, r: bv32)
    requires PushesTo(ws, pc, mid, size, gprs, [], kf) && r <= 28 && size & 15 == 0
    requires Decode(w) == Some(LoadStore(false, false, SingleImm(SlotOffset(2 + |gprs|)), 29, r))
    requires |gprs| <= 60
    ensures PushesTo(ws + [w], pc, Next(mid), size, gprs + [r], [], kf)
  {
    hide *;
    PushesToDefinition(ws, pc, mid, size, gprs, [], kf);
    forall s: State | s.pc == pc && IsAligned16(s.sp)
      ensures Run(ws + [w], s) == Some(SavedState(s, Next(mid), Plus(s.sp, Down(size)), gprs + [r], [], kf))
    {
      var start := Plus(s.sp, Down(size));
      RunSnoc(ws, w, s);
      DownAligned(s.sp, size);
      SavedStatePc(s, mid, mid, start, gprs, [], kf);
      SingleSlot(2 + |gprs|);
      RunSingle(w, SavedState(s, mid, start, gprs, [], kf), false, false, SingleImm(SlotOffset(2 + |gprs|)), 29, r,
                2 + |gprs|);
      StoreGpr(s, mid, start, gprs, r, kf);
      SavedStatePc(s, mid, Next(mid), start, gprs + [r], [], kf);
    }
    PushesToDefinition(ws + [w], pc, Next(mid), size, gprs + [r], [], kf);
  }

  lemma PushFprPair(ws: seq<bv32>, w: bv32, pc: bv64, mid: bv64, size: bv32, gprs: seq<bv32>, fprs: seq<bv32>, kf: nat,
                    r1: bv32, r2: bv32)
    requires PushesTo(ws, pc, mid, size, gprs, fprs, kf) && kf + |fprs| < 64 && size & 15 == 0
    requires Decode(w) == Some(LoadStorePair(false, true, SignedOffset, PairImm(SlotOffset(kf + |fprs|)), r2, 31, r1))
    ensures PushesTo(ws + [w], pc, Next(mid), size, gprs, fprs + [r1, r2], kf)
  {
    hide *;
    PushesToDefinition(ws, pc, mid, size, gprs, fprs, kf);
    forall s: State | s.pc == pc && IsAligned16(s.sp)
      ensures Run(ws + [w], s) == Some(SavedState(s, Next(mid), Plus(s.sp, Down(size)), gprs, fprs + [r1, r2], kf))
    {
      var start := Plus(s.sp, Down(size));
      RunSnoc(ws, w, s);
      DownAligned(s.sp, size);
      SavedStatePc(s, mid, mid, start, gprs, fprs, kf);
      PairSlot(kf + |fprs|);
      RunPair(w, SavedState(s, mid, start, gprs, fprs, kf), false, true, PairImm(SlotOffset(kf + |fprs|)), r2, 31, r1,
              kf + |fprs|);
      StoreFpr(s, mid, start, gprs, fprs, r1, kf);
      StoreFpr(s, mid, start, gprs, fprs + [r1], r2, kf);
      assert fprs + [r1] + [r2] == fprs + [r1, r2];
      SavedStatePc(s, mid, Next(mid), start, gprs, fprs + [r1, r2], kf);
    }
    PushesToDefinition(ws + [w], pc, Next(mid), size, gprs, fprs + [r1, r2], kf);
  }

  lemma PushFpr(ws: seq<bv32>, w: bv32, pc: bv64, mid: bv64, size: bv32, gprs: seq<bv32>, fprs: seq<bv32>, kf: nat,
                r: bv32)
    requires PushesTo(ws, pc, mid, size, gprs, fprs, kf) && size & 15 == 0
    requires Decode(w) == Some(LoadStore(false, true, SingleImm(SlotOffset(kf + |fprs|)), 29, r))
    requires kf + |fprs| < 64
    ensures PushesTo(ws + [w], pc, Next(mid), size, gprs, fprs + [r], kf)
  {
    hide *;
    PushesToDefinition(ws, pc, mid, size, gprs, fprs, kf);
    forall s: State | s.pc == pc && IsAligned16(s.sp)
      ensures Run(ws + [w], s) == Some(SavedState(s, Next(mid), Plus(s.sp, Down(size)), gprs, fprs + [r], kf))
    {
      var start := Plus(s.sp, Down(size));
      RunSnoc(ws, w, s);
      DownAligned(s.sp, size);
      SavedStatePc(s, mid, mid, start, gprs, fprs, kf);
      SingleSlot(kf + |fprs|);
      RunSingle(w, SavedState(s, mid, start, gprs, fprs, kf), false, true, SingleImm(SlotOffset(kf + |fprs|)), 29, r,
                kf + |fprs|);
      StoreFpr(s, mid, start, gprs, fprs, r, kf);
      SavedStatePc(s, mid, Next(mid), start, gprs, fprs + [r], kf);
    }
    PushesToDefinition(ws + [w], pc, Next(mid), size, gprs, fprs + [r], kf);
  }

  lemma RunPrePair(w: bv32, s: State, size: bv32)
    requires Decode(w) == Some(LoadStorePair(false, false, PreIndex, DownImm(size), 30, 31, 29))
    requires IsAligned16(s.sp) && size & 15 == 0 && 0 < size <= 256
    ensures var start := Plus(s.sp, Down(size));
            RunOne(w, s) == Some(s.(pc := Next(s.pc), sp := start,
                                    mem := Saved(s.mem, start, 0, Values(s.x, [29, 30]))))
  {
    hide Decode, Plus, Down, DownImm, PairDistance, Next, Slot, Saved, Aligned, Get, Values, SlotOffset, Extend,
      IsAligned16;
    var start := Plus(s.sp, Down(size));
    PreAligned(s.sp, size);
    Multiple16(size);
    DownField(size);
    PreSlots(start);
    SavedRecord(s, start);
  }

  lemma Multiple16(size: bv32)
    requires size & 15 == 0
    ensures IsAligned8(size)
  {}

  lemma PreAligned(start: bv64, size: bv32)
    requires IsAligned16(start) && size & 15 == 0
    ensures Aligned(31, start, Plus(start, Down(size)))
  {}

  lemma PreSlots(start: bv64)
    ensures Slot(start, 0) == At(start) && Slot(start, 1) == At(Plus(start, 8))
  {
    hide Plus;
    PlusZero(start);
    assert SlotOffset(1) == SlotOffset(0) + 8;
  }

  lemma SavedRecord(s: State, start: bv64)
    ensures Saved(s.mem, start, 0, Values(s.x, [29, 30]))
         == s.mem[Slot(start, 0) := Get(s.x, 29)][Slot(start, 1) := Get(s.x, 30)]
  {
    hide Slot, Get;
    var fp, lr := Get(s.x, 29), Get(s.x, 30);
    assert Values(s.x, [29, 30]) == [fp] + [lr];
    SavedSnoc(s.mem, start, 0, [fp], lr);
    SavedSnoc(s.mem, start, 0, [], fp);
    assert [] + [fp] == [fp];
  }

  lemma StartState(s: State, end: bv64, start: bv64, kf: nat)
    ensures SavedState(s, end, start, [], [], kf)
         == s.(pc := end, sp := start, x := s.x[R(29) := start], mem := Saved(s.mem, start, 0, Values(s.x, [29, 30])))
  {
    hide Slot;
  }

  lemma MoveFromSP(w: bv32, s: State)
    requires Decode(w) == Some(AddSubImm(true, false, false, false, 0, 31, 29))
    ensures RunOne(w, s) == Some(s.(pc := Next(s.pc), x := s.x[R(29) := s.sp]))
  {
    hide Decode, Next, Plus, Extend;
    RunAddImm(w, s, 0, 31, 29);
    ExtendZero();
    PlusZero(s.sp);
  }

  lemma ExtendZero()
    ensures Extend(0) == 0
  {}

  /** STP FP, LR, [SP, -size]! and MOV X29, SP. */
  lemma PushRecord(w: bv32, v: bv32, pc: bv64, size: bv32, kf: nat)
    requires Decode(w) == Some(LoadStorePair(false, false, PreIndex, DownImm(size), 30, 31, 29))
    requires Decode(v) == Some(AddSubImm(true, false, false, false, 0, 31, 29))
    requires size & 15 == 0 && 0 < size <= 256
    ensures PushesTo([w, v], pc, Next(Next(pc)), size, [], [], kf)
  {
    hide *;
    forall s: State | s.pc == pc && IsAligned16(s.sp)
      ensures Run([w, v], s) == Some(SavedState(s, Next(Next(pc)), Plus(s.sp, Down(size)), [], [], kf))
    {
      var start := Plus(s.sp, Down(size));
      RunWords([w], v, s);
      RunFirst(w, s);
      RunPrePair(w, s, size);
      var u := s.(pc := Next(s.pc), sp := start, mem := Saved(s.mem, start, 0, Values(s.x, [29, 30])));
      MoveFromSP(v, u);
      StartState(s, Next(Next(pc)), start, kf);
    }
    PushesToDefinition([w, v], pc, Next(Next(pc)), size, [], [], kf);
  }

  lemma RunWords(ws: seq<bv32>, v: bv32, s: State)
    requires |ws| == 1
    ensures Run([ws[0], v], s) == match Run(ws, s) case None => None case Some(t) => RunOne(v, t)
  {
    hide RunOne;
    RunSnoc(ws, v, s);
    assert ws + [v] == [ws[0], v];
  }

  lemma RunFirst(w: bv32, s: State)
    ensures Run([w], s) == RunOne(w, s)
  {
    hide RunOne;
    assert [] + [w] == [w];
    RunSnoc([], w, s);
  }

  // ----- Popping -----

  /** t after the registers were loaded back from a frame that starts at its stack pointer. */
  function LoadedState(t: State, end: bv64, gprs: seq<bv32>, fprs: seq<bv32>, kf: nat): State {
    t.(pc := end,
       x := Restored(Restored(t.x, [29, 30], t.mem, t.sp, 0), gprs, t.mem, t.sp, 2),
       d := Restored(t.d, fprs, t.mem, t.sp, kf))
  }

  ghost predicate PopsTo(ws: seq<bv32>, pc: bv64, end: bv64, gprs: seq<bv32>, fprs: seq<bv32>, kf: nat) {
    forall t: State :: t.pc == pc && IsAligned16(t.sp) ==> Run(ws, t) == Some(LoadedState(t, end, gprs, fprs, kf))
  }

  lemma PopsToDefinition(ws: seq<bv32>, pc: bv64, end: bv64, gprs: seq<bv32>, fprs: seq<bv32>, kf: nat)
    ensures PopsTo(ws, pc, end, gprs, fprs, kf) <==> forall t: State :: t.pc == pc && IsAligned16(t.sp) ==>
      Run(ws, t) == Some(LoadedState(t, end, gprs, fprs, kf))
  {
    hide Run, IsAligned16, LoadedState;
  }

  lemma LoadGpr(t: State, end: bv64, gprs: seq<bv32>, fprs: seq<bv32>, r: bv32, kf: nat)
    requires r <= 28
    ensures Transfer(LoadedState(t, end, gprs, fprs, kf), true, false, r, Slot(t.sp, 2 + |gprs|).a)
         == LoadedState(t, end, gprs + [r], fprs, kf)
  {
    hide Slot, Restored, Load;
    RestoredSnoc(Restored(t.x, [29, 30], t.mem, t.sp, 0), gprs, r, t.mem, t.sp, 2);
  }

  lemma LoadFpr(t: State, end: bv64, gprs: seq<bv32>, fprs: seq<bv32>, r: bv32, kf: nat)
    ensures Transfer(LoadedState(t, end, gprs, fprs, kf), true, true, r, Slot(t.sp, kf + |fprs|).a)
         == LoadedState(t, end, gprs, fprs + [r], kf)
  {
    hide Slot, Restored, Load;
    RestoredSnoc(t.d, fprs, r, t.mem, t.sp, kf);
  }

  lemma LoadedStatePc(t: State, end: bv64, next: bv64, gprs: seq<bv32>, fprs: seq<bv32>, kf: nat)
    ensures LoadedState(t, end, gprs, fprs, kf).(pc := next) == LoadedState(t, next, gprs, fprs, kf)
    ensures LoadedState(t, end, gprs, fprs, kf).pc == end && ReadSP(LoadedState(t, end, gprs, fprs, kf), 31) == t.sp
  {
    hide Restored;
  }

  lemma LoadX(t: State, r: bv32, a: bv64)
    requires r <= 30
    ensures Transfer(t, true, false, r, a) == t.(x := t.x[R(r) := Load(t.mem, a)])
  {
    hide Load;
  }

  lemma RestoredRecord(x: map<Reg, bv64>, mem: map<Address, bv64>, start: bv64)
    ensures Restored(x, [29, 30], mem, start, 0)
         == x[R(29) := Load(mem, Slot(start, 0).a)][R(30) := Load(mem, Slot(start, 1).a)]
  {
    hide Slot, Load;
    RestoredSnoc(x, [29], 30, mem, start, 0);
    RestoredSnoc(x, [], 29, mem, start, 0);
    assert [29] + [30] == [29, 30] && [] + [29] == [29];
  }

  lemma LoadedNothing(t: State, end: bv64, kf: nat)
    ensures LoadedState(t, end, [], [], kf) == t.(pc := end, x := Restored(t.x, [29, 30], t.mem, t.sp, 0))
  {
    hide Slot, Load;
  }

  lemma LoadRecord(t: State, end: bv64, kf: nat)
    ensures Transfer(Transfer(t, true, false, 29, Slot(t.sp, 0).a), true, false, 30, Slot(t.sp, 1).a).(pc := end)
         == LoadedState(t, end, [], [], kf)
  {
    hide *;
    var u := t.(x := t.x[R(29) := Load(t.mem, Slot(t.sp, 0).a)]);
    LoadX(t, 29, Slot(t.sp, 0).a);
    LoadX(u, 30, Slot(t.sp, 1).a);
    RestoredRecord(t.x, t.mem, t.sp);
    LoadedNothing(t, end, kf);
  }

  /** LDP FP, LR, [SP]. */
  lemma PopRecord(w: bv32, pc: bv64, kf: nat)
    requires Decode(w) == Some(LoadStorePair(true, false, SignedOffset, PairImm(SlotOffset(0)), 30, 31, 29))
    ensures PopsTo([w], pc, Next(pc), [], [], kf)
  {
    hide *;
    forall t: State | t.pc == pc && IsAligned16(t.sp)
      ensures Run([w], t) == Some(LoadedState(t, Next(pc), [], [], kf))
    {
      RunFirst(w, t);
      SlotOffsetAligned(0);
      SlotOffsetInt(0);
      SmallOffset(0);
      PairField(SlotOffset(0));
      ReadStack(t);
      RunPair(w, t, true, false, PairImm(SlotOffset(0)), 30, 31, 29, 0);
      LoadRecord(t, Next(pc), kf);
    }
    PopsToDefinition([w], pc, Next(pc), [], [], kf);
  }

  lemma ReadStack(t: State)
    ensures ReadSP(t, 31) == t.sp
  {}

  /** Slots below the last fit the pair encodings. */
  lemma SmallOffset(k: nat)
    requires k <= 63
    ensures SlotOffset(k) <= 504
  {
    hide SlotOffset;
    SlotOffsetInt(k);
    AtMost504(SlotOffset(k), k);
  }

  lemma AtMost504(x: bv32, k: nat)
    requires x as int == 8 * k && k <= 63
    ensures x <= 504
  {}

  lemma PopGprPair(ws: seq<bv32>, w: bv32, pc: bv64, mid: bv64, gprs: seq<bv32>, kf: nat, r1: bv32, r2: bv32)
    requires PopsTo(ws, pc, mid, gprs, [], kf) && r1 <= 28 && r2 <= 28 && |gprs| <= 60
    requires Decode(w) == Some(LoadStorePair(true, false, SignedOffset, PairImm(SlotOffset(2 + |gprs|)), r2, 31, r1))
    ensures PopsTo(ws + [w], pc, Next(mid), gprs + [r1, r2], [], kf)
  {
    hide *;
    PopsToDefinition(ws, pc, mid, gprs, [], kf);
    forall t: State | t.pc == pc && IsAligned16(t.sp)
      ensures Run(ws + [w], t) == Some(LoadedState(t, Next(mid), gprs + [r1, r2], [], kf))
    {
      RunSnoc(ws, w, t);
      LoadedStatePc(t, mid, mid, gprs, [], kf);
      PairSlot(2 + |gprs|);
      RunPair(w, LoadedState(t, mid, gprs, [], kf), true, false, PairImm(SlotOffset(2 + |gprs|)), r2, 31, r1,
              2 + |gprs|);
      LoadGpr(t, mid, gprs, [], r1, kf);
      LoadGpr(t, mid, gprs + [r1], [], r2, kf);
      assert gprs + [r1] + [r2] == gprs + [r1, r2];
      LoadedStatePc(t, mid, Next(mid), gprs + [r1, r2], [], kf);
    }
    PopsToDefinition(ws + [w], pc, Next(mid), gprs + [r1, r2], [], kf);
  }

  lemma SingleSlot(k: nat)
    requires k <= 64
    ensures ScaledOffset(SingleImm(SlotOffset(k))) == Extend(SlotOffset(k))
  {
    hide *;
    SlotOffsetAligned(k);
    SlotOffsetInt(k);
    SingleField(SlotOffset(k));
  }

  lemma PairSlot(k: nat)
    requires k < 64
    ensures PairDistance(PairImm(SlotOffset(k))) == Extend(SlotOffset(k))
  {
    hide *;
    SlotOffsetAligned(k);
    SmallOffset(k);
    PairField(SlotOffset(k));
  }

  lemma PopGpr(ws: seq<bv32>, w: bv32, pc: bv64, mid: bv64, gprs: seq<bv32>, kf: nat, r: bv32)
    requires PopsTo(ws, pc, mid, gprs, [], kf) && r <= 28 && |gprs| <= 60
    requires Decode(w) == Some(LoadStore(true, false, SingleImm(SlotOffset(2 + |gprs|)), 31, r))
    ensures PopsTo(ws + [w], pc, Next(mid), gprs + [r], [], kf)
  {
    hide *;
    PopsToDefinition(ws, pc, mid, gprs, [], kf);
    forall t: State | t.pc == pc && IsAligned16(t.sp)
      ensures Run(ws + [w], t) == Some(LoadedState(t, Next(mid), gprs + [r], [], kf))
    {
      RunSnoc(ws, w, t);
      LoadedStatePc(t, mid, mid, gprs, [], kf);
      SingleSlot(2 + |gprs|);
      RunSingle(w, LoadedState(t, mid, gprs, [], kf), true, false, SingleImm(SlotOffset(2 + |gprs|)), 31, r,
                2 + |gprs|);
      LoadGpr(t, mid, gprs, [], r, kf);
      LoadedStatePc(t, mid, Next(mid), gprs + [r], [], kf);
    }
    PopsToDefinition(ws + [w], pc, Next(mid), gprs + [r], [], kf);
  }

  lemma PopFprPair(ws: seq<bv32>, w: bv32, pc: bv64, mid: bv64, gprs: seq<bv32>, fprs: seq<bv32>, kf: nat, r1: bv32,
                   r2: bv32)
    requires PopsTo(ws, pc, mid, gprs, fprs, kf) && kf + |fprs| < 64
    requires Decode(w) == Some(LoadStorePair(true, true, SignedOffset, PairImm(SlotOffset(kf + |fprs|)), r2, 31, r1))
    ensures PopsTo(ws + [w], pc, Next(mid), gprs, fprs + [r1, r2], kf)
  {
    hide *;
    PopsToDefinition(ws, pc, mid, gprs, fprs, kf);
    forall t: State | t.pc == pc && IsAligned16(t.sp)
      ensures Run(ws + [w], t) == Some(LoadedState(t, Next(mid), gprs, fprs + [r1, r2], kf))
    {
      RunSnoc(ws, w, t);
      LoadedStatePc(t, mid, mid, gprs, fprs, kf);
      PairSlot(kf + |fprs|);
      RunPair(w, LoadedState(t, mid, gprs, fprs, kf), true, true, PairImm(SlotOffset(kf + |fprs|)), r2, 31, r1,
              kf + |fprs|);
      LoadFpr(t, mid, gprs, fprs, r1, kf);
      LoadFpr(t, mid, gprs, fprs + [r1], r2, kf);
      assert fprs + [r1] + [r2] == fprs + [r1, r2];
      LoadedStatePc(t, mid, Next(mid), gprs, fprs + [r1, r2], kf);
    }
    PopsToDefinition(ws + [w], pc, Next(mid), gprs, fprs + [r1, r2], kf);
  }

  lemma PopFpr(ws: seq<bv32>, w: bv32, pc: bv64, mid: bv64, gprs: seq<bv32>, fprs: seq<bv32>, kf: nat, r: bv32)
    requires PopsTo(ws, pc, mid, gprs, fprs, kf) && kf + |fprs| < 64
    requires Decode(w) == Some(LoadStore(true, true, SingleImm(SlotOffset(kf + |fprs|)), 31, r))
    ensures PopsTo(ws + [w], pc, Next(mid), gprs, fprs + [r], kf)
  {
    hide *;
    PopsToDefinition(ws, pc, mid, gprs, fprs, kf);
    forall t: State | t.pc == pc && IsAligned16(t.sp)
      ensures Run(ws + [w], t) == Some(LoadedState(t, Next(mid), gprs, fprs + [r], kf))
    {
      RunSnoc(ws, w, t);
      LoadedStatePc(t, mid, mid, gprs, fprs, kf);
      SingleSlot(kf + |fprs|);
      RunSingle(w, LoadedState(t, mid, gprs, fprs, kf), true, true, SingleImm(SlotOffset(kf + |fprs|)), 31, r,
                kf + |fprs|);
      LoadFpr(t, mid, gprs, fprs, r, kf);
      LoadedStatePc(t, mid, Next(mid), gprs, fprs + [r], kf);
    }
    PopsToDefinition(ws + [w], pc, Next(mid), gprs, fprs + [r], kf);
  }

  // ----- A whole push and a whole pop -----

  /** From pc with an aligned stack, the words save FP, LR and the selected registers in a new frame. */
  ghost predicate Pushes(ws: seq<bv32>, pc: bv64, end: bv64, registers: bv32, fpRegisters: bv32) {
    PushesTo(ws, pc, end, FrameSize(registers, fpRegisters), Selected(registers, 29), Selected(fpRegisters, 32),
             FprSlot(|Selected(registers, 29)|))
  }

  function PoppedState(t: State, end: bv64, size: bv32, gprs: seq<bv32>, fprs: seq<bv32>, kf: nat): State {
    LoadedState(t, end, gprs, fprs, kf).(sp := Plus(t.sp, Extend(size)))
  }

  /** From pc with an aligned stack, the words load them back from the frame at the stack pointer and drop it. */
  ghost predicate Pops(ws: seq<bv32>, pc: bv64, end: bv64, registers: bv32, fpRegisters: bv32) {
    forall t: State :: t.pc == pc && IsAligned16(t.sp) ==>
      Run(ws, t) == Some(PoppedState(t, end, FrameSize(registers, fpRegisters), Selected(registers, 29),
                                     Selected(fpRegisters, 32), FprSlot(|Selected(registers, 29)|)))
  }

  lemma PopsDefinition(ws: seq<bv32>, pc: bv64, end: bv64, registers: bv32, fpRegisters: bv32)
    ensures Pops(ws, pc, end, registers, fpRegisters) <==> forall t: State :: t.pc == pc && IsAligned16(t.sp) ==>
      Run(ws, t) == Some(PoppedState(t, end, FrameSize(registers, fpRegisters), Selected(registers, 29),
                                     Selected(fpRegisters, 32), FprSlot(|Selected(registers, 29)|)))
  {
    hide Run, IsAligned16, PoppedState, FrameSize, Selected, FprSlot;
  }

  /** ADD SP, SP, size at the end of a pop. */
  lemma PopFrame(ws: seq<bv32>, w: bv32, pc: bv64, mid: bv64, registers: bv32, fpRegisters: bv32)
    requires PopsTo(ws, pc, mid, Selected(registers, 29), Selected(fpRegisters, 32), FprSlot(|Selected(registers, 29)|))
    requires Decode(w) == Some(AddSubImm(true, false, false, false, FrameSize(registers, fpRegisters), 31, 31))
    ensures Pops(ws + [w], pc, Next(mid), registers, fpRegisters)
  {
    hide *;
    var g, f, kf, size := Selected(registers, 29), Selected(fpRegisters, 32), FprSlot(|Selected(registers, 29)|),
      FrameSize(registers, fpRegisters);
    PopsToDefinition(ws, pc, mid, g, f, kf);
    forall t: State | t.pc == pc && IsAligned16(t.sp)
      ensures Run(ws + [w], t) == Some(PoppedState(t, Next(mid), size, g, f, kf))
    {
      RunSnoc(ws, w, t);
      LoadedStatePc(t, mid, Next(mid), g, f, kf);
      RunAddImm(w, LoadedState(t, mid, g, f, kf), size, 31, 31);
      PoppedFrom(t, mid, Next(mid), size, g, f, kf);
    }
    PopsDefinition(ws + [w], pc, Next(mid), registers, fpRegisters);
  }

  lemma PoppedFrom(t: State, mid: bv64, end: bv64, size: bv32, gprs: seq<bv32>, fprs: seq<bv32>, kf: nat)
    ensures WriteSP(LoadedState(t, mid, gprs, fprs, kf), 31, Plus(t.sp, Extend(size))).(pc := end)
         == PoppedState(t, end, size, gprs, fprs, kf)
  {
    hide Restored, Plus, Extend;
  }

  // ----- Push, a body that keeps the stack pointer and the frame, pop -----

  /** A body between push and pop left the stack pointer and every slot of the frame as they were. */
  ghost predicate FrameKept(u: State, t: State, slots: nat) {
    t.sp == u.sp && forall k: nat :: k < slots ==> Load(t.mem, Slot(u.sp, k).a) == Load(u.mem, Slot(u.sp, k).a)
  }

  lemma SlotCounts(registers: bv32, fpRegisters: bv32)
    ensures var g, f, kf := |Selected(registers, 29)|, |Selected(fpRegisters, 32)|, FprSlot(|Selected(registers, 29)|);
            2 + g <= kf && kf + f <= FrameSlots(registers, fpRegisters) <= 64
  {
    hide Selected;
    FrameSlotsBound(registers, fpRegisters);
  }

  lemma SavedGpr(s: State, end: bv64, start: bv64, gprs: seq<bv32>, fprs: seq<bv32>, kf: nat, i: nat)
    requires 2 + |gprs| <= kf && kf + |fprs| <= 64 && i < |gprs|
    ensures Load(SavedState(s, end, start, gprs, fprs, kf).mem, Slot(start, 2 + i).a) == Get(s.x, gprs[i])
  {
    hide Slot, Saved, Load;
    var inner := Saved(s.mem, start, 0, Values(s.x, [29, 30]));
    SavedOther(Saved(inner, start, 2, Values(s.x, gprs)), start, kf, Values(s.d, fprs), 2 + i);
    SavedLoad(inner, start, 2, Values(s.x, gprs), i);
  }

  lemma SavedRecordSlot(s: State, end: bv64, start: bv64, gprs: seq<bv32>, fprs: seq<bv32>, kf: nat, i: nat)
    requires 2 + |gprs| <= kf && kf + |fprs| <= 64 && i < 2
    ensures Load(SavedState(s, end, start, gprs, fprs, kf).mem, Slot(start, i).a) == Get(s.x, [29, 30][i])
  {
    hide Slot, Saved, Load;
    var inner := Saved(s.mem, start, 0, Values(s.x, [29, 30]));
    SavedOther(Saved(inner, start, 2, Values(s.x, gprs)), start, kf, Values(s.d, fprs), i);
    SavedOther(inner, start, 2, Values(s.x, gprs), i);
    SavedLoad(s.mem, start, 0, Values(s.x, [29, 30]), i);
  }

  lemma SavedFpr(s: State, end: bv64, start: bv64, gprs: seq<bv32>, fprs: seq<bv32>, kf: nat, i: nat)
    requires kf + |fprs| <= 64 && i < |fprs|
    ensures Load(SavedState(s, end, start, gprs, fprs, kf).mem, Slot(start, kf + i).a) == Get(s.d, fprs[i])
  {
    hide Slot, Saved, Load;
    var inner := Saved(s.mem, start, 0, Values(s.x, [29, 30]));
    SavedLoad(Saved(inner, start, 2, Values(s.x, gprs)), start, kf, Values(s.d, fprs), i);
  }

  lemma LoadedGpr(t: State, end: bv64, gprs: seq<bv32>, fprs: seq<bv32>, kf: nat, i: nat)
    requires Distinct(gprs) && i < |gprs|
    ensures Get(LoadedState(t, end, gprs, fprs, kf).x, gprs[i]) == Load(t.mem, Slot(t.sp, 2 + i).a)
  {
    hide Slot, Restored, Load, Distinct;
    RestoredGet(Restored(t.x, [29, 30], t.mem, t.sp, 0), gprs, t.mem, t.sp, 2, i);
  }

  lemma LoadedRecord(t: State, end: bv64, gprs: seq<bv32>, fprs: seq<bv32>, kf: nat, i: nat)
    requires 29 !in gprs && 30 !in gprs && i < 2
    ensures Get(LoadedState(t, end, gprs, fprs, kf).x, [29, 30][i]) == Load(t.mem, Slot(t.sp, i).a)
  {
    hide Slot, Restored, Load;
    RestoredOther(Restored(t.x, [29, 30], t.mem, t.sp, 0), gprs, t.mem, t.sp, 2, [29, 30][i]);
    RestoredGet(t.x, [29, 30], t.mem, t.sp, 0, i);
  }

  lemma LoadedOther(t: State, end: bv64, gprs: seq<bv32>, fprs: seq<bv32>, kf: nat, r: bv32)
    ensures r !in gprs && r != 29 && r != 30 ==> Get(LoadedState(t, end, gprs, fprs, kf).x, r) == Get(t.x, r)
    ensures r !in fprs ==> Get(LoadedState(t, end, gprs, fprs, kf).d, r) == Get(t.d, r)
  {
    hide Slot, Restored, Load;
    if r !in gprs && r != 29 && r != 30 {
      RestoredOther(Restored(t.x, [29, 30], t.mem, t.sp, 0), gprs, t.mem, t.sp, 2, r);
      RestoredOther(t.x, [29, 30], t.mem, t.sp, 0, r);
    }
    if r !in fprs {
      RestoredOther(t.d, fprs, t.mem, t.sp, kf, r);
    }
  }

  lemma LoadedFpr(t: State, end: bv64, gprs: seq<bv32>, fprs: seq<bv32>, kf: nat, i: nat)
    requires Distinct(fprs) && i < |fprs|
    ensures Get(LoadedState(t, end, gprs, fprs, kf).d, fprs[i]) == Load(t.mem, Slot(t.sp, kf + i).a)
  {
    hide Slot, Restored, Load, Distinct;
    RestoredGet(t.d, fprs, t.mem, t.sp, kf, i);
  }

  lemma PoppedFields(t: State, end: bv64, size: bv32, gprs: seq<bv32>, fprs: seq<bv32>, kf: nat)
    ensures var v, l := PoppedState(t, end, size, gprs, fprs, kf), LoadedState(t, end, gprs, fprs, kf);
            v.x == l.x && v.d == l.d && v.mem == t.mem && v.flags == t.flags && v.pc == end
              && v.sp == Plus(t.sp, Extend(size))
  {
    hide Restored, Plus, Extend;
  }

  lemma KeptSlot(u: State, t: State, slots: nat, k: nat)
    requires FrameKept(u, t, slots) && k < slots
    ensures t.sp == u.sp && Load(t.mem, Slot(t.sp, k).a) == Load(u.mem, Slot(t.sp, k).a)
  {
    hide Slot, Load;
  }

  /** The registers ABI_PopRegisters gives back. */
  predicate IsSaved(registers: bv32, r: bv32) {
    r == 29 || r == 30 || (r <= 28 && HasBit(registers, r))
  }

  /** v has the stack pointer and the selected registers of s, and everything else from t. */
  ghost predicate GivesBack(s: State, t: State, v: State, registers: bv32, fpRegisters: bv32) {
    && v.sp == s.sp && v.mem == t.mem && v.flags == t.flags
    && (forall r: bv32 :: r <= 30 ==> Get(v.x, r) == if IsSaved(registers, r) then Get(s.x, r) else Get(t.x, r))
    && (forall r: bv32 :: r <= 31 ==> Get(v.d, r) == if HasBit(fpRegisters, r) then Get(s.d, r) else Get(t.d, r))
  }

  lemma GivesBackDefinition(s: State, t: State, v: State, registers: bv32, fpRegisters: bv32)
    requires v.sp == s.sp && v.mem == t.mem && v.flags == t.flags
    requires forall r: bv32 :: r <= 30 ==> Get(v.x, r) == if IsSaved(registers, r) then Get(s.x, r) else Get(t.x, r)
    requires forall r: bv32 :: r <= 31 ==> Get(v.d, r) == if HasBit(fpRegisters, r) then Get(s.d, r) else Get(t.d, r)
    ensures GivesBack(s, t, v, registers, fpRegisters)
  {
    hide Get, IsSaved, HasBit;
  }

  /** Pop undoes push, for every pair of masks. */
  lemma PopUndoesPush(push: seq<bv32>, pop: seq<bv32>, s: State, u: State, t: State, v: State,
                      pushEnd: bv64, popEnd: bv64, registers: bv32, fpRegisters: bv32)
    requires Pushes(push, s.pc, pushEnd, registers, fpRegisters) && Pops(pop, t.pc, popEnd, registers, fpRegisters)
    requires IsAligned16(s.sp) && Run(push, s) == Some(u)
    requires FrameKept(u, t, FrameSlots(registers, fpRegisters)) && Run(pop, t) == Some(v)
    ensures GivesBack(s, t, v, registers, fpRegisters) && v.pc == popEnd
  {
    hide *;
    var g, f, size := Selected(registers, 29), Selected(fpRegisters, 32), FrameSize(registers, fpRegisters);
    var kf, slots := FprSlot(|g|), FrameSlots(registers, fpRegisters);
    var start := Plus(s.sp, Down(size));
    PushesIs(push, s.pc, pushEnd, registers, fpRegisters);
    PushesToDefinition(push, s.pc, pushEnd, size, g, f, kf);
    SavedStatePc(s, pushEnd, pushEnd, start, g, f, kf);
    SavedStart(s, pushEnd, start, g, f, kf);
    FrameSizeAligned(registers, fpRegisters);
    DownAligned(s.sp, size);
    KeptStart(u, t, slots);
    PopsDefinition(pop, t.pc, popEnd, registers, fpRegisters);
    PoppedFields(t, popEnd, size, g, f, kf);
    DownUp(s.sp, size);
    forall r: bv32 | r <= 30
      ensures Get(v.x, r) == if IsSaved(registers, r) then Get(s.x, r) else Get(t.x, r)
    {
      GprComesBack(s, pushEnd, u, t, popEnd, registers, fpRegisters, start, r);
    }
    forall r: bv32 | r <= 31
      ensures Get(v.d, r) == if HasBit(fpRegisters, r) then Get(s.d, r) else Get(t.d, r)
    {
      FprComesBack(s, pushEnd, u, t, popEnd, registers, fpRegisters, start, r);
    }
    GivesBackDefinition(s, t, v, registers, fpRegisters);
  }

  lemma PushesIs(ws: seq<bv32>, pc: bv64, end: bv64, registers: bv32, fpRegisters: bv32)
    ensures Pushes(ws, pc, end, registers, fpRegisters)
       <==> PushesTo(ws, pc, end, FrameSize(registers, fpRegisters), Selected(registers, 29), Selected(fpRegisters, 32),
                     FprSlot(|Selected(registers, 29)|))
  {
    hide PushesTo, FrameSize, Selected, FprSlot;
  }

  lemma SavedStart(s: State, end: bv64, start: bv64, gprs: seq<bv32>, fprs: seq<bv32>, kf: nat)
    ensures SavedState(s, end, start, gprs, fprs, kf).sp == start
  {
    hide Saved;
  }

  lemma KeptStart(u: State, t: State, slots: nat)
    requires FrameKept(u, t, slots)
    ensures t.sp == u.sp
  {
    hide Slot, Load;
  }

  lemma IsSavedIs(registers: bv32, r: bv32)
    requires r <= 30
    ensures IsSaved(registers, r) <==> r == 29 || r == 30 || r in Selected(registers, 29)
    ensures 29 !in Selected(registers, 29) && 30 !in Selected(registers, 29)
  {
    hide HasBit, Selected;
    SelectedHasBit(registers, 29, r);
    SelectedHasBit(registers, 29, 29);
    SelectedHasBit(registers, 29, 30);
    At28(r);
  }

  lemma At28(r: bv32)
    ensures r < 29 <==> r <= 28
  {}

  lemma GprComesBack(s: State, pushEnd: bv64, u: State, t: State, popEnd: bv64, registers: bv32, fpRegisters: bv32,
                     start: bv64, r: bv32)
    requires r <= 30 && t.sp == start && u.sp == start
    requires var g := Selected(registers, 29);
             u == SavedState(s, pushEnd, start, g, Selected(fpRegisters, 32), FprSlot(|g|))
    requires FrameKept(u, t, FrameSlots(registers, fpRegisters))
    ensures var g := Selected(registers, 29);
            Get(LoadedState(t, popEnd, g, Selected(fpRegisters, 32), FprSlot(|g|)).x, r)
            == if IsSaved(registers, r) then Get(s.x, r) else Get(t.x, r)
  {
    hide *;
    var g, f := Selected(registers, 29), Selected(fpRegisters, 32);
    var kf, slots := FprSlot(|g|), FrameSlots(registers, fpRegisters);
    IsSavedIs(registers, r);
    SlotCounts(registers, fpRegisters);
    if r in g {
      var i :| 0 <= i < |g| && g[i] == r;
      SelectedDistinct(registers, 29);
      LoadedGpr(t, popEnd, g, f, kf, i);
      KeptSlot(u, t, slots, 2 + i);
      SavedGpr(s, pushEnd, start, g, f, kf, i);
    } else if r == 29 || r == 30 {
      var i := if r == 29 then 0 else 1;
      LoadedRecord(t, popEnd, g, f, kf, i);
      KeptSlot(u, t, slots, i);
      SavedRecordSlot(s, pushEnd, start, g, f, kf, i);
    } else {
      LoadedOther(t, popEnd, g, f, kf, r);
    }
  }

  lemma FprComesBack(s: State, pushEnd: bv64, u: State, t: State, popEnd: bv64, registers: bv32, fpRegisters: bv32,
                     start: bv64, r: bv32)
    requires r <= 31 && t.sp == start && u.sp == start
    requires var g := Selected(registers, 29);
             u == SavedState(s, pushEnd, start, g, Selected(fpRegisters, 32), FprSlot(|g|))
    requires FrameKept(u, t, FrameSlots(registers, fpRegisters))
    ensures var g := Selected(registers, 29);
            Get(LoadedState(t, popEnd, g, Selected(fpRegisters, 32), FprSlot(|g|)).d, r)
            == if HasBit(fpRegisters, r) then Get(s.d, r) else Get(t.d, r)
  {
    hide *;
    var g, f := Selected(registers, 29), Selected(fpRegisters, 32);
    var kf, slots := FprSlot(|g|), FrameSlots(registers, fpRegisters);
    SelectedHasBit(fpRegisters, 32, r);
    Below32(r);
    SlotCounts(registers, fpRegisters);
    if r in f {
      var i :| 0 <= i < |f| && f[i] == r;
      SelectedDistinct(fpRegisters, 32);
      LoadedFpr(t, popEnd, g, f, kf, i);
      KeptSlot(u, t, slots, kf + i);
      SavedFpr(s, pushEnd, start, g, f, kf, i);
    } else {
      LoadedOther(t, popEnd, g, f, kf, r);
    }
  }

  lemma Below32(r: bv32)
    requires r <= 31
    ensures r < 32
  {}

  /** A push writes only to the slots of its frame, which starts 16-aligned below the old stack pointer. */
  lemma PushStaysInFrame(push: seq<bv32>, s: State, u: State, end: bv64, registers: bv32, fpRegisters: bv32, a: bv64)
    requires Pushes(push, s.pc, end, registers, fpRegisters) && IsAligned16(s.sp) && Run(push, s) == Some(u)
    requires forall k: nat :: k < FrameSlots(registers, fpRegisters) ==> At(a) != Slot(u.sp, k)
    ensures u.sp == FrameStart(s.sp, registers, fpRegisters) && IsAligned16(u.sp)
    ensures Plus(u.sp, Extend(FrameSize(registers, fpRegisters))) == s.sp
    ensures Load(u.mem, a) == Load(s.mem, a)
  {
    hide *;
    var g, f, size := Selected(registers, 29), Selected(fpRegisters, 32), FrameSize(registers, fpRegisters);
    var kf := FprSlot(|g|);
    var start := Plus(s.sp, Down(size));
    PushesIs(push, s.pc, end, registers, fpRegisters);
    PushesToDefinition(push, s.pc, end, size, g, f, kf);
    SavedStart(s, end, start, g, f, kf);
    FrameSizeAligned(registers, fpRegisters);
    FrameStartIs(s.sp, registers, fpRegisters);
    DownAligned(s.sp, size);
    DownUp(s.sp, size);
    SlotCounts(registers, fpRegisters);
    SavedOutside(s, end, start, g, f, kf, FrameSlots(registers, fpRegisters), a);
  }

  lemma FrameStartIs(sp: bv64, registers: bv32, fpRegisters: bv32)
    ensures FrameStart(sp, registers, fpRegisters) == Plus(sp, Down(FrameSize(registers, fpRegisters)))
  {
    hide Plus, Down, FrameSize;
  }

  lemma SavedOutside(s: State, end: bv64, start: bv64, gprs: seq<bv32>, fprs: seq<bv32>, kf: nat, slots: nat, a: bv64)
    requires 2 + |gprs| <= kf && kf + |fprs| <= slots
    requires forall k: nat :: k < slots ==> At(a) != Slot(start, k)
    ensures Load(SavedState(s, end, start, gprs, fprs, kf).mem, a) == Load(s.mem, a)
  {
    hide Slot, Saved, Load;
    var record := Saved(s.mem, start, 0, Values(s.x, [29, 30]));
    SavedElsewhere(s.mem, start, 0, Values(s.x, [29, 30]), a);
    SavedElsewhere(record, start, 2, Values(s.x, gprs), a);
    SavedElsewhere(Saved(record, start, 2, Values(s.x, gprs)), start, kf, Values(s.d, fprs), a);
  }

  /** From pc: the words before, a body that keeps the stack pointer and the frame, and the words behind run through,
      and give back the registers as GivesBack says. */
  ghost predicate Frames(push: seq<bv32>, body: seq<bv32>, pop: seq<bv32>, pc: bv64, registers: bv32,
                         fpRegisters: bv32) {
    forall s: State :: s.pc == pc && IsAligned16(s.sp) ==>
      && Run(push, s).Some?
      && forall t: State :: Run(push + body, s) == Some(t) ==>
        FrameKept(Run(push, s).value, t, FrameSlots(registers, fpRegisters)) ==>
        Run(push + body + pop, s).Some? && GivesBack(s, t, Run(push + body + pop, s).value, registers, fpRegisters)
  }

  lemma FramesDefinition(push: seq<bv32>, body: seq<bv32>, pop: seq<bv32>, pc: bv64, registers: bv32, fpRegisters: bv32)
    requires forall s: State :: s.pc == pc && IsAligned16(s.sp) ==> Run(push, s).Some?
    requires forall s: State, t: State :: s.pc == pc && IsAligned16(s.sp) && Run(push + body, s) == Some(t) ==>
        Run(push, s).Some? && FrameKept(Run(push, s).value, t, FrameSlots(registers, fpRegisters)) ==>
        Run(push + body + pop, s).Some? && GivesBack(s, t, Run(push + body + pop, s).value, registers, fpRegisters)
    ensures Frames(push, body, pop, pc, registers, fpRegisters)
  {
    hide Run, IsAligned16, FrameKept, FrameSlots, GivesBack;
  }

  lemma PushRuns(push: seq<bv32>, s: State, end: bv64, registers: bv32, fpRegisters: bv32)
    requires Pushes(push, s.pc, end, registers, fpRegisters) && IsAligned16(s.sp)
    ensures Run(push, s).Some? && Run(push, s).value.pc == end && IsAligned16(Run(push, s).value.sp)
  {
    hide *;
    var g, f, size := Selected(registers, 29), Selected(fpRegisters, 32), FrameSize(registers, fpRegisters);
    var start := Plus(s.sp, Down(size));
    PushesIs(push, s.pc, end, registers, fpRegisters);
    PushesToDefinition(push, s.pc, end, size, g, f, FprSlot(|g|));
    SavedStatePc(s, end, end, start, g, f, FprSlot(|g|));
    SavedStart(s, end, start, g, f, FprSlot(|g|));
    FrameSizeAligned(registers, fpRegisters);
    DownAligned(s.sp, size);
  }

  lemma PopRuns(pop: seq<bv32>, t: State, end: bv64, registers: bv32, fpRegisters: bv32)
    requires Pops(pop, t.pc, end, registers, fpRegisters) && IsAligned16(t.sp)
    ensures Run(pop, t).Some?
  {
    hide *;
    PopsDefinition(pop, t.pc, end, registers, fpRegisters);
  }

  /** What the emitter writes around a body frames it, whatever the body. */
  lemma FramesAnyBody(push: seq<bv32>, body: seq<bv32>, pop: seq<bv32>, pc: bv64, mid: bv64, end: bv64,
                      registers: bv32, fpRegisters: bv32)
    requires Pushes(push, pc, mid, registers, fpRegisters)
             && Pops(pop, Onward(mid, |body|), end, registers, fpRegisters)
    ensures Frames(push, body, pop, pc, registers, fpRegisters)
  {
    hide *;
    var slots := FrameSlots(registers, fpRegisters);
    forall s: State | s.pc == pc && IsAligned16(s.sp)
      ensures Run(push, s).Some?
    {
      PushRuns(push, s, mid, registers, fpRegisters);
    }
    forall s: State, t: State | s.pc == pc && IsAligned16(s.sp) && Run(push + body, s) == Some(t)
      && Run(push, s).Some? && FrameKept(Run(push, s).value, t, slots)
      ensures Run(push + body + pop, s).Some?
              && GivesBack(s, t, Run(push + body + pop, s).value, registers, fpRegisters)
    {
      var u := Run(push, s).value;
      PushRuns(push, s, mid, registers, fpRegisters);
      RunAppend(push, body, s);
      RunAdvances(body, u);
      KeptStart(u, t, slots);
      PopRuns(pop, t, end, registers, fpRegisters);
      RunAppend(push + body, pop, s);
      PopUndoesPush(push, pop, s, u, t, Run(pop, t).value, mid, end, registers, fpRegisters);
    }
    FramesDefinition(push, body, pop, pc, registers, fpRegisters);
  }

  // ----- Computing the frame size -----

  /** count is the number k. */
  predicate Counts(count: bv32, k: nat) {
    count * 8 == SlotOffset(k)
  }

  lemma CountNothing()
    ensures Counts(0, 0)
  {}

  lemma ShiftNext(count: bv32)
    ensures (count + 1) * 8 == count * 8 + 8
  {}

  lemma CountUp(count: bv32, next: bv32, k: nat)
    requires Counts(count, k) && next == count + 1
    ensures Counts(next, k + 1)
  {
    ShiftNext(count);
    SlotOffsetNext(k);
  }

  lemma SelectedNone(mask: bv32)
    ensures Selected(mask, 0) == []
  {}

  lemma SelectedStep(mask: bv32, bound: bv32, i: bv32, next: bv32)
    requires i < bound <= 32 && next == i + 1
    ensures i <= 31 && next <= bound && bound - next < bound - i
    ensures Selected(mask, next) == if HasBit(mask, i) then Selected(mask, i) + [i] else Selected(mask, i)
  {
    hide HasBit;
  }

  function RoundUp16(x: bv32): bv32 {
    (x + 15) & !15
  }

  lemma RoundUpEven(x: bv32)
    ensures x & 15 == 0 ==> RoundUp16(x) == x
    ensures x & 15 == 8 ==> RoundUp16(x) == x + 8
  {}

  lemma RoundUpSlots(n: nat)
    ensures RoundUp16(SlotOffset(n)) == SlotOffset(Even(n))
  {
    hide SlotOffset, RoundUp16;
    SlotOffsetParity(n);
    RoundUpEven(SlotOffset(n));
    SlotOffsetNext(n);
  }

  lemma AddNext(x: bv32, y: bv32)
    ensures Words32.Plus(x, y + 8) == Words32.Plus(x, y) + 8
  {}

  lemma AddNothing(x: bv32)
    ensures Words32.Plus(x, 0) == x
  {}

  lemma {:induction false} SlotOffsetSum(a: nat, b: nat)
    ensures SlotOffset(a + b) == Words32.Plus(SlotOffset(a), SlotOffset(b))
  {
    hide *;
    SlotOffsetZero();
    if b == 0 {
      AddNothing(SlotOffset(a));
    } else {
      SlotOffsetSum(a, b - 1);
      SlotOffsetNext(a + b - 1);
      SlotOffsetNext(b - 1);
      AddNext(SlotOffset(a), SlotOffset(b - 1));
    }
  }

  lemma SlotOffsetTwo(k: nat)
    ensures SlotOffset(k + 2) == Advance(SlotOffset(k))
  {
    hide SlotOffset, Advance;
    SlotOffsetNext(k);
    SlotOffsetNext(k + 1);
    Sixteen(SlotOffset(k));
  }

  function Advance(offset: bv32): bv32 {
    offset + 16
  }

  lemma Sixteen(x: bv32)
    ensures x + 8 + 8 == Advance(x)
  {}

  lemma SlotOffsetZero()
    ensures SlotOffset(0) == 0
  {}

  lemma CountsBytes(count: bv32, k: nat)
    requires Counts(count, k)
    ensures RoundUp16(count * 8) == SlotOffset(Even(k))
  {
    hide SlotOffset, RoundUp16, Even;
    RoundUpSlots(k);
  }

  /** 16 bytes for FP and LR, and both groups rounded up to pairs. */
  function ComputedSize(numGprs: bv32, numFprs: bv32): bv32 {
    Words32.Plus(Words32.Plus(16, RoundUp16(numGprs * 8)), RoundUp16(numFprs * 8))
  }

  lemma ComputedSizeIs(numGprs: bv32, numFprs: bv32)
    ensures ComputedSize(numGprs, numFprs)
            == Words32.Plus(Words32.Plus(16, RoundUp16(numGprs * 8)), RoundUp16(numFprs * 8))
  {
    hide RoundUp16, Words32.Plus;
  }

  /** The size that is computed is the size of the frame. */
  lemma FrameSizeComputed(registers: bv32, fpRegisters: bv32, numGprs: bv32, numFprs: bv32)
    requires Counts(numGprs, |Selected(registers, 29)|) && Counts(numFprs, |Selected(fpRegisters, 32)|)
    ensures ComputedSize(numGprs, numFprs) == FrameSize(registers, fpRegisters)
  {
    hide *;
    var g, f := |Selected(registers, 29)|, |Selected(fpRegisters, 32)|;
    ComputedSizeIs(numGprs, numFprs);
    CountsBytes(numGprs, g);
    CountsBytes(numFprs, f);
    SlotOffsetInitial();
    SlotOffsetSum(2, Even(g));
    SlotOffsetSum(2 + Even(g), Even(f));
    FrameSizeIs(registers, fpRegisters);
  }

  lemma SlotOffsetInitial()
    ensures SlotOffset(2) == 16
  {
    SlotOffsetTwo(0);
  }

  lemma FrameSizeIs(registers: bv32, fpRegisters: bv32)
    ensures FrameSize(registers, fpRegisters)
         == SlotOffset(2 + Even(|Selected(registers, 29)|) + Even(|Selected(fpRegisters, 32)|))
  {
    hide SlotOffset, Selected, Even;
  }

  /** General registers that may be in a mask. */
  predicate AreGprs(regs: seq<bv32>) {
    forall i :: 0 <= i < |regs| ==> regs[i] <= 28
  }

  predicate AreFprs(regs: seq<bv32>) {
    forall i :: 0 <= i < |regs| ==> regs[i] <= 31
  }

  lemma FprAt(regs: seq<bv32>, i: nat)
    requires AreFprs(regs) && i < |regs|
    ensures regs[i] <= 31
  {}

  lemma SelectedKinds(registers: bv32, fpRegisters: bv32)
    ensures AreGprs(Selected(registers, 29)) && AreFprs(Selected(fpRegisters, 32))
  {
    hide HasBit;
  }

  function X(i: bv32): bv32 {
    0x20 + i
  }

  function D(i: bv32): bv32 {
    0x80 + i
  }

  lemma XRegister(i: bv32)
    requires i <= 31
    ensures Is64Bit(X(i)) && DecodeReg(X(i)) == i && DecodeReg(D(i)) == i
  {}

  lemma FixedRegisters()
    ensures Is64Bit(FP) && Is64Bit(LR) && Is64Bit(SP)
    ensures DecodeReg(FP) == 29 && DecodeReg(LR) == 30 && DecodeReg(SP) == 31
  {}

  lemma SlotEncodable(k: nat)
    requires k <= 64
    ensures IsAligned8(SlotOffset(k)) && SlotOffset(k) <= 512 && SlotOffset(k) <= 0x7FF8
    ensures k <= 63 ==> SlotOffset(k) <= 504 && IsPairOffset(true, SlotOffset(k))
  {
    hide SlotOffset;
    SlotOffsetInt(k);
    SlotOffsetAligned(k);
    if k <= 63 {
      SmallOffset(k);
    }
  }

  lemma DownEncodable(size: bv32)
    requires size & 15 == 0 && 0 < size <= 256
    ensures IsPairOffset(true, 0 - size) && PairImm(0 - size) == DownImm(size)
  {}

  lemma FrameSizePositive(registers: bv32, fpRegisters: bv32)
    ensures 0 < FrameSize(registers, fpRegisters) <= 0xFFF
  {
    hide SlotOffset, FrameSlots;
    FrameSlotsBound(registers, fpRegisters);
    SlotOffsetInt(FrameSlots(registers, fpRegisters));
  }

  lemma EvenIs(n: nat)
    ensures Even(n) == n + n % 2
  {}

  lemma SmallFrame(size: bv32)
    requires size < 256
    ensures size <= 256
  {}

  // ----- Saving and restoring alike -----

  /** The words so far save (or load back) these registers. */
  ghost predicate Progress(load: bool, ws: seq<bv32>, pc: bv64, end: bv64, size: bv32, gprs: seq<bv32>,
                           fprs: seq<bv32>, kf: nat) {
    if load then PopsTo(ws, pc, end, gprs, fprs, kf) else PushesTo(ws, pc, end, size, gprs, fprs, kf)
  }

  lemma ProgressIs(load: bool, ws: seq<bv32>, pc: bv64, end: bv64, size: bv32, gprs: seq<bv32>, fprs: seq<bv32>,
                   kf: nat)
    ensures Progress(load, ws, pc, end, size, gprs, fprs, kf)
       <==> if load then PopsTo(ws, pc, end, gprs, fprs, kf) else PushesTo(ws, pc, end, size, gprs, fprs, kf)
  {
    hide PopsTo, PushesTo;
  }

  /** The slot the next register of a group goes to. */
  function NextSlot(vector: bool, gprs: seq<bv32>, fprs: seq<bv32>, kf: nat): nat {
    if vector then kf + |fprs| else 2 + |gprs|
  }

  /** A push addresses its general registers from FP and everything else is addressed from SP, single vector stores
      excepted. */
  function PairBase(load: bool, vector: bool): bv32 {
    if load || vector then 31 else 29
  }

  function SingleBase(load: bool): bv32 {
    if load then 31 else 29
  }

  /** Room for the registers, and general registers that may be in a mask. */
  predicate Fits(vector: bool, gprs: seq<bv32>, fprs: seq<bv32>, kf: nat, size: bv32) {
    && size & 15 == 0
    && if vector then kf + |fprs| <= 64 else AreGprs(gprs) && |gprs| <= 29 && fprs == []
  }

  lemma AppendPair(load: bool, vector: bool, ws: seq<bv32>, w: bv32, pc: bv64, mid: bv64, size: bv32,
                   gprs: seq<bv32>, fprs: seq<bv32>, kf: nat, gprs': seq<bv32>, fprs': seq<bv32>, r1: bv32, r2: bv32)
    requires if vector then gprs' == gprs && fprs' == fprs + [r1, r2] else gprs' == gprs + [r1, r2] && fprs' == fprs
    requires Fits(vector, gprs', fprs', kf, size) && Progress(load, ws, pc, mid, size, gprs, fprs, kf)
    requires Decode(w) == Some(LoadStorePair(load, vector, SignedOffset,
                                             PairImm(SlotOffset(NextSlot(vector, gprs, fprs, kf))),
                                             r2, PairBase(load, vector), r1))
    ensures Progress(load, ws + [w], pc, Next(mid), size, gprs', fprs', kf)
  {
    hide *;
    FitsPair(vector, gprs, fprs, kf, size, gprs', fprs', r1, r2);
    SlotEncodable(NextSlot(vector, gprs, fprs, kf));
    PairBaseIs(load, vector);
    ProgressIs(load, ws, pc, mid, size, gprs, fprs, kf);
    ProgressIs(load, ws + [w], pc, Next(mid), size, gprs', fprs', kf);
    if load {
      if vector {
        PopFprPair(ws, w, pc, mid, gprs, fprs, kf, r1, r2);
      } else {
        PopGprPair(ws, w, pc, mid, gprs, kf, r1, r2);
      }
    } else {
      if vector {
        PushFprPair(ws, w, pc, mid, size, gprs, fprs, kf, r1, r2);
      } else {
        PushGprPair(ws, w, pc, mid, size, gprs, kf, r1, r2);
      }
    }
  }

  lemma FitsPair(vector: bool, gprs: seq<bv32>, fprs: seq<bv32>, kf: nat, size: bv32, gprs': seq<bv32>,
                 fprs': seq<bv32>, r1: bv32, r2: bv32)
    requires if vector then gprs' == gprs && fprs' == fprs + [r1, r2] else gprs' == gprs + [r1, r2] && fprs' == fprs
    requires Fits(vector, gprs', fprs', kf, size)
    ensures size & 15 == 0 && NextSlot(vector, gprs, fprs, kf) == if vector then kf + |fprs| else 2 + |gprs|
    ensures NextSlot(vector, gprs, fprs, kf) <= 62
    ensures !vector ==> r1 <= 28 && r2 <= 28 && |gprs| <= 60 && fprs == []
  {
    if !vector {
      assert gprs'[|gprs|] == r1 && gprs'[|gprs| + 1] == r2;
    }
  }

  lemma PairBaseIs(load: bool, vector: bool)
    ensures PairBase(load, vector) == if load || vector then 31 else 29
    ensures SingleBase(load) == if load then 31 else 29
  {}

  lemma AppendSingle(load: bool, vector: bool, ws: seq<bv32>, w: bv32, pc: bv64, mid: bv64, size: bv32,
                     gprs: seq<bv32>, fprs: seq<bv32>, kf: nat, gprs': seq<bv32>, fprs': seq<bv32>, r: bv32)
    requires if vector then gprs' == gprs && fprs' == fprs + [r] else gprs' == gprs + [r] && fprs' == fprs
    requires Fits(vector, gprs', fprs', kf, size) && Progress(load, ws, pc, mid, size, gprs, fprs, kf)
    requires Decode(w) == Some(LoadStore(load, vector, SingleImm(SlotOffset(NextSlot(vector, gprs, fprs, kf))),
                                         SingleBase(load), r))
    ensures Progress(load, ws + [w], pc, Next(mid), size, gprs', fprs', kf)
  {
    hide *;
    FitsSingle(vector, gprs, fprs, kf, size, gprs', fprs', r);
    SlotEncodable(NextSlot(vector, gprs, fprs, kf));
    PairBaseIs(load, vector);
    ProgressIs(load, ws, pc, mid, size, gprs, fprs, kf);
    ProgressIs(load, ws + [w], pc, Next(mid), size, gprs', fprs', kf);
    if load {
      if vector {
        PopFpr(ws, w, pc, mid, gprs, fprs, kf, r);
      } else {
        PopGpr(ws, w, pc, mid, gprs, kf, r);
      }
    } else {
      if vector {
        PushFpr(ws, w, pc, mid, size, gprs, fprs, kf, r);
      } else {
        PushGpr(ws, w, pc, mid, size, gprs, kf, r);
      }
    }
  }

  lemma FitsSingle(vector: bool, gprs: seq<bv32>, fprs: seq<bv32>, kf: nat, size: bv32, gprs': seq<bv32>,
                   fprs': seq<bv32>, r: bv32)
    requires if vector then gprs' == gprs && fprs' == fprs + [r] else gprs' == gprs + [r] && fprs' == fprs
    requires Fits(vector, gprs', fprs', kf, size)
    ensures size & 15 == 0 && NextSlot(vector, gprs, fprs, kf) == if vector then kf + |fprs| else 2 + |gprs|
    ensures NextSlot(vector, gprs, fprs, kf) <= 63
    ensures !vector ==> r <= 28 && |gprs| <= 60 && fprs == []
  {
    if !vector {
      assert gprs'[|gprs|] == r;
    }
  }

  /** The group of registers that a transfer loop handles, as far as index n. */
  function Gprs(vector: bool, regs: seq<bv32>, gprs: seq<bv32>, n: nat): seq<bv32>
    requires n <= |regs|
  {
    if vector then gprs else regs[..n]
  }

  function Fprs(vector: bool, regs: seq<bv32>, n: nat): seq<bv32>
    requires n <= |regs|
  {
    if vector then regs[..n] else []
  }

  lemma GroupSteps(vector: bool, regs: seq<bv32>, gprs: seq<bv32>, n: nat, kf: nat, size: bv32)
    requires n <= |regs| && Fits(vector, Gprs(vector, regs, gprs, |regs|), Fprs(vector, regs, |regs|), kf, size)
    ensures var g, f := Gprs(vector, regs, gprs, n), Fprs(vector, regs, n);
            && Fits(vector, g, f, kf, size) && NextSlot(vector, g, f, kf) == (if vector then kf else 2) + n
            && NextSlot(vector, g, f, kf) <= 64
            && (n + 2 <= |regs| ==>
                  if vector then Gprs(vector, regs, gprs, n + 2) == g
                    && Fprs(vector, regs, n + 2) == f + [regs[n], regs[n + 1]]
                  else Gprs(vector, regs, gprs, n + 2) == g + [regs[n], regs[n + 1]] && Fprs(vector, regs, n + 2) == f)
            && (n + 1 <= |regs| ==>
                  if vector then Gprs(vector, regs, gprs, n + 1) == g && Fprs(vector, regs, n + 1) == f + [regs[n]]
                  else Gprs(vector, regs, gprs, n + 1) == g + [regs[n]] && Fprs(vector, regs, n + 1) == f)
  {
    assert regs[..|regs|] == regs;
  }

  /** The two groups of a frame: general registers first, then vector registers. */
  lemma GroupEnds(registers: bv32, fpRegisters: bv32)
    ensures var g, f, size := Selected(registers, 29), Selected(fpRegisters, 32), FrameSize(registers, fpRegisters);
            var kf := FprSlot(|g|);
            && Gprs(false, g, [], 0) == [] && Fprs(false, g, 0) == [] && Gprs(false, g, [], |g|) == g
              && Fprs(false, g, |g|) == []
            && Gprs(true, f, g, 0) == g && Fprs(true, f, 0) == [] && Gprs(true, f, g, |f|) == g
              && Fprs(true, f, |f|) == f
            && Fits(false, g, [], kf, size) && Fits(true, g, f, kf, size) && AreFprs(g) && AreFprs(f)
            && size == SlotOffset(kf + Even(|f|)) && kf == 2 + Even(|g|)
  {
    hide HasBit, Selected, SlotOffset, FrameSlots, FrameSize, Even;
    var g, f := Selected(registers, 29), Selected(fpRegisters, 32);
    FrameSlotsBound(registers, fpRegisters);
    SlotCounts(registers, fpRegisters);
    FrameSizeAligned(registers, fpRegisters);
    FrameSizeIs(registers, fpRegisters);
    SelectedKinds(registers, fpRegisters);
    assert g[..|g|] == g && f[..|f|] == f;
  }

  function FirstSlot(vector: bool, kf: nat): nat {
    if vector then kf else 2
  }

  /** A transfer loop has handled the first n registers, and offset is where the next one goes. */
  ghost predicate GroupState(load: bool, vector: bool, ws: seq<bv32>, pc: bv64, end: bv64, regs: seq<bv32>, n: nat,
                             offset: bv32, size: bv32, gprs: seq<bv32>, kf: nat) {
    && n <= |regs| && offset == SlotOffset(FirstSlot(vector, kf) + n)
    && Fits(vector, Gprs(vector, regs, gprs, |regs|), Fprs(vector, regs, |regs|), kf, size)
    && Progress(load, ws, pc, end, size, Gprs(vector, regs, gprs, n), Fprs(vector, regs, n), kf)
  }

  lemma GroupStateIs(load: bool, vector: bool, ws: seq<bv32>, pc: bv64, end: bv64, regs: seq<bv32>, n: nat,
                     offset: bv32, size: bv32, gprs: seq<bv32>, kf: nat)
    requires n <= |regs|
    ensures GroupState(load, vector, ws, pc, end, regs, n, offset, size, gprs, kf) <==>
      && offset == SlotOffset(FirstSlot(vector, kf) + n)
      && Fits(vector, Gprs(vector, regs, gprs, |regs|), Fprs(vector, regs, |regs|), kf, size)
      && Progress(load, ws, pc, end, size, Gprs(vector, regs, gprs, n), Fprs(vector, regs, n), kf)
  {
    hide SlotOffset, FirstSlot, Fits, Gprs, Fprs, Progress;
  }

  predicate IsTransferOffset(offset: bv32, pair: bool) {
    IsAligned8(offset) && offset <= 0x7FF8 && (pair ==> IsPairOffset(true, offset))
  }

  lemma GroupOffset(load: bool, vector: bool, ws: seq<bv32>, pc: bv64, end: bv64, regs: seq<bv32>, n: nat,
                    offset: bv32, size: bv32, gprs: seq<bv32>, kf: nat)
    requires GroupState(load, vector, ws, pc, end, regs, n, offset, size, gprs, kf) && n < |regs|
    ensures IsTransferOffset(offset, n + 2 <= |regs|)
  {
    hide Progress, SlotOffset, IsAligned8, IsPairOffset;
    GroupSteps(vector, regs, gprs, n + 1, kf, size);
    SlotEncodable(FirstSlot(vector, kf) + n);
  }

  lemma GroupPairStep(load: bool, vector: bool, ws: seq<bv32>, w: bv32, pc: bv64, mid: bv64, regs: seq<bv32>, n: nat,
                      offset: bv32, next: bv32, size: bv32, gprs: seq<bv32>, kf: nat)
    requires GroupState(load, vector, ws, pc, mid, regs, n, offset, size, gprs, kf) && n + 2 <= |regs|
             && next == Advance(offset)
    requires Decode(w) == Some(LoadStorePair(load, vector, SignedOffset, PairImm(offset), regs[n + 1],
                                             PairBase(load, vector), regs[n]))
    ensures GroupState(load, vector, ws + [w], pc, Next(mid), regs, n + 2, next, size, gprs, kf)
  {
    hide *;
    FirstSlotIs(vector, kf);
    GroupStateIs(load, vector, ws, pc, mid, regs, n, offset, size, gprs, kf);
    GroupStateIs(load, vector, ws + [w], pc, Next(mid), regs, n + 2, next, size, gprs, kf);
    GroupSteps(vector, regs, gprs, n, kf, size);
    GroupSteps(vector, regs, gprs, n + 2, kf, size);
    AppendPair(load, vector, ws, w, pc, mid, size, Gprs(vector, regs, gprs, n), Fprs(vector, regs, n), kf,
               Gprs(vector, regs, gprs, n + 2), Fprs(vector, regs, n + 2), regs[n], regs[n + 1]);
    SlotOffsetTwo(FirstSlot(vector, kf) + n);
  }

  /** After the last register of an odd number, the offset still moves on by a whole pair. */
  lemma GroupLastStep(load: bool, vector: bool, ws: seq<bv32>, w: bv32, pc: bv64, mid: bv64, regs: seq<bv32>, n: nat,
                      offset: bv32, next: bv32, size: bv32, gprs: seq<bv32>, kf: nat)
    requires GroupState(load, vector, ws, pc, mid, regs, n, offset, size, gprs, kf) && n + 1 == |regs|
             && next == Advance(offset)
    requires Decode(w) == Some(LoadStore(load, vector, SingleImm(offset), SingleBase(load), regs[n]))
    ensures Progress(load, ws + [w], pc, Next(mid), size, Gprs(vector, regs, gprs, |regs|), Fprs(vector, regs, |regs|),
                     kf)
    ensures next == SlotOffset(FirstSlot(vector, kf) + n + 2)
  {
    hide *;
    FirstSlotIs(vector, kf);
    GroupStateIs(load, vector, ws, pc, mid, regs, n, offset, size, gprs, kf);
    GroupSteps(vector, regs, gprs, n, kf, size);
    GroupSteps(vector, regs, gprs, n + 1, kf, size);
    AppendSingle(load, vector, ws, w, pc, mid, size, Gprs(vector, regs, gprs, n), Fprs(vector, regs, n), kf,
                 Gprs(vector, regs, gprs, n + 1), Fprs(vector, regs, n + 1), regs[n]);
    SlotOffsetTwo(FirstSlot(vector, kf) + n);
  }

  lemma GroupStart(load: bool, vector: bool, ws: seq<bv32>, pc: bv64, end: bv64, regs: seq<bv32>,
                   offset: bv32, size: bv32, gprs: seq<bv32>, kf: nat)
    requires offset == SlotOffset(FirstSlot(vector, kf))
    requires Fits(vector, Gprs(vector, regs, gprs, |regs|), Fprs(vector, regs, |regs|), kf, size)
    requires Progress(load, ws, pc, end, size, Gprs(vector, regs, gprs, 0), Fprs(vector, regs, 0), kf)
    ensures GroupState(load, vector, ws, pc, end, regs, 0, offset, size, gprs, kf)
  {
    hide Progress, SlotOffset, Fits;
  }

  lemma GroupEnd(load: bool, vector: bool, ws: seq<bv32>, pc: bv64, end: bv64, regs: seq<bv32>,
                 offset: bv32, size: bv32, gprs: seq<bv32>, kf: nat)
    requires GroupState(load, vector, ws, pc, end, regs, |regs|, offset, size, gprs, kf)
    ensures offset == SlotOffset(FirstSlot(vector, kf) + |regs|)
    ensures Progress(load, ws, pc, end, size, Gprs(vector, regs, gprs, |regs|), Fprs(vector, regs, |regs|), kf)
  {
    hide Progress, SlotOffset, Fits;
  }

  lemma FirstSlotIs(vector: bool, kf: nat)
    ensures FirstSlot(vector, kf) == if vector then kf else 2
  {}

  lemma TransferOffsetIs(offset: bv32, pair: bool)
    requires IsTransferOffset(offset, pair)
    ensures IsAligned8(offset) && offset <= 0x7FF8 && (pair ==> IsPairOffset(true, offset))
    ensures IsTransferOffset(offset, false)
  {
    hide IsAligned8, IsPairOffset;
  }
}
