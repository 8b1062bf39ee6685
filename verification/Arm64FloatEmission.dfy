/** The ARM64 float emitter: saving and restoring a frame, float constants and vector immediates. */
module Arm64FloatEmission {
  import opened Basics
  import opened Arm64Machine
  import opened Arm64Encode
  import opened Arm64Loads
  import opened Arm64Operations
  import opened Arm64Frames
  import opened Arm64Floats
  import opened Arm64Emission
  import Vectors = Arm64Vectors

  predicate IsQuad(reg: bv32) {
    reg & 0xC0 == 0xC0
  }

  /** Q registers are numbered from 0xC0 on, D registers from 0x80 on. */
  lemma QuadRegisters(i: bv32)
    requires i <= 31
    ensures IsQuad(0xC0 + i) && DecodeReg(0xC0 + i) == i
    ensures !IsQuad(0x80 + i) && DecodeReg(0x80 + i) == i
  {}

  /** The word is a modified immediate that puts the element in every lane of register d. */
  predicate FillsLanes(w: bv32, quad: bool, d: bv32, size: bv8, element: bv64) {
    && Vectors.DecodeModImm(w).Some? && Vectors.DecodeModImm(w).value.quad == quad
      && Vectors.DecodeModImm(w).value.rd == d
    && Vectors.Expand(Vectors.DecodeModImm(w).value.m) == Vectors.Lanes(size, element)
  }

  lemma FillsLanesIs(w: bv32, m: Vectors.ModImm, quad: bool, d: bv32, size: bv8, element: bv64)
    requires Vectors.DecodeModImm(w) == Some(Vectors.Fields(quad, m, d))
    ensures FillsLanes(w, quad, d, size, element) <==> Vectors.Expand(m) == Vectors.Lanes(size, element)
  {
    hide Vectors.DecodeModImm, Vectors.Expand, Vectors.Lanes;
  }

  class Arm64FloatEmitter {
    const emit: Arm64XEmitter

    constructor (emit: Arm64XEmitter)
      ensures this.emit == emit
    {
      this.emit := emit;
    }

    /** Load and store pairs of vector registers, 64 bits each, with a signed offset. */
    method EncodeLoadStorePair(load: bool, rt: bv32, rt2: bv32, rn: bv32, imm: bv32)
      requires IsAligned8(imm)
      modifies emit
      ensures Emits(old(emit.words), emit.words,
                    LoadStorePair(load, true, SignedOffset, PairImm(imm), DecodeReg(rt2), DecodeReg(rn), DecodeReg(rt)))
      ensures emit.code == Next(old(emit.code))
    {
      hide *;
      var word := FloatPairWord(load, PairImm(imm), DecodeReg(rt2), DecodeReg(rn), DecodeReg(rt));
      emit.Write32(word);
      EmitsLast(old(emit.words), emit.words, word,
                LoadStorePair(load, true, SignedOffset, PairImm(imm), DecodeReg(rt2), DecodeReg(rn), DecodeReg(rt)));
    }

    /** Load or store one vector register, 64 bits, with an unsigned offset. */
    method EmitLoadStoreImmediate(load: bool, rt: bv32, rn: bv32, imm: bv32)
      requires IsAligned8(imm)
      modifies emit
      ensures Emits(old(emit.words), emit.words, LoadStore(load, true, SingleImm(imm), DecodeReg(rn), DecodeReg(rt)))
      ensures emit.code == Next(old(emit.code))
    {
      hide *;
      var word := FloatLoadStoreWord(load, SingleImm(imm), DecodeReg(rn), DecodeReg(rt));
      emit.Write32(word);
      EmitsLast(old(emit.words), emit.words, word, LoadStore(load, true, SingleImm(imm), DecodeReg(rn), DecodeReg(rt)));
    }

    /** The register numbers below bound whose bits are set, and how many there are. */
    static method Collect(mask: bv32, bound: bv32) returns (regs: seq<bv32>, count: bv32)
      requires bound <= 32
      ensures regs == Selected(mask, bound) && Counts(count, |regs|)
    {
      hide *;
      regs, count := [], 0;
      SelectedNone(mask);
      CountNothing();
      var i: bv32 := 0;
      while i < bound
        invariant i <= bound && regs == Selected(mask, i) && Counts(count, |regs|)
        decreases bound - i
      {
        ghost var next := i + 1;
        SelectedStep(mask, bound, i, next);
        if HasBit(mask, i) {
          ghost var up := count + 1;
          CountUp(count, up, |regs|);
          regs := regs + [i];
          count := count + 1;
        }
        i := i + 1;
      }
    }

    /** One pair of saves or loads. */
    method TransferPair(load: bool, vector: bool, r1: bv32, r2: bv32, offset: bv32)
      requires IsTransferOffset(offset, true) && r1 <= 31 && r2 <= 31
      modifies emit
      ensures Emits(old(emit.words), emit.words,
                    LoadStorePair(load, vector, SignedOffset, PairImm(offset), r2, PairBase(load, vector), r1))
      ensures emit.code == Next(old(emit.code))
    {
      hide *;
      FixedRegisters();
      XRegister(r1);
      XRegister(r2);
      PairBaseIs(load, vector);
      TransferOffsetIs(offset, true);
      if vector {
        EncodeLoadStorePair(load, D(r1), D(r2), SP, offset);
      } else {
        emit.EncodeLoadStorePair(load, SignedOffset, X(r1), X(r2), if load then SP else FP, offset);
      }
    }

    method TransferSingle(load: bool, vector: bool, r: bv32, offset: bv32)
      requires IsTransferOffset(offset, false) && r <= 31
      modifies emit
      ensures Emits(old(emit.words), emit.words, LoadStore(load, vector, SingleImm(offset), SingleBase(load), r))
      ensures emit.code == Next(old(emit.code))
    {
      hide *;
      FixedRegisters();
      XRegister(r);
      PairBaseIs(load, vector);
      TransferOffsetIs(offset, false);
      if vector {
        EmitLoadStoreImmediate(load, D(r), if load then SP else FP, offset);
      } else {
        emit.EncodeLoadStoreIndexedInst(load, X(r), if load then SP else FP, offset);
      }
    }

    /** Saves or loads a group of registers in pairs, the last of an odd number alone. */
    method TransferGroup(load: bool, vector: bool, regs: seq<bv32>, start: bv32,
                         ghost from: nat, ghost pc: bv64, ghost size: bv32, ghost gprs: seq<bv32>, ghost kf: nat)
      returns (offset: bv32)
      requires AreFprs(regs) && start == SlotOffset(FirstSlot(vector, kf))
      requires Fits(vector, Gprs(vector, regs, gprs, |regs|), Fprs(vector, regs, |regs|), kf, size)
      requires from <= |emit.words|
      requires Progress(load, emit.words[from..], pc, emit.code, size, Gprs(vector, regs, gprs, 0),
                        Fprs(vector, regs, 0), kf)
      modifies emit
      ensures old(emit.words) <= emit.words && offset == SlotOffset(FirstSlot(vector, kf) + Even(|regs|))
      ensures Progress(load, emit.words[from..], pc, emit.code, size, Gprs(vector, regs, gprs, |regs|),
                       Fprs(vector, regs, |regs|), kf)
    {
      hide *;
      offset := start;
      ghost var w: bv32;
      GroupStart(load, vector, emit.words[from..], pc, emit.code, regs, offset, size, gprs, kf);
      var n := 0;
      while n + 2 <= |regs|
        invariant n <= |regs| && n % 2 == 0 && old(emit.words) <= emit.words
        invariant GroupState(load, vector, emit.words[from..], pc, emit.code, regs, n, offset, size, gprs, kf)
      {
        ghost var before, mid, next := emit.words, emit.code, Advance(offset);
        GroupOffset(load, vector, before[from..], pc, mid, regs, n, offset, size, gprs, kf);
        FprAt(regs, n);
        FprAt(regs, n + 1);
        TransferPair(load, vector, regs[n], regs[n + 1], offset);
        w := EmitsSuffix(from, before, emit.words,
                         LoadStorePair(load, vector, SignedOffset, PairImm(offset), regs[n + 1],
                                       PairBase(load, vector), regs[n]));
        GroupPairStep(load, vector, before[from..], w, pc, mid, regs, n, offset, next, size, gprs, kf);
        offset := Advance(offset);
        n := n + 2;
      }
      EvenIs(|regs|);
      if n < |regs| {
        ghost var before, mid, next := emit.words, emit.code, Advance(offset);
        GroupOffset(load, vector, before[from..], pc, mid, regs, n, offset, size, gprs, kf);
        FprAt(regs, n);
        TransferSingle(load, vector, regs[n], offset);
        w := EmitsSuffix(from, before, emit.words,
                         LoadStore(load, vector, SingleImm(offset), SingleBase(load), regs[n]));
        GroupLastStep(load, vector, before[from..], w, pc, mid, regs, n, offset, next, size, gprs, kf);
        offset := Advance(offset);
      } else {
        GroupEnd(load, vector, emit.words[from..], pc, emit.code, regs, offset, size, gprs, kf);
      }
    }

    /** ok is false when the frame is too large for the pre-indexed store: the emitter then asserts. */
    method ABI_PushRegisters(registers: bv32, fpRegisters: bv32) returns (ok: bool)
      requires registers & 0x6000_0000 == 0
      modifies emit
      ensures ok <==> FrameSize(registers, fpRegisters) < 256
      ensures ok ==> old(emit.words) <= emit.words
      ensures ok ==> Pushes(emit.words[|old(emit.words)|..], old(emit.code), emit.code, registers, fpRegisters)
    {
      hide *;
      ghost var before, pc := emit.words, emit.code;
      var gprs, numGprs := Collect(registers, 29);
      var fprs, numFprs := Collect(fpRegisters, 32);
      var stackSize := ComputedSize(numGprs, numFprs);
      FrameSizeComputed(registers, fpRegisters, numGprs, numFprs);
      FrameSizePositive(registers, fpRegisters);
      FrameSizeAligned(registers, fpRegisters);
      GroupEnds(registers, fpRegisters);
      FirstSlotIs(false, FprSlot(|gprs|));
      FirstSlotIs(true, FprSlot(|gprs|));
      SlotOffsetInitial();
      FixedRegisters();
      ghost var kf := FprSlot(|gprs|);
      if !(stackSize < 256) {
        emit.EncodeAddSubImmInst(true, false, false, stackSize, SP, SP);
        return false;
      }
      SmallFrame(stackSize);
      DownEncodable(stackSize);
      emit.EncodeLoadStorePair(false, PreIndex, FP, LR, SP, 0 - stackSize);
      ghost var w := SingleWord(before, emit.words,
                                LoadStorePair(false, false, PreIndex, DownImm(stackSize), 30, 31, 29));
      ghost var middle := emit.words;
      emit.EncodeAddSubImmInst(false, false, false, 0, SP, FP);
      ghost var v := EmitsSuffix(|before|, middle, emit.words, AddSubImm(true, false, false, false, 0, 31, 29));
      assert emit.words[|before|..] == [w, v];
      PushRecord(w, v, pc, stackSize, kf);
      ProgressIs(false, emit.words[|before|..], pc, emit.code, stackSize, [], [], kf);
      var offset := TransferGroup(false, false, gprs, 16, |before|, pc, stackSize, [], kf);
      offset := TransferGroup(false, true, fprs, offset, |before|, pc, stackSize, gprs, kf);
      assert offset == stackSize;
      ProgressIs(false, emit.words[|before|..], pc, emit.code, stackSize, gprs, fprs, kf);
      PushesIs(emit.words[|before|..], pc, emit.code, registers, fpRegisters);
      return true;
    }

    method ABI_PopRegisters(registers: bv32, fpRegisters: bv32)
      modifies emit
      ensures old(emit.words) <= emit.words
      ensures Pops(emit.words[|old(emit.words)|..], old(emit.code), emit.code, registers, fpRegisters)
    {
      hide *;
      ghost var before, pc := emit.words, emit.code;
      var gprs, numGprs := Collect(registers, 29);
      var fprs, numFprs := Collect(fpRegisters, 32);
      var stackSize := ComputedSize(numGprs, numFprs);
      FrameSizeComputed(registers, fpRegisters, numGprs, numFprs);
      FrameSizePositive(registers, fpRegisters);
      GroupEnds(registers, fpRegisters);
      FirstSlotIs(false, FprSlot(|gprs|));
      FirstSlotIs(true, FprSlot(|gprs|));
      SlotOffsetInitial();
      FixedRegisters();
      SlotEncodable(0);
      SlotOffsetZero();
      ghost var kf := FprSlot(|gprs|);
      emit.EncodeLoadStorePair(true, SignedOffset, FP, LR, SP, 0);
      ghost var w := SingleWord(before, emit.words, LoadStorePair(true, false, SignedOffset, PairImm(0), 30, 31, 29));
      PopRecord(w, pc, kf);
      ProgressIs(true, emit.words[|before|..], pc, emit.code, stackSize, [], [], kf);
      var offset := TransferGroup(true, false, gprs, 16, |before|, pc, stackSize, [], kf);
      offset := TransferGroup(true, true, fprs, offset, |before|, pc, stackSize, gprs, kf);
      assert offset == stackSize;
      ProgressIs(true, emit.words[|before|..], pc, emit.code, stackSize, gprs, fprs, kf);
      ghost var middle, mid := emit.words, emit.code;
      emit.EncodeAddSubImmInst(false, false, false, stackSize, SP, SP);
      w := EmitsSuffix(|before|, middle, emit.words, AddSubImm(true, false, false, false, stackSize, 31, 31));
      PopFrame(middle[|before|..], w, pc, mid, registers, fpRegisters);
    }

    /** Saves the registers, writes the body and restores them, as the generated functions do. */
    method EmitFramed(registers: bv32, fpRegisters: bv32, body: seq<bv32>)
      returns (ok: bool, ghost push: seq<bv32>, ghost pop: seq<bv32>)
      requires registers & 0x6000_0000 == 0
      modifies emit
      ensures ok <==> FrameSize(registers, fpRegisters) < 256
      ensures ok ==> emit.words == old(emit.words) + push + body + pop
      ensures ok ==> Frames(push, body, pop, old(emit.code), registers, fpRegisters)
    {
      hide *;
      ghost var before, pc := emit.words, emit.code;
      push, pop := [], [];
      ok := ABI_PushRegisters(registers, fpRegisters);
      if ok {
        ghost var middle, mid := emit.words, emit.code;
        push := emit.words[|before|..];
        WriteWords(body);
        ghost var last, bodyEnd := emit.words, emit.code;
        ABI_PopRegisters(registers, fpRegisters);
        pop := emit.words[|last|..];
        assert middle == before + push && last == middle + body && emit.words == last + pop;
        FramesAnyBody(push, body, pop, pc, mid, emit.code, registers, fpRegisters);
      }
    }

    method WriteWords(body: seq<bv32>)
      modifies emit
      ensures emit.words == old(emit.words) + body && emit.code == Onward(old(emit.code), |body|)
    {
      hide Next;
      for i := 0 to |body|
        invariant emit.words == old(emit.words) + body[..i] && emit.code == Onward(old(emit.code), i)
      {
        emit.Write32(body[i]);
        assert body[..i + 1] == body[..i] + [body[i]];
      }
    }

    // ----- Vector immediates -----

    method EncodeModImm(rd: bv32, m: Vectors.ModImm)
      requires Vectors.IsModImm(m)
      modifies emit
      ensures emit.words == old(emit.words) + [Vectors.ModImmWord(IsQuad(rd), m, DecodeReg(rd))]
      ensures emit.code == Next(old(emit.code))
    {
      hide *;
      emit.Write32(Vectors.ModImmWord(IsQuad(rd), m, DecodeReg(rd)));
    }

    /** Writes one word when there is an instruction, and nothing otherwise; rd is a doubleword or quadword register. */
    method TryMOVI(size: bv8, rd: bv32, element: bv64) returns (ok: bool)
      requires Vectors.IsSize(size)
      modifies emit
      ensures ok <==> Vectors.HasImmediate(size, element)
      ensures !ok ==> emit.words == old(emit.words) && emit.code == old(emit.code)
      ensures ok ==> |emit.words| == |old(emit.words)| + 1 && old(emit.words) <= emit.words
      ensures ok ==> emit.code == Next(old(emit.code))
      ensures ok ==>
        (FillsLanes(emit.words[|old(emit.words)|], IsQuad(rd), DecodeReg(rd), size, element)
         <==> Vectors.UsesOnes(size, element) ==> element & 0xFFFF_FFFF == 0xFFFF_0000)
    {
      hide *;
      var m: Vectors.ModImm;
      ok, m := Vectors.ChooseMOVI(size, element);
      if ok {
        EncodeModImm(rd, m);
        FillsLanesIs(emit.words[|old(emit.words)|], m, IsQuad(rd), DecodeReg(rd), size, element);
      }
    }

    // ----- MOVI2F -----

    method FMOVImm(rd: bv32, imm8: bv32)
      requires imm8 <= 0xFF
      modifies emit
      ensures Emits(old(emit.words), emit.words, FmovImm(imm8, DecodeReg(rd))) && emit.code == Next(old(emit.code))
    {
      hide *;
      var word := FmovImmWord(imm8, DecodeReg(rd));
      emit.Write32(word);
      EmitsLast(old(emit.words), emit.words, word, FmovImm(imm8, DecodeReg(rd)));
    }

    method FMOVFromGpr(rd: bv32, rn: bv32)
      requires !Is64Bit(rn)
      modifies emit
      ensures Emits(old(emit.words), emit.words, FmovFromGpr(DecodeReg(rn), DecodeReg(rd)))
      ensures emit.code == Next(old(emit.code))
    {
      hide *;
      var word := FmovFromGprWord(DecodeReg(rn), DecodeReg(rd));
      emit.Write32(word);
      EmitsLast(old(emit.words), emit.words, word, FmovFromGpr(DecodeReg(rn), DecodeReg(rd)));
    }

    method FNEG(rd: bv32, rn: bv32)
      modifies emit
      ensures Emits(old(emit.words), emit.words, Fneg(DecodeReg(rn), DecodeReg(rd)))
              && emit.code == Next(old(emit.code))
    {
      hide *;
      var word := FnegWord(DecodeReg(rn), DecodeReg(rd));
      emit.Write32(word);
      EmitsLast(old(emit.words), emit.words, word, Fneg(DecodeReg(rn), DecodeReg(rd)));
    }

    /** Leaves the bits of value, or of its negation, in a single-precision register. */
    method MOVI2F(rd: bv32, value: bv32, scratch: bv32, negate: bool, undefined: seq<bool>)
      requires !Is64Bit(scratch) && DecodeReg(scratch) != 31 && |undefined| == 4
      modifies emit
      ensures old(emit.words) <= emit.words
      ensures LoadsFloat(emit.words[|old(emit.words)|..], old(emit.code), emit.code, DecodeReg(rd),
                         Wanted(value, negate), DecodeReg(scratch))
    {
      hide *;
      ghost var before, pc := emit.words, emit.code;
      ghost var d, sc, w, v := DecodeReg(rd), DecodeReg(scratch), 0, 0;
      Below31(sc);
      WantedIs(value, negate);
      if IsZero(value) {
        ZeroPatterns(value);
        WZRIs();
        var flip := if value >> 31 == 1 then !negate else negate;
        FMOVFromGpr(rd, WSP);
        w := SingleWord(before, emit.words, FmovFromGpr(31, d));
        FmovZeroLoads(w, pc, d, sc);
        if flip {
          Negated(rd, before, w, pc, 0, sc);
        }
        return;
      }
      var ok, imm8 := false, 0;
      if negate {
        ok, imm8 := FPImm8FromFloat(Negate(value));
        if ok {
          FMOVImm(rd, imm8);
          w := SingleWord(before, emit.words, FmovImm(imm8, d));
          FmovImmLoads(w, pc, d, imm8, Negate(value), sc);
          return;
        }
      }
      ok, imm8 := FPImm8FromFloat(value);
      if ok {
        FMOVImm(rd, imm8);
        w := SingleWord(before, emit.words, FmovImm(imm8, d));
        FmovImmLoads(w, pc, d, imm8, value, sc);
        if negate {
          Negated(rd, before, w, pc, value, sc);
        }
        return;
      }
      var ival := if negate then Negate(value) else value;
      BitsLow(ival);
      NonzeroBits(value);
      emit.MOVI2R(scratch, Bits(ival), true, undefined);
      ghost var middle, mid := emit.words, emit.code;
      LowHalfLoads(Bits(ival), pc, undefined);
      ghost var loaded := LoadsLowWitness(middle[|before|..], pc, mid, sc, Bits(ival));
      FMOVFromGpr(rd, scratch);
      w := EmitsSuffix(|before|, middle, emit.words, FmovFromGpr(sc, d));
      ScratchLoads(middle[|before|..], w, pc, mid, d, ival, sc, loaded);
    }

    /** FNEG of the register just loaded with f. */
    method Negated(rd: bv32, ghost before: seq<bv32>, ghost w: bv32, ghost pc: bv64, ghost f: bv32, ghost sc: bv32)
      requires before <= emit.words && emit.words[|before|..] == [w]
      requires LoadsFloat([w], pc, emit.code, DecodeReg(rd), f, sc)
      modifies emit
      ensures before <= emit.words
      ensures LoadsFloat(emit.words[|before|..], pc, emit.code, DecodeReg(rd), Negate(f), sc)
    {
      hide *;
      ghost var middle, mid, d := emit.words, emit.code, DecodeReg(rd);
      FNEG(rd, rd);
      ghost var v := EmitsSuffix(|before|, middle, emit.words, Fneg(d, d));
      assert emit.words[|before|..] == [w, v];
      FnegLoads(w, v, pc, mid, d, f, sc);
    }
  }
}
