/** ARM64 code emission: the buffer, the instruction encoders and the constant loads built from them. */
module Arm64Emission {
  import opened BitmaskEncoding
  import opened Basics
  import opened Arm64Machine
  import opened Words
  import opened Arm64Encode
  import opened Arm64Moves
  import opened Arm64Addresses
  import opened Arm64Loads
  import opened Arm64Operations
  import opened Arm64Comparisons
  import opened Arm64Branches

  class Arm64XEmitter {
    /** The words written so far and the code pointer behind the last of them. */
    var words: seq<bv32>
    var code: bv64

    constructor (start: bv64)
      ensures words == [] && code == start
    {
      words, code := [], start;
    }

    // ----- Encoders -----

    method Write32(word: bv32)
      modifies this
      ensures words == old(words) + [word] && code == Next(old(code))
    {
      words := words + [word];
      code := Next(code);
    }

    method EncodeMOVWideInst(op: bv32, rd: bv32, imm: bv32, pos: nat)
      requires op <= 3 && op != 1 && imm <= 0xFFFF && pos < LaneCount(Is64Bit(rd))
      modifies this
      ensures Emits(old(words), words, MoveWide(Is64Bit(rd), op, ShiftAmount(pos), imm, DecodeReg(rd)))
      ensures code == Next(old(code))
    {
      hide *;
      LaneCountIs(Is64Bit(rd));
      ShiftAmountRange(Is64Bit(rd), pos);
      var word := MoveWideWord(Is64Bit(rd), op, imm, ShiftAmount(pos), DecodeReg(rd));
      Write32(word);
      EmitsLast(old(words), words, word, MoveWide(Is64Bit(rd), op, ShiftAmount(pos), imm, DecodeReg(rd)));
    }

    method EncodeAddSubImmInst(sub: bool, flags: bool, shift: bool, imm: bv32, rn: bv32, rd: bv32)
      requires imm <= 0xFFF
      modifies this
      ensures Emits(old(words), words, AddSubImm(Is64Bit(rd), sub, flags, shift, imm, DecodeReg(rn), DecodeReg(rd)))
      ensures code == Next(old(code))
    {
      hide *;
      var word := AddSubImmWord(Is64Bit(rd), sub, flags, shift, imm, DecodeReg(rn), DecodeReg(rd));
      Write32(word);
      EmitsLast(old(words), words, word, AddSubImm(Is64Bit(rd), sub, flags, shift, imm, DecodeReg(rn), DecodeReg(rd)));
    }

    method EncodeAddressInst(page: bool, rd: bv32, imm: bv32)
      modifies this
      ensures Emits(old(words), words, Adr(page, Imm21(imm), DecodeReg(rd))) && code == Next(old(code))
    {
      hide *;
      var word := AddressWord(page, imm, DecodeReg(rd));
      Write32(word);
      EmitsLast(old(words), words, word, Adr(page, Imm21(imm), DecodeReg(rd)));
    }

    /** The shifted-register forms, always with a zero shift here. */
    method EncodeLogicalInst(op: bv32, invert: bool, rd: bv32, rn: bv32, rm: bv32)
      requires op <= 3
      modifies this
      ensures Emits(old(words), words, LogicalReg(Is64Bit(rd), op, invert, DecodeReg(rm), DecodeReg(rn), DecodeReg(rd)))
      ensures code == Next(old(code))
    {
      hide *;
      var word := LogicalRegWord(Is64Bit(rd), op, invert, DecodeReg(rm), DecodeReg(rn), DecodeReg(rd));
      Write32(word);
      EmitsLast(old(words), words, word,
                LogicalReg(Is64Bit(rd), op, invert, DecodeReg(rm), DecodeReg(rn), DecodeReg(rd)));
    }

    method EncodeArithmeticInst(sub: bool, flags: bool, rd: bv32, rn: bv32, rm: bv32)
      modifies this
      ensures Emits(old(words), words, AddSubReg(Is64Bit(rd), sub, flags, DecodeReg(rm), DecodeReg(rn), DecodeReg(rd)))
      ensures code == Next(old(code))
    {
      hide *;
      var word := AddSubRegWord(Is64Bit(rd), sub, flags, DecodeReg(rm), DecodeReg(rn), DecodeReg(rd));
      Write32(word);
      EmitsLast(old(words), words, word,
                AddSubReg(Is64Bit(rd), sub, flags, DecodeReg(rm), DecodeReg(rn), DecodeReg(rd)));
    }

    /** Here the width is that of rn. */
    method EncodeLogicalImmInst(op: bv32, rd: bv32, rn: bv32, immr: bv8, imms: bv8, n: bv8)
      requires op <= 3 && n <= 1 && immr <= 63 && imms <= 63
      modifies this
      ensures Emits(old(words), words, LogicalImm(Is64Bit(rn), op, n, immr, imms, DecodeReg(rn), DecodeReg(rd)))
      ensures code == Next(old(code))
    {
      hide *;
      var word := LogicalImmWord(Is64Bit(rn), op, n, immr, imms, DecodeReg(rn), DecodeReg(rd));
      Write32(word);
      EmitsLast(old(words), words, word, LogicalImm(Is64Bit(rn), op, n, immr, imms, DecodeReg(rn), DecodeReg(rd)));
    }

    method EncodeLoadStorePair(load: bool, mode: PairMode, rt: bv32, rt2: bv32, rn: bv32, imm: bv32)
      requires IsPairOffset(Is64Bit(rt), imm)
      modifies this
      ensures Emits(old(words), words,
                    PairInstr(Is64Bit(rt), load, mode, imm, DecodeReg(rt2), DecodeReg(rn), DecodeReg(rt)))
      ensures Is64Bit(rt) ==>
        Emits(old(words), words,
              LoadStorePair(load, false, mode, PairImm(imm), DecodeReg(rt2), DecodeReg(rn), DecodeReg(rt)))
      ensures code == Next(old(code))
    {
      hide *;
      var word := PairWord(Is64Bit(rt), load, mode, imm, DecodeReg(rt2), DecodeReg(rn), DecodeReg(rt));
      Write32(word);
      PairInstrIs(load, mode, imm, DecodeReg(rt2), DecodeReg(rn), DecodeReg(rt));
      EmitsLast(old(words), words, word,
                PairInstr(Is64Bit(rt), load, mode, imm, DecodeReg(rt2), DecodeReg(rn), DecodeReg(rt)));
    }

    /** One X register with an unsigned offset. */
    method EncodeLoadStoreIndexedInst(load: bool, rt: bv32, rn: bv32, imm: bv32)
      requires Is64Bit(rt) && IsAligned8(imm) && imm <= 0x7FF8
      modifies this
      ensures Emits(old(words), words, LoadStore(load, false, SingleImm(imm), DecodeReg(rn), DecodeReg(rt)))
      ensures code == Next(old(code))
    {
      hide *;
      var word := LoadStoreWord(load, SingleImm(imm), DecodeReg(rn), DecodeReg(rt));
      Write32(word);
      EmitsLast(old(words), words, word, LoadStore(load, false, SingleImm(imm), DecodeReg(rn), DecodeReg(rt)));
    }

    // ----- MOVI2R -----

    static method Count(part: seq<bool>) returns (count: nat)
      ensures count == CountTrue(part)
    {
      count := 0;
      for i := 0 to |part|
        invariant count == CountTrue(part[..i])
      {
        assert part[..i + 1][..i] == part[..i];
        if part[i] {
          count := count + 1;
        }
      }
      assert part[..|part|] == part;
    }

    /** `undefined` is what the uninitialised upload table happens to hold. */
    method MOVI2R(rd: bv32, imm: bv64, optimize: bool, undefined: seq<bool>)
      requires DecodeReg(rd) != 31 && |undefined| == 4
      modifies this
      ensures old(words) <= words && |words| - |old(words)| <= 4
      ensures words == old(words) <==> !Is64Bit(rd) && optimize && MissesLow(imm, old(code), optimize, undefined)
      ensures words == old(words) ==> code == old(code)
      ensures Loads(words[|old(words)|..], old(code), code, DecodeReg(rd), imm)
         <==> Leaves(Is64Bit(rd), imm, old(code), optimize, undefined)
      ensures !Is64Bit(rd) ==>
        (LoadsLow(words[|old(words)|..], old(code), code, DecodeReg(rd), imm)
         <==> !MissesLow(imm, old(code), optimize, undefined))
      ensures optimize && InRange(Is64Bit(rd), imm) && Misloads(Is64Bit(rd), imm, old(code), optimize, undefined)
         ==> Loads(words[|old(words)|..], old(code), code, DecodeReg(rd), PageOf(old(code)))
    {
      hide *;
      ghost var before, pc := words, code;
      var sf := Is64Bit(rd);
      ghost var d, w := DecodeReg(rd), 0;
      Below31(d);
      LaneCountIs(sf);
      ShiftAmountZero();
      MisloadsDefinition(sf, imm, pc, optimize, undefined);
      MissesLowDefinition(imm, pc, optimize, undefined);
      LeavesDefinition(sf, imm, pc, optimize, undefined);
      TruncIs(sf, imm);
      TruncInRange(sf, imm);

      if imm == 0 {
        EncodeMOVWideInst(2, rd, 0, 0);
        w := SingleWord(before, words, MoveWide(sf, 2, ShiftAmount(0), 0, d));
        MovzLoads(w, pc, d, sf);
        LoadsLowOf([w], pc, code, d, 0, imm);
        return;
      }
      if IsAllOnes(sf, imm) {
        var zr := Zero(rd);
        ZeroRegister(rd);
        EncodeLogicalInst(1, true, rd, zr, zr);
        w := SingleWord(before, words, LogicalReg(sf, 1, true, 31, 31, d));
        OrnLoads(w, pc, d, sf, imm);
        LoadsLowOf([w], pc, code, d, imm, imm);
        return;
      }
      if IsSmallNegative(sf, imm) {
        NegativeIsNarrow(sf, imm);
        MovnValue(imm, LowComplement(imm), 0);
        EncodeMOVWideInst(0, rd, LowComplement(imm), 0);
        w := SingleWord(before, words, MoveWide(sf, 0, ShiftAmount(0), LowComplement(imm), d));
        MovnLoads(w, pc, d, imm, LowComplement(imm));
        LowOfTrunc(false, imm);
        LoadsLowOf([w], pc, code, d, Low32(imm), imm);
        OutcomeOf([w], pc, code, d, Low32(imm), imm);
        return;
      }

      var upload := undefined;
      if optimize {
        OptimizedDropsNothing(sf, imm, undefined);
        NoUploadTable(sf, imm, undefined);
        TableMarksParts(sf, imm, undefined);
        upload := MarkUploads(sf, imm, undefined);
      }
      assert upload == UploadTable(sf, imm, optimize, undefined);

      var alignedPc := PageOf(code);
      var alignedOffset := Minus(imm, alignedPc);
      IsAddressDefinition(upload, imm, alignedPc, alignedOffset);
      var count := Count(upload);
      if count > 1 && IsNear(alignedOffset) {
        LoadAddress(rd, imm, alignedPc, alignedOffset);
        AddressOutcome(words[|before|..], pc, code, d, sf, imm, alignedPc);
        return;
      }
      LoadParts(rd, imm, optimize, upload);
      PartsOutcome(words[|before|..], pc, code, d, sf, imm, optimize, upload);
    }

    static method MarkUploads(sf: bool, imm: bv64, undefined: seq<bool>) returns (upload: seq<bool>)
      requires |undefined| == 4
      ensures upload == UploadTable(sf, imm, true, undefined)
    {
      hide *;
      LaneCountIs(sf);
      upload := undefined;
      for i := 0 to LaneCount(sf)
        invariant |upload| == 4
        invariant forall k :: 0 <= k < 4 ==> upload[k] == (undefined[k] || (k < i && Part(imm, k) != 0))
      {
        if Part(imm, i) != 0 {
          upload := upload[i := true];
        }
      }
    }

    /** The ADR, ADRP and ADRP+ADD forms of MOVI2R; the ADD cuts the constant to the register width. */
    method LoadAddress(rd: bv32, imm: bv64, alignedPc: bv64, alignedOffset: bv64)
      requires DecodeReg(rd) != 31
      requires alignedPc == PageOf(code) && alignedOffset == Minus(imm, alignedPc) && IsNear(alignedOffset)
      modifies this
      ensures old(words) <= words && 1 <= |words| - |old(words)| <= 2
      ensures alignedOffset != FARTHEST ==>
        Loads(words[|old(words)|..], old(code), code, DecodeReg(rd),
              if IsWhole(imm, old(code)) then imm else Trunc(Is64Bit(rd), imm))
      ensures alignedOffset == FARTHEST ==> Loads(words[|old(words)|..], old(code), code, DecodeReg(rd), alignedPc)
    {
      hide *;
      ghost var before, pc := words, code;
      ghost var d, w := DecodeReg(rd), 0;
      Below31(d);
      FarthestPages();
      IsWholeIs(imm, pc);
      if IsPageMultiple(alignedOffset) {
        EncodeAddressInst(true, rd, PageImm(alignedOffset));
        w := SingleWord(before, words, Adr(true, Imm21(PageImm(alignedOffset)), d));
        if alignedOffset == FARTHEST {
          AdrpMisses(imm, pc, alignedPc, alignedOffset);
          AdrLoads(w, pc, d, true, Imm21(PageImm(alignedOffset)), alignedPc);
        } else {
          AdrpReaches(imm, pc, alignedPc, alignedOffset);
          AdrLoads(w, pc, d, true, Imm21(PageImm(alignedOffset)), imm);
        }
        return;
      }
      var offset := Minus(imm, code);
      if IsWithin1MB(offset) {
        EncodeAddressInst(false, rd, ByteImm(offset));
        w := SingleWord(before, words, Adr(false, Imm21(ByteImm(offset)), d));
        AdrReaches(imm, pc, offset);
        AdrLoads(w, pc, d, false, Imm21(ByteImm(offset)), imm);
        return;
      }
      var down := PageOf(alignedOffset);
      EncodeAddressInst(true, rd, PageImm(down));
      w := SingleWord(before, words, Adr(true, Imm21(PageImm(down)), d));
      ghost var value, middle, mid := PcRelative(true, Imm21(PageImm(down)), pc), words, code;
      AdrLoads(w, pc, d, true, Imm21(PageImm(down)), value);
      Low12Value(imm);
      EncodeAddSubImmInst(false, false, false, Low12(imm), rd, rd);
      ghost var v := EmitsSuffix(|before|, middle, words,
                                 AddSubImm(Is64Bit(rd), false, false, false, Low12(imm), d, d));
      ghost var low := And(imm, 0xFFF);
      AdrpAddReaches(imm, pc, alignedPc, alignedOffset, down, low);
      AddLowLoads([w], v, pc, mid, d, Is64Bit(rd), value, imm, low);
    }

    /** The MOVZ and MOVK loop of MOVI2R. */
    method LoadParts(rd: bv32, imm: bv64, optimize: bool, upload: seq<bool>)
      requires DecodeReg(rd) != 31 && |upload| == 4
      requires optimize ==> MarksParts(Is64Bit(rd), imm, upload)
      modifies this
      ensures old(words) <= words && |words| - |old(words)| <= 4
      ensures LoadsParts(words[|old(words)|..], old(code), code, DecodeReg(rd), Is64Bit(rd), imm, optimize, upload)
    {
      hide *;
      ghost var before, pc := words, code;
      var sf := Is64Bit(rd);
      ghost var d, first: nat, w: bv32 := DecodeReg(rd), 0, 0;
      Below31(d);
      LaneCountIs(sf);
      LanesEmpty(imm);
      InsertedDefinition([], pc, pc, d, sf, imm, 0);
      assert words[|before|..] == [];
      var useMovz := true;
      for i := 0 to LaneCount(sf)
        invariant before <= words && |words| - |before| <= i
        invariant useMovz ==> forall k :: 0 <= k < i ==> !upload[k]
        invariant useMovz && optimize ==> words == before && code == pc
        invariant useMovz && !optimize ==> Inserted(words[|before|..], pc, code, d, sf, imm, i)
        invariant !useMovz ==> first < i && IsFirstUpload(upload, first)
        invariant !useMovz ==> Loads(words[|before|..], pc, code, d, Lanes(imm, first, i))
      {
        ghost var middle, mid := words, code;
        if useMovz && upload[i] {
          EncodeMOVWideInst(2, rd, Part(imm, i), i);
          useMovz := false;
          w := EmitsSuffix(|before|, middle, words, MoveWide(sf, 2, ShiftAmount(i), Part(imm, i), d));
          FirstStep(middle[|before|..], w, pc, mid, d, sf, imm, i, if optimize then 0 else i);
          first := i;
          FirstUploadHere(upload, i);
        } else if upload[i] || !optimize {
          EncodeMOVWideInst(3, rd, Part(imm, i), i);
          w := EmitsSuffix(|before|, middle, words, MoveWide(sf, 3, ShiftAmount(i), Part(imm, i), d));
          if useMovz {
            InsertStep(middle[|before|..], w, pc, mid, d, sf, imm, i);
          } else {
            NextStep(middle[|before|..], w, pc, mid, d, sf, imm, first, i);
          }
        } else {
          MarkedPart(sf, imm, upload, i);
          if !useMovz {
            SkipPart(imm, first, i);
          }
        }
      }
      if useMovz {
        NoneUploaded(sf, upload);
        if !optimize {
          InsertedAll(words[|before|..], pc, code, d, sf, imm, LaneCount(sf));
        }
      }
      LoopLeaves(words[|before|..], pc, code, d, sf, imm, optimize, upload, if useMovz then LaneCount(sf) else first);
    }

    // ----- Operations with a constant: the short forms -----

    static method IsImmArithmetic(input: bv64) returns (ok: bool, val: bv32, shift: bool)
      ensures ok <==> IsArithmetic(input)
      ensures ok ==> val <= 0xFFF && ShiftedImm12(shift, val) == input
      ensures !ok ==> forall v: bv32, s: bool :: v <= 0xFFF ==> ShiftedImm12(s, v) != input
    {
      if input < 4096 {
        return true, (input & 0xFFF) as bv32, false;
      } else if input & 0xFF_F000 == input {
        return true, ((input >> 12) & 0xFFF) as bv32, true;
      }
      return false, 0, false;
    }

    /** MOV of register to register. */
    method MOV(rd: bv32, rm: bv32)
      modifies this
      ensures Emits(old(words), words, LogicalReg(Is64Bit(rd), 1, false, DecodeReg(rm), 31, DecodeReg(rd)))
      ensures code == Next(old(code))
    {
      hide *;
      ZeroRegister(rd);
      EncodeLogicalInst(1, false, rd, Zero(rd), rm);
    }

    method TryAddSub(op: BinaryOp, rd: bv32, rn: bv32, imm: bv64) returns (ok: bool)
      requires op == AddOp || op == SubOp
      requires SameWidth(rd, rn)
      modifies this
      ensures ok <==> IsAddSubConstant(Is64Bit(rn), imm)
      ensures old(words) <= words
      ensures ok ==> Computes(words[|old(words)|..], old(code), code, op, Is64Bit(rn),
                                                      DecodeReg(rd), DecodeReg(rn), imm, 31)
      ensures !ok ==> words == old(words) && code == old(code)
    {
      hide *;
      ghost var before, pc := words, code;
      ghost var d, n, w := DecodeReg(rd), DecodeReg(rn), 0;
      SameWidthDefinition(rd, rn);
      var sf := Is64Bit(rn);
      var negated := Negated(sf, imm);
      IsAddSubConstantDefinition(sf, imm);
      if imm == 0 {
        MOV(rd, rn);
        w := SingleWord(before, words, LogicalReg(sf, 1, false, n, 31, d));
        MovComputes(w, pc, op, sf, d, n);
        return true;
      }
      var direct, val, shift := IsImmArithmetic(imm);
      if direct {
        var sub := op == SubOp;
        EncodeAddSubImmInst(sub, false, shift, val, rn, rd);
        w := SingleWord(before, words, AddSubImm(sf, sub, false, shift, val, n, d));
        ArithComputes(w, pc, op, sf, d, n, imm, sub, shift, val, imm);
        return true;
      }
      direct, val, shift := IsImmArithmetic(negated);
      if direct {
        var sub := op == AddOp;
        EncodeAddSubImmInst(sub, false, shift, val, rn, rd);
        w := SingleWord(before, words, AddSubImm(sf, sub, false, shift, val, n, d));
        ArithComputes(w, pc, op, sf, d, n, imm, sub, shift, val, negated);
        return true;
      }
      return false;
    }

    method TryANDI2R(rd: bv32, rn: bv32, imm: bv64, undefined: seq<bool>) returns (ok: bool)
      requires SameWidth(rd, rn) && |undefined| == 4
      modifies this
      ensures ok <==> IsLogicalConstant(Is64Bit(rn), Trunc(Is64Bit(rn), imm))
      ensures old(words) <= words
      ensures ok ==> Computes(words[|old(words)|..], old(code), code, AndOp, Is64Bit(rn),
                                                      DecodeReg(rd), DecodeReg(rn), imm, 31)
      ensures !ok ==> words == old(words) && code == old(code)
    {
      hide *;
      ghost var before, pc := words, code;
      ghost var d, n, w := DecodeReg(rd), DecodeReg(rn), 0;
      SameWidthDefinition(rd, rn);
      var sf := Is64Bit(rn);
      var masked := Trunc(sf, imm);
      IsLogicalConstantDefinition(sf, masked);
      WidthIs(sf);
      var logical, n1, imms, immr := IsImmLogical(masked, Width(sf));
      if logical {
        EncodingFields(n1, imms, immr);
        EncodeLogicalImmInst(0, rd, rn, immr, imms, n1);
        w := SingleWord(before, words, LogicalImm(sf, 0, n1, immr, imms, n, d));
        LogicalCodes();
        LogicalComputes(w, pc, AndOp, sf, d, n, masked, n1, immr, imms);
        TruncOutcome(words[|before|..], pc, code, AndOp, sf, d, n, 31, imm);
        return true;
      } else if masked == 0 {
        MOVI2R(rd, 0, true, undefined);
        ZeroLoads(sf, pc, undefined);
        ZeroComputesAnd(words[|before|..], pc, code, sf, d, n);
        TruncOutcome(words[|before|..], pc, code, AndOp, sf, d, n, 31, imm);
        return true;
      }
      return false;
    }

    /** TryORRI2R and TryEORI2R. */
    method TryOrEor(op: BinaryOp, rd: bv32, rn: bv32, imm: bv64) returns (ok: bool)
      requires op == OrrOp || op == EorOp
      requires SameWidth(rd, rn) && InRange(Is64Bit(rn), imm)
      modifies this
      ensures ok <==> IsLogicalConstant(Is64Bit(rn), imm)
      ensures ok && imm == 0 && rd == rn ==> words == old(words) && code == old(code)
      ensures old(words) <= words
      ensures ok && !(imm == 0 && rd == rn) ==> Computes(words[|old(words)|..], old(code), code, op, Is64Bit(rn),
                                                          DecodeReg(rd), DecodeReg(rn), imm, 31)
      ensures !ok ==> words == old(words) && code == old(code)
    {
      hide *;
      ghost var before, pc := words, code;
      ghost var d, n, w := DecodeReg(rd), DecodeReg(rn), 0;
      SameWidthDefinition(rd, rn);
      var sf := Is64Bit(rn);
      IsLogicalConstantDefinition(sf, imm);
      WidthIs(sf);
      var logical, n1, imms, immr := IsImmLogical(imm, Width(sf));
      if logical {
        if imm == 0 {
          ZeroNotLogical(sf);
          assert false;
        }
        EncodingFields(n1, imms, immr);
        LogicalCodes();
        EncodeLogicalImmInst(LogicalCode(op), rd, rn, immr, imms, n1);
        w := SingleWord(before, words, LogicalImm(sf, LogicalCode(op), n1, immr, imms, n, d));
        LogicalComputes(w, pc, op, sf, d, n, imm, n1, immr, imms);
        return true;
      } else if imm == 0 {
        if rd != rn {
          MOV(rd, rn);
          w := SingleWord(before, words, LogicalReg(sf, 1, false, n, 31, d));
          MovComputes(w, pc, op, sf, d, n);
        }
        return true;
      }
      return false;
    }

    // ----- Operations with a constant: with a scratch register to fall back on -----

    /** The fall-back's MOVI2R, into a scratch register of either width. */
    method LoadScratch(scratch: bv32, imm: bv64, undefined: seq<bool>)
      requires DecodeReg(scratch) != 31 && |undefined| == 4
      modifies this
      ensures old(words) <= words
      ensures Prepared(words[|old(words)|..], old(code), code, DecodeReg(scratch), Is64Bit(scratch), imm, undefined)
      ensures Low32(imm) != 0 ==> words != old(words)
    {
      hide *;
      ghost var before, pc := words, code;
      MOVI2R(scratch, imm, true, undefined);
      if Low32(imm) != 0 {
        LowHalfLoads(imm, pc, undefined);
      }
      ghost var sf, m, ws := Is64Bit(scratch), DecodeReg(scratch), words[|before|..];
      assert ws == [] <==> words == before;
      ghost var u := imm;
      InRangeWide(imm);
      LeavesDefinition(sf, imm, pc, true, undefined);
      if sf {
        if Misloads(true, imm, pc, true, undefined) {
          OptimizedMisloads(sf, imm, pc, undefined);
          FarthestLow(imm, PageOf(pc));
          u := PageOf(pc);
        }
      } else if ws != [] {
        u := LoadsLowWitness(ws, pc, code, m, imm);
      }
      PreparedBy(ws, pc, code, m, sf, imm, undefined, u);
    }

    /** The constant in the scratch register, then the register form. */
    method UseScratch(op: BinaryOp, rd: bv32, rn: bv32, imm: bv64, scratch: bv32, undefined: seq<bool>)
      requires SameWidth(rd, rn) && IsScratch(scratch, rn) && |undefined| == 4
      requires (imm != 0 && InRange(Is64Bit(rn), imm)) || !IsAddSubConstant(Is64Bit(rn), imm)
      modifies this
      ensures old(words) <= words
      ensures Computes(words[|old(words)|..], old(code), code, op, Is64Bit(rn), DecodeReg(rd), DecodeReg(rn), imm,
                       DecodeReg(scratch))
         <==> !Is64Bit(rn) || Leaves(Is64Bit(scratch), imm, old(code), true, undefined)
    {
      hide *;
      ghost var before, pc := words, code;
      ghost var d, n, m, sf := DecodeReg(rd), DecodeReg(rn), DecodeReg(scratch), Is64Bit(rn);
      SameWidthDefinition(rd, rn);
      IsScratchDefinition(scratch, rn);
      LowHalfSet(imm);
      LoadScratch(scratch, imm, undefined);
      ghost var middle, mid := words, code;
      RegInstrIs(op, sf, m, n, d);
      LogicalCodes();
      if op == AddOp || op == SubOp {
        EncodeArithmeticInst(op == SubOp, false, rd, rn, scratch);
      } else {
        EncodeLogicalInst(LogicalCode(op), false, rd, rn, scratch);
      }
      ghost var w := EmitsSuffix(|before|, middle, words, RegInstr(op, sf, m, n, d));
      FallbackOutcome(middle[|before|..], w, pc, mid, op, sf, d, n, m, Is64Bit(scratch), imm, undefined);
    }

    /** ADDI2R and SUBI2R. */
    method AddSubI2R(op: BinaryOp, rd: bv32, rn: bv32, imm: bv64, scratch: bv32, undefined: seq<bool>)
      requires op == AddOp || op == SubOp
      requires SameWidth(rd, rn) && IsScratch(scratch, rn) && |undefined| == 4
      modifies this
      ensures old(words) <= words
      ensures Computes(words[|old(words)|..], old(code), code, op, Is64Bit(rn), DecodeReg(rd), DecodeReg(rn), imm,
                       DecodeReg(scratch))
         <==>
         IsAddSubConstant(Is64Bit(rn), imm) || !Is64Bit(rn)
         || Leaves(Is64Bit(scratch), imm, old(code), true, undefined)
    {
      hide *;
      ghost var before, pc := words, code;
      ghost var d, n, m, sf := DecodeReg(rd), DecodeReg(rn), DecodeReg(scratch), Is64Bit(rn);
      SameWidthDefinition(rd, rn);
      IsScratchDefinition(scratch, rn);
      var done := TryAddSub(op, rd, rn, imm);
      if done {
        ComputesWeaken(words[|before|..], pc, code, op, sf, d, n, imm, m);
      } else {
        UseScratch(op, rd, rn, imm, scratch, undefined);
      }
    }

    method ANDI2R(rd: bv32, rn: bv32, imm: bv64, scratch: bv32, undefined: seq<bool>)
      requires SameWidth(rd, rn) && IsScratch(scratch, rn) && |undefined| == 4
      modifies this
      ensures old(words) <= words
      ensures Computes(words[|old(words)|..], old(code), code, AndOp, Is64Bit(rn), DecodeReg(rd), DecodeReg(rn), imm,
                       DecodeReg(scratch))
         <==> !Is64Bit(rn) || IsLogicalConstant(true, imm) || Leaves(Is64Bit(scratch), imm, old(code), true, undefined)
    {
      hide *;
      ghost var before, pc := words, code;
      ghost var d, n, m := DecodeReg(rd), DecodeReg(rn), DecodeReg(scratch);
      var sf := Is64Bit(rn);
      SameWidthDefinition(rd, rn);
      IsScratchDefinition(scratch, rn);
      var masked := Trunc(sf, imm);
      TruncFits(sf, imm);
      IsLogicalConstantDefinition(sf, masked);
      var done := TryANDI2R(rd, rn, masked, undefined);
      if done {
        ComputesWeaken(words[|before|..], pc, code, AndOp, sf, d, n, masked, m);
      } else {
        UseScratch(AndOp, rd, rn, masked, scratch, undefined);
      }
      TruncOutcome(words[|before|..], pc, code, AndOp, sf, d, n, m, imm);
    }

    /** ORRI2R and EORI2R. */
    method OrEorI2R(op: BinaryOp, rd: bv32, rn: bv32, imm: bv64, scratch: bv32, undefined: seq<bool>)
      requires op == OrrOp || op == EorOp
      requires SameWidth(rd, rn) && IsScratch(scratch, rn)
      requires InRange(Is64Bit(rn), imm) && |undefined| == 4
      modifies this
      ensures old(words) <= words
      ensures imm == 0 && rd == rn ==> words == old(words) && code == old(code)
      ensures !(imm == 0 && rd == rn) ==>
        (Computes(words[|old(words)|..], old(code), code, op, Is64Bit(rn), DecodeReg(rd), DecodeReg(rn), imm,
                  DecodeReg(scratch))
         <==>
         IsLogicalConstant(Is64Bit(rn), imm) || !Is64Bit(rn)
         || Leaves(Is64Bit(scratch), imm, old(code), true, undefined))
    {
      hide *;
      ghost var before, pc := words, code;
      ghost var d, n, m, sf := DecodeReg(rd), DecodeReg(rn), DecodeReg(scratch), Is64Bit(rn);
      SameWidthDefinition(rd, rn);
      IsScratchDefinition(scratch, rn);
      IsLogicalConstantDefinition(sf, imm);
      var done := TryOrEor(op, rd, rn, imm);
      if done {
        if !(imm == 0 && rd == rn) {
          ComputesWeaken(words[|before|..], pc, code, op, sf, d, n, imm, m);
        }
      } else {
        UseScratch(op, rd, rn, imm, scratch, undefined);
      }
    }

    // ----- Comparisons and ANDS -----

    /** When it finds a form, the flags are right unless a W register is compared with a constant other than 0 whose low
        half is 0. */
    method TryCMPI2R(rn: bv32, imm: bv64) returns (ok: bool)
      requires DecodeReg(rn) != 31
      modifies this
      ensures old(words) <= words
      ensures ok <==> IsArithmetic(imm) || IsArithmetic(Negated(Is64Bit(rn), imm))
      ensures ok ==> forall sc: bv32 ::
        (Compares(words[|old(words)|..], old(code), code, Is64Bit(rn), DecodeReg(rn), imm, sc)
         <==> imm == 0 || Trunc(Is64Bit(rn), imm) != 0)
      ensures !ok ==> words == old(words) && code == old(code)
    {
      hide *;
      ghost var before, pc := words, code;
      ghost var n, w := DecodeReg(rn), 0;
      Below31(n);
      ZeroRegister(rn);
      var sf := Is64Bit(rn);
      var negated := Negated(sf, imm);
      var direct, val, shift := IsImmArithmetic(imm);
      if direct {
        EncodeAddSubImmInst(true, true, shift, val, rn, Zero(rn));
        w := SingleWord(before, words, AddSubImm(sf, true, true, shift, val, n, 31));
        ImmCompares(w, pc, sf, n, imm, shift, val);
        ArithmeticTrunc(sf, imm);
        forall sc: bv32
          ensures Compares(words[|before|..], pc, code, sf, n, imm, sc)
        {
          ComparesWeaken(words[|before|..], pc, code, sf, n, imm, sc);
        }
        return true;
      }
      direct, val, shift := IsImmArithmetic(negated);
      if direct {
        EncodeAddSubImmInst(false, true, shift, val, rn, Zero(rn));
        w := SingleWord(before, words, AddSubImm(sf, false, true, shift, val, n, 31));
        forall sc: bv32
          ensures Compares(words[|before|..], pc, code, sf, n, imm, sc) <==> Trunc(sf, imm) != 0
        {
          NegatedCompares(w, pc, sf, n, imm, shift, val, sc);
        }
        ZeroArithmetic();
        return true;
      }
      return false;
    }

    method CMPI2R(rn: bv32, imm: bv64, scratch: bv32, undefined: seq<bool>)
      requires IsScratch(scratch, rn) && |undefined| == 4
      modifies this
      ensures old(words) <= words
      ensures Compares(words[|old(words)|..], old(code), code, Is64Bit(rn), DecodeReg(rn), imm, DecodeReg(scratch))
         <==> if Is64Bit(rn) then
                IsAddSubConstant(true, imm) || Leaves(Is64Bit(scratch), imm, old(code), true, undefined)
              else imm == 0 || Low32(imm) != 0
    {
      hide *;
      ghost var before, pc := words, code;
      ghost var n, m, sf := DecodeReg(rn), DecodeReg(scratch), Is64Bit(rn);
      IsScratchDefinition(scratch, rn);
      ZeroRegister(rn);
      var done := TryCMPI2R(rn, imm);
      TruncIs(sf, imm);
      IsAddSubConstantDefinition(sf, imm);
      ZeroArithmetic();
      if !done {
        IsAddSubConstantDefinition(sf, imm);
        LowHalfSet(imm);
        LoadScratch(scratch, imm, undefined);
        ghost var middle, mid := words, code;
        EncodeArithmeticInst(true, true, Zero(rn), rn, scratch);
        ghost var w := EmitsSuffix(|before|, middle, words, AddSubReg(sf, true, true, m, n, 31));
        FallbackComparesOutcome(middle[|before|..], w, pc, mid, sf, n, m, Is64Bit(scratch), imm, undefined);
      }
    }

    method ANDSI2R(rd: bv32, rn: bv32, imm: bv64, scratch: bv32, undefined: seq<bool>)
      requires SameWidth(rd, rn) && IsScratch(scratch, rn) && |undefined| == 4
      modifies this
      ensures old(words) <= words
      ensures ComputesAnds(words[|old(words)|..], old(code), code, Is64Bit(rn), DecodeReg(rd), DecodeReg(rn), imm,
                           DecodeReg(scratch))
         <==> !Is64Bit(rn) || IsLogicalConstant(true, imm) || Leaves(Is64Bit(scratch), imm, old(code), true, undefined)
    {
      hide *;
      ghost var before, pc := words, code;
      ghost var d, n, m, w := DecodeReg(rd), DecodeReg(rn), DecodeReg(scratch), 0;
      var sf := Is64Bit(rn);
      SameWidthDefinition(rd, rn);
      IsScratchDefinition(scratch, rn);
      ZeroRegister(rn);
      var masked := Trunc(sf, imm);
      TruncFits(sf, imm);
      IsLogicalConstantDefinition(sf, masked);
      WidthIs(sf);
      var logical, n1, imms, immr := IsImmLogical(masked, Width(sf));
      if logical {
        EncodingFields(n1, imms, immr);
        EncodeLogicalImmInst(3, rd, rn, immr, imms, n1);
        w := SingleWord(before, words, LogicalImm(sf, 3, n1, immr, imms, n, d));
        ImmAnds(w, pc, sf, d, n, masked, n1, immr, imms);
        AndsWeaken(words[|before|..], pc, code, sf, d, n, masked, m);
      } else if masked == 0 {
        EncodeLogicalInst(3, false, rd, rn, Zero(rn));
        w := SingleWord(before, words, LogicalReg(sf, 3, false, 31, n, d));
        ZeroAnds(w, pc, sf, d, n);
        AndsWeaken(words[|before|..], pc, code, sf, d, n, masked, m);
      } else {
        LowHalfSet(masked);
        LoadScratch(scratch, masked, undefined);
        ghost var middle, mid := words, code;
        EncodeLogicalInst(3, false, rd, rn, scratch);
        w := EmitsSuffix(|before|, middle, words, LogicalReg(sf, 3, false, m, n, d));
        FallbackAndsOutcome(middle[|before|..], w, pc, mid, sf, d, n, m, Is64Bit(scratch), masked, undefined);
      }
      TruncAnds(words[|before|..], pc, code, sf, d, n, m, imm);
    }

    // ----- Branches -----

    /** Reserves a word, a NOP for now, for a branch whose target is not known yet. */
    method BeginBranch(kind: BranchKind, reg: bv32, cond: bv32, bit: bv32) returns (branch: FixupBranch)
      modifies this
      ensures branch == FixupBranch(old(code), |old(words)|, kind, reg, cond, bit)
      ensures words == old(words) + [0xD503_201F] && code == Next(old(code))
    {
      branch := FixupBranch(code, |words|, kind, reg, cond, bit);
      Write32(0xD503_201F);
    }

    /** Makes the reserved word a branch to the current code pointer; ok is false when it is out of reach. */
    method SetJumpTarget(branch: FixupBranch) returns (ok: bool)
      requires branch.slot < |words| && HasFields(branch)
      modifies this
      ensures code == old(code) && |words| == |old(words)|
      ensures forall i :: 0 <= i < |words| && i != branch.slot ==> words[i] == old(words[i])
      ensures ok <==> Spans(branch.kind, Minus(code, branch.ptr))
      ensures !ok ==> words == old(words)
      ensures ok ==> Decode(words[branch.slot]) == Some(Meant(branch, Minus(code, branch.ptr)))
      ensures ok && !branch.kind.Test? ==> words[branch.slot] == DirectWord(branch, Minus(code, branch.ptr))
      ensures ok && Minus(code, branch.ptr) & 3 == 0
         ==> BranchTarget(Meant(branch, Minus(code, branch.ptr)), branch.ptr) == Some(code)
    {
      hide *;
      var distance := Minus(code, branch.ptr);
      InReachExactly(branch.kind, distance);
      IsWordMultipleIs(distance);
      if !InReach(branch.kind, distance) {
        return false;
      }
      words := words[branch.slot := PatchWord(branch, distance)];
      PatchDecodes(branch, distance);
      if !branch.kind.Test? {
        PatchIsDirect(branch, distance);
      }
      if IsWordMultiple(distance) {
        MeantReaches(branch, code);
      }
      return true;
    }

    /** A branch to a known target: CBZ, CBNZ, TBZ, TBNZ, B and BL check alignment and reach, B.cond only reach. */
    method BranchTo(kind: BranchKind, reg: bv32, cond: bv32, bit: bv32, target: bv64) returns (ok: bool)
      requires cond <= 15 && bit <= 63
      modifies this
      ensures ok <==>
        && Spans(kind, Minus(target, old(code)))
        && (kind.Conditional? || Minus(target, old(code)) & 3 == 0)
      ensures !ok ==> words == old(words) && code == old(code)
      ensures ok ==> words == old(words) + [DirectWord(FixupBranch(old(code), |old(words)|, kind, reg, cond, bit),
                                                       Minus(target, old(code)))]
      ensures ok ==> code == Next(old(code))
      ensures ok ==> var b := FixupBranch(old(code), |old(words)|, kind, reg, cond, bit);
        Decode(words[|old(words)|]) == Some(Meant(b, Minus(target, old(code)))) <==> DirectIsMeant(b)
      ensures ok && Minus(target, old(code)) & 3 == 0 ==>
        var b := FixupBranch(old(code), |old(words)|, kind, reg, cond, bit);
        BranchTarget(Meant(b, Minus(target, old(code))), old(code)) == Some(target)
    {
      hide *;
      var distance := Minus(target, code);
      InReachExactly(kind, distance);
      IsWordMultipleIs(distance);
      ghost var b := FixupBranch(code, |words|, kind, reg, cond, bit);
      FieldsIn(b);
      DirectDecodes(b, distance);
      if IsWordMultiple(distance) && InReach(kind, distance) {
        MeantReaches(b, target);
      }
      if !kind.Conditional? && !IsWordMultiple(distance) {
        return false;
      }
      if !InReach(kind, distance) {
        return false;
      }
      Write32(DirectWord(FixupBranch(code, |words|, kind, reg, cond, bit), distance));
      return true;
    }
  }
}
