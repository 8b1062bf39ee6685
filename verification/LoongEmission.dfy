/** The LoongArch64 emitter: constants, jumps and branches. */
module LoongEmission {
  import opened Basics
  import opened Words
  import opened LoongMachine
  import opened LoongEncode
  import opened LoongConstants
  import opened LoongBranches
  import opened LoongJumps

  class LoongArch64Emitter {
    var words: seq<bv32>
    var code: bv64

    constructor (start: bv64)
      ensures words == [] && code == start
    {
      words, code := [], start;
    }

    method Write32(word: bv32)
      modifies this
      ensures words == old(words) + [word] && code == Next(old(code))
    {
      words := words + [word];
      code := Next(code);
    }

    method SetRegToImmediate(rd: bv32, value: bv64)
      requires 0 < rd <= 31
      modifies this
      ensures old(words) <= words
      ensures |words| - |old(words)| == if IsWithin(value, 0x800) then 1 else if IsWithin(value, 0x8000_0000) then 2
                                        else if IsWithin(value, 0x8_0000_0000_0000) then 3 else 4
      ensures Loads(words[|old(words)|..], old(code), code, rd, value)
    {
      hide *;
      ghost var before, pc := words, code;
      Fits12Exactly(value);
      Fits32Exactly(value);
      Fits52Exactly(value);
      if Fits12(value) {
        var w := AddiWord(rd, 0, Field0(value));
        Write32(w);
        assert words[|before|..] == [w];
        SmallLoads(w, pc, rd, value);
        return;
      }
      FitsLow(value);
      var w, u := Lu12iWord(rd, Field12(value)), OriWord(rd, rd, Field0(value));
      Write32(w);
      Write32(u);
      assert words[|before|..] == [w] + [u];
      LowLoads(w, u, pc, rd, value);
      if Fits32(value) {
        return;
      }
      ghost var low, mid := words, code;
      w := Lu32iWord(rd, Field32(value));
      Write32(w);
      assert words[|before|..] == low[|before|..] + [w];
      MiddleLoads(low[|before|..], w, pc, mid, rd, value);
      if Fits52(value) {
        return;
      }
      ghost var middle, mid' := words, code;
      w := Lu52iWord(rd, rd, Field52(value));
      Write32(w);
      assert words[|before|..] == middle[|before|..] + [w];
      TopLoads(middle[|before|..], w, pc, mid', rd, value);
    }

    /** Jumps to dst: directly when in range, otherwise through the scratch register. In range, a link register other
        than RA is not written. */
    method QuickJump(scratch: bv32, rd: bv32, dst: bv64)
      requires 0 < scratch <= 31 && rd <= 31 && dst & 3 == 0 && code & 3 == 0
      modifies this
      ensures old(words) <= words
      ensures var near := IsWithin(Minus(dst, old(code)), 0x800_0000);
        Jumps(words[|old(words)|..], old(code), code, dst, if near && rd != 1 then 0 else rd, if near then 0
              else scratch)
    {
      hide *;
      ghost var before, pc := words, code;
      InRangeExactly(pc, dst, 28);
      FitsWithin(Minus(dst, pc));
      IsWordMultipleIs(dst);
      IsWordMultipleIs(pc);
      if !BJInRange(code, dst, 28) {
        SetRegToImmediate(scratch, Minus(dst, Lower(dst)));
        ghost var middle, mid := words, code;
        var w := JirlWord(rd, scratch, Offs(Lower(dst)));
        Write32(w);
        assert words[|before|..] == middle[|before|..] + [w];
        FarJump(middle[|before|..], w, pc, mid, dst, rd, scratch);
      } else {
        var b := Unconditional(rd == 1);
        JumpFields(rd == 1);
        WordDecodes(b, Offs(Minus(dst, code)));
        var w := WordOf(b, Offs(Minus(dst, code)));
        Write32(w);
        assert words[|before|..] == [w];
        MeantJump(rd == 1, Offs(Minus(dst, pc)));
        NearJump(w, pc, dst, rd == 1);
      }
    }

    /** Reserves a word, for now the branch to itself, for a branch whose target is not known yet. */
    method BeginBranch(b: BranchOp) returns (branch: FixupBranch)
      modifies this
      ensures branch == FixupBranch(old(code), |old(words)|, KindOf(b))
      ensures words == old(words) + [WordOf(b, 0)] && code == Next(old(code))
    {
      hide *;
      branch := FixupBranch(code, |words|, KindOf(b));
      Write32(WordOf(b, 0));
    }

    /** Points the reserved word at dst; ok is false when the emitter would assert. */
    method SetJumpTarget(branch: FixupBranch, dst: bv64, ghost b: BranchOp) returns (ok: bool)
      requires branch.slot < |words| && HasFields(b) && branch.kind == KindOf(b) && words[branch.slot] == WordOf(b, 0)
      modifies this
      ensures code == old(code) && |words| == |old(words)|
      ensures forall i :: 0 <= i < |words| && i != branch.slot ==> words[i] == old(words[i])
      ensures var distance := Minus(dst, branch.ptr);
        ok <==> dst & 3 == 0 && distance & 3 == 0 && IsWithin(distance, PatchReach(branch.kind))
      ensures !ok ==> words == old(words)
      ensures ok ==> words[branch.slot] == WordOf(b, Offs(Minus(dst, branch.ptr)))
      ensures ok ==> Decode(words[branch.slot]) == Some(Meant(b, Offs(Minus(dst, branch.ptr))))
      ensures ok ==> BranchTarget(Meant(b, Offs(Minus(dst, branch.ptr))), branch.ptr) == Some(dst)
    {
      hide *;
      var distance := Minus(dst, branch.ptr);
      PatchExactly(branch.kind, distance);
      IsWordMultipleIs(dst);
      IsWordMultipleIs(distance);
      InRangeExactly(branch.ptr, dst, PatchBits(branch.kind));
      if !IsWordMultiple(dst) || !IsWordMultiple(distance) || !BJInRange(branch.ptr, dst, PatchBits(branch.kind)) {
        return false;
      }
      words := words[branch.slot := Patch(branch.kind, words[branch.slot], Offs(distance))];
      PatchIsWord(b, Offs(distance));
      WordDecodes(b, Offs(distance));
      PatchFits(b, distance);
      MeantReaches(b, branch.ptr, dst);
      return true;
    }

    /** A branch to a known target; ok is false when the emitter would assert. */
    method BranchTo(b: BranchOp, dst: bv64) returns (ok: bool)
      requires HasFields(b)
      modifies this
      ensures var distance := Minus(dst, old(code));
        ok <==> IsWithin(distance, DirectReach(b)) && dst & 3 == 0 && distance & 3 == 0
      ensures !ok ==> words == old(words) && code == old(code)
      ensures ok ==> words == old(words) + [WordOf(b, Offs(Minus(dst, old(code))))] && code == Next(old(code))
      ensures ok ==> Decode(words[|old(words)|]) == Some(Meant(b, Offs(Minus(dst, old(code)))))
      ensures ok ==> BranchTarget(Meant(b, Offs(Minus(dst, old(code)))), old(code)) == Some(dst)
    {
      hide *;
      var distance := Minus(dst, code);
      DirectExactly(b, distance);
      IsWordMultipleIs(dst);
      IsWordMultipleIs(distance);
      WordDecodes(b, Offs(distance));
      if IsWordMultiple(distance) && FitsSigned(distance, DirectBits(b)) {
        MeantReaches(b, code, dst);
      }
      InRangeExactly(code, dst, DirectBits(b));
      if !BJInRange(code, dst, DirectBits(b)) || !IsWordMultiple(dst) || !IsWordMultiple(distance) {
        return false;
      }
      Write32(WordOf(b, Offs(distance)));
      return true;
    }
  }
}
