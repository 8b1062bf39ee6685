/** The LoongArch64 quick jump: what it does near and far. */
module LoongJumps {
  import opened Basics
  import opened Words
  import opened LoongMachine
  import opened LoongEncode
  import opened LoongConstants
  import opened LoongBranches

  /** From pc, the words jump to dst; register link (0 for none) gets the address behind them, and only register sc (0
      for none) besides may have changed. */
  ghost predicate Jumps(ws: seq<bv32>, pc: bv64, end: bv64, dst: bv64, link: bv32, sc: bv32) {
    forall s: State :: s.pc == pc ==>
      Run(ws, s).Some? && JumpEffect(Run(ws, s).value, s, end, dst, link, sc)
  }

  ghost predicate JumpEffect(t: State, s: State, end: bv64, dst: bv64, link: bv32, sc: bv32) {
    t.pc == dst && (link != 0 ==> Get(t.r, link) == end)
    && forall r: bv32 :: r <= 31 && r != link && r != sc ==> Get(t.r, r) == Get(s.r, r)
  }

  lemma JumpsDefinition(ws: seq<bv32>, pc: bv64, end: bv64, dst: bv64, link: bv32, sc: bv32)
    ensures Jumps(ws, pc, end, dst, link, sc) <==> forall s: State :: s.pc == pc ==>
      Run(ws, s).Some? && JumpEffect(Run(ws, s).value, s, end, dst, link, sc)
  {
    hide Run, JumpEffect;
  }

  function Lower(dst: bv64): bv64 {
    SignReduce64(dst, 18)
  }

  lemma LowerFits(dst: bv64)
    requires IsWordMultiple(dst)
    ensures FitsSigned(Lower(dst), 18) && IsWordMultiple(Lower(dst))
  {}

  lemma WordDistance(dst: bv64, code: bv64)
    requires IsWordMultiple(dst) && IsWordMultiple(code)
    ensures IsWordMultiple(Minus(dst, code))
  {}

  lemma RunJump(w: bv32, s: State, link: bool, offs26: bv32)
    requires Decode(w) == Some(Jump(link, offs26))
    ensures RunOne(w, s) == Some(Put(s, Plus(s.pc, Offset26(offs26)), if link then 1 else 0, Next(s.pc)))
  {
    hide Decode, Plus, Offset26, Put, Next;
  }

  lemma RunJirl(w: bv32, s: State, rd: bv32, rj: bv32, offs16: bv32)
    requires Decode(w) == Some(Jirl(rd, rj, offs16))
    ensures RunOne(w, s) == Some(Put(s, Plus(Get(s.r, rj), Offset16(offs16)), rd, Next(s.pc)))
  {
    hide Decode, Plus, Offset16, Put, Next, Get;
  }

  lemma PutJump(s: State, end: bv64, dst: bv64, link: bv32)
    ensures JumpEffect(Put(s, dst, link, end), s, end, dst, link, 0)
  {}

  lemma PutFarJump(s: State, mid: bv64, end: bv64, dst: bv64, link: bv32, sc: bv32, u: bv64)
    requires sc != 0
    ensures JumpEffect(Put(Put(s, mid, sc, u), dst, link, end), s, end, dst, link, sc)
    ensures Get(Put(s, mid, sc, u).r, sc) == u && Put(s, mid, sc, u).pc == mid
  {}

  /** B or BL in range. */
  lemma NearJump(w: bv32, pc: bv64, dst: bv64, link: bool)
    requires IsWordMultiple(dst) && IsWordMultiple(pc) && BJInRange(pc, dst, 28)
    requires Decode(w) == Some(Jump(link, Imm26(Offs(Minus(dst, pc)))))
    ensures Jumps([w], pc, Next(pc), dst, if link then 1 else 0, 0)
  {
    hide *;
    var distance := Minus(dst, pc);
    WordDistance(dst, pc);
    InRangeExactly(pc, dst, 28);
    OffsetBack(distance);
    MinusPlusBack(dst, pc);
    forall s: State | s.pc == pc
      ensures Run([w], s).Some? && JumpEffect(Run([w], s).value, s, Next(pc), dst, if link then 1 else 0, 0)
    {
      RunOneWord(w, s);
      RunJump(w, s, link, Imm26(Offs(distance)));
      PutJump(s, Next(pc), dst, if link then 1 else 0);
    }
    JumpsDefinition([w], pc, Next(pc), dst, if link then 1 else 0, 0);
  }

  /** The upper part loaded into the scratch register, then JIRL over the signed lower part. */
  lemma FarJump(ws: seq<bv32>, w: bv32, pc: bv64, mid: bv64, dst: bv64, rd: bv32, sc: bv32)
    requires IsWordMultiple(dst) && sc != 0 && Loads(ws, pc, mid, sc, Minus(dst, Lower(dst)))
    requires Decode(w) == Some(Jirl(rd, sc, Imm16(Offs(Lower(dst)))))
    ensures Jumps(ws + [w], pc, Next(mid), dst, rd, sc)
  {
    hide *;
    var upper := Minus(dst, Lower(dst));
    LowerFits(dst);
    OffsetBack(Lower(dst));
    MinusThenPlus(dst, Lower(dst));
    LoadsDefinition(ws, pc, mid, sc, upper);
    forall s: State | s.pc == pc
      ensures Run(ws + [w], s).Some? && JumpEffect(Run(ws + [w], s).value, s, Next(mid), dst, rd, sc)
    {
      RunSnoc(ws, w, s);
      RunJirl(w, Put(s, mid, sc, upper), rd, sc, Imm16(Offs(Lower(dst))));
      PutFarJump(s, mid, Next(mid), dst, rd, sc, upper);
    }
    JumpsDefinition(ws + [w], pc, Next(mid), dst, rd, sc);
  }
}
