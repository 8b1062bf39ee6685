/** The word encoders of the LoongArch64 emitter, each proved against the decoder. */
module LoongEncode {
  import opened Basics
  import opened LoongMachine

  function Imm12(x: bv32): bv32 {
    x & 0xFFF
  }

  function Imm16(x: bv32): bv32 {
    x & 0xFFFF
  }

  function Imm20(x: bv32): bv32 {
    x & 0xFFFFF
  }

  lemma AddiDecodes(rd: bv32, rj: bv32, imm: bv32)
    requires rd <= 31 && rj <= 31
    ensures var w := 0x02c0_0000 | ((imm & 0xFFF) << 10) | (rj << 5) | rd; Decode(w) == Some(AddiD(rd, rj, Imm12(imm)))
  {}

  lemma Lu52iDecodes(rd: bv32, rj: bv32, imm: bv32)
    requires rd <= 31 && rj <= 31
    ensures var w := 0x0300_0000 | ((imm & 0xFFF) << 10) | (rj << 5) | rd; Decode(w) == Some(Lu52iD(rd, rj, Imm12(imm)))
  {}

  lemma OriDecodes(rd: bv32, rj: bv32, imm: bv32)
    requires rd <= 31 && rj <= 31
    ensures var w := 0x0380_0000 | ((imm & 0xFFF) << 10) | (rj << 5) | rd; Decode(w) == Some(Ori(rd, rj, Imm12(imm)))
  {}

  lemma Lu12iDecodes(rd: bv32, imm: bv32)
    requires rd <= 31
    ensures var w := 0x1400_0000 | ((imm & 0xFFFFF) << 5) | rd; Decode(w) == Some(Lu12iW(rd, Imm20(imm)))
  {}

  lemma Lu32iDecodes(rd: bv32, imm: bv32)
    requires rd <= 31
    ensures var w := 0x1600_0000 | ((imm & 0xFFFFF) << 5) | rd; Decode(w) == Some(Lu32iD(rd, Imm20(imm)))
  {}

  function AddiWord(rd: bv32, rj: bv32, imm: bv32): (w: bv32)
    requires rd <= 31 && rj <= 31
    ensures Decode(w) == Some(AddiD(rd, rj, Imm12(imm)))
  {
    hide *;
    AddiDecodes(rd, rj, imm);
    0x02c0_0000 | ((imm & 0xFFF) << 10) | (rj << 5) | rd
  }

  function Lu52iWord(rd: bv32, rj: bv32, imm: bv32): (w: bv32)
    requires rd <= 31 && rj <= 31
    ensures Decode(w) == Some(Lu52iD(rd, rj, Imm12(imm)))
  {
    hide *;
    Lu52iDecodes(rd, rj, imm);
    0x0300_0000 | ((imm & 0xFFF) << 10) | (rj << 5) | rd
  }

  function OriWord(rd: bv32, rj: bv32, imm: bv32): (w: bv32)
    requires rd <= 31 && rj <= 31
    ensures Decode(w) == Some(Ori(rd, rj, Imm12(imm)))
  {
    hide *;
    OriDecodes(rd, rj, imm);
    0x0380_0000 | ((imm & 0xFFF) << 10) | (rj << 5) | rd
  }

  function Lu12iWord(rd: bv32, imm: bv32): (w: bv32)
    requires rd <= 31
    ensures Decode(w) == Some(Lu12iW(rd, Imm20(imm)))
  {
    hide *;
    Lu12iDecodes(rd, imm);
    0x1400_0000 | ((imm & 0xFFFFF) << 5) | rd
  }

  function Lu32iWord(rd: bv32, imm: bv32): (w: bv32)
    requires rd <= 31
    ensures Decode(w) == Some(Lu32iD(rd, Imm20(imm)))
  {
    hide *;
    Lu32iDecodes(rd, imm);
    0x1600_0000 | ((imm & 0xFFFFF) << 5) | rd
  }

  lemma JirlDecodes(rd: bv32, rj: bv32, offs: bv32)
    requires rd <= 31 && rj <= 31
    ensures var w := 0x4c00_0000 | ((offs & 0xFFFF) << 10) | (rj << 5)
            | rd; Decode(w) == Some(Jirl(rd, rj, Imm16(offs)))
  {}

  function JirlWord(rd: bv32, rj: bv32, offs: bv32): (w: bv32)
    requires rd <= 31 && rj <= 31
    ensures Decode(w) == Some(Jirl(rd, rj, Imm16(offs)))
  {
    hide *;
    JirlDecodes(rd, rj, offs);
    0x4c00_0000 | ((offs & 0xFFFF) << 10) | (rj << 5) | rd
  }
}
