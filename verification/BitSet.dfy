/** The bit-parallel routines: each against the simple definition it stands for. */
module BitSet {
  import opened Words

  // ----- Reversing the bits of a word -----

  function BitAt(v: bv32, i: bv32): bv32
    requires i <= 31
  {
    (v >> i) & 1
  }

  /** Bit i of r is bit 31 - i of v. */
  ghost predicate IsReversal(v: bv32, r: bv32) {
    forall i: bv32 :: i <= 31 ==> BitAt(r, i) == BitAt(v, 31 - i)
  }

  method ReverseBits32(word: bv32) returns (v: bv32)
    ensures IsReversal(word, v)
  {
    v := word;
    v := ((v >> 1) & 0x5555_5555) | ((v & 0x5555_5555) << 1);
    v := ((v >> 2) & 0x3333_3333) | ((v & 0x3333_3333) << 2);
    v := ((v >> 4) & 0x0F0F_0F0F) | ((v & 0x0F0F_0F0F) << 4);
    v := ((v >> 8) & 0x00FF_00FF) | ((v & 0x00FF_00FF) << 8);
    v := (v >> 16) | (v << 16);
  }

  /** The bits below i. */
  function Low(v: bv32, i: bv32): bv32
    requires i <= 32
  {
    v & !(0xFFFF_FFFF << i)
  }

  lemma LowStep(v: bv32, w: bv32, i: bv32)
    requires i <= 31 && Low(v, i) == Low(w, i) && BitAt(v, i) == BitAt(w, i)
    ensures Low(v, i + 1) == Low(w, i + 1)
  {}

  lemma LowEnds(v: bv32)
    ensures Low(v, 0) == 0 && Low(v, 32) == v
  {}

  lemma SameBits(v: bv32, w: bv32)
    requires forall i: bv32 :: i <= 31 ==> BitAt(v, i) == BitAt(w, i)
    ensures v == w
  {
    hide Low, BitAt;
    LowEnds(v);
    LowEnds(w);
    var i: bv32 := 0;
    while i < 32
      invariant i <= 32 && Low(v, i) == Low(w, i)
      decreases 32 - i
    {
      LowStep(v, w, i);
      i := i + 1;
    }
  }

  lemma Mirror(i: bv32)
    requires i <= 31
    ensures 31 - i <= 31 && 31 - (31 - i) == i
  {}

  /** Every word has one reversal, and the reversal of that is the word again. */
  lemma ReversalIsInvolution(v: bv32, r: bv32, w: bv32)
    requires IsReversal(v, r) && IsReversal(r, w)
    ensures w == v
  {
    hide BitAt;
    forall i: bv32 | i <= 31
      ensures BitAt(w, i) == BitAt(v, i)
    {
      Mirror(i);
    }
    SameBits(w, v);
  }

  // ----- Counting the set bits -----

  /** The number of bits set among the low n bits. */
  function Population(v: bv64, n: nat): nat {
    if n == 0 then 0 else (if v & 1 == 1 then 1 else 0) + Population(v >> 1, n - 1)
  }

  // The same number as a word, and the sums of the lowest n fields of two, four and eight bits.

  function Down1(v: bv64): bv64 {
    v >> 1
  }

  function Down2(v: bv64): bv64 {
    v >> 2
  }

  function Down4(v: bv64): bv64 {
    v >> 4
  }

  function Down8(v: bv64): bv64 {
    v >> 8
  }

  function BitSum(v: bv64, n: nat): bv64 {
    if n == 0 then 0 else Plus(And(v, 1), BitSum(Down1(v), n - 1))
  }

  function PairSum(v: bv64, n: nat): bv64 {
    if n == 0 then 0 else Plus(And(v, 3), PairSum(Down2(v), n - 1))
  }

  function NibbleSum(v: bv64, n: nat): bv64 {
    if n == 0 then 0 else Plus(And(v, 15), NibbleSum(Down4(v), n - 1))
  }

  function ByteSum(v: bv64, n: nat): bv64 {
    if n == 0 then 0 else Plus(And(v, 255), ByteSum(Down8(v), n - 1))
  }

  // ----- Three steps that add neighbouring fields -----

  function Pairs(v: bv64): bv64 {
    v - ((v >> 1) & 0x5555_5555_5555_5555)
  }

  function Nibbles(v: bv64): bv64 {
    (v & 0x3333_3333_3333_3333) + ((v >> 2) & 0x3333_3333_3333_3333)
  }

  function Bytes(v: bv64): bv64 {
    (v + (v >> 4)) & 0x0F0F_0F0F_0F0F_0F0F
  }

  /** Every nibble is at most 4. */
  predicate SmallNibbles(v: bv64) {
    v & 0x8888_8888_8888_8888 == 0 && (v >> 2) & (v | (v >> 1)) & 0x1111_1111_1111_1111 == 0
  }

  /** Every byte is at most 8. */
  predicate SmallBytes(v: bv64) {
    v & 0xF0F0_F0F0_F0F0_F0F0 == 0 && (v >> 3) & (v | (v >> 1) | (v >> 2)) & 0x0101_0101_0101_0101 == 0
  }

  lemma PairsLow(v: bv64)
    ensures Alike(And(Pairs(v), 3), Plus(And(v, 1), And(Down1(v), 1)))
  {}

  lemma PairsDown(v: bv64)
    ensures Alike(Down2(Pairs(v)), Pairs(Down1(Down1(v))))
  {}

  lemma NibblesLow(v: bv64)
    ensures Alike(And(Nibbles(v), 15), Plus(And(v, 3), And(Down2(v), 3)))
  {}

  lemma NibblesDown(v: bv64)
    ensures Alike(Down4(Nibbles(v)), Nibbles(Down2(Down2(v))))
  {}

  lemma BytesLow(v: bv64)
    requires SmallNibbles(v)
    ensures Alike(And(Bytes(v), 255), Plus(And(v, 15), And(Down4(v), 15)))
  {}

  lemma BytesDown(v: bv64)
    requires SmallNibbles(v)
    ensures Alike(Down8(Bytes(v)), Bytes(Down4(Down4(v)))) && SmallNibbles(Down4(Down4(v)))
  {}

  lemma NibblesSmall(v: bv64)
    ensures SmallNibbles(Nibbles(Pairs(v)))
  {}

  lemma BytesSmall(v: bv64)
    requires SmallNibbles(v)
    ensures SmallBytes(Bytes(v))
  {}

  /** The multiplication adds all bytes into the topmost one. */
  function Top(v: bv64): bv64 {
    (v * 0x0101_0101_0101_0101) >> 56
  }

  lemma Factors(v: bv64)
    ensures By8(v) == v * 0x0101
    ensures By16(v * 0x0101) == v * 0x0101_0101
    ensures By32(v * 0x0101_0101) == v * 0x0101_0101_0101_0101
  {}

  lemma TopIs(v: bv64)
    ensures Top(v) == By32(By16(By8(v))) >> 56
  {
    hide By8, By16, By32;
    Factors(v);
  }

  function ByteAt(v: bv64, shift: bv8): bv64
    requires shift <= 56
  {
    (v >> shift) & 255
  }

  /** The bits of the mask are clear: what the bytes hold is small. */
  predicate Within(v: bv64, mask: bv64) {
    v & mask == 0
  }

  lemma AddNext(v: bv64)
    requires SmallBytes(v)
    ensures Within(By8(v), 0xE0E0_E0E0_E0E0_E0E0)
    ensures Alike(ByteAt(By8(v), 56), Plus(ByteAt(v, 56), ByteAt(v, 48)))
    ensures Alike(ByteAt(By8(v), 40), Plus(ByteAt(v, 40), ByteAt(v, 32)))
    ensures Alike(ByteAt(By8(v), 24), Plus(ByteAt(v, 24), ByteAt(v, 16)))
    ensures Alike(ByteAt(By8(v), 8), Plus(ByteAt(v, 8), ByteAt(v, 0)))
  {}

  lemma AddSecond(v: bv64)
    requires Within(v, 0xE0E0_E0E0_E0E0_E0E0)
    ensures Within(By16(v), 0xC0C0_C0C0_C0C0_C0C0)
  {}

  lemma AddSecondHigh(v: bv64)
    requires Within(v, 0xE0E0_E0E0_E0E0_E0E0)
    ensures Alike(ByteAt(By16(v), 56), Plus(ByteAt(v, 56), ByteAt(v, 40)))
  {}

  lemma AddSecondLow(v: bv64)
    requires Within(v, 0xE0E0_E0E0_E0E0_E0E0)
    ensures Alike(ByteAt(By16(v), 24), Plus(ByteAt(v, 24), ByteAt(v, 8)))
  {}

  lemma AddFourth(v: bv64)
    requires Within(v, 0xC0C0_C0C0_C0C0_C0C0)
    ensures Alike(By32(v) >> 56, Plus(ByteAt(v, 56), ByteAt(v, 24)))
  {}

  function HighBytes(v: bv64): bv64 {
    Plus(Plus(ByteAt(v, 56), ByteAt(v, 48)), Plus(ByteAt(v, 40), ByteAt(v, 32)))
  }

  function LowBytes(v: bv64): bv64 {
    Plus(Plus(ByteAt(v, 24), ByteAt(v, 16)), Plus(ByteAt(v, 8), ByteAt(v, 0)))
  }

  lemma TopOfBytes(v: bv64)
    requires SmallBytes(v)
    ensures Top(v) == Plus(HighBytes(v), LowBytes(v))
  {
    hide SmallBytes, Within, ByteAt, By8, By16, By32, Plus, Alike, Top;
    TopIs(v);
    var u := By8(v);
    var w := By16(u);
    AddNext(v);
    Same(ByteAt(u, 56), Plus(ByteAt(v, 56), ByteAt(v, 48)));
    Same(ByteAt(u, 40), Plus(ByteAt(v, 40), ByteAt(v, 32)));
    Same(ByteAt(u, 24), Plus(ByteAt(v, 24), ByteAt(v, 16)));
    Same(ByteAt(u, 8), Plus(ByteAt(v, 8), ByteAt(v, 0)));
    AddSecond(u);
    AddSecondHigh(u);
    AddSecondLow(u);
    Same(ByteAt(w, 56), Plus(ByteAt(u, 56), ByteAt(u, 40)));
    Same(ByteAt(w, 24), Plus(ByteAt(u, 24), ByteAt(u, 8)));
    AddFourth(w);
    Same(By32(w) >> 56, Plus(ByteAt(w, 56), ByteAt(w, 24)));
  }

  // ----- Each step keeps the sum -----

  lemma {:induction false} PairsSum(v: bv64, n: nat)
    ensures PairSum(Pairs(v), n) == BitSum(v, n + n)
    decreases n
  {
    hide And, Plus, Down1, Down2, Pairs, Alike;
    if n > 0 {
      PairsLow(v);
      Same(And(Pairs(v), 3), Plus(And(v, 1), And(Down1(v), 1)));
      PairsDown(v);
      Same(Down2(Pairs(v)), Pairs(Down1(Down1(v))));
      PairsSum(Down1(Down1(v)), n - 1);
      var rest := BitSum(Down1(Down1(v)), n - 1 + n - 1);
      PlusAssociates(And(v, 1), And(Down1(v), 1), rest);
      assert BitSum(v, n + n) == Plus(And(v, 1), BitSum(Down1(v), n + n - 1));
      assert BitSum(Down1(v), n + n - 1) == Plus(And(Down1(v), 1), rest);
    }
  }

  lemma {:induction false} NibblesSum(v: bv64, n: nat)
    ensures NibbleSum(Nibbles(v), n) == PairSum(v, n + n)
    decreases n
  {
    hide And, Plus, Down2, Down4, Nibbles, Alike;
    if n > 0 {
      NibblesLow(v);
      Same(And(Nibbles(v), 15), Plus(And(v, 3), And(Down2(v), 3)));
      NibblesDown(v);
      Same(Down4(Nibbles(v)), Nibbles(Down2(Down2(v))));
      NibblesSum(Down2(Down2(v)), n - 1);
      var rest := PairSum(Down2(Down2(v)), n - 1 + n - 1);
      PlusAssociates(And(v, 3), And(Down2(v), 3), rest);
      assert PairSum(v, n + n) == Plus(And(v, 3), PairSum(Down2(v), n + n - 1));
      assert PairSum(Down2(v), n + n - 1) == Plus(And(Down2(v), 3), rest);
    }
  }

  lemma {:induction false} BytesSum(v: bv64, n: nat)
    requires SmallNibbles(v)
    ensures ByteSum(Bytes(v), n) == NibbleSum(v, n + n)
    decreases n
  {
    hide And, Plus, Down4, Down8, Bytes, Alike, SmallNibbles;
    if n > 0 {
      BytesLow(v);
      Same(And(Bytes(v), 255), Plus(And(v, 15), And(Down4(v), 15)));
      BytesDown(v);
      Same(Down8(Bytes(v)), Bytes(Down4(Down4(v))));
      BytesSum(Down4(Down4(v)), n - 1);
      var rest := NibbleSum(Down4(Down4(v)), n - 1 + n - 1);
      PlusAssociates(And(v, 15), And(Down4(v), 15), rest);
      assert NibbleSum(v, n + n) == Plus(And(v, 15), NibbleSum(Down4(v), n + n - 1));
      assert NibbleSum(Down4(v), n + n - 1) == Plus(And(Down4(v), 15), rest);
    }
  }

  function Upper(v: bv64): bv64 {
    v >> 32
  }

  lemma ByteSteps(v: bv64)
    ensures And(v, 255) == ByteAt(v, 0) && And(Down8(v), 255) == ByteAt(v, 8)
    ensures And(Down8(Down8(v)), 255) == ByteAt(v, 16) && And(Down8(Down8(Down8(v))), 255) == ByteAt(v, 24)
  {}

  lemma FourDown(v: bv64)
    ensures Alike(Down8(Down8(Down8(Down8(v)))), Upper(v))
  {}

  lemma HighSteps(v: bv64)
    ensures ByteAt(Upper(v), 0) == ByteAt(v, 32) && ByteAt(Upper(v), 8) == ByteAt(v, 40)
    ensures ByteAt(Upper(v), 16) == ByteAt(v, 48) && ByteAt(Upper(v), 24) == ByteAt(v, 56)
  {}

  lemma Commute(x: bv64, y: bv64)
    ensures Plus(x, y) == Plus(y, x)
  {}

  lemma FourPlus(a: bv64, b: bv64, c: bv64, d: bv64, rest: bv64)
    ensures Plus(a, Plus(b, Plus(c, Plus(d, rest)))) == Plus(Plus(Plus(d, c), Plus(b, a)), rest)
  {
    hide *;
    PlusAssociates(c, d, rest);
    PlusAssociates(a, b, Plus(Plus(c, d), rest));
    PlusAssociates(Plus(a, b), Plus(c, d), rest);
    Commute(c, d);
    Commute(a, b);
    Commute(Plus(a, b), Plus(c, d));
  }

  lemma ByteSumFour(v: bv64, n: nat)
    requires n >= 4
    ensures ByteSum(v, n) == Plus(LowBytes(v), ByteSum(Upper(v), n - 4))
  {
    hide And, Plus, Down8, ByteAt, Upper, Alike;
    ByteSteps(v);
    FourDown(v);
    Same(Down8(Down8(Down8(Down8(v)))), Upper(v));
    var rest := ByteSum(Upper(v), n - 4);
    assert ByteSum(Down8(Down8(v)), n - 2) == Plus(ByteAt(v, 16), Plus(ByteAt(v, 24), rest));
    FourPlus(ByteAt(v, 0), ByteAt(v, 8), ByteAt(v, 16), ByteAt(v, 24), rest);
  }

  lemma ByteSumNone(v: bv64)
    ensures ByteSum(v, 0) == 0
  {}

  lemma SumOfEight(v: bv64)
    ensures ByteSum(v, 8) == Plus(HighBytes(v), LowBytes(v))
  {
    hide *;
    ByteSumFour(v, 8);
    ByteSumFour(Upper(v), 4);
    ByteSumNone(Upper(Upper(v)));
    PlusZero(LowBytes(Upper(v)));
    HighIsLow(v);
    Commute(LowBytes(v), HighBytes(v));
  }

  lemma HighIsLow(v: bv64)
    ensures LowBytes(Upper(v)) == HighBytes(v)
  {
    hide Plus, ByteAt;
    HighSteps(v);
  }

  // ----- The sum as a number -----

  lemma AddBit(b: bv64, x: bv64, n: nat)
    requires b <= 1 && x as int <= n < 64
    ensures Plus(b, x) as int == b as int + x as int
  {}

  lemma LowBit(v: bv64)
    ensures And(v, 1) <= 1 && And(v, 1) as int == if v & 1 == 1 then 1 else 0
  {}

  lemma PopulationStep(v: bv64, n: nat)
    requires n > 0
    ensures Population(v, n) == And(v, 1) as int + Population(Down1(v), n - 1) && And(v, 1) <= 1
    ensures And(v, 1) as int <= 1
  {
    hide And;
    LowBit(v);
  }

  lemma {:induction false} BitSumIsPopulation(v: bv64, n: nat)
    requires n <= 64
    ensures BitSum(v, n) as int == Population(v, n) <= n
    decreases n
  {
    hide And, Plus, Down1, Population;
    if n == 0 {
      PopulationNone(v);
    } else {
      BitSumIsPopulation(Down1(v), n - 1);
      PopulationStep(v, n);
      AddBit(And(v, 1), BitSum(Down1(v), n - 1), n - 1);
    }
  }

  lemma PopulationNone(v: bv64)
    ensures Population(v, 0) == 0 && BitSum(v, 0) as int == 0
  {}

  lemma WholeWord(v: bv64)
    ensures Top(Bytes(Nibbles(Pairs(v)))) == BitSum(v, 64)
  {
    hide *;
    var pairs := Pairs(v);
    var nibbles := Nibbles(pairs);
    var bytes := Bytes(nibbles);
    PairsSum(v, 32);
    NibblesSum(pairs, 16);
    NibblesSmall(v);
    BytesSum(nibbles, 8);
    BytesSmall(nibbles);
    TopOfBytes(bytes);
    SumOfEight(bytes);
  }

  /** The generic routine for 64-bit words. */
  method CountSetBits64(value: bv64) returns (count: int)
    ensures count == Population(value, 64)
  {
    hide *;
    var v := value;
    v := Pairs(v);
    v := Nibbles(v);
    v := Bytes(v);
    v := Top(v);
    WholeWord(value);
    BitSumIsPopulation(value, 64);
    count := v as int;
  }

  // ----- The same steps on 32-bit words -----

  function Pairs32(v: bv32): bv32 {
    v - ((v >> 1) & 0x5555_5555)
  }

  function Nibbles32(v: bv32): bv32 {
    (v & 0x3333_3333) + ((v >> 2) & 0x3333_3333)
  }

  function Bytes32(v: bv32): bv32 {
    (v + (v >> 4)) & 0x0F0F_0F0F
  }

  function Top32(v: bv32): bv32 {
    (v * 0x0101_0101) >> 24
  }

  function Widen(v: bv32): bv64 {
    v as bv64
  }

  lemma WidenPairs(v: bv32)
    ensures Alike(Widen(Pairs32(v)), Pairs(Widen(v)))
  {}

  lemma WidenNibbles(v: bv32)
    ensures Alike(Widen(Nibbles32(v)), Nibbles(Widen(v)))
  {}

  lemma WidenBytes(v: bv32)
    requires SmallNibbles(Widen(v))
    ensures Alike(Widen(Bytes32(v)), Bytes(Widen(v)))
  {}

  lemma WidenTop(v: bv32)
    requires SmallBytes(Widen(v))
    ensures Alike(Widen(Top32(v)), LowBytes(Widen(v)))
  {}

  lemma WidenInt(v: bv32)
    requires Widen(v) as int <= 64
    ensures Widen(v) as int == v as int
  {}

  lemma HalfWord(v: bv32)
    ensures Widen(Top32(Bytes32(Nibbles32(Pairs32(v))))) == BitSum(Widen(v), 32)
  {
    hide *;
    var pairs := Pairs32(v);
    var nibbles := Nibbles32(pairs);
    var bytes := Bytes32(nibbles);
    WidenPairs(v);
    Same(Widen(pairs), Pairs(Widen(v)));
    WidenNibbles(pairs);
    Same(Widen(nibbles), Nibbles(Widen(pairs)));
    PairsSum(Widen(v), 16);
    NibblesSum(Widen(pairs), 8);
    NibblesSmall(Widen(v));
    WidenBytes(nibbles);
    Same(Widen(bytes), Bytes(Widen(nibbles)));
    BytesSum(Widen(nibbles), 4);
    BytesSmall(Widen(nibbles));
    WidenTop(bytes);
    Same(Widen(Top32(bytes)), LowBytes(Widen(bytes)));
    ByteSumFour(Widen(bytes), 4);
    ByteSumNone(Upper(Widen(bytes)));
    PlusZero(LowBytes(Widen(bytes)));
  }

  lemma HalfSum(v: bv32, top: bv32)
    requires top == Top32(Bytes32(Nibbles32(Pairs32(v))))
    ensures top as int == Population(v as bv64, 32)
  {
    hide *;
    HalfWord(v);
    BitSumIsPopulation(Widen(v), 32);
    WidenInt(top);
    WidenIs(v);
  }

  /** The generic routine for 32-bit words. */
  method CountSetBits32(value: bv32) returns (count: int)
    ensures count == Population(value as bv64, 32)
  {
    hide *;
    var v := value;
    v := Pairs32(v);
    v := Nibbles32(v);
    v := Bytes32(v);
    v := Top32(v);
    HalfSum(value, v);
    count := v as int;
  }

  lemma WidenIs(v: bv32)
    ensures Widen(v) == v as bv64
  {}

  // ----- Reversing the bytes of a word -----

  function Swap16(x: bv16): bv16 {
    (x >> 8) | (x << 8)
  }

  function Swap32(x: bv32): bv32 {
    ((Swap16((x & 0xFFFF) as bv16) as bv32) << 16) | (Swap16((x >> 16) as bv16) as bv32)
  }

  function Swap64(x: bv64): bv64 {
    ((Swap32((x & 0xFFFF_FFFF) as bv32) as bv64) << 32) | (Swap32((x >> 32) as bv32) as bv64)
  }

  function Byte32(x: bv32, i: bv32): bv32
    requires i <= 3
  {
    (x >> (8 * i)) & 0xFF
  }

  function Byte64(x: bv64, i: bv64): bv64
    requires i <= 7
  {
    (x >> (8 * i)) & 0xFF
  }

  lemma Swap32Reverses(x: bv32, i: bv32)
    requires i <= 3
    ensures Byte32(Swap32(x), i) == Byte32(x, 3 - i) && Swap32(Swap32(x)) == x
  {}

  lemma Swap64Reverses(x: bv64, i: bv64)
    requires i <= 7
    ensures Byte64(Swap64(x), i) == Byte64(x, 7 - i) && Swap64(Swap64(x)) == x
  {}
}
