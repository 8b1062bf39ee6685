/** Comparing with a constant by adding its negation: when CMN sets the flags of CMP. */
module Arm64Flags {
  import opened Basics
  import opened Arm64Machine
  import opened Words
  import opened Arm64Loads
  import opened Arm64Operations
  import Compare32
  import Compare64
  import Words32

  function SignBit(sf: bool): bv64 {
    if sf then 0x8000_0000_0000_0000 else 0x8000_0000
  }

  // ----- Ordering flags -----

  lemma IsNegative64(x: bv64)
    ensures IsNegative(true, x) <==> Compare64.IsNegative(x)
  {}

  lemma IsBelowIs(sf: bool, x: bv64, y: bv64)
    ensures IsBelow(sf, x, y) <==> Compare64.IsBelow(Trunc(sf, x), Trunc(sf, y))
  {
    hide Compare64.IsBelow, Trunc;
  }

  lemma IsNegative32(x: bv64)
    ensures IsNegative(false, x) <==> Compare32.IsNegative(LowWord(x))
  {}

  lemma LowWordBack(x: bv64)
    ensures Low32(x) == LowWord(x) as bv64 && LowWord(Low32(x)) == LowWord(x)
  {}

  lemma WordsBelow(a: bv32, b: bv32)
    ensures Compare64.IsBelow(a as bv64, b as bv64) <==> Compare32.IsBelow(a, b)
  {}

  lemma IsBelow32(x: bv64, y: bv64)
    ensures IsBelow(false, x, y) <==> Compare32.IsBelow(LowWord(x), LowWord(y))
  {
    hide *;
    IsBelowIs(false, x, y);
    TruncIs(false, x);
    TruncIs(false, y);
    LowWordBack(x);
    LowWordBack(y);
    WordsBelow(LowWord(x), LowWord(y));
  }

  lemma LowWordTrunc(x: bv64, y: bv64)
    ensures LowWord(x) == LowWord(y) <==> Trunc(false, x) == Trunc(false, y)
  {
    hide *;
    TruncIs(false, x);
    TruncIs(false, y);
    LowWordBack(x);
    LowWordBack(y);
  }

  lemma LowLeft(x: bv64, y: bv64)
    ensures Low32((x & 0xFFFF_FFFF) - y) == Low32(x - y)
  {}

  lemma LowRight(x: bv64, y: bv64)
    ensures Low32(x - (y & 0xFFFF_FFFF)) == Low32(x - y)
  {}

  lemma WordsMinus(a: bv32, b: bv32)
    ensures LowWord((a as bv64) - (b as bv64)) == a - b
  {}

  lemma MinusLeft(x: bv64, y: bv64)
    ensures Low32(Minus(Low32(x), y)) == Low32(Minus(x, y))
  {
    hide *;
    Low32Is(x);
    MinusIs(x & 0xFFFF_FFFF, y);
    MinusIs(x, y);
    LowLeft(x, y);
  }

  lemma MinusRight(x: bv64, y: bv64)
    ensures Low32(Minus(x, Low32(y))) == Low32(Minus(x, y))
  {
    hide *;
    Low32Is(y);
    MinusIs(x, y & 0xFFFF_FFFF);
    MinusIs(x, y);
    LowRight(x, y);
  }

  lemma MinusOfWords(a: bv32, b: bv32)
    ensures LowWord(Minus(a as bv64, b as bv64)) == Words32.Minus(a, b)
  {
    hide *;
    MinusIs(a as bv64, b as bv64);
    WordsMinus(a, b);
    Words32.MinusIs(a, b);
  }

  lemma LowWordMinus(x: bv64, y: bv64)
    ensures LowWord(Minus(x, y)) == Words32.Minus(LowWord(x), LowWord(y))
  {
    hide *;
    LowWordBack(x);
    LowWordBack(y);
    MinusLeft(x, y);
    MinusRight(Low32(x), y);
    LowWordBack(Minus(x, y));
    LowWordBack(Minus(Low32(x), Low32(y)));
    MinusOfWords(LowWord(x), LowWord(y));
  }

  lemma ComparisonIs(sf: bool, x: bv64, y: bv64)
    ensures Comparison(sf, x, y)
         == Flags(IsNegative(sf, Minus(x, y)), Trunc(sf, x) == Trunc(sf, y), !IsBelow(sf, x, y),
                  IsNegative(sf, Minus(x, y)) != IsLess(sf, x, y))
    ensures IsLess(sf, x, y)
       <==> if IsNegative(sf, x) == IsNegative(sf, y) then IsBelow(sf, x, y) else IsNegative(sf, x)
  {
    hide IsNegative, IsBelow, Trunc, Minus;
  }

  lemma SubFlagsAre(sf: bool, x: bv64, y: bv64)
    ensures AddSubFlags(sf, true, x, y)
         == if sf then Compare64.SubFlags(x, y) else Compare32.SubFlags(LowWord(x), LowWord(y))
    ensures AddSubFlags(sf, false, x, y)
         == if sf then Compare64.AddFlags(x, y) else Compare32.AddFlags(LowWord(x), LowWord(y))
  {
    hide Compare64.SubFlags, Compare32.SubFlags, Compare64.AddFlags, Compare32.AddFlags, LowWord;
  }

  /** A comparison leaves flags that order its operands. */
  lemma ComparisonOrders(sf: bool, x: bv64, y: bv64)
    ensures AddSubFlags(sf, true, x, y) == Comparison(sf, x, y)
  {
    hide *;
    SubFlagsAre(sf, x, y);
    ComparisonIs(sf, x, y);
    TruncIs(sf, x);
    TruncIs(sf, y);
    if sf {
      Compare64.SubFlagsOrder(x, y);
      Compare64.ComparisonIs(x, y);
      Compare64.IsLessIs(x, y);
      IsNegative64(x);
      IsNegative64(y);
      IsNegative64(Minus(x, y));
      IsBelowIs(true, x, y);
    } else {
      Compare32.SubFlagsOrder(LowWord(x), LowWord(y));
      Compare32.ComparisonIs(LowWord(x), LowWord(y));
      Compare32.IsLessIs(LowWord(x), LowWord(y));
      IsNegative32(x);
      IsNegative32(y);
      IsNegative32(Minus(x, y));
      IsBelow32(x, y);
      LowWordTrunc(x, y);
      LowWordMinus(x, y);
    }
  }

  lemma SignIs(sf: bool, x: bv64)
    ensures LogicalFlags(sf, x) == Sign(sf, x)
  {}

  // ----- Comparing with a constant by adding its negation -----

  lemma NegatedIsMinus(k: bv64)
    ensures Negated(false, k) == Signed32(Minus(0, k)) && Negated(true, k) == Negate(k)
  {}

  lemma WordOfSigned(x: bv64)
    ensures LowWord(Signed32(x)) == LowWord(x) && LowWord(0) == 0
  {}

  lemma WordNegate(a: bv32)
    ensures Words32.Minus(0, a) == Words32.Negate(a)
  {}

  lemma NegatedWord(k: bv64)
    ensures LowWord(Negated(false, k)) == Words32.Negate(LowWord(k)) && Negated(true, k) == Negate(k)
  {
    hide *;
    NegatedIsMinus(k);
    WordOfSigned(Minus(0, k));
    LowWordMinus(0, k);
    WordNegate(LowWord(k));
  }

  lemma LowWordEnds(k: bv64)
    ensures LowWord(k) == 0 <==> Trunc(false, k) == 0
    ensures LowWord(k) == 0x8000_0000 <==> Trunc(false, k) == 0x8000_0000
  {}

  lemma SignBitIs(sf: bool)
    ensures SignBit(sf) == if sf then 0x8000_0000_0000_0000 else 0x8000_0000
  {}

  /** CMN of the negated constant sets all four flags like CMP, for any constant and any register value, exactly when
      the constant is neither 0 nor the sign bit at the register width. */
  lemma RewriteKeepsFlags(sf: bool, x: bv64, k: bv64)
    ensures AddSubFlags(sf, false, x, Negated(sf, k)) == AddSubFlags(sf, true, x, k)
       <==> Trunc(sf, k) != 0 && Trunc(sf, k) != SignBit(sf)
  {
    hide *;
    SignBitIs(sf);
    TruncIs(sf, k);
    NegatedWord(k);
    SubFlagsAre(sf, x, k);
    SubFlagsAre(sf, x, Negated(sf, k));
    if sf {
      Compare64.NegationKeepsFlags(x, k);
    } else {
      LowWordEnds(k);
      Compare32.NegationKeepsFlags(LowWord(x), LowWord(k));
    }
  }

  /** A W register sees the low half of the constant only. */
  lemma LowFlags(x: bv64, k: bv64)
    ensures AddSubFlags(false, true, x, Low32(k)) == AddSubFlags(false, true, x, k)
  {
    hide *;
    SubFlagsAre(false, x, k);
    SubFlagsAre(false, x, Low32(k));
    LowWordBack(k);
  }

  /** Of the constants that reach the negated branch, none is the sign bit, and 0 is the low half of those only that do
      not fit a W register. */
  lemma NegatedBranch(sf: bool, k: bv64)
    requires !IsArithmetic(k) && IsArithmetic(Negated(sf, k))
    ensures Trunc(sf, k) != SignBit(sf)
    ensures Trunc(sf, k) == 0 ==> !sf && k > 0xFFFF_FFFF
  {}

  /** There the rewriting keeps the flags exactly when the constant is not 0 at the register width. */
  lemma RewrittenExactly(sf: bool, x: bv64, k: bv64)
    requires !IsArithmetic(k) && IsArithmetic(Negated(sf, k))
    ensures AddSubFlags(sf, false, x, Negated(sf, k)) == AddSubFlags(sf, true, x, k) <==> Trunc(sf, k) != 0
  {
    hide *;
    NegatedBranch(sf, k);
    RewriteKeepsFlags(sf, x, k);
  }

  lemma ExampleIs()
    ensures LowWord(Negated(false, 0x1_0000_0000)) == 0 && LowWord(0x1_0000_0000) == 0
  {}

  /** Comparing a W register with 2^32 becomes CMN of 0, which loses the carry. */
  lemma RewrittenExample(x: bv64)
    ensures !IsArithmetic(0x1_0000_0000) && IsArithmetic(Negated(false, 0x1_0000_0000))
    ensures AddSubFlags(false, false, x, Negated(false, 0x1_0000_0000)).c
         != AddSubFlags(false, true, x, 0x1_0000_0000).c
  {
    hide AddSubFlags, LowWord, Compare32.AddFlags, Compare32.SubFlags;
    SubFlagsAre(false, x, 0x1_0000_0000);
    SubFlagsAre(false, x, Negated(false, 0x1_0000_0000));
    ExampleIs();
    Compare32.FlagsDiffer(LowWord(x));
  }
}
