/** The flags of a 32-bit comparison: computed like the processor does, from sums one bit wider, they order the
    operands. */
module Compare32 {
  import opened Basics
  import opened Words32

  // ----- By order -----

  predicate IsBelow(x: bv32, y: bv32) {
    x < y
  }

  predicate IsNegative(x: bv32) {
    x & 0x8000_0000 != 0
  }

  /** x < y as signed numbers. */
  predicate IsLess(x: bv32, y: bv32) {
    if IsNegative(x) == IsNegative(y) then IsBelow(x, y) else IsNegative(x)
  }

  /** N is the sign of x - y, Z equality, C unsigned order; N and V differ exactly when x is less. */
  function Comparison(x: bv32, y: bv32): Flags {
    var negative := IsNegative(Minus(x, y));
    Flags(negative, x == y, !IsBelow(x, y), negative != IsLess(x, y))
  }

  // ----- By sums -----

  function Wide(x: bv32): bv33 {
    x as bv33
  }

  /** x as a signed number one bit wider. */
  function Signed(x: bv32): bv33 {
    (x as bv33) | (((x & 0x8000_0000) as bv33) << 1)
  }

  function Sum(x: bv33, y: bv33): bv33 {
    x + y
  }

  /** NZCV of a sum, given its unsigned and its signed value one bit wider. */
  function SumFlags(unsigned: bv33, signed: bv33): Flags {
    Flags((unsigned >> 31) & 1 == 1, unsigned & 0xFFFF_FFFF == 0, unsigned >> 32 == 1,
          signed >> 32 != (signed >> 31) & 1)
  }

  function AddFlags(x: bv32, y: bv32): Flags {
    SumFlags(Sum(Wide(x), Wide(y)), Sum(Signed(x), Signed(y)))
  }

  /** Subtraction is addition of the complement and a carry. */
  function SubFlags(x: bv32, y: bv32): Flags {
    SumFlags(Sum(Wide(x), Wide(Not(y)) + 1), Sum(Signed(x), Signed(Not(y)) + 1))
  }

  lemma AddFlagsIs(x: bv32, y: bv32)
    ensures AddFlags(x, y) == SumFlags(Sum(Wide(x), Wide(y)), Sum(Signed(x), Signed(y)))
  {
    hide SumFlags, Sum, Wide, Signed;
  }

  lemma SubFlagsIs(x: bv32, y: bv32)
    ensures SubFlags(x, y) == SumFlags(Sum(Wide(x), Wide(Not(y)) + 1), Sum(Signed(x), Signed(Not(y)) + 1))
  {
    hide SumFlags, Sum, Wide, Signed, Not;
  }

  // ----- Differences one bit wider -----

  function Diff(a: bv33, b: bv33): bv33 {
    a - b
  }

  function Raised(a: bv33): bv33 {
    a + 0x1_0000_0000
  }

  function Lowered(a: bv33): bv33 {
    a - 0x1_0000_0000
  }

  function Rest(b: bv33): bv33 {
    0x1_0000_0000 - b
  }

  predicate HasCarry(s: bv32, k: bv32) {
    ((s as bv33) + (k as bv33)) >> 32 == 1
  }

  lemma WideIs(x: bv32)
    ensures Wide(x) == x as bv33
  {}

  lemma SumIs(a: bv33, b: bv33)
    ensures Sum(a, b) == a + b
  {}

  lemma RaisedIs(a: bv33)
    ensures Raised(a) == a + 0x1_0000_0000
  {}

  lemma LoweredIs(a: bv33)
    ensures Lowered(a) == a - 0x1_0000_0000
  {}

  lemma RestIs(b: bv33)
    ensures Rest(b) == 0x1_0000_0000 - b
  {}

  lemma HasCarryIs(s: bv32, k: bv32)
    ensures HasCarry(s, k) <==> ((s as bv33) + (k as bv33)) >> 32 == 1
  {}

  lemma WideSum(s: bv32, k: bv32)
    ensures Wide(Plus(s, k)) == (s + k) as bv33
    ensures Sum(Wide(s), Wide(k)) == (s as bv33) + (k as bv33)
    ensures Lowered(Sum(Wide(s), Wide(k))) == (s as bv33) + (k as bv33) - 0x1_0000_0000
  {}

  lemma BitsCarry(s: bv32, k: bv32)
    requires ((s as bv33) + (k as bv33)) >> 32 == 1
    ensures (s + k) as bv33 == (s as bv33) + (k as bv33) - 0x1_0000_0000
  {}

  lemma BitsFit(s: bv32, k: bv32)
    requires ((s as bv33) + (k as bv33)) >> 32 != 1
    ensures (s + k) as bv33 == (s as bv33) + (k as bv33)
  {}

  lemma Carries(s: bv32, k: bv32)
    requires HasCarry(s, k)
    ensures Wide(Plus(s, k)) == Lowered(Sum(Wide(s), Wide(k)))
  {
    hide *;
    HasCarryIs(s, k);
    WideSum(s, k);
    BitsCarry(s, k);
  }

  lemma Fits(s: bv32, k: bv32)
    requires !HasCarry(s, k)
    ensures Wide(Plus(s, k)) == Sum(Wide(s), Wide(k))
  {
    hide *;
    HasCarryIs(s, k);
    WideSum(s, k);
    BitsFit(s, k);
  }

  lemma CarryBelow(s: bv32, k: bv32)
    requires HasCarry(s, k)
    ensures Plus(s, k) < k
  {}

  lemma BitsNotBelow(y: bv32, s: bv32, k: bv32)
    requires (y as bv33) - (s as bv33) == k as bv33
    ensures k <= y
  {}

  lemma DiffIs(y: bv32, s: bv32, k: bv32)
    ensures Diff(Wide(y), Wide(s)) == (y as bv33) - (s as bv33) && Wide(k) == k as bv33
  {}

  lemma NotBelow(y: bv32, s: bv32, k: bv32)
    requires Diff(Wide(y), Wide(s)) == Wide(k)
    ensures k <= y
  {
    hide *;
    DiffIs(y, s, k);
    BitsNotBelow(y, s, k);
  }

  lemma DiffCancels(a: bv33, b: bv33)
    ensures Diff(a + b, a) == b
  {}

  lemma SumCancels(a: bv33, b: bv33)
    ensures Sum(a + b, 0x1_0000_0000 - b) == a + 0x1_0000_0000
    ensures Sum(a + b - 0x1_0000_0000, 0x1_0000_0000 - b) == a
  {}

  lemma Cancels(a: bv33, b: bv33)
    ensures Diff(Sum(a, b), a) == b
    ensures Sum(Sum(a, b), Rest(b)) == Raised(a)
    ensures Sum(Lowered(Sum(a, b)), Rest(b)) == a
  {
    hide *;
    DiffCancels(a, b);
    SumCancels(a, b);
    SumIs(a, b);
    RestIs(b);
    RaisedIs(a);
    LoweredIs(Sum(a, b));
  }

  /** x from its difference to k: whether there is a carry tells their order. */
  lemma FromDifference(x: bv32, k: bv32)
    ensures var sum := Sum(Wide(Minus(x, k)), Wide(k)); Wide(x) == if k <= x then sum else Lowered(sum)
  {
    hide *;
    var s := Minus(x, k);
    MinusThenPlus(x, k);
    if HasCarry(s, k) {
      Carries(s, k);
      CarryBelow(s, k);
    } else {
      Fits(s, k);
      Cancels(Wide(s), Wide(k));
      NotBelow(x, s, k);
    }
  }

  lemma WideNot(k: bv32)
    ensures Wide(Not(k)) + 1 == Rest(Wide(k))
  {}

  lemma UnsignedSum(x: bv32, k: bv32)
    ensures Sum(Wide(x), Wide(Not(k)) + 1) == if k <= x then Raised(Wide(Minus(x, k))) else Wide(Minus(x, k))
  {
    hide *;
    WideNot(k);
    FromDifference(x, k);
    Cancels(Wide(Minus(x, k)), Wide(k));
  }

  // ----- Signed numbers are unsigned ones, moved by half the range -----

  function Flip(x: bv32): bv32 {
    x ^ 0x8000_0000
  }

  function Half(a: bv33): bv33 {
    a - 0x8000_0000
  }

  function UpToHalf(b: bv33): bv33 {
    0x8000_0000 - b
  }

  lemma SignedIs(x: bv32)
    ensures Signed(x) == Half(Wide(Flip(x)))
  {}

  lemma SignedNot(k: bv32)
    ensures Signed(Not(k)) + 1 == UpToHalf(Wide(Flip(k)))
  {}

  lemma UpToHalfIs(b: bv33)
    ensures UpToHalf(b) == 0x8000_0000 - b
  {}

  lemma HalfOfSum(a: bv33, b: bv33)
    ensures Half(Sum(a, b)) == a + b - 0x8000_0000
  {}

  lemma HalfOfLowered(a: bv33, b: bv33)
    ensures Half(Lowered(Sum(a, b))) == a + b - 0x1_0000_0000 - 0x8000_0000
  {}

  lemma HalfSumCancels(a: bv33, b: bv33)
    ensures Sum(a + b - 0x8000_0000, 0x8000_0000 - b) == a
  {}

  lemma LoweredSumCancels(a: bv33, b: bv33)
    ensures Sum(a + b - 0x1_0000_0000 - 0x8000_0000, 0x8000_0000 - b)
         == a - 0x1_0000_0000
  {}

  lemma HalfCancels(a: bv33, b: bv33)
    ensures Sum(Half(Sum(a, b)), UpToHalf(b)) == a
  {
    hide *;
    HalfOfSum(a, b);
    UpToHalfIs(b);
    HalfSumCancels(a, b);
  }

  lemma LoweredCancels(a: bv33, b: bv33)
    ensures Sum(Half(Lowered(Sum(a, b))), UpToHalf(b)) == Lowered(a)
  {
    hide *;
    HalfOfLowered(a, b);
    UpToHalfIs(b);
    LoweredSumCancels(a, b);
    LoweredIs(a);
  }

  lemma FlipAdds(x: bv32)
    ensures Flip(x) == x + 0x8000_0000
  {}

  lemma MovedDifference(x: bv32, k: bv32)
    ensures Minus(x + 0x8000_0000, k + 0x8000_0000) == x - k
  {}

  lemma FlippedDifference(x: bv32, k: bv32)
    ensures Minus(Flip(x), Flip(k)) == Minus(x, k)
  {
    hide *;
    FlipAdds(x);
    FlipAdds(k);
    MovedDifference(x, k);
    MinusIs(x, k);
  }

  lemma SignedSum(x: bv32, k: bv32)
    ensures Sum(Signed(x), Signed(Not(k)) + 1)
         == if Flip(k) <= Flip(x) then Wide(Minus(x, k)) else Lowered(Wide(Minus(x, k)))
  {
    hide *;
    SignedIs(x);
    SignedNot(k);
    FromDifference(Flip(x), Flip(k));
    FlippedDifference(x, k);
    HalfCancels(Wide(Minus(x, k)), Wide(Flip(k)));
    LoweredCancels(Wide(Minus(x, k)), Wide(Flip(k)));
  }

  lemma FlipIs(x: bv32)
    ensures Flip(x) == x ^ 0x8000_0000
  {}

  lemma IsNegativeIs(x: bv32)
    ensures IsNegative(x) <==> x & 0x8000_0000 != 0
  {}

  lemma BothClear(x: bv32, k: bv32)
    requires x & 0x8000_0000 == 0 && k & 0x8000_0000 == 0
    ensures IsBelow(x ^ 0x8000_0000, k ^ 0x8000_0000) <==> IsBelow(x, k)
  {}

  lemma BothSet(x: bv32, k: bv32)
    requires x & 0x8000_0000 != 0 && k & 0x8000_0000 != 0
    ensures IsBelow(x ^ 0x8000_0000, k ^ 0x8000_0000) <==> IsBelow(x, k)
  {}

  lemma BothPositive(x: bv32, k: bv32)
    requires !IsNegative(x) && !IsNegative(k)
    ensures IsBelow(Flip(x), Flip(k)) <==> IsBelow(x, k)
  {
    hide *;
    FlipIs(x);
    FlipIs(k);
    IsNegativeIs(x);
    IsNegativeIs(k);
    BothClear(x, k);
  }

  lemma BothNegative(x: bv32, k: bv32)
    requires IsNegative(x) && IsNegative(k)
    ensures IsBelow(Flip(x), Flip(k)) <==> IsBelow(x, k)
  {
    hide *;
    FlipIs(x);
    FlipIs(k);
    IsNegativeIs(x);
    IsNegativeIs(k);
    BothSet(x, k);
  }

  lemma OneNegative(x: bv32, k: bv32)
    requires IsNegative(x) && !IsNegative(k)
    ensures IsBelow(Flip(x), Flip(k)) && !IsBelow(Flip(k), Flip(x))
  {}

  lemma IsLessIs(x: bv32, k: bv32)
    ensures IsLess(x, k) <==> if IsNegative(x) == IsNegative(k) then IsBelow(x, k) else IsNegative(x)
  {
    hide IsNegative, IsBelow;
  }

  lemma FlippedOrder(x: bv32, k: bv32)
    ensures IsBelow(Flip(x), Flip(k)) <==> IsLess(x, k)
  {
    hide *;
    IsLessIs(x, k);
    if IsNegative(x) && IsNegative(k) {
      BothNegative(x, k);
    } else if IsNegative(x) {
      OneNegative(x, k);
    } else if IsNegative(k) {
      OneNegative(k, x);
    } else {
      BothPositive(x, k);
    }
  }

  // ----- Flags of a difference -----

  lemma FlagsRaisedLowered(s: bv32)
    ensures SumFlags((s as bv33) + 0x1_0000_0000, (s as bv33) - 0x1_0000_0000)
         == Flags(IsNegative(s), s == 0, true, !IsNegative(s))
  {}

  lemma FlagsRaised(s: bv32)
    ensures SumFlags((s as bv33) + 0x1_0000_0000, s as bv33)
         == Flags(IsNegative(s), s == 0, true, IsNegative(s))
  {}

  lemma FlagsLowered(s: bv32)
    ensures SumFlags(s as bv33, (s as bv33) - 0x1_0000_0000)
         == Flags(IsNegative(s), s == 0, false, !IsNegative(s))
  {}

  lemma FlagsPlain(s: bv32)
    ensures SumFlags(s as bv33, s as bv33) == Flags(IsNegative(s), s == 0, false, IsNegative(s))
  {}

  lemma FlagsOf(s: bv32, above: bool, less: bool)
    ensures SumFlags(if above then Raised(Wide(s)) else Wide(s), if less then Lowered(Wide(s)) else Wide(s))
         == Flags(IsNegative(s), s == 0, above, IsNegative(s) != less)
  {
    hide *;
    WideIs(s);
    RaisedIs(Wide(s));
    LoweredIs(Wide(s));
    if above && less {
      FlagsRaisedLowered(s);
    } else if above {
      FlagsRaised(s);
    } else if less {
      FlagsLowered(s);
    } else {
      FlagsPlain(s);
    }
  }

  lemma IsBelowIs(x: bv32, k: bv32)
    ensures IsBelow(x, k) <==> !(k <= x)
  {}

  lemma NoDifference(x: bv32)
    ensures Minus(x, x) == 0 && Plus(0, x) == x
  {}

  lemma ComparisonIs(x: bv32, y: bv32)
    ensures Comparison(x, y)
         == Flags(IsNegative(Minus(x, y)), x == y, !IsBelow(x, y), IsNegative(Minus(x, y)) != IsLess(x, y))
  {
    hide IsNegative, IsLess, Minus, IsBelow;
  }

  /** The flags of a subtraction order its operands. */
  lemma SubFlagsOrder(x: bv32, k: bv32)
    ensures SubFlags(x, k) == Comparison(x, k)
  {
    hide *;
    SubFlagsIs(x, k);
    UnsignedSum(x, k);
    SignedSum(x, k);
    FlagsOf(Minus(x, k), k <= x, IsLess(x, k));
    FlippedOrder(x, k);
    IsBelowIs(Flip(x), Flip(k));
    IsBelowIs(x, k);
    NoDifference(k);
    MinusThenPlus(x, k);
    ComparisonIs(x, k);
  }

  // ----- Adding the negated number instead -----

  lemma CarryIn(k: bv32)
    requires k != 0
    ensures Wide(Not(k)) + 1 == Wide(0 - k)
  {}

  lemma SignIn(k: bv32)
    requires k != 0x8000_0000
    ensures Signed(Not(k)) + 1 == Signed(0 - k)
  {}

  lemma FlagsDiffer(x: bv32)
    ensures AddFlags(x, 0).c != SubFlags(x, 0).c
    ensures AddFlags(x, 0x8000_0000).v != SubFlags(x, 0x8000_0000).v
  {}

  lemma NegatedEnds()
    ensures Negate(0) == 0 && Negate(0x8000_0000) == 0x8000_0000
  {}

  /** Adding the negated number sets all four flags like subtracting it, exactly when it is neither 0 nor the sign
      bit. */
  lemma NegationKeepsFlags(x: bv32, k: bv32)
    ensures AddFlags(x, Negate(k)) == SubFlags(x, k) <==> k != 0 && k != 0x8000_0000
  {
    hide *;
    if k != 0 && k != 0x8000_0000 {
      NegateIs(k);
      CarryIn(k);
      SignIn(k);
      AddFlagsIs(x, Negate(k));
      SubFlagsIs(x, k);
    } else {
      NegatedEnds();
      FlagsDiffer(x);
    }
  }
}
