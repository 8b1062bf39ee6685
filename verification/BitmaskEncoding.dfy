/** Bitmask immediates: the recogniser of the emitter against the decoder of the architecture (Arm ARM DDI 0487,
    Appendix J1).

    A word has an encoding exactly when it, or its complement, is even and repeats one stretch of ones [p, q) every
    d bits. The recogniser finds p, q and d from the three lowest places where such a word changes. */
module BitmaskEncoding {
  import opened Words

  // ----- Words -----

  /** The word with only bit p set; bit 64 has been shifted out, so Bit(64) is 0. */
  function Bit(p: bv8): bv64
    requires p <= 64
  {
    1 << p
  }

  /** The word whose lowest n bits are set. */
  function Ones(n: bv8): bv64
    requires n <= 64
  {
    !(0xFFFF_FFFF_FFFF_FFFF << n)
  }

  /** The word whose bits from p up to but not including q are set. */
  function Span(p: bv8, q: bv8): bv64
    requires p <= 64 && q <= 64
  {
    Ones(q) ^ Ones(p)
  }

  predicate IsElementSize(d: bv8) {
    d == 2 || d == 4 || d == 8 || d == 16 || d == 32 || d == 64
  }

  // Two copies of a word side by side.

  function Beside2(x: bv64): bv64 {
    x | (x << 2)
  }

  function Beside4(x: bv64): bv64 {
    x | (x << 4)
  }

  function Beside8(x: bv64): bv64 {
    x | (x << 8)
  }

  function Beside16(x: bv64): bv64 {
    x | (x << 16)
  }

  function Beside32(x: bv64): bv64 {
    x | (x << 32)
  }

  /** The lowest `size` bits of e, repeated to fill 64 bits. */
  function Replicate(e: bv64, size: bv8): bv64 {
    var x4 := if size <= 2 then Beside2(e) else e;
    var x8 := if size <= 4 then Beside4(x4) else x4;
    var x16 := if size <= 8 then Beside8(x8) else x8;
    var x32 := if size <= 16 then Beside16(x16) else x16;
    if size <= 32 then Beside32(x32) else x32
  }

  function RotateRight(e: bv64, r: bv8, size: bv8): bv64
    requires size <= 64 && r <= size
  {
    ((e >> r) | (e << (size - r))) & Ones(size)
  }

  // ----- The architecture's decoder -----

  /** 2 to the position of the highest set bit of N:NOT(imms); 0 when that position is below 1. */
  function ElementSize(n: bv8, imms: bv8): bv8 {
    var t := (n << 6) | (imms ^ 0x3F);
    if t >= 64 then 64
    else if t >= 32 then 32
    else if t >= 16 then 16
    else if t >= 8 then 8
    else if t >= 4 then 4
    else if t >= 2 then 2
    else 0
  }

  predicate ValidEncoding(n: bv8, imms: bv8, immr: bv8) {
    && n <= 1 && imms < 64 && immr < 64
    && var size := ElementSize(n, imms);
    size != 0 && imms & (size - 1) != size - 1
  }

  function DecodeBitMasks(n: bv8, imms: bv8, immr: bv8): bv64
    requires ValidEncoding(n, imms, immr)
  {
    var size := ElementSize(n, imms);
    var S := imms & (size - 1);
    var R := immr & (size - 1);
    Replicate(RotateRight(Ones(S + 1), R, size), size)
  }

  /** The words that have an encoding. */
  ghost predicate IsLogicalPattern(v: bv64) {
    exists n, imms, immr :: ValidEncoding(n, imms, immr) && DecodeBitMasks(n, imms, immr) == v
  }

  // ----- Canonical form: an even word made of runs [p, q) repeated every d bits -----

  predicate IsSpan(p: bv8, q: bv8, d: bv8) {
    IsElementSize(d) && p <= 64 && q <= 64 && d <= 64 && 1 <= p < q <= d
  }

  ghost predicate IsRun(x: bv64) {
    exists p, q, d :: IsSpan(p, q, d) && Replicate(Span(p, q), d) == x
  }

  function Even(v: bv64): bv64 {
    if v & 1 != 0 then !v else v
  }

  // ----- Rotating a block of ones -----

  // A block of q - p ones rotated right by d - p is Span(p, q). A block of d - (q - p) ones rotated right
  // by d - q leaves exactly Span(p, q) clear. One lemma for each element size d.

  lemma SpanElement2(p: bv8, q: bv8, s: bv8, r: bv8)
    requires 1 <= p < q <= 2 && s <= 2 && r <= 2 && q == p + s && p + r == 2
    ensures RotateRight(Ones(s), r, 2) == Span(p, q)
  {}

  lemma GapElement2(p: bv8, q: bv8, s: bv8, r: bv8)
    requires 1 <= p < q <= 2 && s <= 2 && r <= 2 && s == p + r && q + r == 2
    ensures Replicate(RotateRight(Ones(s), r, 2), 2) == Not(Replicate(Span(p, q), 2))
  {}

  lemma SpanElement4(p: bv8, q: bv8, s: bv8, r: bv8)
    requires 1 <= p < q <= 4 && s <= 4 && r <= 4 && q == p + s && p + r == 4
    ensures RotateRight(Ones(s), r, 4) == Span(p, q)
  {}

  lemma GapElement4(p: bv8, q: bv8, s: bv8, r: bv8)
    requires 1 <= p < q <= 4 && s <= 4 && r <= 4 && s == p + r && q + r == 4
    ensures Replicate(RotateRight(Ones(s), r, 4), 4) == Not(Replicate(Span(p, q), 4))
  {}

  lemma SpanElement8(p: bv8, q: bv8, s: bv8, r: bv8)
    requires 1 <= p < q <= 8 && s <= 8 && r <= 8 && q == p + s && p + r == 8
    ensures RotateRight(Ones(s), r, 8) == Span(p, q)
  {}

  lemma GapElement8(p: bv8, q: bv8, s: bv8, r: bv8)
    requires 1 <= p < q <= 8 && s <= 8 && r <= 8 && s == p + r && q + r == 8
    ensures Replicate(RotateRight(Ones(s), r, 8), 8) == Not(Replicate(Span(p, q), 8))
  {}

  lemma SpanElement16(p: bv8, q: bv8, s: bv8, r: bv8)
    requires 1 <= p < q <= 16 && s <= 16 && r <= 16 && q == p + s && p + r == 16
    ensures RotateRight(Ones(s), r, 16) == Span(p, q)
  {}

  lemma GapElement16(p: bv8, q: bv8, s: bv8, r: bv8)
    requires 1 <= p < q <= 16 && s <= 16 && r <= 16 && s == p + r && q + r == 16
    ensures Replicate(RotateRight(Ones(s), r, 16), 16) == Not(Replicate(Span(p, q), 16))
  {}

  lemma SpanElement32(p: bv8, q: bv8, s: bv8, r: bv8)
    requires 1 <= p < q <= 32 && s <= 32 && r <= 32 && q == p + s && p + r == 32
    ensures RotateRight(Ones(s), r, 32) == Span(p, q)
  {}

  lemma GapElement32(p: bv8, q: bv8, s: bv8, r: bv8)
    requires 1 <= p < q <= 32 && s <= 32 && r <= 32 && s == p + r && q + r == 32
    ensures Replicate(RotateRight(Ones(s), r, 32), 32) == Not(Replicate(Span(p, q), 32))
  {}

  lemma ShiftOnesUp16(p: bv8, q: bv8)
    requires 1 <= p < q <= 64 && p <= 16
    ensures Ones(q - p) << p == Span(p, q)
  {}

  lemma ShiftOnesUp32(p: bv8, q: bv8)
    requires 1 <= p < q <= 64 && 16 <= p <= 32
    ensures Ones(q - p) << p == Span(p, q)
  {}

  lemma ShiftOnesUp64(p: bv8, q: bv8)
    requires 1 <= p < q <= 64 && 32 <= p
    ensures Ones(q - p) << p == Span(p, q)
  {}

  lemma ShiftOnesOut(p: bv8, q: bv8)
    requires 1 <= p < q <= 64
    ensures Ones(q - p) >> (64 - p) == 0
  {}

  lemma ShiftGapDown(p: bv8, q: bv8)
    requires 1 <= p < q <= 64
    ensures Ones(64 - (q - p)) >> (64 - q) == Ones(p)
  {}

  lemma ShiftGapUp(p: bv8, q: bv8)
    requires 1 <= p < q <= 64
    ensures Ones(64 - (q - p)) << q == !Ones(q)
  {}

  lemma GapPieces(p: bv8, q: bv8)
    requires 1 <= p < q <= 64
    ensures Ones(p) | !Ones(q) == !Span(p, q)
  {}

  lemma AllOnes()
    ensures Ones(64) == !0
  {}

  lemma RotateSpan64(p: bv8, q: bv8)
    requires 1 <= p < q <= 64
    ensures RotateRight(Ones(q - p), 64 - p, 64) == Span(p, q)
  {
    hide Ones, Span;
    AllOnes();
    ShiftOnesOut(p, q);
    if p <= 16 { ShiftOnesUp16(p, q); } else if p <= 32 { ShiftOnesUp32(p, q); } else { ShiftOnesUp64(p, q); }
  }

  lemma RotateGap64(p: bv8, q: bv8)
    requires 1 <= p < q <= 64
    ensures RotateRight(Ones(64 - (q - p)), 64 - q, 64) == Not(Span(p, q))
  {
    hide Ones, Span;
    AllOnes();
    ShiftGapDown(p, q);
    ShiftGapUp(p, q);
    GapPieces(p, q);
  }

  lemma ReplicateWhole(e: bv64)
    ensures Replicate(e, 64) == e
  {}

  lemma SpanElement64(p: bv8, q: bv8, s: bv8, r: bv8)
    requires 1 <= p < q <= 64 && s <= 64 && r <= 64 && q == p + s && p + r == 64
    ensures RotateRight(Ones(s), r, 64) == Span(p, q)
  {
    hide *;
    assert s == q - p && r == 64 - p;
    RotateSpan64(p, q);
  }

  lemma GapElement64(p: bv8, q: bv8, s: bv8, r: bv8)
    requires 1 <= p < q <= 64 && s <= 64 && r <= 64 && s == p + r && q + r == 64
    ensures Replicate(RotateRight(Ones(s), r, 64), 64) == Not(Replicate(Span(p, q), 64))
  {
    hide *;
    assert r == 64 - q && s == 64 - (q - p);
    RotateGap64(p, q);
    ReplicateWhole(RotateRight(Ones(s), r, 64));
    ReplicateWhole(Span(p, q));
  }

  lemma SpanElement(p: bv8, q: bv8, d: bv8, s: bv8, r: bv8)
    requires IsElementSize(d) && p <= 64 && q <= 64 && 1 <= p < q <= d <= 64
    requires s <= 64 && r <= 64 && s <= d && r <= d && q == p + s && p + r == d
    ensures RotateRight(Ones(s), r, d) == Span(p, q)
  {
    hide RotateRight, Ones, Span;
    if d == 2 { SpanElement2(p, q, s, r); }
    else if d == 4 { SpanElement4(p, q, s, r); }
    else if d == 8 { SpanElement8(p, q, s, r); }
    else if d == 16 { SpanElement16(p, q, s, r); }
    else if d == 32 { SpanElement32(p, q, s, r); }
    else { SpanElement64(p, q, s, r); }
  }

  lemma GapElement(p: bv8, q: bv8, d: bv8, s: bv8, r: bv8)
    requires IsElementSize(d) && p <= 64 && q <= 64 && 1 <= p < q <= d <= 64
    requires s <= 64 && r <= 64 && s <= d && r <= d && s == p + r && q + r == d
    ensures Replicate(RotateRight(Ones(s), r, d), d) == Not(Replicate(Span(p, q), d))
  {
    hide Replicate, RotateRight, Ones, Span, Not;
    if d == 2 { GapElement2(p, q, s, r); }
    else if d == 4 { GapElement4(p, q, s, r); }
    else if d == 8 { GapElement8(p, q, s, r); }
    else if d == 16 { GapElement16(p, q, s, r); }
    else if d == 32 { GapElement32(p, q, s, r); }
    else { GapElement64(p, q, s, r); }
  }

  // ----- Every encoding is a run or the complement of one -----

  lemma FieldRanges(n: bv8, imms: bv8, immr: bv8, d: bv8, s: bv8, r: bv8)
    requires ValidEncoding(n, imms, immr)
    requires d == ElementSize(n, imms) && s == (imms & (d - 1)) + 1 && r == immr & (d - 1)
    ensures IsElementSize(d) && s <= 64 && 1 <= s < d <= 64 && r < d
  {}

  lemma DecodeParts(n: bv8, imms: bv8, immr: bv8, d: bv8, s: bv8, r: bv8)
    requires ValidEncoding(n, imms, immr) && s <= 64 && r <= d <= 64
    requires d == ElementSize(n, imms) && s == (imms & (d - 1)) + 1 && r == immr & (d - 1)
    ensures DecodeBitMasks(n, imms, immr) == Replicate(RotateRight(Ones(s), r, d), d)
  {
    hide Replicate, RotateRight, Ones, ValidEncoding, ElementSize;
  }

  lemma PlaceWrapped(d: bv8, s: bv8, r: bv8, p: bv8, q: bv8)
    requires r < s < d <= 64 && q == d - r && p == s - r
    ensures p <= 64 && q <= 64 && 1 <= p < q <= d && s == p + r && q + r == d
  {}

  lemma PlaceWhole(d: bv8, s: bv8, r: bv8, p: bv8, q: bv8)
    requires 1 <= s <= r < d <= 64 && p == d - r && q == p + s
    ensures p <= 64 && q <= 64 && 1 <= p < q <= d
  {}

  lemma MinusPlus(p: bv8, d: bv8, r: bv8)
    requires p == d - r
    ensures p + r == d
  {}

  lemma WholeIsRun(d: bv8, s: bv8, r: bv8) returns (p: bv8, q: bv8)
    requires IsElementSize(d) && s <= 64 && r <= d <= 64 && 1 <= s <= r < d <= 64
    ensures p <= 64 && q <= 64 && 1 <= p < q <= d
    ensures Replicate(RotateRight(Ones(s), r, d), d) == Replicate(Span(p, q), d)
  {
    hide *;
    p := d - r;
    q := p + s;
    PlaceWhole(d, s, r, p, q);
    MinusPlus(p, d, r);
    SpanElement(p, q, d, s, r);
  }

  lemma WrappedIsGap(d: bv8, s: bv8, r: bv8) returns (p: bv8, q: bv8)
    requires IsElementSize(d) && s <= 64 && r <= d <= 64 && r < s < d <= 64
    ensures p <= 64 && q <= 64 && 1 <= p < q <= d
    ensures Replicate(RotateRight(Ones(s), r, d), d) == Not(Replicate(Span(p, q), d))
  {
    hide *;
    q := d - r;
    p := s - r;
    PlaceWrapped(d, s, r, p, q);
    GapElement(p, q, d, s, r);
  }

  /** A word that decodes from an encoding is a run, or leaves one clear when the rotated block wraps. */
  lemma EncodingIsRun(n: bv8, imms: bv8, immr: bv8) returns (p: bv8, q: bv8, d: bv8, odd: bool)
    requires ValidEncoding(n, imms, immr)
    ensures IsElementSize(d) && p <= 64 && q <= 64 && d <= 64 && 1 <= p < q <= d
    ensures DecodeBitMasks(n, imms, immr) == if odd then Not(Replicate(Span(p, q), d)) else Replicate(Span(p, q), d)
  {
    hide *;
    d := ElementSize(n, imms);
    var s := (imms & (d - 1)) + 1;
    var r := immr & (d - 1);
    FieldRanges(n, imms, immr, d, s, r);
    DecodeParts(n, imms, immr, d, s, r);
    odd := s > r;
    if odd {
      p, q := WrappedIsGap(d, s, r);
    } else {
      p, q := WholeIsRun(d, s, r);
    }
  }

  // ----- The lowest set bits of a run -----

  /** x has no bit set at d or above. */
  predicate Fits(x: bv64, d: bv8)
    requires d <= 64
  {
    x & !Ones(d) == 0
  }

  predicate Exceeds(x: bv64, mask: bv64) {
    x & !mask != 0
  }

  lemma ExceedsOnes(x: bv64, d: bv8)
    requires d <= 64
    ensures Exceeds(x, Ones(d)) <==> !Fits(x, d)
  {}

  function LargestPowerOf2Divisor(value: bv64): bv64 {
    value & (0 - value)
  }

  /** h is the lowest set bit of x. */
  predicate IsLow(x: bv64, h: bv64) {
    h & (h - 1) == 0 && x & h != 0 && x & (h - 1) == 0
  }

  lemma LowIs(x: bv64, h: bv64)
    requires IsLow(x, h)
    ensures LargestPowerOf2Divisor(x) == h
  {}

  lemma SpanLow(p: bv8, q: bv8)
    requires p < q <= 64
    ensures IsLow(Span(p, q), Bit(p))
  {}

  lemma SpanFits(p: bv8, q: bv8, d: bv8)
    requires p <= q <= d <= 64
    ensures Fits(Span(p, q), d)
  {}

  lemma ReplicateLow(m: bv64, p: bv8, d: bv8)
    requires IsElementSize(d) && p < d && p <= 64 && IsLow(m, Bit(p))
    ensures IsLow(Replicate(m, d), Bit(p))
  {}

  /** The lowest bit of x, of x with its lowest stretch carried away, and of what is left of x without it. */
  predicate Shape(x: bv64, a: bv64, b: bv64, c: bv64) {
    IsLow(x, a) && IsLow(Plus(x, a), b) && IsLow(Minus(Plus(x, a), b), c)
  }

  predicate Stretches(x: bv64, a: bv64, b: bv64, c: bv64) {
    && LargestPowerOf2Divisor(x) == a
    && LargestPowerOf2Divisor(Plus(x, a)) == b
    && LargestPowerOf2Divisor(Minus(Plus(x, a), b)) == c
  }

  lemma ShapeIsStretches(x: bv64, a: bv64, b: bv64, c: bv64)
    requires Shape(x, a, b, c)
    ensures Stretches(x, a, b, c)
  {
    hide LargestPowerOf2Divisor, IsLow, Plus, Minus;
    LowIs(x, a);
    LowIs(Plus(x, a), b);
    LowIs(Minus(Plus(x, a), b), c);
  }

  lemma RunShape2(p: bv8, q: bv8)
    requires 1 <= p < q <= 2
    ensures Shape(Replicate(Span(p, q), 2), Bit(p), Bit(q), Bit(p + 2))
  {}

  lemma RunShape4(p: bv8, q: bv8)
    requires 1 <= p < q <= 4
    ensures Shape(Replicate(Span(p, q), 4), Bit(p), Bit(q), Bit(p + 4))
  {}

  lemma RunShape8(p: bv8, q: bv8)
    requires 1 <= p < q <= 8
    ensures Shape(Replicate(Span(p, q), 8), Bit(p), Bit(q), Bit(p + 8))
  {}

  lemma RunShape16(p: bv8, q: bv8)
    requires 1 <= p < q <= 16
    ensures Shape(Replicate(Span(p, q), 16), Bit(p), Bit(q), Bit(p + 16))
  {}

  lemma RunSecond32(p: bv8, q: bv8)
    requires 1 <= p < q <= 32
    ensures IsLow(Plus(Replicate(Span(p, q), 32), Bit(p)), Bit(q))
  {}

  lemma RunThird32(p: bv8, q: bv8)
    requires 1 <= p < q <= 32
    ensures IsLow(Minus(Plus(Replicate(Span(p, q), 32), Bit(p)), Bit(q)), Bit(p + 32))
  {}

  lemma RunShape32(p: bv8, q: bv8)
    requires 1 <= p < q <= 32
    ensures Shape(Replicate(Span(p, q), 32), Bit(p), Bit(q), Bit(p + 32))
  {
    hide Replicate, Span, Bit, IsLow, Plus, Minus;
    SpanLow(p, q);
    ReplicateLow(Span(p, q), p, 32);
    RunSecond32(p, q);
    RunThird32(p, q);
  }

  // The word between the bits a and b is b - a, and adding a carries it into b; in four ranges of p.

  lemma SpanBounds8(p: bv8, q: bv8, a: bv64, b: bv64, x: bv64)
    requires 1 <= p < q <= 64 && p <= 8 && x == Span(p, q) && a == Bit(p) && b == Bit(q)
    ensures Minus(b, a) == x && Plus(x, a) == b
  {}

  lemma SpanBounds16(p: bv8, q: bv8, a: bv64, b: bv64, x: bv64)
    requires 1 <= p < q <= 64 && 8 <= p <= 16 && x == Span(p, q) && a == Bit(p) && b == Bit(q)
    ensures Minus(b, a) == x && Plus(x, a) == b
  {}

  lemma SpanBounds32(p: bv8, q: bv8, a: bv64, b: bv64, x: bv64)
    requires 1 <= p < q <= 64 && 16 <= p <= 32 && x == Span(p, q) && a == Bit(p) && b == Bit(q)
    ensures Minus(b, a) == x && Plus(x, a) == b
  {}

  lemma SpanBounds64(p: bv8, q: bv8, a: bv64, b: bv64, x: bv64)
    requires 1 <= p < q <= 64 && 32 <= p && x == Span(p, q) && a == Bit(p) && b == Bit(q)
    ensures Minus(b, a) == x && Plus(x, a) == b
  {}

  lemma SpanBounds(p: bv8, q: bv8, a: bv64, b: bv64, x: bv64)
    requires p <= 64 && 1 <= p < q <= 64 && x == Span(p, q) && a == Bit(p) && b == Bit(q)
    ensures Minus(b, a) == x && Plus(x, a) == b
  {
    hide *;
    if p <= 8 { SpanBounds8(p, q, a, b, x); }
    else if p <= 16 { SpanBounds16(p, q, a, b, x); }
    else if p <= 32 { SpanBounds32(p, q, a, b, x); }
    else { SpanBounds64(p, q, a, b, x); }
  }

  lemma LowOfBit(q: bv8, b: bv64)
    requires q <= 64 && b == Bit(q)
    ensures LargestPowerOf2Divisor(b) == b
    ensures LargestPowerOf2Divisor(0) == 0
    ensures Minus(b, b) == 0
  {}

  /** What the three lowest-bit searches find in a run. */
  lemma RunStretches(p: bv8, q: bv8, d: bv8, x: bv64)
    requires IsElementSize(d) && p <= 64 && q <= 64 && 1 <= p < q <= d && x == Replicate(Span(p, q), d)
    ensures d < 64 ==> p + d < 64
    ensures Stretches(x, Bit(p), Bit(q), if d < 64 then Bit(p + d) else 0)
  {
    hide Replicate, Span, Bit, Shape, Stretches, LargestPowerOf2Divisor;
    if d == 2 { RunShape2(p, q); }
    else if d == 4 { RunShape4(p, q); }
    else if d == 8 { RunShape8(p, q); }
    else if d == 16 { RunShape16(p, q); }
    else if d == 32 { RunShape32(p, q); }
    if d < 64 {
      assert Shape(x, Bit(p), Bit(q), Bit(p + d));
      ShapeIsStretches(x, Bit(p), Bit(q), Bit(p + d));
    } else {
      RunStretches64(p, q, x, Bit(p), Bit(q));
    }
  }

  lemma RunStretches64(p: bv8, q: bv8, x: bv64, a: bv64, b: bv64)
    requires p <= 64 && q <= 64 && 1 <= p < q <= 64 && x == Replicate(Span(p, q), 64) && a == Bit(p) && b == Bit(q)
    ensures Stretches(x, a, b, 0)
  {
    hide *;
    ReplicateWhole(Span(p, q));
    SpanLow(p, q);
    LowIs(x, a);
    SpanBounds(p, q, a, b, x);
    LowOfBit(q, b);
    WholeIsStretches(x, a, b);
  }

  lemma WholeIsStretches(x: bv64, a: bv64, b: bv64)
    requires LargestPowerOf2Divisor(x) == a && Plus(x, a) == b && Minus(b, b) == 0
    requires LargestPowerOf2Divisor(b) == b && LargestPowerOf2Divisor(0) == 0
    ensures Stretches(x, a, b, 0)
  {
    hide LargestPowerOf2Divisor;
  }

  lemma StretchesFirst(x: bv64, a: bv64, b: bv64, c: bv64, a': bv64, b': bv64, c': bv64)
    requires Stretches(x, a, b, c) && Stretches(x, a', b', c')
    ensures a == a'
  {
    hide LargestPowerOf2Divisor, Plus, Minus;
  }

  lemma StretchesSecond(x: bv64, a: bv64, b: bv64, c: bv64, b': bv64, c': bv64)
    requires Stretches(x, a, b, c) && Stretches(x, a, b', c')
    ensures b == b'
  {
    hide LargestPowerOf2Divisor, Plus, Minus;
  }

  lemma StretchesThird(x: bv64, a: bv64, b: bv64, c: bv64, c': bv64)
    requires Stretches(x, a, b, c) && Stretches(x, a, b, c')
    ensures c == c'
  {
    hide LargestPowerOf2Divisor, Plus, Minus;
  }

  lemma StretchesUnique(x: bv64, a: bv64, b: bv64, c: bv64, a': bv64, b': bv64, c': bv64)
    requires Stretches(x, a, b, c) && Stretches(x, a', b', c')
    ensures a == a' && b == b' && c == c'
  {
    hide *;
    StretchesFirst(x, a, b, c, a', b', c');
    StretchesSecond(x, a, b, c, b', c');
    StretchesThird(x, a, b, c, c');
  }

  // ----- Counting leading zeros -----

  /** n is the number of zeros above the highest set bit of x. */
  predicate IsClz(x: bv64, n: bv8) {
    n <= 64 && if n == 64 then x == 0 else x >> (63 - n) == 1
  }

  predicate IsSet(value: bv64, i: bv8)
    requires i <= 63
  {
    (value >> i) & 1 == 1
  }

  /** The bit looked at after `count` others, from the top of the low `width` bits. */
  function NextBit(width: bv8, count: bv8): (i: bv8)
    requires count < width <= 64
    ensures i <= 63
  {
    width - 1 - count
  }

  function Left(width: bv8, count: bv8): bv8 {
    width - count
  }

  /** The `count` topmost of the low `width` bits are clear. */
  ghost predicate ClearAbove(value: bv64, width: bv8, count: bv8)
    requires count <= width <= 64
  {
    forall i: bv8 :: width - count <= i < width ==> !IsSet(value, i)
  }

  /** The test of round count: the next bit, and 0 after the last. */
  function TestBit(width: bv8, count: bv8): bv64
    requires 1 <= width <= 64 && count <= width
  {
    if count == width then 0 else 1 << NextBit(width, count)
  }

  function TopBit(width: bv8): bv64
    requires 1 <= width <= 64
  {
    1 << (width - 1)
  }

  function Halved(test: bv64): bv64 {
    test >> 1
  }

  predicate Hits(test: bv64, value: bv64) {
    test & value != 0
  }

  lemma FirstTest(width: bv8)
    requires 1 <= width <= 64
    ensures TopBit(width) == TestBit(width, 0)
  {}

  lemma HalvedTest(width: bv8, count: bv8)
    requires 1 <= width <= 64 && count < width
    ensures Alike(Halved(TestBit(width, count)), TestBit(width, count + 1))
  {}

  lemma NextTest(width: bv8, count: bv8, next: bv8)
    requires 1 <= width <= 64 && count < width && next == count + 1
    ensures next <= width && Left(width, next) < Left(width, count)
    ensures Halved(TestBit(width, count)) == TestBit(width, next)
  {
    hide Halved, TestBit, Alike, NextBit;
    HalvedTest(width, count);
    Same(Halved(TestBit(width, count)), TestBit(width, next));
  }

  lemma TestsBit(value: bv64, width: bv8, count: bv8)
    requires 1 <= width <= 64 && count < width
    ensures Hits(TestBit(width, count), value) <==> IsSet(value, NextBit(width, count))
  {}

  lemma ClearNext(value: bv64, width: bv8, count: bv8, next: bv8)
    requires count < width <= 64 && next == count + 1 && ClearAbove(value, width, count)
             && !IsSet(value, NextBit(width, count))
    ensures next <= width && ClearAbove(value, width, next)
  {
    hide IsSet;
  }

  lemma ClearNone(value: bv64, width: bv8)
    requires width <= 64
    ensures ClearAbove(value, width, 0)
  {
    hide IsSet;
  }

  /** The number of clear bits above the highest set one among the low `width` bits. */
  method CountLeadingZeros(value: bv64, width: bv8) returns (count: bv8)
    requires 1 <= width <= 64
    ensures count <= width && ClearAbove(value, width, count)
    ensures count < width ==> IsSet(value, NextBit(width, count))
    ensures width == 64 ==> IsClz(value, count)
  {
    hide *;
    count := 0;
    var bit_test := TopBit(width);
    FirstTest(width);
    ClearNone(value, width);
    ClzStart(value);
    while count < width && !Hits(bit_test, value)
      invariant count <= width && ClearAbove(value, width, count) && bit_test == TestBit(width, count)
      invariant width == 64 ==> NoneAbove(value, count)
      decreases Left(width, count)
    {
      ghost var next := count + 1;
      TestsBit(value, width, count);
      NextTest(width, count, next);
      ClearNext(value, width, count, next);
      if width == 64 {
        NoneNext(value, width, count, next);
      }
      count := count + 1;
      bit_test := Halved(bit_test);
    }
    if count < width {
      TestsBit(value, width, count);
    }
    if width == 64 {
      ClzEnd(value, width, count);
    }
  }

  /** The topmost `count` bits of the word are clear. */
  predicate NoneAbove(value: bv64, count: bv8)
    requires count <= 64
  {
    value >> (64 - count) == 0
  }

  lemma ClzStart(value: bv64)
    ensures NoneAbove(value, 0)
  {}

  lemma NoneNext(value: bv64, width: bv8, count: bv8, next: bv8)
    requires width == 64 && count < width && next == count + 1
    requires NoneAbove(value, count) && !IsSet(value, NextBit(width, count))
    ensures next <= 64 && NoneAbove(value, next)
  {}

  lemma ClzEnd(value: bv64, width: bv8, count: bv8)
    requires width == 64 && count <= width && NoneAbove(value, count)
             && (count < width ==> IsSet(value, NextBit(width, count)))
    ensures IsClz(value, count)
  {}

  // ----- Words and their even form -----

  lemma RunIsEven(p: bv8, q: bv8, d: bv8)
    requires IsElementSize(d) && p <= 64 && q <= 64 && 1 <= p < q <= d
    ensures Replicate(Span(p, q), d) & 1 == 0
  {}

  lemma EvenOf(v: bv64, x: bv64, odd: bool)
    requires x & 1 == 0 && v == if odd then Not(x) else x
    ensures Even(v) == x
  {}

  lemma EvenBack(v: bv64)
    ensures v == if v & 1 == 0 then Even(v) else Not(Even(v))
    ensures Even(v) & 1 == 0
  {}

  lemma PatternGivesRun(v: bv64)
    requires IsLogicalPattern(v)
    ensures IsRun(Even(v))
  {
    hide Replicate, Span, Even, ValidEncoding, DecodeBitMasks, IsElementSize, Not;
    var n, imms, immr :| ValidEncoding(n, imms, immr) && DecodeBitMasks(n, imms, immr) == v;
    var p, q, d, odd := EncodingIsRun(n, imms, immr);
    RunIsEven(p, q, d);
    EvenOf(v, Replicate(Span(p, q), d), odd);
  }

  // ----- Building the encoding of a run -----

  function FieldN(d: bv8): bv8 {
    if d == 64 then 1 else 0
  }

  function FieldS(d: bv8, s: bv8): bv8 {
    (((0 - d) << 1) | (s - 1)) & 0x3F
  }

  function FieldR(clz: bv8, d: bv8): bv8 {
    (clz + 1) & (d - 1)
  }

  lemma Fields(d: bv8, s: bv8, r: bv8)
    requires IsElementSize(d) && 1 <= s < d && r < d
    ensures ValidEncoding(FieldN(d), FieldS(d, s), r)
    ensures ElementSize(FieldN(d), FieldS(d, s)) == d
    ensures (FieldS(d, s) & (d - 1)) + 1 == s
    ensures r & (d - 1) == r
  {}

  lemma DecodeFields(d: bv8, s: bv8, r: bv8)
    requires IsElementSize(d) && s <= 64 && 1 <= s < d <= 64 && r < d
    ensures ValidEncoding(FieldN(d), FieldS(d, s), r)
    ensures DecodeBitMasks(FieldN(d), FieldS(d, s), r) == Replicate(RotateRight(Ones(s), r, d), d)
  {
    hide *;
    Fields(d, s, r);
    DecodeParts(FieldN(d), FieldS(d, s), r, d, s, r);
  }

  lemma EncodeSpan(p: bv8, q: bv8, d: bv8, s: bv8, r: bv8)
    requires IsElementSize(d) && p <= 64 && q <= 64 && s <= 64 && 1 <= p < q <= d <= 64
    requires 1 <= s < d && r < d && q == p + s && p + r == d
    ensures ValidEncoding(FieldN(d), FieldS(d, s), r)
    ensures DecodeBitMasks(FieldN(d), FieldS(d, s), r) == Replicate(Span(p, q), d)
  {
    hide *;
    DecodeFields(d, s, r);
    SpanElement(p, q, d, s, r);
  }

  lemma EncodeGap(p: bv8, q: bv8, d: bv8, s: bv8, r: bv8)
    requires IsElementSize(d) && p <= 64 && q <= 64 && s <= 64 && 1 <= p < q <= d <= 64
    requires 1 <= s < d && r < d && s == p + r && q + r == d
    ensures ValidEncoding(FieldN(d), FieldS(d, s), r)
    ensures DecodeBitMasks(FieldN(d), FieldS(d, s), r) == Not(Replicate(Span(p, q), d))
  {
    hide *;
    DecodeFields(d, s, r);
    GapElement(p, q, d, s, r);
  }

  // ----- The patterns without their encodings -----

  /** A block of s ones, at least one and fewer than the element, rotated right by r and repeated. */
  predicate IsRotatedBlock(v: bv64, d: bv8, s: bv8, r: bv8) {
    IsElementSize(d) && 1 <= s < d <= 64 && r < d && s <= 64 && Replicate(RotateRight(Ones(s), r, d), d) == v
  }

  lemma EncodingIsBlock(n: bv8, imms: bv8, immr: bv8)
    requires ValidEncoding(n, imms, immr)
    ensures exists d, s, r :: IsRotatedBlock(DecodeBitMasks(n, imms, immr), d, s, r)
  {
    hide Replicate, RotateRight, Ones, ValidEncoding, ElementSize, DecodeBitMasks, IsElementSize;
    var d := ElementSize(n, imms);
    var s, r := (imms & (d - 1)) + 1, immr & (d - 1);
    FieldRanges(n, imms, immr, d, s, r);
    DecodeParts(n, imms, immr, d, s, r);
    assert IsRotatedBlock(DecodeBitMasks(n, imms, immr), d, s, r);
  }

  lemma BlockHasEncoding(v: bv64, d: bv8, s: bv8, r: bv8)
    requires IsRotatedBlock(v, d, s, r)
    ensures IsLogicalPattern(v)
  {
    hide Replicate, RotateRight, Ones, ValidEncoding, FieldN, FieldS, DecodeBitMasks, IsElementSize;
    DecodeFields(d, s, r);
    PatternWitness(v, FieldN(d), FieldS(d, s), r);
  }

  /** The encodable words are the rotated blocks of ones repeated at an element size of 2 to 64, and neither 0 nor all
      ones. */
  lemma PatternExactly(v: bv64)
    ensures IsLogicalPattern(v) <==> exists d, s, r :: IsRotatedBlock(v, d, s, r)
    ensures !IsLogicalPattern(0) && !IsLogicalPattern(0xFFFF_FFFF_FFFF_FFFF)
  {
    hide ValidEncoding, DecodeBitMasks, IsRotatedBlock, Even, IsRun;
    if IsLogicalPattern(v) {
      var n, imms, immr :| ValidEncoding(n, imms, immr) && DecodeBitMasks(n, imms, immr) == v;
      EncodingIsBlock(n, imms, immr);
    }
    forall d, s, r | IsRotatedBlock(v, d, s, r)
      ensures IsLogicalPattern(v)
    {
      BlockHasEncoding(v, d, s, r);
    }
    ZeroIsNoRun();
    EvenEnds();
    NoPattern(0, 0);
    NoPattern(0xFFFF_FFFF_FFFF_FFFF, 0);
  }

  lemma EvenEnds()
    ensures Even(0) == 0 && Even(0xFFFF_FFFF_FFFF_FFFF) == 0
  {}

  // ----- IsImmLogical -----

  predicate IsPowerOfTwo(x: bv64) {
    x != 0 && x & (x - 1) == 0
  }

  // The products with the multipliers that repeat an element of each size.

  function Product32(e: bv64): bv64 {
    e * 0x0000_0001_0000_0001
  }

  function Product16(e: bv64): bv64 {
    e * 0x0001_0001_0001_0001
  }

  function Product8(e: bv64): bv64 {
    e * 0x0101_0101_0101_0101
  }

  function Product4(e: bv64): bv64 {
    e * 0x1111_1111_1111_1111
  }

  function Product2(e: bv64): bv64 {
    e * 0x5555_5555_5555_5555
  }

  /** The product with the multiplier at the index, which says how far below 64 the size is. */
  function Product(e: bv64, index: bv8): bv64
    requires index < 6
  {
    if index == 0 then e
    else if index == 1 then Product32(e)
    else if index == 2 then Product16(e)
    else if index == 3 then Product8(e)
    else if index == 4 then Product4(e)
    else Product2(e)
  }

  // A product is made of doublings, each of which puts two copies side by side.

  lemma Sum2(x: bv64)
    requires Fits(x, 2)
    ensures Alike(By2(x), Beside2(x)) && Fits(Beside2(x), 4)
  {}

  lemma Join2(x: bv64)
    requires Fits(x, 2)
    ensures By2(x) == Beside2(x) && Fits(Beside2(x), 4)
  {
    hide *;
    Sum2(x);
    Same(By2(x), Beside2(x));
  }

  lemma Sum4(x: bv64)
    requires Fits(x, 4)
    ensures Alike(By4(x), Beside4(x)) && Fits(Beside4(x), 8)
  {}

  lemma Join4(x: bv64)
    requires Fits(x, 4)
    ensures By4(x) == Beside4(x) && Fits(Beside4(x), 8)
  {
    hide *;
    Sum4(x);
    Same(By4(x), Beside4(x));
  }

  lemma Sum8(x: bv64)
    requires Fits(x, 8)
    ensures Alike(By8(x), Beside8(x)) && Fits(Beside8(x), 16)
  {}

  lemma Join8(x: bv64)
    requires Fits(x, 8)
    ensures By8(x) == Beside8(x) && Fits(Beside8(x), 16)
  {
    hide *;
    Sum8(x);
    Same(By8(x), Beside8(x));
  }

  lemma Sum16(x: bv64)
    requires Fits(x, 16)
    ensures Alike(By16(x), Beside16(x)) && Fits(Beside16(x), 32)
  {}

  lemma Join16(x: bv64)
    requires Fits(x, 16)
    ensures By16(x) == Beside16(x) && Fits(Beside16(x), 32)
  {
    hide *;
    Sum16(x);
    Same(By16(x), Beside16(x));
  }

  lemma Sum32(x: bv64)
    requires Fits(x, 32)
    ensures Alike(By32(x), Beside32(x)) && Fits(Beside32(x), 64)
  {}

  lemma Join32(x: bv64)
    requires Fits(x, 32)
    ensures By32(x) == Beside32(x) && Fits(Beside32(x), 64)
  {
    hide *;
    Sum32(x);
    Same(By32(x), Beside32(x));
  }

  lemma Factors32(e: bv64)
    ensures By32(e) == Product32(e)
  {}

  lemma Unfold32(e: bv64)
    ensures Replicate(e, 32) == Beside32(e)
  {
    hide Beside2, Beside4, Beside8, Beside16, Beside32;
  }

  lemma Repeats32(e: bv64)
    requires Fits(e, 32)
    ensures Product32(e) == Replicate(e, 32)
  {
    hide *;
    Factors32(e);
    Unfold32(e);
    Join32(e);
  }

  lemma Factors16(e: bv64)
    ensures By16(e) == e * 0x0001_0001
    ensures By32(e * 0x0001_0001) == Product16(e)
  {}

  lemma Unfold16(e: bv64)
    ensures Replicate(e, 16) == Beside32(Beside16(e))
  {
    hide Beside2, Beside4, Beside8, Beside16, Beside32;
  }

  lemma Repeats16(e: bv64)
    requires Fits(e, 16)
    ensures Product16(e) == Replicate(e, 16)
  {
    hide *;
    Factors16(e);
    Unfold16(e);
    Join16(e);
    Join32(Beside16(e));
  }

  lemma Factors8(e: bv64)
    ensures By8(e) == e * 0x101
    ensures By16(e * 0x101) == e * 0x0101_0101
    ensures By32(e * 0x0101_0101) == Product8(e)
  {}

  lemma Unfold8(e: bv64)
    ensures Replicate(e, 8) == Beside32(Beside16(Beside8(e)))
  {
    hide Beside2, Beside4, Beside8, Beside16, Beside32;
  }

  lemma Repeats8(e: bv64)
    requires Fits(e, 8)
    ensures Product8(e) == Replicate(e, 8)
  {
    hide *;
    Factors8(e);
    Unfold8(e);
    Join8(e);
    Join16(Beside8(e));
    Join32(Beside16(Beside8(e)));
  }

  lemma Factors4(e: bv64)
    ensures By4(e) == e * 0x11
    ensures By8(e * 0x11) == e * 0x1111
    ensures By16(e * 0x1111) == e * 0x1111_1111
    ensures By32(e * 0x1111_1111) == Product4(e)
  {}

  lemma Unfold4(e: bv64)
    ensures Replicate(e, 4) == Beside32(Beside16(Beside8(Beside4(e))))
  {
    hide Beside2, Beside4, Beside8, Beside16, Beside32;
  }

  lemma Repeats4(e: bv64)
    requires Fits(e, 4)
    ensures Product4(e) == Replicate(e, 4)
  {
    hide *;
    Factors4(e);
    Unfold4(e);
    Join4(e);
    Join8(Beside4(e));
    Join16(Beside8(Beside4(e)));
    Join32(Beside16(Beside8(Beside4(e))));
  }

  lemma Factors2(e: bv64)
    ensures By2(e) == e * 0x5
    ensures By4(e * 0x5) == e * 0x55
    ensures By8(e * 0x55) == e * 0x5555
    ensures By16(e * 0x5555) == e * 0x5555_5555
    ensures By32(e * 0x5555_5555) == Product2(e)
  {}

  lemma Unfold2(e: bv64)
    ensures Replicate(e, 2) == Beside32(Beside16(Beside8(Beside4(Beside2(e)))))
  {
    hide Beside2, Beside4, Beside8, Beside16, Beside32;
  }

  lemma Repeats2(e: bv64)
    requires Fits(e, 2)
    ensures Product2(e) == Replicate(e, 2)
  {
    hide *;
    Factors2(e);
    Unfold2(e);
    Join2(e);
    Join4(Beside2(e));
    Join8(Beside4(Beside2(e)));
    Join16(Beside8(Beside4(Beside2(e))));
    Join32(Beside16(Beside8(Beside4(Beside2(e)))));
  }

  lemma MultiplierIndex(d: bv8, clz: bv8)
    requires IsElementSize(d) && IsClz(d as bv64, clz)
    ensures clz - 57 == if d == 64 then 0 else if d == 32 then 1 else if d == 16 then 2
                        else if d == 8 then 3 else if d == 4 then 4 else 5
  {}

  lemma MultiplierRepeats(e: bv64, d: bv8, clz: bv8)
    requires IsElementSize(d) && d <= 64 && IsClz(d as bv64, clz) && Fits(e, d)
    ensures clz - 57 < 6 && Product(e, clz - 57) == Replicate(e, d)
  {
    hide Product32, Product16, Product8, Product4, Product2, Replicate, Ones, IsClz;
    MultiplierIndex(d, clz);
    if d == 64 { ReplicateWhole(e); }
    else if d == 32 { Repeats32(e); }
    else if d == 16 { Repeats16(e); }
    else if d == 8 { Repeats8(e); }
    else if d == 4 { Repeats4(e); }
    else { Repeats2(e); }
  }

  function Widened(value: bv64, width: bv8): bv64 {
    if width == 32 then (value << 32) | ((value << 32) >> 32) else value
  }

  lemma BitOfClz(x: bv64, h: bv64, n: bv8)
    requires h == LargestPowerOf2Divisor(x) && h != 0 && IsClz(h, n)
    ensures n < 64 && h == Bit(63 - n)
  {}

  lemma SpanIsSpan(e: bv64, p: bv8, q: bv8, d: bv8)
    requires p < q <= 64 && d <= 64 && e == Span(p, q) && Fits(e, d)
    ensures q <= d
  {}

  lemma OddBit(x: bv64, p: bv8)
    requires p <= 64 && LargestPowerOf2Divisor(x) == Bit(p) && x & 1 == 0
    ensures p != 0
  {}

  lemma BitOrder(p: bv8, q: bv8, a: bv64, b: bv64)
    requires p < 64 && q <= 64 && a == Bit(p) && b == Bit(q) && (b == 0 || a < b)
    ensures p < q
  {}

  /** The bits found in v are where its run starts and ends, if it is a run. */
  lemma RunLocated(v: bv64, a: bv64, b: bv64, c: bv64, p: bv8, q: bv8, d: bv8)
    requires Stretches(v, a, b, c)
    requires IsElementSize(d) && p <= 64 && q <= 64 && d <= 64 && 1 <= p < q <= d && v == Replicate(Span(p, q), d)
    ensures d < 64 ==> p + d < 64
    ensures a == Bit(p) && b == Bit(q) && c == if d < 64 then Bit(p + d) else 0
  {
    hide *;
    RunStretches(p, q, d, v);
    StretchesUnique(v, a, b, c, Bit(p), Bit(q), if d < 64 then Bit(p + d) else 0);
  }

  lemma BitNonzero(p: bv8)
    requires p <= 64
    ensures Bit(p) == 0 <==> p == 64
  {}

  lemma ClzOfBit(p: bv8, n: bv8)
    requires p < 64 && IsClz(Bit(p), n)
    ensures n == 63 - p
  {}

  /** How far apart the first two stretches start, from their leading zeros; 64 if there is only one. */
  ghost predicate IsDistance(a: bv64, c: bv64, clz_a: bv8, clz_c: bv8, d: bv8) {
    IsClz(a, clz_a) && if c == 0 then d == 64 else IsClz(c, clz_c) && d == clz_a - clz_c
  }

  lemma RunDetermines(v: bv64, a: bv64, b: bv64, c: bv64, clz_a: bv8, clz_c: bv8, d: bv8) returns (p: bv8, q: bv8)
    requires Stretches(v, a, b, c) && IsDistance(a, c, clz_a, clz_c, d)
    requires IsRun(v)
    ensures IsElementSize(d) && p <= 64 && q <= 64 && d <= 64 && 1 <= p < q <= d && v == Replicate(Span(p, q), d)
    ensures a == Bit(p) && b == Bit(q)
  {
    hide Replicate, Span, Bit, Stretches, IsElementSize, IsClz;
    var e: bv8;
    p, q, e :| IsSpan(p, q, e) && Replicate(Span(p, q), e) == v;
    RunLocated(v, a, b, c, p, q, e);
    DistanceOfRun(a, c, clz_a, clz_c, d, p, e);
  }

  lemma DistanceOfRun(a: bv64, c: bv64, clz_a: bv8, clz_c: bv8, d: bv8, p: bv8, e: bv8)
    requires IsDistance(a, c, clz_a, clz_c, d)
    requires IsElementSize(e) && p <= 64 && 1 <= p < e && (e < 64 ==> p + e < 64)
    requires a == Bit(p) && c == if e < 64 then Bit(p + e) else 0
    ensures d == e
  {
    hide Bit, IsClz;
    ClzOfBit(p, clz_a);
    if e < 64 {
      BitNonzero(p + e);
      ClzOfBit(p + e, clz_c);
    }
  }

  /** The leading zeros of b, with -1 for b == 0. */
  predicate IsEndClz(b: bv64, clz_b: bv8) {
    if b == 0 then clz_b == 0 - 1 else IsClz(b, clz_b)
  }

  /** What IsImmLogical knows when it comes to compare the candidate. */
  ghost predicate Checked(v: bv64, a: bv64, b: bv64, c: bv64, clz_a: bv8, clz_c: bv8, d: bv8) {
    && v & 1 == 0 && a != 0
    && Stretches(v, a, b, c) && IsDistance(a, c, clz_a, clz_c, d)
    && d <= 64 && IsPowerOfTwo(d as bv64) && Fits(Minus(b, a), d)
  }

  lemma StretchBits(v: bv64, a: bv64, b: bv64, c: bv64, clz_a: bv8, clz_b: bv8, p: bv8, q: bv8)
    requires Stretches(v, a, b, c) && a != 0 && IsClz(a, clz_a) && IsEndClz(b, clz_b)
    requires p == 63 - clz_a && q == 63 - clz_b
    ensures p < 64 && a == Bit(p) && q <= 64 && b == Bit(q)
  {
    hide Bit, LargestPowerOf2Divisor, IsClz, Plus, Minus;
    BitOfClz(v, a, clz_a);
    if b != 0 {
      BitOfClz(Plus(v, a), b, clz_b);
    } else {
      BitNonzero(64);
    }
  }

  lemma StretchOrder(v: bv64, a: bv64, b: bv64, c: bv64)
    requires Stretches(v, a, b, c) && a != 0
    ensures b == 0 || a < b
  {}

  lemma PowerIsSize(d: bv8)
    requires d <= 64 && IsPowerOfTwo(d as bv64) && d != 1
    ensures IsElementSize(d)
  {}

  lemma NotOne(v: bv64, a: bv64, b: bv64, c: bv64)
    requires v & 1 == 0 && a != 0 && Stretches(v, a, b, c) && (b == 0 || a < b)
    ensures !Fits(Minus(b, a), 1)
  {}

  lemma CheckedSize(v: bv64, a: bv64, b: bv64, c: bv64, clz_a: bv8, clz_c: bv8, d: bv8)
    requires Checked(v, a, b, c, clz_a, clz_c, d)
    ensures IsElementSize(d)
  {
    hide Stretches, IsPowerOfTwo, IsDistance, Ones, IsElementSize;
    StretchOrder(v, a, b, c);
    NotOne(v, a, b, c);
    PowerIsSize(d);
  }

  lemma CheckedParts(v: bv64, a: bv64, b: bv64, c: bv64, clz_a: bv8, clz_c: bv8, d: bv8)
    requires Checked(v, a, b, c, clz_a, clz_c, d)
    ensures a != 0 && d <= 64 && Fits(Minus(b, a), d) && v & 1 == 0
    ensures Stretches(v, a, b, c) && IsClz(a, clz_a) && LargestPowerOf2Divisor(v) == a
  {}

  lemma CandidateIsRun(v: bv64, a: bv64, b: bv64, c: bv64, clz_a: bv8, clz_c: bv8, clz_b: bv8, d: bv8, p: bv8, q: bv8,
                       e: bv64)
    requires Checked(v, a, b, c, clz_a, clz_c, d) && IsEndClz(b, clz_b) && IsElementSize(d)
    requires e == Minus(b, a) && Fits(e, d) && v == Replicate(e, d)
    requires p == 63 - clz_a && q == 63 - clz_b
    ensures p <= 64 && q <= 64 && 1 <= p < q <= d && v == Replicate(Span(p, q), d)
  {
    hide *;
    CheckedParts(v, a, b, c, clz_a, clz_c, d);
    CandidatePlace(v, a, b, c, clz_a, clz_b, p, q);
    SpanBounds(p, q, a, b, Span(p, q));
    SpanIsSpan(e, p, q, d);
  }

  lemma CandidatePlace(v: bv64, a: bv64, b: bv64, c: bv64, clz_a: bv8, clz_b: bv8, p: bv8, q: bv8)
    requires Stretches(v, a, b, c) && a != 0 && v & 1 == 0 && LargestPowerOf2Divisor(v) == a
    requires IsClz(a, clz_a) && IsEndClz(b, clz_b)
    requires p == 63 - clz_a && q == 63 - clz_b
    ensures p <= 64 && q <= 64 && 1 <= p < q && a == Bit(p) && b == Bit(q)
  {
    hide *;
    StretchBits(v, a, b, c, clz_a, clz_b, p, q);
    StretchOrder(v, a, b, c);
    BitOrder(p, q, a, b);
    OddBit(v, p);
  }

  lemma FieldsOfSpan(p: bv8, q: bv8, d: bv8, clz_a: bv8, clz_b: bv8, s: bv8, r: bv8)
    requires IsElementSize(d) && 1 <= p < q <= d && p == 63 - clz_a && q == 63 - clz_b
    requires s == clz_a - clz_b && r == FieldR(clz_a, d)
    ensures 1 <= s < d && r < d && q == p + s && p + r == d
  {}

  lemma FieldsOfGap(p: bv8, q: bv8, d: bv8, clz_a: bv8, clz_b: bv8, s: bv8, r: bv8)
    requires IsElementSize(d) && 1 <= p < q <= d && p == 63 - clz_a && q == 63 - clz_b
    requires s == d - (clz_a - clz_b) && r == FieldR(clz_b, d)
    ensures 1 <= s < d && r < d && s == p + r && q + r == d
  {}

  lemma WidenedApart(x: bv64, y: bv64)
    requires x ^ y == !0
    ensures Widened(x, 32) ^ Widened(y, 32) == !0
  {}

  lemma NotDiffers(x: bv64)
    ensures Not(x) ^ x == !0
  {}

  lemma DiffersIsNot(x: bv64, y: bv64)
    requires x ^ y == !0
    ensures x == Not(y)
  {}

  lemma WidenedNot(x: bv64)
    ensures Widened(Not(x), 32) == Not(Widened(x, 32))
  {
    hide *;
    NotDiffers(x);
    WidenedApart(Not(x), x);
    DiffersIsNot(Widened(Not(x), 32), Widened(x, 32));
  }

  lemma WidenedBit0(x: bv64)
    ensures Widened(x, 32) & 1 == x & 1
  {}

  lemma EvenDefinition(x: bv64)
    ensures Even(x) == if x & 1 != 0 then Not(x) else x
  {}

  lemma WidenedSame(x: bv64)
    ensures Widened(x, 64) == x
  {}

  lemma EvenWidened(value: bv64, width: bv8)
    requires width == 32 || width == 64
    ensures Even(Widened(value, width)) == Widened(Even(value), width)
  {
    hide *;
    EvenDefinition(value);
    EvenDefinition(Widened(value, 32));
    if width == 32 {
      WidenedBit0(value);
      WidenedNot(value);
    } else {
      WidenedSame(value);
      WidenedSame(Even(value));
    }
  }

  lemma WidenedNotWhole(x: bv64, p: bv8, q: bv8)
    requires 1 <= p < q <= 64 && x == Replicate(Span(p, q), 64)
    ensures x != Widened(x, 32)
  {}

  lemma NoRunSize(v: bv64, a: bv64, b: bv64, c: bv64, clz_a: bv8, clz_c: bv8, d: bv8)
    requires Stretches(v, a, b, c) && IsDistance(a, c, clz_a, clz_c, d)
    requires d <= 64 && !IsPowerOfTwo(d as bv64)
    ensures !IsRun(v)
  {
    hide *;
    if IsRun(v) {
      var p, q := RunDetermines(v, a, b, c, clz_a, clz_c, d);
      SizeIsPower(d);
    }
  }

  lemma NoRunMask(v: bv64, a: bv64, b: bv64, c: bv64, clz_a: bv8, clz_c: bv8, d: bv8, stretch: bv64, mask: bv64)
    requires Stretches(v, a, b, c) && IsDistance(a, c, clz_a, clz_c, d)
    requires d <= 64 && mask == Ones(d) && stretch == Minus(b, a) && Exceeds(stretch, mask)
    ensures !IsRun(v)
  {
    hide *;
    if IsRun(v) {
      var p, q := RunDetermines(v, a, b, c, clz_a, clz_c, d);
      SpanFits(p, q, d);
      SpanBounds(p, q, a, b, Span(p, q));
      ExceedsOnes(stretch, d);
    }
  }

  lemma SizeIsPower(d: bv8)
    requires IsElementSize(d)
    ensures d <= 64 && IsPowerOfTwo(d as bv64)
  {}

  lemma RunIsCandidate(v: bv64, a: bv64, b: bv64, c: bv64, clz_a: bv8, clz_c: bv8, d: bv8, e: bv64)
    requires Stretches(v, a, b, c) && IsDistance(a, c, clz_a, clz_c, d) && IsRun(v) && e == Minus(b, a)
    ensures v == Replicate(e, d)
  {
    hide *;
    var p, q := RunDetermines(v, a, b, c, clz_a, clz_c, d);
    SpanBounds(p, q, a, b, Span(p, q));
  }

  lemma LowNonzero(x: bv64, h: bv64)
    requires IsLow(x, h)
    ensures x != 0
  {}

  lemma RunNonzero(p: bv8, q: bv8, d: bv8)
    requires IsElementSize(d) && p <= 64 && q <= 64 && 1 <= p < q <= d
    ensures Replicate(Span(p, q), d) != 0
  {
    hide *;
    SpanLow(p, q);
    ReplicateLow(Span(p, q), p, d);
    LowNonzero(Replicate(Span(p, q), d), Bit(p));
  }

  lemma ZeroIsNoRun()
    ensures !IsRun(0)
  {
    hide Span, Replicate, IsElementSize;
    forall p, q, d | IsSpan(p, q, d)
      ensures Replicate(Span(p, q), d) != 0
    {
      RunNonzero(p, q, d);
    }
  }

  lemma NoPattern(w: bv64, v: bv64)
    requires v == Even(w) && !IsRun(v)
    ensures !IsLogicalPattern(w)
  {
    hide *;
    if IsLogicalPattern(w) {
      PatternGivesRun(w);
    }
  }

  lemma SpanEncoded(w: bv64, x: bv64, p: bv8, q: bv8, d: bv8, clz_a: bv8, clz_b: bv8, n: bv8, s: bv8, imms: bv8,
                    immr: bv8, negate: bool)
    requires IsElementSize(d) && p <= 64 && q <= 64 && d <= 64 && 1 <= p < q <= d && x == Replicate(Span(p, q), d)
    requires w == if negate then Not(x) else x
    requires p == 63 - clz_a && q == 63 - clz_b && n == FieldN(d) && imms == FieldS(d, s)
    requires !negate ==> s == clz_a - clz_b && immr == FieldR(clz_a, d)
    requires negate ==> s == d - (clz_a - clz_b) && immr == FieldR(clz_b, d)
    ensures ValidEncoding(n, imms, immr) && DecodeBitMasks(n, imms, immr) == w
  {
    hide *;
    if negate {
      FieldsOfGap(p, q, d, clz_a, clz_b, s, immr);
      EncodeGap(p, q, d, s, immr);
    } else {
      FieldsOfSpan(p, q, d, clz_a, clz_b, s, immr);
      EncodeSpan(p, q, d, s, immr);
    }
  }

  lemma EvenInput(value: bv64, width: bv8, e: bv64, v: bv64)
    requires width == 32 || width == 64
    requires e == Even(value) && v == Widened(e, width)
    ensures v == Even(Widened(value, width)) && v & 1 == 0
    ensures Widened(value, width) == if value & 1 != 0 then Not(v) else v
    ensures width == 32 ==> Widened(v, 32) == v
  {
    hide *;
    EvenWidened(value, width);
    EvenBack(Widened(value, width));
    if width == 32 {
      WidenedBit0(value);
      WidenedTwice(e);
    } else {
      WidenedSame(value);
    }
  }

  lemma WidenedTwice(x: bv64)
    ensures Widened(Widened(x, 32), 32) == Widened(x, 32)
  {}

  lemma PatternWitness(w: bv64, n: bv8, imms: bv8, immr: bv8)
    requires ValidEncoding(n, imms, immr) && DecodeBitMasks(n, imms, immr) == w
    ensures IsLogicalPattern(w)
  {
    hide ValidEncoding, DecodeBitMasks;
  }

  lemma EvenStep(value: bv64, e: bv64)
    requires e == if value & 1 != 0 then !value else value
    ensures e == Even(value)
  {}

  lemma WidenStep(e: bv64, width: bv8, v: bv64)
    requires v == if width == 32 then (e << 32) | ((e << 32) >> 32) else e
    ensures v == Widened(e, width)
  {}

  lemma StretchesDefinition(v: bv64, a: bv64, b: bv64, c: bv64, u: bv64, w: bv64)
    requires a == LargestPowerOf2Divisor(v) && u == Plus(v, a) && b == LargestPowerOf2Divisor(u)
    requires w == Minus(u, b) && c == LargestPowerOf2Divisor(w)
    ensures Stretches(v, a, b, c)
  {
    hide LargestPowerOf2Divisor, Plus, Minus;
  }

  lemma NothingSet(v: bv64, a: bv64, b: bv64, c: bv64)
    requires Stretches(v, a, b, c)
    ensures a == 0 ==> v == 0 && c == 0
  {}

  lemma DistanceBelow64(v: bv64, a: bv64, b: bv64, c: bv64, clz_a: bv8, clz_c: bv8, d: bv8)
    requires Stretches(v, a, b, c) && a != 0 && c != 0 && IsClz(a, clz_a) && IsClz(c, clz_c) && d == clz_a - clz_c
    ensures d < 64
  {
    hide LargestPowerOf2Divisor;
    LaterStretch(v, a, b, c);
    FewerZeros(a, c, clz_a, clz_c, d);
  }

  lemma LaterStretch(v: bv64, a: bv64, b: bv64, c: bv64)
    requires Stretches(v, a, b, c) && a != 0 && c != 0
    ensures a < c
  {}

  lemma FewerZeros(a: bv64, c: bv64, clz_a: bv8, clz_c: bv8, d: bv8)
    requires 0 < a < c && IsClz(a, clz_a) && IsClz(c, clz_c) && d == clz_a - clz_c
    ensures d < 64
  {}

  lemma DistanceDefinition(a: bv64, c: bv64, clz_a: bv8, clz_c: bv8, d: bv8)
    requires IsClz(a, clz_a) && if c == 0 then d == 64 else IsClz(c, clz_c) && d == clz_a - clz_c
    ensures IsDistance(a, c, clz_a, clz_c, d)
  {
    hide IsClz;
  }

  lemma CheckedDefinition(v: bv64, a: bv64, b: bv64, c: bv64, clz_a: bv8, clz_c: bv8, d: bv8, stretch: bv64, mask: bv64)
    requires v & 1 == 0 && a != 0 && Stretches(v, a, b, c) && IsDistance(a, c, clz_a, clz_c, d)
    requires d <= 64 && IsPowerOfTwo(d as bv64) && stretch == Minus(b, a) && mask == Ones(d) && !Exceeds(stretch, mask)
    ensures Checked(v, a, b, c, clz_a, clz_c, d)
  {
    hide Stretches, IsDistance, Ones, IsPowerOfTwo, Fits, Exceeds, Minus;
    ExceedsOnes(stretch, d);
  }

  lemma EndClzDefinition(b: bv64, clz_b: bv8)
    requires if b == 0 then clz_b == 0 - 1 else IsClz(b, clz_b)
    ensures IsEndClz(b, clz_b)
  {
    hide IsClz;
  }

  lemma FieldNIs(d: bv8, n: bv8)
    requires n == if d == 64 then 1 else 0
    ensures n == FieldN(d)
  {}

  lemma NoRunCandidate(v: bv64, a: bv64, b: bv64, c: bv64, clz_a: bv8, clz_c: bv8, d: bv8, e: bv64)
    requires Stretches(v, a, b, c) && IsDistance(a, c, clz_a, clz_c, d) && e == Minus(b, a) && v != Replicate(e, d)
    ensures !IsRun(v)
  {
    hide *;
    if IsRun(v) {
      RunIsCandidate(v, a, b, c, clz_a, clz_c, d, e);
    }
  }

  lemma Accept(w: bv64, v: bv64, a: bv64, b: bv64, c: bv64, clz_a: bv8, clz_b: bv8, clz_c: bv8, d: bv8, e: bv64,
               n: bv8, s: bv8, imms: bv8, immr: bv8, negate: bool)
    requires Checked(v, a, b, c, clz_a, clz_c, d) && IsElementSize(d) && IsEndClz(b, clz_b) && d <= 64
    requires e == Minus(b, a) && Fits(e, d) && v == Replicate(e, d)
    requires w == if negate then Not(v) else v
    requires n == FieldN(d) && imms == FieldS(d, s)
    requires !negate ==> s == clz_a - clz_b && immr == FieldR(clz_a, d)
    requires negate ==> s == d - (clz_a - clz_b) && immr == FieldR(clz_b, d)
    ensures ValidEncoding(n, imms, immr) && DecodeBitMasks(n, imms, immr) == w && IsLogicalPattern(w)
    ensures Widened(v, 32) == v ==> n == 0
  {
    hide *;
    var p, q := 63 - clz_a, 63 - clz_b;
    CandidateIsRun(v, a, b, c, clz_a, clz_c, clz_b, d, p, q, e);
    SpanEncoded(w, v, p, q, d, clz_a, clz_b, n, s, imms, immr, negate);
    PatternWitness(w, n, imms, immr);
    NarrowElement(v, p, q, d, n);
  }

  lemma NarrowElement(v: bv64, p: bv8, q: bv8, d: bv8, n: bv8)
    requires p <= 64 && q <= 64 && 1 <= p < q <= d && d <= 64 && v == Replicate(Span(p, q), d) && n == FieldN(d)
    ensures Widened(v, 32) == v ==> n == 0
  {
    hide Replicate, Span, Widened;
    if d == 64 {
      WidenedNotWhole(v, p, q);
    }
  }

  /** Makes the value even and 64 bits wide; negate says whether it was inverted. */
  method Normalise(value: bv64, width: bv8) returns (v: bv64, negate: bool)
    requires width == 32 || width == 64
    ensures v == Even(Widened(value, width)) && v & 1 == 0
    ensures Widened(value, width) == if negate then Not(v) else v
    ensures width == 32 ==> Widened(v, 32) == v
  {
    hide *;
    negate, v := false, value;
    if v & 1 != 0 {
      negate := true;
      v := !v;
    }
    EvenStep(value, v);
    ghost var e := v;
    if width == 32 {
      v := v << 32;
      v := v | (v >> 32);
    }
    WidenStep(e, width, v);
    EvenInput(value, width, e, v);
  }

  /** The lowest stretch of ones [a, b), and the distance d to the next one (64 if there is none). */
  method MeasureStretches(v: bv64)
    returns (a: bv64, b: bv64, ghost c: bv64, clz_a: bv8, ghost clz_c: bv8, d: bv8, mask: bv64, out_n: bv8)
    ensures a == 0 ==> v == 0
    ensures Stretches(v, a, b, c)
    ensures a != 0 ==> IsDistance(a, c, clz_a, clz_c, d) && d <= 64 && mask == Ones(d) && out_n == FieldN(d)
  {
    hide *;
    a := LargestPowerOf2Divisor(v);
    var value_plus_a := Plus(v, a);
    b := LargestPowerOf2Divisor(value_plus_a);
    var value_plus_a_minus_b := Minus(value_plus_a, b);
    var low := LargestPowerOf2Divisor(value_plus_a_minus_b);
    c := low;
    StretchesDefinition(v, a, b, c, value_plus_a, value_plus_a_minus_b);
    NothingSet(v, a, b, c);

    d, clz_a, clz_c, mask, out_n := 64, 0, 0, Ones(64), 1;
    if low != 0 {
      clz_a := CountLeadingZeros(a, 64);
      var clz_low := CountLeadingZeros(low, 64);
      clz_c := clz_low;
      d := clz_a - clz_low;
      DistanceBelow64(v, a, b, c, clz_a, clz_c, d);
      mask := Ones(d);
      out_n := 0;
    } else if a != 0 {
      clz_a := CountLeadingZeros(a, 64);
    }
    if a != 0 {
      DistanceDefinition(a, c, clz_a, clz_c, d);
      FieldNIs(d, out_n);
    }
  }

  /** Accepts exactly the encodable words, and then the fields decode to the word asked for. */
  method IsImmLogical(value: bv64, width: bv8) returns (ok: bool, n: bv8, imm_s: bv8, imm_r: bv8)
    requires width == 32 || width == 64
    ensures ok <==> IsLogicalPattern(Widened(value, width))
    ensures ok ==> ValidEncoding(n, imm_s, imm_r) && DecodeBitMasks(n, imm_s, imm_r) == Widened(value, width)
    ensures ok && width == 32 ==> n == 0
  {
    hide *;
    ok, n, imm_s, imm_r := false, 0, 0, 0;
    ghost var w := Widened(value, width);
    var v, negate := Normalise(value, width);
    var a, b, c, clz_a, clz_c, d, mask, out_n := MeasureStretches(v);
    if a == 0 {
      ZeroIsNoRun();
      NoPattern(w, v);
      return;
    }
    if !IsPowerOfTwo(d as bv64) {
      NoRunSize(v, a, b, c, clz_a, clz_c, d);
      NoPattern(w, v);
      return;
    }
    var stretch := Minus(b, a);
    if Exceeds(stretch, mask) {
      NoRunMask(v, a, b, c, clz_a, clz_c, d, stretch, mask);
      NoPattern(w, v);
      return;
    }
    CheckedDefinition(v, a, b, c, clz_a, clz_c, d, stretch, mask);
    CheckedSize(v, a, b, c, clz_a, clz_c, d);
    ExceedsOnes(stretch, d);

    var clz_d := CountLeadingZeros(d as bv64, 64);
    MultiplierRepeats(stretch, d, clz_d);
    var candidate := Product(stretch, clz_d - 57);
    if v != candidate {
      NoRunCandidate(v, a, b, c, clz_a, clz_c, d, stretch);
      NoPattern(w, v);
      return;
    }

    var clz_b: bv8 := 0 - 1;
    if b != 0 {
      clz_b := CountLeadingZeros(b, 64);
    }
    EndClzDefinition(b, clz_b);
    var s: bv8;
    if negate {
      // The set bits become the clear bits, and the rotation starts from b.
      s := d - (clz_a - clz_b);
      imm_r := FieldR(clz_b, d);
    } else {
      s := clz_a - clz_b;
      imm_r := FieldR(clz_a, d);
    }
    ok, n, imm_s := true, out_n, FieldS(d, s);
    Accept(w, v, a, b, c, clz_a, clz_b, clz_c, d, stretch, n, s, imm_s, imm_r, negate);
  }
}
