/** Page protection: rounding an address range to whole pages, and what ProtectMemoryPages changes. */
module PageProtection {
  function Pow2(k: nat): (p: nat)
    ensures p > 0
  {
    if k == 0 then 1 else 2 * Pow2(k - 1)
  }

  /** a with the bits of mask cleared. */
  function AndNot(a: nat, mask: nat): nat {
    if a == 0 then 0
    else 2 * AndNot(a / 2, mask / 2) + (if a % 2 == 1 && mask % 2 == 0 then 1 else 0)
  }

  lemma {:induction false} AndNotZero(a: nat)
    ensures AndNot(a, 0) == a
  {
    if a != 0 {
      AndNotZero(a / 2);
    }
  }

  lemma HalveModulus(a: nat, m: nat)
    requires m > 0
    ensures a % (2 * m) == 2 * ((a / 2) % m) + a % 2
  {
    var q, r := (a / 2) / m, (a / 2) % m;
    assert a / 2 == q * m + r;
    assert a == (2 * m) * q + (2 * r + a % 2);
    RemainderUnique(a, 2 * m, q, 2 * r + a % 2);
  }

  lemma MultiplesApart(m: nat, i: nat, j: nat)
    requires i < j
    ensures m * i + m <= m * j
  {
    assert m * (i + 1) <= m * j;
  }

  lemma RemainderUnique(a: nat, m: nat, q: nat, r: nat)
    requires m > 0 && a == m * q + r && r < m
    ensures a % m == r
  {
    var q', r' := a / m, a % m;
    assert a == m * q' + r' && 0 <= r' < m;
    if q < q' {
      MultiplesApart(m, q, q');
    } else if q' < q {
      MultiplesApart(m, q', q);
    }
  }

  /** Clearing the bits below a power of two rounds down to its multiple. */
  lemma {:induction false} MaskRoundsDown(a: nat, k: nat)
    ensures AndNot(a, Pow2(k) - 1) == a - a % Pow2(k)
    decreases k
  {
    if k == 0 {
      AndNotZero(a);
    } else if a != 0 {
      var m := Pow2(k - 1);
      assert (2 * m - 1) / 2 == m - 1 && (2 * m - 1) % 2 == 1;
      MaskRoundsDown(a / 2, k - 1);
      HalveModulus(a, m);
    }
  }

  // ----- Pages -----

  /** Address a starts a page. */
  predicate IsPage(a: nat, pageSize: nat)
    requires pageSize > 0
  {
    a % pageSize == 0
  }

  lemma PagesApart(a: nat, b: nat, pageSize: nat)
    requires pageSize > 0 && IsPage(a, pageSize) && IsPage(b, pageSize) && a < b
    ensures a + pageSize <= b
  {
    var i, j := a / pageSize, b / pageSize;
    assert a == pageSize * i && b == pageSize * j;
    assert i < j;
    assert pageSize * j >= pageSize * (i + 1) == pageSize * i + pageSize;
  }

  lemma RoundedIsPage(a: nat, pageSize: nat)
    requires pageSize > 0
    ensures IsPage(a - a % pageSize, pageSize) && a - a % pageSize <= a < a - a % pageSize + pageSize
  {
    var q := a / pageSize;
    assert a - a % pageSize == pageSize * q;
    RemainderUnique(pageSize * q, pageSize, q, 0);
  }

  datatype Protection = Protection(write: bool, execute: bool)

  const READ_WRITE := Protection(true, false)
  const READ_EXECUTE := Protection(false, true)

  /** Page a has a byte in [start, start + size); for an empty range, start lies strictly inside the page. A negative
      size stands for the size_t that is 2^64 larger, with which the end of the range wraps around to start + size:
      pages are then touched only while that end, rounded up, is past the start, rounded down. */
  predicate Touches(a: nat, pageSize: nat, start: nat, size: int) {
    start < a + pageSize && a < start + size
  }

  /** The whole pages that touch the range get the protection; the rest keep theirs. */
  function Protected(pages: map<nat, Protection>, pageSize: nat, start: nat, size: int, p: Protection)
    : map<nat, Protection> {
    map a | a in pages :: if Touches(a, pageSize, start, size) then p else pages[a]
  }

  ghost predicate ArePages(pages: map<nat, Protection>, pageSize: nat)
    requires pageSize > 0
  {
    forall a :: a in pages ==> IsPage(a, pageSize)
  }

  /** Every page that touches the range is mapped. */
  ghost predicate Covers(pages: map<nat, Protection>, pageSize: nat, start: nat, size: int)
    requires pageSize > 0
  {
    forall a: nat :: IsPage(a, pageSize) && Touches(a, pageSize, start, size) ==> a in pages
  }

  /** Rounds the range to whole pages with masks. The platform would refuse a range that reaches an unmapped page, and
      one that ends in front of its start. */
  method ProtectMemoryPages(pages: map<nat, Protection>, k: nat, ptr: nat, size: int, p: Protection)
    returns (changed: map<nat, Protection>)
    requires ptr + size >= 0
    requires !(p.write && p.execute)
    requires ArePages(pages, Pow2(k)) && Covers(pages, Pow2(k), ptr, size)
    ensures changed == Protected(pages, Pow2(k), ptr, size, p)
  {
    var pageSize := Pow2(k);
    var start := AndNot(ptr, pageSize - 1);
    var end := AndNot(ptr + size + pageSize - 1, pageSize - 1);
    MaskRoundsDown(ptr, k);
    MaskRoundsDown(ptr + size + pageSize - 1, k);
    RoundedIsPage(ptr, pageSize);
    RoundedIsPage(ptr + size + pageSize - 1, pageSize);
    changed := map a | a in pages :: if start <= a < end then p else pages[a];
    forall a | a in pages
      ensures start <= a < end <==> Touches(a, pageSize, ptr, size)
    {
      RangeTouches(a, pageSize, ptr, size, start, end);
    }
  }

  lemma RangeTouches(a: nat, pageSize: nat, ptr: nat, size: int, start: nat, end: nat)
    requires pageSize > 0 && IsPage(a, pageSize) && IsPage(start, pageSize) && IsPage(end, pageSize)
    requires start <= ptr < start + pageSize
    requires end <= ptr + size + pageSize - 1 < end + pageSize
    ensures start <= a < end <==> Touches(a, pageSize, ptr, size)
  {
    if a < start {
      PagesApart(a, start, pageSize);
    }
    if start < a {
      PagesApart(start, a, pageSize);
    }
    if a < end {
      PagesApart(a, end, pageSize);
    }
    if end < a {
      PagesApart(end, a, pageSize);
    }
  }
}
