/** The code buffer's write sessions on a platform where no page may be both writable and executable. */
module CodeBlocks {
  import opened PageProtection

  // ----- The protocol on values -----

  /** region is the page-aligned start, 0 when nothing is allocated; writeStart is 0 outside a session. writeEstimated
      is a size_t: a negative number stands for the one 2^64 above it. */
  datatype Block = Block(region: nat, size: nat, codePtr: nat, writeStart: nat, writeEstimated: int,
                         pages: map<nat, Protection>)

  datatype Action = Clear(offset: nat) | Begin(estimate: nat) | Emit(bytes: nat) | Continue(estimate: nat) | End

  /** m < n as numbers of type size_t. */
  predicate IsBelow(m: int, n: int) {
    if m < 0 <==> n < 0 then m < n else n < 0
  }

  function Clamp(b: Block, estimate: nat): int {
    if b.codePtr + estimate - b.region > b.size then b.size - (b.codePtr - b.region) else estimate
  }

  function Cleared(b: Block, pageSize: nat, offset: nat): Block {
    var writable := Protected(b.pages, pageSize, b.region, b.size, READ_WRITE);
    b.(codePtr := b.region + offset,
       pages := if offset != 0 then Protected(writable, pageSize, b.region, offset, READ_EXECUTE) else writable)
  }

  function Begun(b: Block, pageSize: nat, estimate: nat): Block {
    var n := Clamp(b, estimate);
    b.(writeStart := b.codePtr, writeEstimated := n, pages := Protected(b.pages, pageSize, b.codePtr, n, READ_WRITE))
  }

  function Continued(b: Block, pageSize: nat, estimate: nat): Block {
    var n := Clamp(b, estimate);
    b.(writeEstimated := b.codePtr - b.writeStart + n, pages := Protected(b.pages, pageSize, b.codePtr, n, READ_WRITE))
  }

  function Ended(b: Block, pageSize: nat): Block {
    if b.writeStart == 0 then b
    else
      var written := b.codePtr - b.writeStart;
      var n := if IsBelow(written, b.writeEstimated) then b.writeEstimated else written;
      b.(writeStart := 0, pages := Protected(b.pages, pageSize, b.writeStart, n, READ_EXECUTE))
  }

  /** Every byte of [start, start + size) lies on a writable page. */
  ghost predicate IsWritable(b: Block, pageSize: nat, start: nat, size: nat)
    requires pageSize > 0
  {
    forall a: nat :: IsPage(a, pageSize) && a < start + size && start < a + pageSize && size > 0
      ==> a in b.pages && b.pages[a].write
  }

  // ----- Runs -----

  /** What the assertions and the page protection let happen: no nesting, and emitting to writable pages. */
  ghost predicate Possible(b: Block, action: Action, pageSize: nat)
    requires pageSize > 0
  {
    match action
    case Clear(offset) => offset <= b.size
    case Begin(_) => b.writeStart == 0
    case Emit(bytes) => b.writeStart != 0 && b.codePtr + bytes <= b.region + b.size
      && IsWritable(b, pageSize, b.codePtr, bytes)
    case Continue(_) => b.writeStart != 0
    case End => true
  }

  /** Clearing does no harm outside a session. Inside one it does none exactly when the code is kept up to the start of
      the session or beyond, and up to a page boundary unless the session was promised nothing behind that place. */
  predicate Clearable(b: Block, offset: nat, pageSize: nat)
    requires pageSize > 0
  {
    var end := b.region + offset;
    && offset <= b.size
    && (b.writeStart == 0
        || (b.writeStart <= end && (IsPage(end, pageSize) || b.writeStart + b.writeEstimated <= end)))
  }

  /** What is possible, clearing only where it does no harm. */
  ghost predicate Allowed(b: Block, action: Action, pageSize: nat)
    requires pageSize > 0
  {
    Possible(b, action, pageSize) && (action.Clear? ==> Clearable(b, action.offset, pageSize))
  }

  function After(b: Block, action: Action, pageSize: nat): Block {
    match action
    case Clear(offset) => Cleared(b, pageSize, offset)
    case Begin(estimate) => Begun(b, pageSize, estimate)
    case Emit(bytes) => b.(codePtr := b.codePtr + bytes)
    case Continue(estimate) => Continued(b, pageSize, estimate)
    case End => Ended(b, pageSize)
  }

  /** The actions lead from b to c, each one allowed when its turn comes. */
  ghost predicate Leads(b: Block, actions: seq<Action>, c: Block, pageSize: nat)
    requires pageSize > 0
    decreases |actions|
  {
    if actions == [] then c == b
    else Allowed(b, actions[0], pageSize) && Leads(After(b, actions[0], pageSize), actions[1..], c, pageSize)
  }

  /** What the protocol is for: no page is both writable and executable; the code pointer stays in the region; outside a
      session every page that touches emitted code is executable only; inside one, what is left of the estimate can be
      emitted. */
  ghost predicate Safe(b: Block, pageSize: nat)
    requires pageSize > 0
  {
    && (forall a :: a in b.pages ==> !(b.pages[a].write && b.pages[a].execute))
    && b.region <= b.codePtr <= b.region + b.size
    && (b.writeStart == 0 ==>
          forall a: nat :: IsPage(a, pageSize) && a < b.codePtr && b.region < a + pageSize && b.region < b.codePtr ==>
            a in b.pages && b.pages[a] == READ_EXECUTE)
    && (b.writeStart != 0 ==>
          forall bytes: nat :: b.codePtr + bytes <= b.writeStart + b.writeEstimated ==>
            Possible(b, Emit(bytes), pageSize))
  }

  // ----- What holds in every state -----

  ghost predicate Mapped(b: Block, pageSize: nat)
    requires pageSize > 0
  {
    forall a: nat :: a in b.pages <==> IsPage(a, pageSize) && b.region <= a < b.region + b.size
  }

  predicate InBounds(b: Block) {
    && b.region <= b.codePtr <= b.region + b.size
    && (b.writeStart != 0 ==>
          b.region <= b.writeStart && b.region <= b.writeStart + b.writeEstimated <= b.region + b.size)
  }

  /** Holds whatever is done, harmful clearing included. */
  ghost predicate Sized(b: Block, pageSize: nat) {
    pageSize > 0 && b.region > 0 && IsPage(b.region, pageSize) && Mapped(b, pageSize) && InBounds(b)
  }

  /** The invariant. Outside a session all emitted code is executable; inside one that is so for the pages before it,
      while what is left of the estimate is writable. */
  ghost predicate Good(b: Block, pageSize: nat) {
    && Sized(b, pageSize)
    && (forall a :: a in b.pages ==> b.pages[a] == READ_WRITE || b.pages[a] == READ_EXECUTE)
    && if b.writeStart == 0 then
         forall a :: a in b.pages && a < b.codePtr ==> b.pages[a] == READ_EXECUTE
       else
         && b.writeStart <= b.codePtr && 0 <= b.writeEstimated
         && (forall a :: a in b.pages && a + pageSize <= b.writeStart ==> b.pages[a] == READ_EXECUTE)
         && (b.codePtr < b.writeStart + b.writeEstimated ==>
               forall a :: a in b.pages && b.codePtr < a + pageSize && a < b.writeStart + b.writeEstimated ==>
                 b.pages[a] == READ_WRITE)
  }

  lemma StaysSized(b: Block, action: Action, pageSize: nat)
    requires Sized(b, pageSize) && Possible(b, action, pageSize)
    ensures Sized(After(b, action, pageSize), pageSize)
  {}

  /** The pages of a cleared block: executable below the offset, writable from there on. */
  lemma ClearedPages(b: Block, pageSize: nat, offset: nat, a: nat)
    requires Sized(b, pageSize) && offset <= b.size && a in b.pages
    ensures a in Cleared(b, pageSize, offset).pages
    ensures Cleared(b, pageSize, offset).pages[a] == if a < b.region + offset then READ_EXECUTE else READ_WRITE
  {
    assert Touches(a, pageSize, b.region, b.size);
  }

  /** Pages that reach beyond a page boundary start at it or behind it. */
  lemma BehindBoundary(pages: map<nat, Protection>, pageSize: nat, end: nat)
    requires pageSize > 0 && ArePages(pages, pageSize) && IsPage(end, pageSize)
    ensures forall a :: a in pages && end < a + pageSize ==> end <= a
  {
    hide IsPage;
    forall a | a in pages && end < a + pageSize
      ensures end <= a
    {
      assert IsPage(a, pageSize);
      if a < end {
        PagesApart(a, end, pageSize);
      }
    }
  }

  lemma ClearKeeps(b: Block, pageSize: nat, offset: nat)
    requires Good(b, pageSize) && Clearable(b, offset, pageSize)
    ensures Good(Cleared(b, pageSize, offset), pageSize)
  {
    hide IsPage;
    var c := Cleared(b, pageSize, offset);
    StaysSized(b, Clear(offset), pageSize);
    hide Mapped, Protected;
    forall a | a in c.pages
      ensures c.pages[a] == if a < b.region + offset then READ_EXECUTE else READ_WRITE
    {
      KeptPages(b, pageSize, offset);
      ClearedPages(b, pageSize, offset, a);
    }
    if IsPage(c.codePtr, pageSize) {
      BehindBoundary(c.pages, pageSize, c.codePtr);
    }
  }

  lemma KeptPages(b: Block, pageSize: nat, offset: nat)
    ensures Cleared(b, pageSize, offset).pages.Keys == b.pages.Keys
  {}

  lemma BeginKeeps(b: Block, pageSize: nat, estimate: nat)
    requires Good(b, pageSize) && b.writeStart == 0
    ensures Good(Begun(b, pageSize, estimate), pageSize)
  {
  }

  lemma ContinueKeeps(b: Block, pageSize: nat, estimate: nat)
    requires Good(b, pageSize) && b.writeStart != 0
    ensures Good(Continued(b, pageSize, estimate), pageSize)
  {
  }

  lemma EmitKeeps(b: Block, pageSize: nat, bytes: nat)
    requires Good(b, pageSize) && Possible(b, Emit(bytes), pageSize)
    ensures Good(After(b, Emit(bytes), pageSize), pageSize)
  {
  }

  lemma EndKeeps(b: Block, pageSize: nat)
    requires Good(b, pageSize)
    ensures Good(Ended(b, pageSize), pageSize)
  {
  }

  lemma StepKeeps(b: Block, action: Action, pageSize: nat)
    requires pageSize > 0 && Good(b, pageSize) && Allowed(b, action, pageSize)
    ensures Good(After(b, action, pageSize), pageSize)
  {
    hide Good, Cleared, Begun, Continued, Ended;
    match action
    case Clear(offset) => ClearKeeps(b, pageSize, offset);
    case Begin(estimate) => BeginKeeps(b, pageSize, estimate);
    case Emit(bytes) => EmitKeeps(b, pageSize, bytes);
    case Continue(estimate) => ContinueKeeps(b, pageSize, estimate);
    case End => EndKeeps(b, pageSize);
  }

  lemma {:induction false} LeadsKeeps(b: Block, actions: seq<Action>, c: Block, pageSize: nat)
    requires Good(b, pageSize) && pageSize > 0 && Leads(b, actions, c, pageSize)
    ensures Good(c, pageSize)
    decreases |actions|
  {
    hide Allowed, Good;
    if actions != [] {
      StepKeeps(b, actions[0], pageSize);
      LeadsKeeps(After(b, actions[0], pageSize), actions[1..], c, pageSize);
    }
  }

  lemma GoodIsSafe(b: Block, pageSize: nat)
    requires Good(b, pageSize) && pageSize > 0
    ensures Safe(b, pageSize)
  {
    forall a: nat | IsPage(a, pageSize) && a < b.region + b.size && b.region < a + pageSize
      ensures a in b.pages
    {
      if a < b.region {
        PagesApart(a, b.region, pageSize);
      }
    }
  }

  /** From here on, everything asked for can be emitted, as far as the region goes. */
  ghost predicate Grants(b: Block, estimate: nat, pageSize: nat)
    requires pageSize > 0
  {
    forall bytes: nat :: bytes <= estimate && b.codePtr + bytes <= b.region + b.size ==>
      Possible(b, Emit(bytes), pageSize)
  }

  lemma RangeWritable(b: Block, pageSize: nat, start: nat, bytes: nat, n: int)
    requires pageSize > 0 && IsPage(b.region, pageSize) && Mapped(b, pageSize)
    requires b.region <= start && start + bytes <= b.region + b.size && bytes <= n
    ensures forall a: nat :: IsPage(a, pageSize) && a < start + bytes && start < a + pageSize && bytes > 0 ==>
              a in b.pages && Protected(b.pages, pageSize, start, n, READ_WRITE)[a].write
  {
    forall a: nat | IsPage(a, pageSize) && a < start + bytes && start < a + pageSize && bytes > 0
      ensures a in b.pages
    {
      if a < b.region {
        PagesApart(a, b.region, pageSize);
      }
    }
  }

  /** A session that begins, or goes on, with an estimate grants it, whatever happened before, and touches no page
      beyond it. */
  lemma EstimateGranted(b: Block, estimate: nat, pageSize: nat)
    requires Sized(b, pageSize) && pageSize > 0
    ensures b.writeStart == 0 ==> Grants(Begun(b, pageSize, estimate), estimate, pageSize)
    ensures b.writeStart != 0 ==> Grants(Continued(b, pageSize, estimate), estimate, pageSize)
    ensures forall a :: a in b.pages && !(b.codePtr < a + pageSize && a < b.codePtr + estimate) ==>
              Begun(b, pageSize, estimate).pages[a] == Continued(b, pageSize, estimate).pages[a] == b.pages[a]
  {
    KeptKeys(b.pages, pageSize, b.codePtr, Clamp(b, estimate), READ_WRITE);
    assert forall a :: a in b.pages && !(b.codePtr < a + pageSize && a < b.codePtr + estimate) ==>
      !Touches(a, pageSize, b.codePtr, Clamp(b, estimate));
    hide IsPage, Mapped, Protected;
    forall bytes: nat | bytes <= estimate && b.codePtr + bytes <= b.region + b.size
      ensures b.writeStart == 0 ==> Possible(Begun(b, pageSize, estimate), Emit(bytes), pageSize)
      ensures b.writeStart != 0 ==> Possible(Continued(b, pageSize, estimate), Emit(bytes), pageSize)
    {
      RangeWritable(b, pageSize, b.codePtr, bytes, Clamp(b, estimate));
      KeptKeys(b.pages, pageSize, b.codePtr, Clamp(b, estimate), READ_WRITE);
    }
  }

  /** Ending a session touches no page beyond its estimate and what it emitted. */
  lemma EndTouches(b: Block, pageSize: nat)
    requires Good(b, pageSize)
    ensures forall a :: a in b.pages && (b.writeStart == 0 || a + pageSize <= b.writeStart
                                         || (b.codePtr <= a && b.writeStart + b.writeEstimated <= a)) ==>
              a in Ended(b, pageSize).pages && Ended(b, pageSize).pages[a] == b.pages[a]
  {}

  lemma KeptKeys(pages: map<nat, Protection>, pageSize: nat, start: nat, n: int, p: Protection)
    ensures Protected(pages, pageSize, start, n, p).Keys == pages.Keys
  {}

  // ----- Whole runs -----

  /** Freshly allocated memory: readable and writable, nothing emitted. */
  ghost predicate Initial(b: Block, pageSize: nat) {
    && pageSize > 0 && b.region > 0 && IsPage(b.region, pageSize) && b.codePtr == b.region && b.writeStart == 0
    && Mapped(b, pageSize) && forall a :: a in b.pages ==> b.pages[a] == READ_WRITE
  }

  lemma InitialGood(b: Block, pageSize: nat)
    requires Initial(b, pageSize)
    ensures Good(b, pageSize)
  {}

  /** Every run from a fresh allocation is safe. */
  lemma WholeRun(b: Block, actions: seq<Action>, c: Block, pageSize: nat)
    requires Initial(b, pageSize) && Leads(b, actions, c, pageSize)
    ensures Safe(c, pageSize)
  {
    hide Good, Leads, Safe;
    InitialGood(b, pageSize);
    LeadsKeeps(b, actions, c, pageSize);
    GoodIsSafe(c, pageSize);
  }

  // ----- Clearing inside a session -----

  lemma LeadsNext(b: Block, action: Action, rest: seq<Action>, c: Block, pageSize: nat)
    requires pageSize > 0 && Allowed(b, action, pageSize) && Leads(After(b, action, pageSize), rest, c, pageSize)
    ensures Leads(b, [action] + rest, c, pageSize)
  {
    hide Allowed, After;
    assert ([action] + rest)[1..] == rest;
  }

  /** Cleared to the middle of a page, with more bytes promised: the next byte falls on an executable page. */
  lemma NextByteFaults(b: Block, pageSize: nat, offset: nat)
    requires Sized(b, pageSize) && b.writeStart != 0 && offset <= b.size && !IsPage(b.region + offset, pageSize)
    requires b.region + offset < b.writeStart + b.writeEstimated
    ensures !Possible(Cleared(b, pageSize, offset), Emit(1), pageSize)
    ensures !Safe(Cleared(b, pageSize, offset), pageSize)
  {
    var c := Cleared(b, pageSize, offset);
    var a := PageOf(b, pageSize, c.codePtr);
    ClearedPages(b, pageSize, offset, a);
    hide Cleared, IsPage, Mapped;
    assert IsPage(a, pageSize) && a < c.codePtr + 1 && c.codePtr < a + pageSize;
    assert c.codePtr + 1 <= c.writeStart + c.writeEstimated;
  }

  lemma PageOf(b: Block, pageSize: nat, end: nat) returns (a: nat)
    requires pageSize > 0 && IsPage(b.region, pageSize) && Mapped(b, pageSize)
    requires b.region <= end <= b.region + b.size && !IsPage(end, pageSize)
    ensures a in b.pages && IsPage(a, pageSize) && a < end < a + pageSize
  {
    a := end - end % pageSize;
    RoundedIsPage(end, pageSize);
    hide IsPage;
    if a < b.region {
      PagesApart(a, b.region, pageSize);
    }
  }

  lemma PagesBehind(b: Block, pageSize: nat, page: nat, size: nat)
    requires pageSize > 0 && Mapped(b, pageSize) && IsPage(page, pageSize) && b.region <= page
    requires page + size <= b.region + b.size && forall a :: a in b.pages && page <= a ==> b.pages[a] == READ_WRITE
    ensures IsWritable(b, pageSize, page, size)
  {
    forall a: nat | IsPage(a, pageSize) && a < page + size && page < a + pageSize
      ensures a in b.pages && b.pages[a].write
    {
      if a < page {
        PagesApart(a, page, pageSize);
      }
    }
  }

  /** Emitting from a page boundary up to where the session started, when the end of the session does not come to the
      page at the boundary. */
  lemma LeftWritable(b: Block, pageSize: nat, c: Block)
    requires Sized(b, pageSize) && IsPage(b.codePtr, pageSize) && b.codePtr < b.writeStart <= b.region + b.size
    requires forall a :: a in b.pages && b.codePtr <= a ==> b.pages[a] == READ_WRITE
    requires b.codePtr + pageSize <= b.writeStart || b.writeEstimated == b.codePtr - b.writeStart
    requires c == Ended(After(b, Emit(b.writeStart - b.codePtr), pageSize), pageSize)
    ensures Leads(b, [Emit(b.writeStart - b.codePtr), End], c, pageSize) && !Safe(c, pageSize)
  {
    var gap := b.writeStart - b.codePtr;
    var emitted := After(b, Emit(gap), pageSize);
    PagesBehind(b, pageSize, b.codePtr, gap);
    assert !Safe(c, pageSize) by {
      assert b.codePtr in c.pages && c.pages[b.codePtr] == READ_WRITE;
    }
    hide Sized, Safe, IsPage, IsWritable, Touches, Protected;
    LeadsNowhere(c, pageSize);
    LeadsNext(emitted, End, [], c, pageSize);
    LeadsNext(b, Emit(gap), [End], c, pageSize);
    assert [End] + [] == [End];
    assert [Emit(gap)] + [End] == [Emit(gap), End];
  }

  /** When the session starts on that very page, its end misses the page only with a new estimate whose size wraps
      around. */
  lemma LeftWithEstimate(b: Block, pageSize: nat) returns (actions: seq<Action>, c: Block)
    requires Sized(b, pageSize) && IsPage(b.codePtr, pageSize) && b.codePtr < b.writeStart <= b.region + b.size
    requires forall a :: a in b.pages && b.codePtr <= a ==> b.pages[a] == READ_WRITE
    ensures Leads(b, actions, c, pageSize) && !Safe(c, pageSize)
  {
    var middle := Continued(b, pageSize, 0);
    EmptyEstimate(b, pageSize);
    var next := Emit(b.writeStart - b.codePtr);
    assert Allowed(b, Continue(0), pageSize) && After(b, Continue(0), pageSize) == middle;
    hide *;
    c := Ended(After(middle, next, pageSize), pageSize);
    LeftWritable(middle, pageSize, c);
    LeadsNext(b, Continue(0), [next, End], c, pageSize);
    actions := [Continue(0)] + [next, End];
  }

  /** Cleared to a page boundary in front of the session. */
  lemma PageStaysWritable(b: Block, pageSize: nat, offset: nat) returns (actions: seq<Action>, c: Block)
    requires Good(b, pageSize) && b.writeStart != 0 && pageSize > 0 && IsPage(b.region + offset, pageSize)
    requires b.region + offset < b.writeStart
    ensures Leads(Cleared(b, pageSize, offset), actions, c, pageSize) && !Safe(c, pageSize)
  {
    var start := Cleared(b, pageSize, offset);
    ClearedSized(b, pageSize, offset);
    hide *;
    if start.codePtr + pageSize <= b.writeStart {
      actions := [Emit(b.writeStart - start.codePtr), End];
      c := Ended(After(start, actions[0], pageSize), pageSize);
      LeftWritable(start, pageSize, c);
    } else {
      actions, c := LeftWithEstimate(start, pageSize);
    }
  }

  lemma ClearedSized(b: Block, pageSize: nat, offset: nat)
    requires Good(b, pageSize) && b.region + offset <= b.writeStart
    ensures var c := Cleared(b, pageSize, offset);
            && Sized(c, pageSize) && c.codePtr == b.region + offset && c.writeStart == b.writeStart
            && b.writeStart <= c.region + c.size && c.region == b.region
            && forall a :: a in c.pages && c.codePtr <= a ==> c.pages[a] == READ_WRITE
  {
    StaysSized(b, Clear(offset), pageSize);
    forall a | a in b.pages && b.region + offset <= a
      ensures Cleared(b, pageSize, offset).pages[a] == READ_WRITE
    {
      ClearedPages(b, pageSize, offset, a);
    }
  }

  lemma EmptyEstimate(b: Block, pageSize: nat)
    requires Sized(b, pageSize) && b.writeStart != 0
    ensures var c := Continued(b, pageSize, 0);
            && Sized(c, pageSize) && c == b.(writeEstimated := b.codePtr - b.writeStart, pages := c.pages)
            && c.pages.Keys == b.pages.Keys
            && forall a :: a in b.pages && b.pages[a] == READ_WRITE ==> c.pages[a] == READ_WRITE
  {
    StaysSized(b, Continue(0), pageSize);
  }

  /** Clearing is harmless in the runs that go on from there exactly under its condition. */
  lemma ClearExactly(b: Block, pageSize: nat, offset: nat)
    requires Good(b, pageSize) && pageSize > 0 && offset <= b.size
    ensures Clearable(b, offset, pageSize) <==>
      forall actions: seq<Action>, c: Block ::
        Leads(Cleared(b, pageSize, offset), actions, c, pageSize) ==> Safe(c, pageSize)
  {
    hide Leads, Cleared, Safe, IsPage, Good, Clearable;
    var start := Cleared(b, pageSize, offset);
    if Clearable(b, offset, pageSize) {
      ClearKeeps(b, pageSize, offset);
      forall actions: seq<Action>, c: Block | Leads(start, actions, c, pageSize)
        ensures Safe(c, pageSize)
      {
        LeadsKeeps(start, actions, c, pageSize);
        GoodIsSafe(c, pageSize);
      }
    } else {
      ClearableIs(b, pageSize, offset);
      if IsPage(b.region + offset, pageSize) {
        var actions, c := PageStaysWritable(b, pageSize, offset);
        assert Leads(Cleared(b, pageSize, offset), actions, c, pageSize) && !Safe(c, pageSize);
      } else {
        NextByteFaults(b, pageSize, offset);
        LeadsNowhere(start, pageSize);
        assert Leads(Cleared(b, pageSize, offset), [], start, pageSize) && !Safe(start, pageSize);
      }
    }
  }

  lemma ClearableIs(b: Block, pageSize: nat, offset: nat)
    requires Good(b, pageSize) && offset <= b.size && !Clearable(b, offset, pageSize)
    ensures b.writeStart != 0 && Sized(b, pageSize)
    ensures if IsPage(b.region + offset, pageSize) then b.region + offset < b.writeStart
            else b.region + offset < b.writeStart + b.writeEstimated
  {
    hide IsPage, Mapped;
  }

  lemma LeadsNowhere(b: Block, pageSize: nat)
    requires pageSize > 0
    ensures Leads(b, [], b, pageSize)
  {}

  /** Hence it keeps the invariant under the same condition. */
  lemma ClearGood(b: Block, pageSize: nat, offset: nat)
    requires Good(b, pageSize) && pageSize > 0 && offset <= b.size
    ensures Good(Cleared(b, pageSize, offset), pageSize) <==> Clearable(b, offset, pageSize)
  {
    hide Leads, Cleared, Safe, Good, Clearable;
    var start := Cleared(b, pageSize, offset);
    if Clearable(b, offset, pageSize) {
      ClearKeeps(b, pageSize, offset);
    } else {
      ClearExactly(b, pageSize, offset);
      var actions: seq<Action>, c: Block :| Leads(start, actions, c, pageSize) && !Safe(c, pageSize);
      if Good(start, pageSize) {
        LeadsKeeps(start, actions, c, pageSize);
        GoodIsSafe(c, pageSize);
      }
    }
  }

  const BOTH_WRITABLE := map[4096 := READ_WRITE, 8192 := READ_WRITE]

  /** A fresh block of two pages. */
  const FRESH := Block(4096, 8192, 4096, 0, 0, BOTH_WRITABLE)

  /** Eight bytes of code, and a session behind them with an estimate of a page. */
  const IN_SESSION := Block(4096, 8192, 4104, 4104, 4096, BOTH_WRITABLE)

  /** Eight bytes of code on a writable page, outside a session. */
  const LEFT_WRITABLE := Block(4096, 8192, 4104, 0, -8, BOTH_WRITABLE)

  lemma TwoPages(b: Block)
    requires b.region == 4096 && b.size == 8192 && b.pages.Keys == {4096, 8192}
    ensures Mapped(b, 4096)
  {
    forall a: nat | IsPage(a, 4096) && 4096 <= a < 12288
      ensures a == 4096 || a == 8192
    {
      if 4096 < a {
        PagesApart(4096, a, 4096);
      }
      if a < 8192 {
        PagesApart(a, 8192, 4096);
      }
      if 8192 < a {
        PagesApart(8192, a, 4096);
      }
    }
  }

  lemma OnWritablePages(b: Block, bytes: nat)
    requires b.region == 4096 && b.size == 8192 && b.pages.Keys == {4096, 8192} && 4096 <= b.codePtr
    requires b.codePtr + bytes <= 8192 && b.pages[4096] == READ_WRITE && b.writeStart != 0
    ensures Allowed(b, Emit(bytes), 4096)
  {
    TwoPages(b);
    forall a: nat | IsPage(a, 4096) && a < b.codePtr + bytes && b.codePtr < a + 4096
      ensures a == 4096
    {
      if a < 4096 {
        PagesApart(a, 4096, 4096);
      }
    }
  }

  /** How such a session comes about. */
  lemma SessionExample()
    ensures Initial(FRESH, 4096)
    ensures Leads(FRESH, [Begin(8), Emit(8), End, Begin(4096)], IN_SESSION, 4096)
  {
    TwoPages(FRESH);
    var b := FRESH.(writeStart := 4096, writeEstimated := 8);
    assert Begun(FRESH, 4096, 8) == b;
    OnWritablePages(b, 8);
    var c := b.(codePtr := 4104);
    var d := c.(writeStart := 0, pages := map[4096 := READ_EXECUTE, 8192 := READ_WRITE]);
    assert Ended(c, 4096) == d;
    assert Begun(d, 4096, 4096) == IN_SESSION;
    LeadsNowhere(IN_SESSION, 4096);
    LeadsNext(d, Begin(4096), [], IN_SESSION, 4096);
    LeadsNext(c, End, [Begin(4096)], IN_SESSION, 4096);
    LeadsNext(b, Emit(8), [End, Begin(4096)], IN_SESSION, 4096);
    LeadsNext(FRESH, Begin(8), [Emit(8), End, Begin(4096)], IN_SESSION, 4096);
  }

  /** Clearing that session to offset 0 leads to emitted code on a writable page, and keeping its eight bytes makes the
      next byte of its estimate fault; clearing it to the second page does no harm. */
  lemma ClearingExample()
    ensures Leads(Cleared(IN_SESSION, 4096, 0), [Continue(0), Emit(8), End], LEFT_WRITABLE, 4096)
    ensures !Safe(LEFT_WRITABLE, 4096)
    ensures var c := Cleared(IN_SESSION, 4096, 8);
            c.codePtr + 1 <= c.writeStart + c.writeEstimated && !Possible(c, Emit(1), 4096)
    ensures Clearable(IN_SESSION, 4096, 4096)
  {
    var b := IN_SESSION.(codePtr := 4096);
    assert Cleared(IN_SESSION, 4096, 0) == b;
    var c := b.(writeEstimated := -8);
    assert Continued(b, 4096, 0) == c;
    OnWritablePages(c, 8);
    var d := c.(codePtr := 4104);
    assert Ended(d, 4096) == LEFT_WRITABLE;
    LeadsNowhere(LEFT_WRITABLE, 4096);
    LeadsNext(d, End, [], LEFT_WRITABLE, 4096);
    LeadsNext(c, Emit(8), [End], LEFT_WRITABLE, 4096);
    LeadsNext(b, Continue(0), [Emit(8), End], LEFT_WRITABLE, 4096);
    assert IsPage(4096, 4096) && LEFT_WRITABLE.pages[4096] == READ_WRITE;
    TwoPages(IN_SESSION);
    NextByteFaults(IN_SESSION, 4096, 8);
  }

  // ----- The class -----

  /** The ranges that the operations protect consist of mapped pages. */
  lemma RangeCovered(b: Block, pageSize: nat, start: nat, size: int)
    requires Sized(b, pageSize) && b.region <= start && start + size <= b.region + b.size
    ensures ArePages(b.pages, pageSize) && Covers(b.pages, pageSize, start, size)
  {
    forall a: nat | IsPage(a, pageSize) && Touches(a, pageSize, start, size)
      ensures a in b.pages
    {
      if a < b.region {
        PagesApart(a, b.region, pageSize);
      }
    }
  }

  lemma StillCovered(pages: map<nat, Protection>, pageSize: nat, ptr: nat, n: int, p: Protection, start: nat, size: int)
    requires pageSize > 0 && ArePages(pages, pageSize) && Covers(pages, pageSize, start, size)
    ensures ArePages(Protected(pages, pageSize, ptr, n, p), pageSize)
    ensures Covers(Protected(pages, pageSize, ptr, n, p), pageSize, start, size)
  {}

  lemma Bounds(b: Block, pageSize: nat)
    requires Sized(b, pageSize)
    ensures InBounds(b)
  {}

  class CodeBlock {
    /** Pages are 2^k bytes. */
    const k: nat
    var region: nat
    var regionSize: nat
    var codePtr: nat
    var writeStart: nat
    var writeEstimated: int
    var pages: map<nat, Protection>

    ghost function Model(): Block
      reads this
    {
      Block(region, regionSize, codePtr, writeStart, writeEstimated, pages)
    }

    /** What every operation may rely on, harmful clearing or not. */
    ghost predicate Valid()
      reads this
    {
      Sized(Model(), Pow2(k))
    }

    /** AllocCodeSpace, given the page-aligned memory that the platform found. */
    constructor (k: nat, memory: nat, size: nat)
      requires memory > 0 && IsPage(memory, Pow2(k))
      ensures this.k == k && Initial(Model(), Pow2(k)) && Valid() && region == memory && regionSize == size
    {
      this.k := k;
      region, regionSize, codePtr, writeStart, writeEstimated := memory, size, memory, 0, 0;
      pages := map a | memory <= a < memory + size && a % Pow2(k) == 0 :: READ_WRITE;
      new;
      InitialGood(Model(), Pow2(k));
    }

    method ResetCodePtr(offset: nat)
      modifies this`codePtr
      ensures codePtr == region + offset
    {
      codePtr := region + offset;
    }

    /** Not guarded against a session being open. */
    method ClearCodeSpace(offset: nat)
      requires Valid() && offset <= regionSize
      modifies this
      ensures Valid() && Model() == Cleared(old(Model()), Pow2(k), offset)
      ensures old(Good(Model(), Pow2(k))) ==> (Good(Model(), Pow2(k)) <==> Clearable(old(Model()), offset, Pow2(k)))
    {
      ghost var c := Cleared(Model(), Pow2(k), offset);
      StaysSized(Model(), Clear(offset), Pow2(k));
      if Good(Model(), Pow2(k)) {
        ClearGood(Model(), Pow2(k), offset);
      }
      hide Good, Sized, Protected, ArePages, Covers, Pow2, Touches, Mapped, IsPage, Clearable;
      RangeCovered(Model(), Pow2(k), region, regionSize);
      RangeCovered(Model(), Pow2(k), region, offset);
      StillCovered(pages, Pow2(k), region, regionSize, READ_WRITE, region, offset);
      pages := ProtectMemoryPages(pages, k, region, regionSize, READ_WRITE);
      ResetCodePtr(offset);
      if offset != 0 {
        pages := ProtectMemoryPages(pages, k, region, offset, READ_EXECUTE);
      }
      assert Model() == c;
    }

    method BeginWrite(sizeEstimate: nat)
      requires Valid() && writeStart == 0
      modifies this
      ensures Valid() && Model() == Begun(old(Model()), Pow2(k), sizeEstimate)
      ensures Grants(Model(), sizeEstimate, Pow2(k))
      ensures old(Good(Model(), Pow2(k))) ==> Good(Model(), Pow2(k))
    {
      ghost var c := Begun(Model(), Pow2(k), sizeEstimate);
      StaysSized(Model(), Begin(sizeEstimate), Pow2(k));
      EstimateGranted(Model(), sizeEstimate, Pow2(k));
      if Good(Model(), Pow2(k)) {
        BeginKeeps(Model(), Pow2(k), sizeEstimate);
      }
      hide Good, Sized, Grants, Protected, ArePages, Covers, Pow2, Touches, Mapped, IsPage;
      Bounds(Model(), Pow2(k));
      RangeCovered(Model(), Pow2(k), codePtr, Clamp(Model(), sizeEstimate));
      var estimate := sizeEstimate;
      writeStart := codePtr;
      if writeStart + estimate - region > regionSize {
        estimate := regionSize - (writeStart - region);
      }
      writeEstimated := estimate;
      pages := ProtectMemoryPages(pages, k, writeStart, estimate, READ_WRITE);
      assert Model() == c;
    }

    /** The emitter moving the code pointer on: its stores fault unless the pages are writable. */
    method EmitBytes(bytes: nat)
      requires Valid() && Possible(Model(), Emit(bytes), Pow2(k))
      modifies this
      ensures Valid() && Model() == old(Model()).(codePtr := old(codePtr) + bytes)
      ensures old(Good(Model(), Pow2(k))) ==> Good(Model(), Pow2(k))
    {
      StaysSized(Model(), Emit(bytes), Pow2(k));
      if Good(Model(), Pow2(k)) {
        EmitKeeps(Model(), Pow2(k), bytes);
      }
      codePtr := codePtr + bytes;
    }

    method ContinueWrite(sizeEstimate: nat)
      requires Valid() && writeStart != 0
      modifies this
      ensures Valid() && Model() == Continued(old(Model()), Pow2(k), sizeEstimate)
      ensures Grants(Model(), sizeEstimate, Pow2(k))
      ensures old(Good(Model(), Pow2(k))) ==> Good(Model(), Pow2(k))
    {
      ghost var c := Continued(Model(), Pow2(k), sizeEstimate);
      StaysSized(Model(), Continue(sizeEstimate), Pow2(k));
      EstimateGranted(Model(), sizeEstimate, Pow2(k));
      if Good(Model(), Pow2(k)) {
        ContinueKeeps(Model(), Pow2(k), sizeEstimate);
      }
      hide Good, Sized, Grants, Protected, ArePages, Covers, Pow2, Touches, Mapped, IsPage;
      Bounds(Model(), Pow2(k));
      RangeCovered(Model(), Pow2(k), codePtr, Clamp(Model(), sizeEstimate));
      var estimate := sizeEstimate;
      if codePtr + estimate - region > regionSize {
        estimate := regionSize - (codePtr - region);
      }
      writeEstimated := codePtr - writeStart + estimate;
      pages := ProtectMemoryPages(pages, k, codePtr, estimate, READ_WRITE);
      assert Model() == c;
    }

    method EndWrite()
      requires Valid()
      modifies this
      ensures Valid() && Model() == Ended(old(Model()), Pow2(k))
      ensures old(Good(Model(), Pow2(k))) ==> Good(Model(), Pow2(k))
    {
      ghost var c := Ended(Model(), Pow2(k));
      StaysSized(Model(), End, Pow2(k));
      if Good(Model(), Pow2(k)) {
        EndKeeps(Model(), Pow2(k));
      }
      hide Good, Sized, Grants, Protected, ArePages, Covers, Pow2, Touches, Mapped, IsPage;
      Bounds(Model(), Pow2(k));
      if writeStart != 0 {
        var size := codePtr - writeStart;
        if IsBelow(size, writeEstimated) {
          size := writeEstimated;
        }
        RangeCovered(Model(), Pow2(k), writeStart, size);
        pages := ProtectMemoryPages(pages, k, writeStart, size, READ_EXECUTE);
        writeStart := 0;
      }
      assert Model() == c;
    }
  }
}
