/** `memory_reserve` of lib/malloc.c on the frame array: its three loops as
    functions, and exactly when they leave a proper tiling. */
module Reserve {
  import opened Powers
  import opened Buddy
  import opened BuddyProofs

  /** A frame array and the page `head` a loop has reached. */
  datatype Cursor = Cursor(f: Frame, head: int)

  /** Walks down over interior pages of a free block. */
  function FindHead(f: Frame, p: int): (h: int)
    requires 0 <= p < |f|
    ensures 0 <= h <= p
  {
    if f[p].index == FREE && p > 0 then FindHead(f, p - 1) else p
  }

  /** Cuts the block at a into two free blocks of the next lower order. */
  function CutFree(f: Frame, a: int): (g: Frame)
    requires 0 <= a < |f| && a + Pow2(f[a].index - 1) < |f|
    ensures |g| == |f|
  {
    var half := FrameInfo(f[a].index - 1, 0);
    f[a := half][a + Pow2(half.index) := half]
  }

  /** Marks the block at `head` reserved. */
  function ReserveBlock(f: Frame, head: int): (g: Frame)
    requires 0 <= head < |f|
    ensures |g| == |f|
  {
    SetInterior(SetStatus(f, head, 1), head, Pow2(f[head].index), RESERVED)
  }

  /** The block at `head` exists and reaches past page p. */
  predicate Holds(f: Frame, head: int, p: int) {
    0 <= head <= p < |f| - 1 && f[head].index >= 0 &&
    p < head + Pow2(f[head].index) <= |f| - 1
  }

  /** First loop: cuts blocks until one starts at `start`. */
  function SplitTo(f: Frame, head: int, start: int): (c: Cursor)
    requires Holds(f, head, start)
    ensures |c.f| == |f| && c.head == start
    decreases f[head].index
  {
    if head == start then Cursor(f, head)
    else
      var g := CutFree(f, head);
      var upper := head + Pow2(g[head].index);
      SplitTo(g, if upper > start then head else upper, start)
  }

  /** Second loop: reserves the blocks that end before page `end`. */
  function ReserveRun(f: Frame, head: int, end: int): (c: Cursor)
    requires 0 <= head <= end < |f| - 1
    ensures |c.f| == |f| && head <= c.head <= end <= c.head + Pow2(c.f[c.head].index)
    decreases end - head
  {
    if head + Pow2(f[head].index) < end
    then ReserveRun(ReserveBlock(f, head), head + Pow2(f[head].index), end)
    else Cursor(f, head)
  }

  lemma ReserveRunStep(f: Frame, head: int, end: int)
    requires 0 <= head < end < |f| - 1 && head + Pow2(f[head].index) < end
    ensures ReserveRun(f, head, end) == ReserveRun(ReserveBlock(f, head), head + Pow2(f[head].index), end)
  {
  }

  /** What the third loop relies on: page `end` is in the block at `head`, or is
      the first page after it. */
  predicate Reaches(f: Frame, head: int, end: int) {
    0 <= head <= end < |f| - 1 && end <= head + Pow2(f[head].index) <= |f| - 1 &&
    f[head].index >= -1 && (f[head].index == -1 ==> head == end)
  }

  /** Third loop: cuts the last block, reserving lower halves, until a block
      ends at page `end`. */
  function SplitEnd(f: Frame, head: int, end: int): (c: Cursor)
    requires Reaches(f, head, end)
    ensures |c.f| == |f| && head <= c.head <= end && c.head + Pow2(c.f[c.head].index) - 1 == end
    decreases f[head].index
  {
    if head + Pow2(f[head].index) - 1 == end then Cursor(f, head)
    else
      var g := CutFree(f, head);
      var upper := head + Pow2(g[head].index);
      if end >= upper then SplitEnd(ReserveBlock(g, head), upper, end) else SplitEnd(g, head, end)
  }

  /** One round of the third loop. */
  function EndStep(f: Frame, head: int, end: int): (c: Cursor)
    requires Reaches(f, head, end) && head + Pow2(f[head].index) - 1 != end
    ensures |c.f| == |f| && Reaches(c.f, c.head, end) && c.f[c.head].index < f[head].index
    ensures SplitEnd(f, head, end) == SplitEnd(c.f, c.head, end)
  {
    var g := CutFree(f, head);
    var upper := head + Pow2(g[head].index);
    if end >= upper then Cursor(ReserveBlock(g, head), upper) else Cursor(g, head)
  }

  /** One round of the first loop. */
  function SplitStep(f: Frame, head: int, start: int): (c: Cursor)
    requires Holds(f, head, start) && head != start
    ensures f[head].index >= 1 && head + Pow2(f[head].index - 1) < |f|
    ensures |c.f| == |f| && Holds(c.f, c.head, start) && c.f[c.head].index < f[head].index
    ensures SplitTo(f, head, start) == SplitTo(c.f, c.head, start)
  {
    var g := CutFree(f, head);
    var upper := head + Pow2(g[head].index);
    Cursor(g, if upper > start then head else upper)
  }

  // -------------------------------------------------- what the loops preserve

  /** Page p was free in f and now heads a reserved block or is inside one. */
  predicate PageReserved(f: Frame, g: Frame, p: int)
    requires 0 <= p < |f| == |g|
  {
    FreePage(f, p) && (g[p] == FrameInfo(RESERVED, 0) || (Starts(g, p) && g[p].status == 1))
  }

  predicate PageStep(f: Frame, g: Frame, lo: int, hi: int, p: int)
    requires 0 <= p < |f| == |g|
  {
    if lo <= p < hi then PageReserved(f, g, p) else SamePageUse(f, g, p)
  }

  /** From f to g exactly the pages [lo, hi) were reserved. */
  ghost predicate ReservedSince(f: Frame, g: Frame, lo: int, hi: int) {
    |g| == |f| && forall p {:trigger PageStep(f, g, lo, hi, p)} | 0 <= p < |f| :: PageStep(f, g, lo, hi, p)
  }

  /** The loops' invariant: pages [lo, head) are reserved, a free block starts at
      `head`, and only that block may have a free buddy. */
  ghost predicate Midway(f: Frame, g: Frame, lo: int, head: int) {
    Tiled(g) && ReservedSince(f, g, lo, head) &&
    0 <= head < |g| - 1 && FreeHead(g, head, g[head].index) && g[head].index >= 0 && CoalescedBut(g, head)
  }

  lemma CutFreeIsHalve(g: Frame, a: int, k: int)
    requires Tiled(g) && 1 <= k && FreeHead(g, a, k)
    ensures a + Pow2(k - 1) < |g| && CutFree(g, a) == Halve(g, a, k - 1)
  {
    HalfShape(g, a, k);
  }

  /** Cutting the block at `head` keeps the invariant at either half. */
  lemma CutKeeps(f: Frame, g: Frame, lo: int, head: int)
    requires Midway(f, g, lo, head) && g[head].index >= 1
    ensures var k := g[head].index;
            var u := head + Pow2(k - 1);
            u < |g| - 1 && var h := CutFree(g, head);
            h[head] == FrameInfo(k - 1, 0) && h[u] == FrameInfo(k - 1, 0) && 2 * Pow2(k - 1) == Pow2(k) &&
            Midway(f, h, lo, head) && CoalescedBut(h, u)
  {
    var k := g[head].index;
    HalfShape(g, head, k);
    CutFreeIsHalve(g, head, k);
    HalveTiled(g, head, k);
    HalveCoalesced(g, head, k);
    HalveSameUse(g, head, k);
    var h := CutFree(g, head);
    forall p {:trigger PageStep(f, h, lo, head, p)} | 0 <= p < |f| ensures PageStep(f, h, lo, head, p) {
      assert PageStep(f, g, lo, head, p) && SamePageUse(g, h, p);
    }
  }

  /** Reserving the block at `head` reserves its pages and removes its pair. */
  lemma ReserveKeeps(f: Frame, g: Frame, lo: int, head: int)
    requires Midway(f, g, lo, head) && lo <= head
    ensures var e := head + Pow2(g[head].index);
            var h := ReserveBlock(g, head);
            e <= |g| - 1 && Tiled(h) && ReservedSince(f, h, lo, e) && Coalesced(h) &&
            forall p | 0 <= p < |g| && !(head <= p < e) :: h[p] == g[p]
  {
    assert HeadOk(g, head);
    var e := head + Pow2(g[head].index);
    var h := ReserveBlock(g, head);
    RemarkTiled(g, head, 1, RESERVED);
    forall p {:trigger PageStep(f, h, lo, e, p)} | 0 <= p < |f| ensures PageStep(f, h, lo, e, p) {
      assert PageStep(f, g, lo, head, p);
    }
    forall j, m {:trigger FreeBuddies(h, j, m)} | 0 <= m < MAX_ORDER ensures !FreeBuddies(h, j, m) {
      assert FreeBuddies(h, j, m) ==> FreeBuddies(g, j, m);
    }
  }

  lemma {:induction false} SplitToKeeps(f: Frame, g: Frame, head: int, start: int)
    requires Midway(f, g, start, head) && Holds(g, head, start)
    ensures Midway(f, SplitTo(g, head, start).f, start, start)
    decreases g[head].index
  {
    if head != start {
      assert g[head].index >= 1;
      CutKeeps(f, g, start, head);
      var h := CutFree(g, head);
      var u := head + Pow2(g[head].index - 1);
      if u > start {
        SplitToKeeps(f, h, head, start);
      } else {
        forall p {:trigger PageStep(f, h, start, u, p)} | 0 <= p < |f| ensures PageStep(f, h, start, u, p) {
          assert PageStep(f, h, start, head, p);
        }
        SplitToKeeps(f, h, u, start);
      }
    }
  }

  /** The pages from lo to hi are free. */
  ghost predicate FreeRange(f: Frame, lo: int, hi: int) {
    forall p {:trigger FreePage(f, p)} | lo <= p <= hi :: FreePage(f, p)
  }

  /** Reserving block after block keeps the invariant, and stops at the block
      that page `end` is in or comes right after. */
  lemma {:induction false} ReserveRunKeeps(f: Frame, g: Frame, lo: int, head: int, end: int)
    requires Midway(f, g, lo, head) && 0 <= lo <= head <= end < |f| - 1 && FreeRange(f, lo, end)
    ensures var c := ReserveRun(g, head, end);
            Midway(f, c.f, lo, c.head) && Reaches(c.f, c.head, end) && c.f[end] == g[end]
    decreases end - head
  {
    assert HeadOk(g, head);
    var e := head + Pow2(g[head].index);
    if e < end {
      ReserveKeeps(f, g, lo, head);
      var h := ReserveBlock(g, head);
      assert FreePage(f, e);
      assert PageStep(f, h, lo, e, e);
      assert g[e].index >= 0;
      ReserveRunKeeps(f, h, lo, e, end);
    }
  }

  /** Started inside the block that holds page `end`, the third loop ends with
      everything up to `end` reserved but the last block. */
  lemma {:induction false} SplitEndKeeps(f: Frame, g: Frame, lo: int, head: int, end: int)
    requires Midway(f, g, lo, head) && lo <= head && Holds(g, head, end)
    ensures var c := SplitEnd(g, head, end); Midway(f, c.f, lo, c.head)
    decreases g[head].index
  {
    if head + Pow2(g[head].index) - 1 != end {
      CutKeeps(f, g, lo, head);
      var h := CutFree(g, head);
      var u := head + Pow2(g[head].index - 1);
      if end >= u {
        ReserveKeeps(f, h, lo, head);
        SplitEndKeeps(f, ReserveBlock(h, head), lo, u, end);
      } else {
        SplitEndKeeps(f, h, lo, head, end);
      }
    }
  }

  /** Frame g with the pages end - 1 and end made stubs. */
  function Stubbed(g: Frame, end: int): (r: Frame)
    requires 1 <= end < |g|
    ensures |r| == |g|
  {
    g[end - 1 := FrameInfo(-1, 1)][end := FrameInfo(-1, 1)]
  }

  /** At a block of one page right before page `end`, the third loop cuts both
      down to order -1. */
  lemma LastCut(g: Frame, end: int)
    requires 1 <= end < |g| - 1 && g[end - 1] == FrameInfo(0, 0)
    ensures var c := SplitEnd(g, end - 1, end); c.head == end && ReserveBlock(c.f, end) == Stubbed(g, end)
  {
    var h := ReserveBlock(CutFree(g, end - 1), end - 1);
    assert SplitEnd(g, end - 1, end) == SplitEnd(h, end, end) == Cursor(h, end);
  }

  /** Started right after a block that ends before page `end`, the third loop
      reserves that block up to its last page, and leaves two stubs. */
  lemma {:induction false} SplitEndOvershoots(f: Frame, g: Frame, lo: int, head: int, end: int) returns (m: Frame)
    requires Midway(f, g, lo, head) && lo <= head < end < |g| - 1 && head + Pow2(g[head].index) == end
    ensures Midway(f, m, lo, end - 1) && m[end - 1] == FrameInfo(0, 0) && m[end] == g[end]
    ensures var c := SplitEnd(g, head, end); c.head == end && ReserveBlock(c.f, end) == Stubbed(m, end)
    decreases g[head].index
  {
    if g[head].index == 0 {
      m := g;
      LastCut(g, end);
    } else {
      var h, u := OvershootRound(f, g, lo, head, end);
      m := SplitEndOvershoots(f, h, lo, u, end);
    }
  }

  /** One round of it. */
  lemma OvershootRound(f: Frame, g: Frame, lo: int, head: int, end: int) returns (h: Frame, u: int)
    requires Midway(f, g, lo, head) && lo <= head < end < |g| - 1 && head + Pow2(g[head].index) == end
    requires g[head].index >= 1
    ensures Midway(f, h, lo, u) && lo <= u < end && u + Pow2(h[u].index) == end && h[u].index < g[head].index
    ensures h[end] == g[end] && Reaches(g, head, end) && SplitEnd(g, head, end) == SplitEnd(h, u, end)
  {
    CutKeeps(f, g, lo, head);
    u := head + Pow2(g[head].index - 1);
    ReserveKeeps(f, CutFree(g, head), lo, head);
    h := ReserveBlock(CutFree(g, head), head);
  }

  // ------------------------------------------------------------ main results

  /** What the callers of `memory_reserve` provide: a tiling with no free
      buddies, and a range of free pages. */
  ghost predicate Reservable(f: Frame, start: int, end: int) {
    Tiled(f) && Coalesced(f) && 0 <= start <= end < |f| - 1 && FreeRange(f, start, end)
  }

  /** The frame array after the first loop. */
  ghost function Opened(f: Frame, start: int, end: int): (c: Cursor)
    requires Reservable(f, start, end)
    ensures Midway(f, c.f, start, start) && c.head == start
  {
    var h := FindHead(f, start);
    FindHeadFinds(f, start);
    assert Midway(f, f, start, h) by {
      forall p {:trigger PageStep(f, f, start, h, p)} | 0 <= p < |f| ensures PageStep(f, f, start, h, p) {
      }
    }
    SplitToKeeps(f, f, h, start);
    SplitTo(f, h, start)
  }

  lemma {:induction false} FindHeadFinds(f: Frame, p: int)
    requires Tiled(f) && FreePage(f, p)
    ensures var h := FindHead(f, p);
            Holds(f, h, p) && FreeHead(f, h, f[h].index)
  {
    var o := OwnerExists(f, p);
    assert HeadOk(f, o);
    WalkDown(f, o, p);
  }

  lemma {:induction false} WalkDown(f: Frame, o: int, p: int)
    requires Tiled(f) && 0 <= o <= p < |f| - 1 && FreeHead(f, o, f[o].index) && f[o].index >= 0 &&
             p < o + Pow2(f[o].index)
    ensures FindHead(f, p) == o
  {
    assert HeadOk(f, o);
    if p > o {
      WalkDown(f, o, p - 1);
    }
  }

  /** `memory_reserve` from page `start` to page `end`, both included. */
  ghost function Reserve(f: Frame, start: int, end: int): (r: Frame)
    requires Reservable(f, start, end)
    ensures |r| == |f|
  {
    var a := Opened(f, start, end);
    ReserveRunKeeps(f, a.f, start, start, end);
    var b := ReserveRun(a.f, start, end);
    var c := SplitEnd(b.f, b.head, end);
    ReserveBlock(c.f, c.head)
  }

  /** The boundary condition: the range is one page, or its last page is not the
      head of a block once a block starts at its first page. */
  ghost predicate EndInsideBlock(f: Frame, start: int, end: int)
    requires Reservable(f, start, end)
  {
    end == start || Opened(f, start, end).f[end].index < 0
  }

  /** The range ends inside a block, or right before a page in use or the end of
      memory. */
  ghost predicate EndFits(f: Frame, start: int, end: int)
    requires Reservable(f, start, end)
  {
    EndInsideBlock(f, start, end) || !FreePage(f, end + 1)
  }

  /** When page `end` heads no block, the second loop stops at its block. */
  lemma RunStopsInside(f: Frame, a: Frame, start: int, end: int)
    requires Midway(f, a, start, start) && 0 <= start <= end < |f| - 1 && FreeRange(f, start, end)
    requires end == start || a[end].index < 0
    ensures var b := ReserveRun(a, start, end);
            Midway(f, b.f, start, b.head) && start <= b.head && Holds(b.f, b.head, end)
  {
    ReserveRunKeeps(f, a, start, start, end);
    var b := ReserveRun(a, start, end);
    assert PageStep(f, a, start, start, end);
    BlockReaches(b.f, b.head, end);
  }

  /** A free block that page `end` is in or comes right after does not end before a
      page that heads none, and is free or in the block. */
  lemma BlockReaches(g: Frame, head: int, end: int)
    requires Tiled(g) && Reaches(g, head, end) && FreeHead(g, head, g[head].index) && g[head].index >= 0
    requires g[end].status == 0 && (end == head || g[end].index < 0)
    ensures Holds(g, head, end)
  {
    assert HeadOk(g, head);
  }

  /** Under the boundary condition the three loops reserve the range block by block. */
  lemma ReserveInside(f: Frame, start: int, end: int)
    requires Reservable(f, start, end) && EndInsideBlock(f, start, end)
    ensures var r := Reserve(f, start, end);
            Tiled(r) && Coalesced(r) && ReservedSince(f, r, start, end + 1)
  {
    var a := Opened(f, start, end);
    RunStopsInside(f, a.f, start, end);
    var b := ReserveRun(a.f, start, end);
    ClosedInside(f, b.f, start, b.head, end);
  }

  /** The third loop and the last reservation, begun inside the block of page `end`. */
  lemma ClosedInside(f: Frame, g: Frame, lo: int, head: int, end: int)
    requires Midway(f, g, lo, head) && lo <= head && Holds(g, head, end)
    ensures var c := SplitEnd(g, head, end);
            var r := ReserveBlock(c.f, c.head);
            Tiled(r) && Coalesced(r) && ReservedSince(f, r, lo, end + 1)
  {
    SplitEndKeeps(f, g, lo, head, end);
    var c := SplitEnd(g, head, end);
    ReserveKeeps(f, c.f, lo, c.head);
  }

  /** When page `end` heads a block, the second loop stops right before it. */
  lemma RunStopsShort(f: Frame, a: Frame, start: int, end: int)
    requires Midway(f, a, start, start) && 0 <= start < end < |f| - 1 && FreeRange(f, start, end)
    requires a[end].index >= 0
    ensures var b := ReserveRun(a, start, end);
            Midway(f, b.f, start, b.head) && start <= b.head < end && b.head + Pow2(b.f[b.head].index) == end &&
            b.f[end] == a[end]
  {
    ReserveRunKeeps(f, a, start, start, end);
    RunBelow(a, start, end);
    var b := ReserveRun(a, start, end);
    BlocksApart(b.f, b.head, end);
  }

  lemma {:induction false} RunBelow(g: Frame, head: int, end: int)
    requires 0 <= head < end < |g| - 1
    ensures ReserveRun(g, head, end).head < end
    decreases end - head
  {
    if head + Pow2(g[head].index) < end {
      RunBelow(ReserveBlock(g, head), head + Pow2(g[head].index), end);
    }
  }

  /** Otherwise the pages up to end - 2 are reserved block by block, and the last
      two of the range become stubs. */
  lemma ReserveOvershoots(f: Frame, start: int, end: int) returns (m: Frame)
    requires Reservable(f, start, end) && !EndInsideBlock(f, start, end)
    ensures start < end && Midway(f, m, start, end - 1) && m[end - 1] == FrameInfo(0, 0) && m[end].index >= 0
    ensures Reserve(f, start, end) == Stubbed(m, end)
  {
    var a := Opened(f, start, end);
    RunStopsShort(f, a.f, start, end);
    var b := ReserveRun(a.f, start, end);
    m := SplitEndOvershoots(f, b.f, start, b.head, end);
  }

  /** Page `end` of such a frame array heads a free block. */
  lemma EndIsFree(f: Frame, m: Frame, start: int, end: int)
    requires Reservable(f, start, end) && start < end && Midway(f, m, start, end - 1) && m[end].index >= 0
    ensures FreeHead(m, end, m[end].index) && HeadOk(m, end)
    ensures FreePage(m, end + 1) <==> FreePage(f, end + 1)
  {
    assert FreePage(f, end) && PageStep(f, m, start, end - 1, end) && PageStep(f, m, start, end - 1, end + 1);
    assert HeadOk(m, end);
  }

  /** A page heading a block of an order above 0 is even. */
  lemma EvenPage(p: int, k: int)
    requires 1 <= k && Aligned(p, k)
    ensures p % 2 == 0 && (p + Pow2(k)) % 2 == 0
  {
    assert Pow2(1) == 2;
    AlignedLower(p, k, 1);
    BlockEndAligned(p, k, 1);
  }

  /** Of two pages that could be one block of order 1, if the lower heads a free block
      of order 0 and the upper is free, both are free blocks of order 0. */
  lemma PairFree(g: Frame, p: int)
    requires Tiled(g) && 0 <= p && p % 2 == 0 && FreeHead(g, p, 0) && FreePage(g, p + 1)
    ensures FreeBuddies(g, p, 0)
  {
    assert Pow2(0) == 1;
    assert HeadOk(g, p) && HeadOk(g, p + 1);
    if g[p + 1].index >= 1 {
      EvenPage(p + 1, g[p + 1].index);
    }
  }

  /** The block at the end of an overshooting range is one page exactly when the page
      after it is not free. */
  lemma EndOrder(f: Frame, m: Frame, start: int, end: int)
    requires Reservable(f, start, end) && start < end && Midway(f, m, start, end - 1) && m[end].index >= 0
    requires end % 2 == 0
    ensures m[end].index == 0 <==> !FreePage(f, end + 1)
  {
    EndIsFree(f, m, start, end);
    if m[end].index == 0 {
      if FreePage(m, end + 1) {
        PairFree(m, end);
      }
    } else {
      assert Pow2(m[end].index) == 2 * Pow2(m[end].index - 1);
      assert m[end + 1] == FrameInfo(FREE, 0);
    }
  }

  lemma StubsTiled(m: Frame, end: int)
    requires Tiled(m) && 1 <= end < |m| - 1 && m[end - 1] == FrameInfo(0, 0) && m[end] == FrameInfo(0, 0)
    ensures Tiled(Stubbed(m, end))
  {
    var r := Stubbed(m, end);
    assert HeadOk(m, end) && HeadOk(m, end - 1);
    assert Pow2(-1) == 1 && Pow2(0) == 1;
    assert HeadOk(r, end) && HeadOk(r, end - 1);
    ReplaceRegion(m, r, end - 1, end + 1);
  }

  lemma StubsReserve(f: Frame, m: Frame, start: int, end: int)
    requires Reservable(f, start, end) && start < end && Midway(f, m, start, end - 1) && m[end].index >= 0
    ensures Coalesced(Stubbed(m, end)) && ReservedSince(f, Stubbed(m, end), start, end + 1)
  {
    var r := Stubbed(m, end);
    forall j, k {:trigger FreeBuddies(r, j, k)} | 0 <= k < MAX_ORDER ensures !FreeBuddies(r, j, k) {
      assert FreeBuddies(r, j, k) ==> FreeBuddies(m, j, k);
    }
    forall p {:trigger PageStep(f, r, start, end + 1, p)} | 0 <= p < |f| ensures PageStep(f, r, start, end + 1, p) {
      assert PageStep(f, m, start, end - 1, p);
      assert start <= p <= end ==> FreePage(f, p);
    }
  }

  /** Reserving takes exactly the range out of the free pages, and leaves every other
      page as free or as used as before. */
  lemma ReserveTakes(f: Frame, start: int, end: int)
    requires Reservable(f, start, end)
    ensures Coalesced(Reserve(f, start, end)) && ReservedSince(f, Reserve(f, start, end), start, end + 1)
  {
    if EndInsideBlock(f, start, end) {
      ReserveInside(f, start, end);
    } else {
      var m := ReserveOvershoots(f, start, end);
      StubsReserve(f, m, start, end);
    }
  }

  /** The blocks are an aligned tiling again exactly when the range ends inside a
      block or right before a page in use. */
  lemma ReserveTilesIff(f: Frame, start: int, end: int)
    requires Reservable(f, start, end)
    ensures Tiled(Reserve(f, start, end)) <==> EndFits(f, start, end)
  {
    if EndInsideBlock(f, start, end) {
      ReserveInside(f, start, end);
    } else {
      var m := ReserveOvershoots(f, start, end);
      OvershotTilesIff(f, m, start, end);
    }
  }

  /** Otherwise page end + 1 is left as the inside of a block whose head is gone. */
  lemma OvershotTilesIff(f: Frame, m: Frame, start: int, end: int)
    requires Reservable(f, start, end) && !EndInsideBlock(f, start, end)
    requires start < end && Midway(f, m, start, end - 1) && m[end - 1] == FrameInfo(0, 0) && m[end].index >= 0
    ensures Tiled(Stubbed(m, end)) <==> !FreePage(f, end + 1)
    ensures FreePage(f, end + 1) ==> Stubbed(m, end)[end + 1] == FrameInfo(FREE, 0)
  {
    var r := Stubbed(m, end);
    if end % 2 == 1 {
      EndParity(f, start, end);
    }
    EndIsFree(f, m, start, end);
    EndOrder(f, m, start, end);
    if m[end].index == 0 {
      StubsTiled(m, end);
    } else {
      assert Pow2(m[end].index) == 2 * Pow2(m[end].index - 1);
      assert r[end + 1] == m[end + 1] == FrameInfo(FREE, 0);
      assert Pow2(-1) == 1 && Starts(r, end) && !HeadOk(r, end);
    }
  }

  lemma ReserveReserves(f: Frame, start: int, end: int)
    requires Reservable(f, start, end) && EndFits(f, start, end)
    ensures var r := Reserve(f, start, end);
            Tiled(r) && Coalesced(r) && ReservedSince(f, r, start, end + 1)
  {
    ReserveTakes(f, start, end);
    ReserveTilesIff(f, start, end);
  }

  // ------------------------------------------- the condition, before the call

  /** An aligned page that is nearer to `start` than its alignment: its distance
      from `start` is below some power of two of order under K that it is a
      multiple of. */
  predicate NearBoundary(start: int, end: int, K: int) {
    exists k {:trigger Pow2(k)} | 0 <= k < K :: Aligned(end, k) && end - start < Pow2(k)
  }

  /** Inside the upper half of a block, only its first page can be near one. */
  lemma NotNear(start: int, end: int, base: int, K: int)
    requires Aligned(base, K) && start <= base < end < base + Pow2(K) && 0 <= K
    ensures !NearBoundary(start, end, K + 1)
  {
    forall k {:trigger Pow2(k)} | 0 <= k < K + 1 ensures !(Aligned(end, k) && end - start < Pow2(k)) {
      if Aligned(end, k) {
        AlignedLower(base, K, k);
        MultiplesApart(base, end, Pow2(k));
      }
    }
  }

  lemma NearLower(start: int, end: int, base: int, K: int)
    requires 0 <= K && Aligned(base, K) && base < end < base + Pow2(K)
    ensures NearBoundary(start, end, K + 1) <==> NearBoundary(start, end, K)
  {
    if Aligned(end, K) {
      MultiplesApart(base, end, Pow2(K));
    }
    if NearBoundary(start, end, K + 1) {
      var k :| 0 <= k < K + 1 && Aligned(end, k) && end - start < Pow2(k);
      assert k < K;
    }
    if NearBoundary(start, end, K) {
      var k :| 0 <= k < K && Aligned(end, k) && end - start < Pow2(k);
      assert 0 <= k < K + 1;
    }
  }

  /** What cutting a block of order K at `head` of frame g until one starts at
      `start` leaves at page `end` of frame r: a head exactly where the page is near
      a boundary, in that block; elsewhere what was there. */
  predicate HeadsLeft(g: Frame, r: Frame, head: int, K: int, start: int, end: int)
    requires 0 <= end < |g| == |r|
  {
    if end < head + Pow2(K) then r[end].index >= 0 <==> NearBoundary(start, end, K) else r[end] == g[end]
  }

  /** A cut of which the lower half is cut on, */
  lemma LowerLeft(g: Frame, h: Frame, r: Frame, head: int, K: int, start: int, end: int)
    requires K >= 1 && 0 <= head && Aligned(head, K) && head < start < end < |g| == |h| == |r| &&
             start < head + Pow2(K - 1)
    requires head + Pow2(K - 1) < end < head + Pow2(K) ==> h[end] == FrameInfo(FREE, 0)
    requires end == head + Pow2(K - 1) ==> h[end].index >= 0
    requires end >= head + Pow2(K) ==> h[end] == g[end]
    requires HeadsLeft(h, r, head, K - 1, start, end)
    ensures HeadsLeft(g, r, head, K, start, end)
  {
    var u := head + Pow2(K - 1);
    AlignedSplit(head, K);
    if u < end < head + Pow2(K) {
      NotNear(start, end, u, K - 1);
    } else if end < u {
      NearLower(start, end, head, K - 1);
    } else if end == u {
      assert Aligned(u, K - 1) && u - start < Pow2(K - 1);
    }
  }

  /** and one of which the upper half is. */
  lemma UpperLeft(g: Frame, h: Frame, r: Frame, head: int, K: int, start: int, end: int)
    requires K >= 1 && 0 <= head && Aligned(head, K) && head + Pow2(K - 1) <= start < end < |g| == |h| == |r|
    requires start < head + Pow2(K) && (end >= head + Pow2(K) ==> h[end] == g[end])
    requires HeadsLeft(h, r, head + Pow2(K - 1), K - 1, start, end)
    ensures HeadsLeft(g, r, head, K, start, end)
  {
    AlignedSplit(head, K);
    if end < head + Pow2(K) {
      NearLower(start, end, head + Pow2(K - 1), K - 1);
    }
  }

  lemma NothingLeft(g: Frame, start: int, end: int)
    requires Tiled(g) && 0 <= start < end < |g| - 1 && FreeHead(g, start, g[start].index) && g[start].index >= 0
    ensures HeadsLeft(g, g, start, g[start].index, start, end)
  {
    var K := g[start].index;
    assert HeadOk(g, start);
    if end < start + Pow2(K) {
      assert g[end] == FrameInfo(FREE, 0);
      NotNear(start, end, start, K);
      NearLower(start, end, start, K);
    }
  }

  /** What the first loop leaves at page `end`, after `start`. */
  lemma {:induction false} SplitToHeads(g: Frame, head: int, start: int, end: int)
    requires Tiled(g) && Holds(g, head, start) && FreeHead(g, head, g[head].index) && start < end < |g| - 1
    ensures HeadsLeft(g, SplitTo(g, head, start).f, head, g[head].index, start, end)
    decreases g[head].index
  {
    var K := g[head].index;
    assert HeadOk(g, head);
    if head == start {
      NothingLeft(g, start, end);
    } else {
      CutReady(g, head, K);
      var c := SplitStep(g, head, start);
      var r := SplitTo(c.f, c.head, start).f;
      SplitToHeads(c.f, c.head, start, end);
      if head + Pow2(K - 1) > start {
        LowerLeft(g, c.f, r, head, K, start, end);
      } else {
        UpperLeft(g, c.f, r, head, K, start, end);
      }
    }
  }

  /** A block cut in two. */
  lemma CutReady(g: Frame, head: int, K: int)
    requires Tiled(g) && FreeHead(g, head, K) && K >= 1
    ensures head + Pow2(K - 1) < |g|
    ensures var h, u := CutFree(g, head), head + Pow2(K - 1);
            u < |g| - 1 && Tiled(h) && FreeHead(h, head, K - 1) && FreeHead(h, u, K - 1) && Aligned(head, K) &&
            forall p {:trigger h[p]} | head < p < |g| && p != u ::
              h[p] == if p < head + Pow2(K) then FrameInfo(FREE, 0) else g[p]
  {
    assert HeadOk(g, head);
    HalfShape(g, head, K);
    CutFreeIsHalve(g, head, K);
    HalveTiled(g, head, K);
  }

  /** The boundary condition in terms of the frame array before the call: with the
      free block that holds page `start`, page `end` is outside it and inside
      another block, or in it and as far from `start` as every power of two it is a
      multiple of. */
  lemma EndInsideIff(f: Frame, start: int, end: int)
    requires Reservable(f, start, end)
    ensures var h := FindHead(f, start);
            Holds(f, h, start) &&
            (EndInsideBlock(f, start, end) <==>
             end == start ||
             if end < h + Pow2(f[h].index) then !NearBoundary(start, end, f[h].index) else f[end].index < 0)
  {
    FindHeadFinds(f, start);
    if start < end {
      SplitToHeads(f, FindHead(f, start), start, end);
    }
  }

  // ------------------------------------------------ the condition and parity

  /** A range of two pages or more that ends at an odd page ends inside a block: no
      free block starts there, as the page before it is free. */
  lemma EndParity(f: Frame, start: int, end: int)
    requires Reservable(f, start, end) && end % 2 == 1
    ensures EndInsideBlock(f, start, end)
  {
    EndInsideIff(f, start, end);
    var h := FindHead(f, start);
    if start < end {
      forall k {:trigger Pow2(k)} | 0 <= k ensures !(Aligned(end, k) && end - start < Pow2(k)) {
        if k >= 1 && Aligned(end, k) {
          EvenPage(end, k);
        }
      }
      if f[end].index >= 0 {
        OddHead(f, end);
      }
    }
  }

  /** A free block at an odd page is one page, as is that of a free page before it. */
  lemma OddHead(f: Frame, end: int)
    requires Tiled(f) && end % 2 == 1 && FreePage(f, end) && FreePage(f, end - 1) && f[end].index >= 0
    ensures FreeBuddies(f, end, 0)
  {
    assert HeadOk(f, end);
    if f[end].index >= 1 {
      EvenPage(end, f[end].index);
    }
    FindHeadFinds(f, end - 1);
    var h := FindHead(f, end - 1);
    assert HeadOk(f, h);
    BlocksApart(f, h, end);
    if f[h].index >= 1 {
      EvenPage(h, f[h].index);
    }
    assert Pow2(0) == 1;
  }

  /** A free block that holds an even page after its first holds the next page. */
  lemma NextInBlock(f: Frame, p: int)
    requires Tiled(f) && p % 2 == 0 && FreePage(f, p) && f[p].index < 0
    ensures FreePage(f, p + 1)
  {
    FindHeadFinds(f, p);
    var h := FindHead(f, p);
    assert HeadOk(f, h);
    PairInBlock(h, f[h].index, p);
  }

  lemma PairInBlock(h: int, k: int, p: int)
    requires 0 <= k && Aligned(h, k) && p % 2 == 0 && h < p < h + Pow2(k)
    ensures p + 1 < h + Pow2(k)
  {
    if k >= 1 {
      EvenPage(h, k);
    }
  }

  /** With the page after it not free, a range of two pages or more that ends at an
      even page ends on a block of one page. */
  lemma EndInsideByParity(f: Frame, start: int, end: int)
    requires Reservable(f, start, end) && !FreePage(f, end + 1)
    ensures EndInsideBlock(f, start, end) <==> start == end || end % 2 == 1
  {
    if end % 2 == 1 {
      EndParity(f, start, end);
    } else if start < end {
      var a := Opened(f, start, end).f;
      assert PageStep(f, a, start, start, end) && PageStep(f, a, start, start, end + 1);
      if a[end].index < 0 {
        NextInBlock(a, end);
      }
    }
  }
}
