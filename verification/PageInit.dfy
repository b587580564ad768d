/** The boot-time frame array of lib/malloc.c: the greedy cut of `page_init` and
    the ranges it reserves. */
module PageInit {
  import opened Powers
  import opened Buddy
  import opened BuddyProofs
  import opened Reserve

  // What the entry past the end holds: no order, and no mark either
  const SENTINEL: FrameInfo := FrameInfo(-4, 0)

  /** Starts the largest block that fits at page `head`, and so on to the end. */
  ghost function Fill(f: Frame, head: nat): (g: Frame)
    requires |f| >= 1
    ensures |g| == |f|
    decreases |f| - head
  {
    if head >= |f| - 1 then f
    else var k := FloorLog2(|f| - 1 - head); Fill(f[head := FrameInfo(k, 0)], head + Pow2(k))
  }

  /** n free pages that belong to no block yet. */
  function Blank(n: nat): (f: Frame)
    ensures |f| == n + 1 && f[n] == SENTINEL
    ensures forall p {:trigger f[p]} | 0 <= p < n :: f[p] == FrameInfo(FREE, 0)
  {
    seq(n, _ => FrameInfo(FREE, 0)) + [SENTINEL]
  }

  ghost function InitFrame(n: nat): (f: Frame)
    ensures |f| == n + 1
  {
    Fill(Blank(n), 0)
  }

  /** A remainder that a block of order k was too large for, or that follows one
      of the largest order, is still free to be cut at an aligned page. */
  predicate Remainder(head: int, n: int, k: int) {
    0 <= head && 0 <= n && 0 <= k <= MAX_ORDER && Aligned(head, k) && (k < MAX_ORDER ==> n < Pow2(k))
  }

  lemma NextRemainder(head: int, n: int, k: int, m: int)
    requires Remainder(head, n, k) && IsLog2(n, m)
    ensures m <= k && Aligned(head, m) && Remainder(head + Pow2(m), n - Pow2(m), m)
  {
    if m > k {
      Pow2Monotone(k, m);
    }
    AlignedLower(head, k, m);
    BlockEndAligned(head, m, m);
  }

  predicate Repeats(f: Frame, i: int, j: int)
    requires 0 <= i < |f| && 0 <= j < |f|
  {
    i != j && 0 <= f[i].index < MAX_ORDER && f[j].index == f[i].index
  }

  /** The pages from `head` on are cut into well-formed blocks. */
  ghost predicate CutFrom(f: Frame, head: int)
    requires 0 <= head <= |f| - 1
  {
    (head < |f| - 1 ==> f[head].index >= 0) &&
    forall i {:trigger HeadOk(f, i)} | head <= i < |f| - 1 && f[i].index >= 0 :: HeadOk(f, i)
  }

  /** They are free and of orders up to k. */
  predicate UpTo(f: Frame, head: int, k: int)
    requires 0 <= head <= |f| - 1
  {
    forall i {:trigger f[i]} | head <= i < |f| - 1 :: f[i].status == 0 && FREE <= f[i].index <= k
  }

  /** No order below the largest comes twice. */
  ghost predicate NoRepeat(f: Frame, head: int)
    requires 0 <= head <= |f| - 1
  {
    forall i, j {:trigger Repeats(f, i, j)} | head <= i < |f| - 1 && head <= j < |f| - 1 :: !Repeats(f, i, j)
  }

  /** f with a free block of order k written at `head`, over whatever was there. */
  function WithBlock(f: Frame, head: int, k: int): (g: Frame)
  {
    seq(|f|, (p: int) requires 0 <= p < |f| =>
      if p == head then FrameInfo(k, 0) else if head < p < head + Pow2(k) then FrameInfo(FREE, 0) else f[p])
  }

  /** The greedy loop has reached page `head`: up to there, and past the end, f
      is what is still to be filled, g, and from there on g is blank. */
  ghost predicate Reached(f: Frame, g: Frame, head: int) {
    |f| == |g| >= 1 && 0 <= head <= |f| - 1 &&
    (forall p {:trigger f[p]} | 0 <= p < head || p == |f| - 1 :: f[p] == g[p] && f[p].index <= MAX_ORDER) &&
    forall p {:trigger g[p]} | head <= p < |f| - 1 :: g[p] == FrameInfo(FREE, 0)
  }

  lemma ReachedStep(f: Frame, g: Frame, head: nat)
    requires Reached(f, g, head) && head < |f| - 1
    ensures var m := Order(g, head); Reached(WithBlock(f, head, m), Started(g, head), head + Pow2(m))
  {
  }

  /** The greedy loop, now at page `head`, is on its way to a target. */
  ghost predicate Filling(f: Frame, g: Frame, head: int, target: Frame) {
    Reached(f, g, head) && Fill(g, head) == target
  }

  lemma FillingStep(f: Frame, g: Frame, head: nat, target: Frame, m: int)
    requires Filling(f, g, head, target) && head < |f| - 1 && m == FloorLog2(|f| - 1 - head)
    ensures head + Pow2(m) <= |f| - 1 && Filling(WithBlock(f, head, m), Started(g, head), head + Pow2(m), target)
  {
    assert m == Order(g, head);
    ReachedStep(f, g, head);
    FillUnfold(g, head);
    assert Fill(Started(g, head), head + Pow2(m)) == target;
  }

  lemma FillingDone(f: Frame, g: Frame, target: Frame)
    requires |f| >= 1 && Filling(f, g, |f| - 1, target)
    ensures f == target && forall p | 0 <= p < |f| :: f[p].index <= MAX_ORDER
  {
    assert f == g;
  }

  /** g agrees with f below page `head` and past the end. */
  predicate Leaves(f: Frame, g: Frame, head: int) {
    |g| == |f| && forall p {:trigger g[p]} | 0 <= p < |f| && (p < head || p == |f| - 1) :: g[p] == f[p]
  }

  lemma {:induction false} FillLeaves(f: Frame, head: nat)
    requires |f| >= 1
    ensures Leaves(f, Fill(f, head), head)
    decreases |f| - head
  {
    if head < |f| - 1 {
      FillUnfold(f, head);
      FillLeaves(Started(f, head), head + Pow2(Order(f, head)));
    }
  }

  /** The frame with the largest block that fits started at `head`, its order,
      and the page after it. */
  ghost function Order(f: Frame, head: nat): (m: int)
    requires head < |f| - 1
    ensures IsLog2(|f| - 1 - head, m) && head + Pow2(m) <= |f| - 1
  {
    FloorLog2(|f| - 1 - head)
  }

  ghost function Started(f: Frame, head: nat): (g: Frame)
    requires head < |f| - 1
    ensures |g| == |f| && g[head] == FrameInfo(Order(f, head), 0)
    ensures forall p | 0 <= p < |f| && p != head :: g[p] == f[p]
  {
    f[head := FrameInfo(Order(f, head), 0)]
  }

  lemma FillUnfold(f: Frame, head: nat)
    requires head < |f| - 1
    ensures Fill(f, head) == Fill(Started(f, head), head + Pow2(Order(f, head)))
  {
  }

  /** The pages from `head` on are blank, and what is left of a block of order k. */
  ghost predicate ToFill(f: Frame, head: int, k: int) {
    |f| >= 1 && 0 <= head <= |f| - 1 && Remainder(head, |f| - 1 - head, k) &&
    forall p {:trigger f[p]} | head <= p < |f| - 1 :: f[p] == FrameInfo(FREE, 0)
  }

  lemma NextToFill(f: Frame, head: nat, k: int)
    requires ToFill(f, head, k) && head < |f| - 1
    ensures var m := Order(f, head); m <= k && Aligned(head, m) && ToFill(Started(f, head), head + Pow2(m), m)
  {
    NextRemainder(head, |f| - 1 - head, k, Order(f, head));
  }

  /** The block started is well formed once the next one starts. */
  lemma FirstBlock(f: Frame, g: Frame, head: nat, k: int, m: int)
    requires ToFill(f, head, k) && head < |f| - 1 && m == Order(f, head) && m <= k && Aligned(head, m)
    requires Leaves(Started(f, head), g, head + Pow2(m)) && CutFrom(g, head + Pow2(m))
    ensures HeadOk(g, head) && g[head] == FrameInfo(m, 0)
  {
    assert Interior(g, head, Pow2(m), FREE);
  }

  lemma {:induction false} FillCuts(f: Frame, head: nat, k: int)
    requires ToFill(f, head, k)
    ensures CutFrom(Fill(f, head), head) && UpTo(Fill(f, head), head, k)
    decreases |f| - head
  {
    if head < |f| - 1 {
      var m := Order(f, head);
      NextToFill(f, head, k);
      FillCuts(Started(f, head), head + Pow2(m), m);
      FillOn(f, head, k, m);
      OneMoreCut(Fill(f, head), head, m, k);
    }
  }

  /** The rest filled, the block started is one of those that Fill cuts. */
  lemma FillOn(f: Frame, head: nat, k: int, m: int)
    requires ToFill(f, head, k) && head < |f| - 1 && m == Order(f, head)
    requires CutFrom(Fill(Started(f, head), head + Pow2(m)), head + Pow2(m))
    ensures Fill(f, head) == Fill(Started(f, head), head + Pow2(m))
    ensures HeadOk(Fill(f, head), head) && Fill(f, head)[head] == FrameInfo(m, 0)
  {
    NextToFill(f, head, k);
    FillLeaves(Started(f, head), head + Pow2(m));
    FillUnfold(f, head);
    FirstBlock(f, Fill(f, head), head, k, m);
  }

  lemma OneMoreCut(g: Frame, head: nat, m: int, k: int)
    requires head < |g| - 1 && HeadOk(g, head) && g[head] == FrameInfo(m, 0) && m <= k
    requires CutFrom(g, head + Pow2(m)) && UpTo(g, head + Pow2(m), m)
    ensures CutFrom(g, head) && UpTo(g, head, k)
  {
  }

  lemma {:induction false} FillNoRepeat(f: Frame, head: nat, k: int)
    requires ToFill(f, head, k)
    ensures NoRepeat(Fill(f, head), head)
    decreases |f| - head
  {
    if head < |f| - 1 {
      var m := Order(f, head);
      NextToFill(f, head, k);
      FillNoRepeat(Started(f, head), head + Pow2(m), m);
      FillCuts(Started(f, head), head + Pow2(m), m);
      FillOn(f, head, k, m);
      OneMore(Fill(f, head), head, m);
    }
  }

  lemma OneMore(g: Frame, head: nat, m: int)
    requires head < |g| - 1 && HeadOk(g, head) && g[head] == FrameInfo(m, 0)
    requires CutFrom(g, head + Pow2(m)) && NoRepeat(g, head + Pow2(m)) &&
             (m < MAX_ORDER ==> |g| - 1 - head < 2 * Pow2(m))
    ensures NoRepeat(g, head)
  {
    var e := head + Pow2(m);
    forall j {:trigger g[j]} | head < j < |g| - 1 ensures m < MAX_ORDER ==> g[j].index != m {
      if j >= e && m < MAX_ORDER {
        LaterSmaller(g, e, j, m);
      }
    }
    forall i, j {:trigger Repeats(g, i, j)} | head <= i < |g| - 1 && head <= j < |g| - 1 ensures !Repeats(g, i, j) {
      if head < i && head < j && (i < e || j < e) {
        assert g[if i < e then i else j] == FrameInfo(FREE, 0);
      }
    }
  }

  /** A remainder below 2^m has no room for a block of order m. */
  lemma LaterSmaller(g: Frame, e: int, j: int, m: int)
    requires 0 <= e <= j < |g| - 1 && CutFrom(g, e) && 0 <= m && |g| - 1 - e < Pow2(m)
    ensures g[j].index != m
  {
    if g[j].index >= 0 {
      assert HeadOk(g, j);
    }
  }

  /** For every page count, the greedy cut is an aligned tiling of free blocks
      with no two free buddies. */
  lemma InitTiled(n: nat)
    requires n < 0x4000_0000
    ensures var f := InitFrame(n);
            Tiled(f) && Coalesced(f) && forall p | 0 <= p < n :: FreePage(f, p)
  {
    var f := InitFrame(n);
    FillCuts(Blank(n), 0, MAX_ORDER);
    FillNoRepeat(Blank(n), 0, MAX_ORDER);
    FillLeaves(Blank(n), 0);
    forall i, k {:trigger FreeBuddies(f, i, k)} | 0 <= k < MAX_ORDER ensures !FreeBuddies(f, i, k) {
      var b := BuddyOf(i, k);
      if 0 <= i < n && 0 <= b < n {
        assert !Repeats(f, i, b);
      }
    }
  }

  // ---------------------------------------------------------- the last loop

  /** The last loop of `page_init`, at page `head`, gets to page p. */
  predicate Visits(f: Frame, head: int, p: int)
    decreases p - head
  {
    head == p || (0 <= head < p < |f| && Visits(f, head + Pow2(f[head].index), p))
  }

  /** Through blocks of a tiling that r shares, it gets to every page that starts one. */
  lemma {:induction false} VisitsBlocks(f: Frame, r: Frame, head: int, p: int)
    requires Tiled(f) && 0 <= head <= p < |f| - 1 && Starts(f, head) && Starts(f, p)
    requires |r| == |f| && forall q {:trigger r[q]} | 0 <= q < p :: r[q] == f[q]
    ensures Visits(r, head, p)
    decreases p - head
  {
    if head < p {
      assert HeadOk(f, head);
      BlocksApart(f, head, p);
      VisitsBlocks(f, r, head + Pow2(f[head].index), p);
    }
  }

  /** In a tiling it gets to no other page. */
  lemma {:induction false} VisitsOnlyBlocks(f: Frame, head: int, p: int)
    requires Tiled(f) && 0 <= head <= p < |f| - 1 && Starts(f, head) && Visits(f, head, p)
    ensures Starts(f, p)
    decreases p - head
  {
    if head < p {
      assert HeadOk(f, head);
      VisitsOnlyBlocks(f, head + Pow2(f[head].index), p);
    }
  }

  /** What it puts on a list has an order that there is a list for. */
  ghost predicate ListsBlocks(f: Frame) {
    forall p {:trigger Visits(f, 0, p)} | 0 <= p < |f| - 1 && Visits(f, 0, p) && f[p].status == 0 ::
      0 <= f[p].index <= MAX_ORDER
  }

  lemma TiledListsBlocks(f: Frame)
    requires Tiled(f)
    ensures ListsBlocks(f)
  {
    forall p {:trigger Visits(f, 0, p)} | 0 <= p < |f| - 1 && Visits(f, 0, p) && f[p].status == 0
      ensures 0 <= f[p].index <= MAX_ORDER
    {
      VisitsOnlyBlocks(f, 0, p);
      assert HeadOk(f, p);
    }
  }

  /** After a reservation whose end does not fit, the last loop gets to the page after
      the range, inside a block whose head is gone, and lists it under order -1. */
  lemma OrphanListed(f: Frame, start: int, end: int)
    requires Reservable(f, start, end) && !EndFits(f, start, end)
    ensures var r := Reserve.Reserve(f, start, end);
            end + 1 < |r| - 1 && Visits(r, 0, end + 1) && r[end + 1] == FrameInfo(FREE, 0)
  {
    var m := ReserveOvershoots(f, start, end);
    OvershotTilesIff(f, m, start, end);
    var r := Stubbed(m, end);
    VisitsBlocks(m, r, 0, end - 1);
    OverStubs(r, 0, end);
  }

  /** It steps over stubs. */
  lemma {:induction false} OverStubs(r: Frame, head: int, end: int)
    requires 1 <= end < |r| - 1 && r[end - 1] == FrameInfo(-1, 1) && r[end] == FrameInfo(-1, 1)
    requires 0 <= head <= end - 1 && Visits(r, head, end - 1)
    ensures Visits(r, head, end + 1)
    decreases end - head
  {
    assert Pow2(-1) == 1;
    if head < end - 1 {
      OverStubs(r, head + Pow2(r[head].index), end);
    } else {
      assert Visits(r, end, end + 1);
    }
  }

  /** So the last loop lists only blocks exactly when the end of the range fits. */
  lemma LastLoopIff(f: Frame, start: int, end: int)
    requires Reservable(f, start, end)
    ensures ListsBlocks(Reserve.Reserve(f, start, end)) <==> EndFits(f, start, end)
  {
    if EndFits(f, start, end) {
      ReserveTilesIff(f, start, end);
      TiledListsBlocks(Reserve.Reserve(f, start, end));
    } else {
      OrphanListed(f, start, end);
    }
  }

  // ------------------------------------------------------- reserved ranges

  /** A byte range given to `memory_reserve`. */
  datatype Range = Range(start: nat, end: nat)

  function FirstPage(r: Range): int { r.start / 0x1000 }

  function LastPage(r: Range): int { r.end / 0x1000 }

  /** Each range in turn is free, and ends inside a block or right before a page in
      use. */
  ghost predicate RangesOk(f: Frame, ranges: seq<Range>)
    decreases |ranges|
  {
    ranges == [] ||
    (Reservable(f, FirstPage(ranges[0]), LastPage(ranges[0])) &&
     EndFits(f, FirstPage(ranges[0]), LastPage(ranges[0])) &&
     RangesOk(Reserve.Reserve(f, FirstPage(ranges[0]), LastPage(ranges[0])), ranges[1..]))
  }

  ghost function ReserveAll(f: Frame, ranges: seq<Range>): (r: Frame)
    requires RangesOk(f, ranges)
    ensures |r| == |f|
    decreases |ranges|
  {
    if ranges == [] then f
    else ReserveAll(Reserve.Reserve(f, FirstPage(ranges[0]), LastPage(ranges[0])), ranges[1..])
  }

  ghost predicate InRanges(ranges: seq<Range>, p: int) {
    exists j | 0 <= j < |ranges| :: FirstPage(ranges[j]) <= p <= LastPage(ranges[j])
  }

  /** A byte of a range that is reserved. */
  predicate ByteAt(r: Range, b: int, p: int) {
    r.start <= b <= r.end && b / 0x1000 == p
  }

  /** The pages of a range are those that its bytes lie in, first and last included. */
  lemma PagesOfRange(r: Range, p: int)
    requires r.start <= r.end
    ensures FirstPage(r) <= p <= LastPage(r) <==> exists b :: ByteAt(r, b, p)
  {
    if FirstPage(r) <= p <= LastPage(r) {
      assert ByteAt(r, if p == FirstPage(r) then r.start else 0x1000 * p, p);
    }
  }

  lemma InRangesOn(ranges: seq<Range>, p: int)
    requires ranges != []
    ensures InRanges(ranges, p) <==> FirstPage(ranges[0]) <= p <= LastPage(ranges[0]) || InRanges(ranges[1..], p)
  {
    assert forall j | 0 <= j < |ranges[1..]| :: ranges[1..][j] == ranges[j + 1];
    assert forall j | 1 <= j < |ranges| :: ranges[j] == ranges[1..][j - 1];
  }

  /** After all reservations a page is in use exactly if it is in some range. */
  lemma {:induction false} ReserveAllReserves(f: Frame, ranges: seq<Range>)
    requires RangesOk(f, ranges) && Tiled(f) && Coalesced(f)
    ensures var r := ReserveAll(f, ranges);
            Tiled(r) && Coalesced(r) &&
            forall p {:trigger FreePage(r, p)} | 0 <= p < |f| - 1 ::
              FreePage(r, p) <==> FreePage(f, p) && !InRanges(ranges, p)
    decreases |ranges|
  {
    if ranges != [] {
      var s, e := FirstPage(ranges[0]), LastPage(ranges[0]);
      ReserveReserves(f, s, e);
      var g := Reserve.Reserve(f, s, e);
      ReserveAllReserves(g, ranges[1..]);
      var r := ReserveAll(f, ranges);
      forall p {:trigger FreePage(r, p)} | 0 <= p < |f| - 1
        ensures FreePage(r, p) <==> FreePage(f, p) && !InRanges(ranges, p)
      {
        assert PageStep(f, g, s, e + 1, p);
        InRangesOn(ranges, p);
      }
    }
  }
}
