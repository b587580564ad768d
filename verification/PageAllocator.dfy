/** The buddy allocator of lib/malloc.c in place: the frame array, the links in
    the free pages' items and the list heads, updated as the code updates them. */
module PageAllocation {
  import opened Common
  import opened Powers
  import opened Buddy
  import opened BuddyProofs
  import opened BuddyTheorems
  import opened FreeLists
  import opened Sequences
  import Reserve
  import opened PageInit

  /** List L has a block in front with two halves, the upper one on no list. */
  ghost predicate CanCut(s: State, L: int) {
    Shaped(s) && 1 <= L <= MAX_ORDER && s.lists[L] != [] &&
    var a := s.lists[L][0];
    var u := a + Pow2(L - 1);
    0 <= a < u < |s.frame| - 1 && s.frame[a].index == L &&
    OnNone(PushOn(s.lists[L := s.lists[L][1..]], L - 1, a), u)
  }

  lemma CutReady(s: State, L: int)
    requires Consistent(s) && 1 <= L <= MAX_ORDER && s.lists[L] != []
    ensures CanCut(s, L)
  {
    SplitShape(s, L);
    HalfShape(s.frame, s.lists[L][0], L);
    var u := s.lists[L][0] + Pow2(L - 1);
    var lists := PushOn(s.lists[L := s.lists[L][1..]], L - 1, s.lists[L][0]);
    forall k {:trigger lists[k]} | 0 <= k < |lists| ensures u !in lists[k] {
      assert ListOk(s.frame, s.lists[k], k);
      assert u !in s.lists[k];
    }
  }

  /** A listed page is free. */
  lemma ListedFree(s: State, k: int)
    requires Consistent(s) && 0 <= k <= MAX_ORDER
    ensures forall p | p in s.lists[k] :: FreePage(s.frame, p)
    ensures forall p | p in Front(s.lists[k]) :: FreePage(s.frame, p)
  {
    assert ListOk(s.frame, s.lists[k], k);
    assert s.lists[k] != [] ==> s.lists[k][0] in s.lists[k];
  }

  /** Two blocks that can be joined: both are on list k, unlinking both leaves
      neither on a list, and what the lists hold is free. */
  ghost predicate CanJoin(s: State, i: int) {
    Shaped(s) && IsHead(s.frame, i) && Mergeable(s, i) &&
    var k := s.frame[i].index;
    var b := BuddyOf(i, k);
    var one := Unlist(s.lists, k, i);
    var both := Unlist(one, k, b);
    i != b && i in s.lists[k] && b in one[k] && OnNone(both, i) && OnNone(both, b) &&
    (forall p {:trigger p in s.lists[k]} | p in s.lists[k] :: FreePage(s.frame, p)) &&
    (forall p {:trigger p in one[k]} | p in one[k] :: FreePage(s.frame, p)) &&
    (forall p {:trigger p in Front(both[k + 1])} | p in Front(both[k + 1]) :: FreePage(s.frame, p)) &&
    FreePage(s.frame, Lower(s, i))
  }

  lemma JoinReady(s: State, i: int)
    requires Consistent(s) && IsHead(s.frame, i) && Mergeable(s, i)
    ensures CanJoin(s, i)
  {
    MergeShape(s, i);
    var k := s.frame[i].index;
    var b := BuddyOf(i, k);
    ListedFree(s, k);
    ListedFree(s, k + 1);
    assert ListOk(s.frame, s.lists[k], k);
    var one := Unlist(s.lists, k, i);
    var both := Unlist(one, k, b);
    assert both[k + 1] == s.lists[k + 1];
    forall m {:trigger both[m]} | 0 <= m < |both| ensures i !in both[m] && b !in both[m] {
      assert ListOk(s.frame, s.lists[m], m);
    }
  }

  lemma SameFree(f: Frame, g: Frame)
    requires SameUse(f, g)
    ensures forall p :: FreePage(g, p) ==> FreePage(f, p)
  {
    forall p | FreePage(g, p) ensures FreePage(f, p) {
      assert SamePageUse(f, g, p);
    }
  }

  /** The lists once both buddies are unlinked. */
  ghost function BothUnlisted(s: State, i: int): (lists: seq<seq<int>>)
    requires Shaped(s) && IsHead(s.frame, i)
    ensures |lists| == MAX_ORDER + 1
  {
    var k := s.frame[i].index;
    Unlist(Unlist(s.lists, k, i), k, BuddyOf(i, k))
  }

  lemma BothUnlinked(s: State, i: int)
    requires CanJoin(s, i)
    ensures var b := BuddyOf(i, s.frame[i].index); Unlink(Unlink(s, i), b).lists == BothUnlisted(s, i)
    ensures OnNone(BothUnlisted(s, i), i) && OnNone(BothUnlisted(s, i), BuddyOf(i, s.frame[i].index))
  {
  }

  lemma JoinFree(s: State, i: int, k: int)
    requires CanJoin(s, i) && k == s.frame[i].index
    ensures k < MAX_ORDER && forall p | p in {Lower(s, i)} + Front(BothUnlisted(s, i)[k + 1]) :: FreePage(s.frame, p)
  {
  }

  /** Joining, as the unlinking of both blocks and the raising of the lower one. */
  lemma JoinIs(s: State, i: int, lower: int, upper: int, k: int)
    requires Shaped(s) && IsHead(s.frame, i) && k == s.frame[i].index && Mergeable(s, i) && i != BuddyOf(i, k)
    requires var b := BuddyOf(i, k); lower == (if b > i then i else b) && upper == (if b > i then b else i)
    ensures lower == Lower(s, i) && 0 <= lower < |s.frame| - 1 && 0 <= upper < |s.frame| && lower != upper
    ensures s.frame[lower].index == k && 0 <= k < MAX_ORDER
    ensures MergeOnce(s, i).frame == SetIndex(SetIndex(s.frame, upper, FREE), lower, k + 1)
    ensures MergeOnce(s, i).lists == PushOn(BothUnlisted(s, i), k + 1, lower)
  {
    var f := SetIndex(SetIndex(s.frame, upper, FREE), lower, k + 1);
    assert f[lower].index == k + 1;
    assert Push(State(f, BothUnlisted(s, i)), lower).lists == PushOn(BothUnlisted(s, i), k + 1, lower);
  }

  ghost function Front(xs: seq<int>): set<int> {
    if xs == [] then {} else {xs[0]}
  }

  /** The pages whose items are written when a block of list L is cut. */
  ghost function CutItems(s: State, L: int): set<int>
    requires Shaped(s) && 1 <= L <= MAX_ORDER && s.lists[L] != []
  {
    {s.lists[L][0], s.lists[L][0] + Pow2(L - 1)} + Front(s.lists[L - 1])
  }

  /** The items that cutting a block writes belong to free pages. */
  lemma CutFromFree(s: State, L: int)
    requires Consistent(s) && 1 <= L <= MAX_ORDER && s.lists[L] != []
    ensures forall p | p in CutItems(s, L) :: FreePage(s.frame, p)
  {
    SplitShape(s, L);
    HalfShape(s.frame, s.lists[L][0], L);
    ListedFree(s, L - 1);
  }

  /** From the links p, n to the links q, m, only items of the pages in `written`
      changed. */
  ghost predicate OnlyItems(p: seq<int>, n: seq<int>, q: seq<int>, m: seq<int>, written: set<int>) {
    |p| == |n| == |q| == |m| &&
    forall i {:trigger i in written} | 0 <= i < |p| && i !in written :: q[i] == p[i] && m[i] == n[i]
  }

  /** The log of written items in state of the links p, n grew to the one in state of
      the links q, m, and holds every item that changed. */
  ghost predicate Follows(before: set<int>, p: seq<int>, n: seq<int>, after: set<int>, q: seq<int>, m: seq<int>) {
    before <= after && OnlyItems(p, n, q, m, after)
  }

  /** What `delete_page_item` relies on: the neighbours of the item, and that linking
      past it unlists it. */
  lemma DeleteReady(f: Frame, previous: seq<int>, next: seq<int>, heads: seq<int>, lists: seq<seq<int>>, i: int, k: int)
    requires Linked(f, previous, next, heads, lists) && 0 <= k <= MAX_ORDER && i in lists[k]
    requires 0 <= i < |next| && (lists[k][0] == i ==> previous[i] == NULL)
    ensures previous[i] == NULL || (0 <= previous[i] < |next| && previous[i] in lists[k])
    ensures next[i] == NULL || (0 <= next[i] < |next| && next[i] in lists[k])
    ensures lists[k][0] == i <==> previous[i] == NULL
    ensures previous[i] == NULL ==> First(Unlist(lists, k, i)[k]) == next[i]
    ensures Linked(f, PreviousAfterDelete(previous, next, i), NextAfterDelete(previous, next, i),
                   if previous[i] == NULL then heads[k := next[i]] else heads, Unlist(lists, k, i))
  {
    var xs := lists[k];
    var p :| 0 <= p < |xs| && xs[p] == i;
    DeleteLinked(f, previous, next, heads, lists, k, p);
    RemoveAtIsWithout(xs, p);
    ItemLinks(previous, next, heads[k], xs, p);
    assert RemoveAt(xs, p) == Unlist(lists, k, i)[k];
    if p > 0 {
      DistinctAt(xs, 0, p);
    }
  }

  class PageAllocator {
    const frame: array<FrameInfo>
    const previous: array<int>
    const next: array<int>
    const pageList: array<int>

    // The lists the links spell out
    ghost var lists: seq<seq<int>>
    // The pages whose item has been written to
    ghost var touched: set<int>

    ghost predicate Separate()
    {
      frame.Length >= 1 && previous.Length == next.Length == frame.Length - 1 &&
      pageList.Length == MAX_ORDER + 1 &&
      previous != next && previous != pageList && next != pageList
    }

    /** Every item that changed since a state of the log and the links is logged. */
    ghost predicate Logged(before: set<int>, p: seq<int>, n: seq<int>)
      reads this, previous, next
    {
      Follows(before, p, n, touched, previous[..], next[..])
    }

    /** The arrays fit together and the links spell out the lists. */
    ghost predicate Valid()
      reads this, frame, previous, next, pageList
    {
      Separate() && Linked(frame[..], previous[..], next[..], pageList[..], lists)
    }

    ghost function Abs(): (s: State)
      reads this, frame
    {
      State(frame[..], lists)
    }

    /** The front block of its list, with a `previous` that is not stale. */
    ghost predicate Fresh(i: int)
      requires Separate()
      reads this, frame, previous
    {
      IsHead(frame[..], i) && |lists| == MAX_ORDER + 1 &&
      lists[frame[i].index] != [] && lists[frame[i].index][0] == i && previous[i] == NULL
    }

    // ---------------------------------------------------------------- boot

    /** `page_init` for a memory of `pages` pages, with the ranges it reserves. */
    constructor (pages: nat, ranges: seq<Range>)
      requires pages < 0x4000_0000 && RangesOk(InitFrame(pages), ranges)
      ensures Valid() && Inv(Abs()) && frame[..] == ReserveAll(InitFrame(pages), ranges)
      ensures fresh(frame) && fresh(previous) && fresh(next) && fresh(pageList)
    {
      frame := new FrameInfo[pages + 1](_ => SENTINEL);
      previous := new int[pages];
      next := new int[pages];
      pageList := new int[MAX_ORDER + 1](_ => NULL);
      lists := seq(MAX_ORDER + 1, _ => []);
      touched := {};
      new;
      InitPages(ranges);
    }

    /** The loops of `page_init`. */
    method InitPages(ranges: seq<Range>)
      requires Separate() && frame[frame.Length - 1] == SENTINEL && frame.Length <= 0x4000_0000
      requires RangesOk(InitFrame(frame.Length - 1), ranges)
      requires |lists| == MAX_ORDER + 1 && forall k {:trigger lists[k]} | 0 <= k <= MAX_ORDER :: lists[k] == []
      requires forall k | 0 <= k <= MAX_ORDER :: pageList[k] == NULL
      modifies this, frame, previous, next, pageList
      ensures Valid() && Inv(Abs()) && frame[..] == ReserveAll(InitFrame(frame.Length - 1), ranges)
    {
      InitTiled(frame.Length - 1);
      ReserveAllReserves(InitFrame(frame.Length - 1), ranges);
      CutGreedily();
      ReserveRanges(ranges);
      assert Valid();
      ListFreeBlocks();
    }

    /** The first loop of `page_init`. */
    method CutGreedily()
      requires Separate() && frame[frame.Length - 1] == SENTINEL && frame.Length <= 0x4000_0000
      modifies frame
      ensures Bounded() && frame[..] == InitFrame(frame.Length - 1)
    {
      var pages := frame.Length - 1;
      var nonInit := pages;
      var head := 0;
      ghost var target := InitFrame(pages);
      ghost var g := Blank(pages);
      while head < pages
        invariant 0 <= head <= pages && Filling(frame[..], g, head, target) && nonInit == pages - head
      {
        var size;
        size, g := CutNext(head, nonInit, g, target);
        head := head + size;
        nonInit := nonInit - size;
      }
      FillingDone(frame[..], g, target);
    }

    /** One round of it: the largest block that fits in what is left. */
    method CutNext(head: int, nonInit: int, ghost g: Frame, ghost target: Frame) returns (size: int, ghost next: Frame)
      requires Separate() && 0 <= head < frame.Length - 1 && nonInit == frame.Length - 1 - head
      requires frame.Length <= 0x4000_0000 && Filling(frame[..], g, head, target)
      modifies frame
      ensures 0 < size <= nonInit && Filling(frame[..], next, head + size, target)
    {
      var level := Log2(nonInit);
      FillingStep(frame[..], g, head, target, level);
      next := Started(g, head);
      size := StartBlock(head, level);
    }

    /** A free block of order `level` at `head`. */
    method StartBlock(head: int, level: int) returns (size: int)
      requires 0 <= head && 0 <= level <= MAX_ORDER && head + Pow2(level) < frame.Length
      modifies frame
      ensures size == Pow2(level) && frame[..] == WithBlock(old(frame[..]), head, level)
    {
      frame[head] := frame[head].(index := level);
      frame[head] := frame[head].(status := 0);
      size := Power2(frame[head].index);
      var i := head + 1;
      while i < head + size
        invariant head < i <= head + size
        invariant forall p {:trigger frame[p]} | 0 <= p < frame.Length ::
                    frame[p] == if p == head then FrameInfo(level, 0)
                                else if head < p < i then FrameInfo(FREE, 0) else old(frame[p])
      {
        frame[i] := frame[i].(index := FREE);
        frame[i] := frame[i].(status := 0);
        i := i + 1;
      }
    }

    /** The calls of `memory_reserve` in `page_init`. */
    method ReserveRanges(ranges: seq<Range>)
      requires Separate() && Bounded() && RangesOk(frame[..], ranges)
      modifies frame
      ensures Bounded() && frame[..] == ReserveAll(old(frame[..]), ranges)
      decreases |ranges|
    {
      if ranges != [] {
        MemoryReserve(ranges[0]);
        ReserveRanges(ranges[1..]);
      }
    }

    /** The last loop of `page_init`: every free block goes on its list. */
    method ListFreeBlocks()
      requires Valid() && Tiled(frame[..]) && Coalesced(frame[..])
      requires forall k {:trigger lists[k]} | 0 <= k <= MAX_ORDER :: lists[k] == []
      modifies this, previous, next, pageList
      ensures Valid() && Inv(Abs())
    {
      var head := 0;
      while head < frame.Length - 1
        invariant 0 <= head <= frame.Length - 1 && (head < frame.Length - 1 ==> Starts(frame[..], head))
        invariant Valid()
        invariant forall k, i {:trigger i in lists[k]} {:trigger lists[k], FreeHead(frame[..], i, k)}
                    | 0 <= k <= MAX_ORDER ::
                    i in lists[k] <==> FreeHead(frame[..], i, k) && i < head
      {
        assert HeadOk(frame[..], head);
        if frame[head].status == 0 {
          AddPageItem(head);
        }
        var size := Power2(frame[head].index);
        head := head + size;
      }
      forall k {:trigger ListOk(frame[..], lists[k], k)} | 0 <= k <= MAX_ORDER ensures ListOk(frame[..], lists[k], k) {
      }
    }

    /** No entry holds an order above the largest. */
    ghost predicate Bounded()
      reads this, frame
    {
      forall p {:trigger frame[p]} | 0 <= p < frame.Length :: frame[p].index <= MAX_ORDER
    }

    /** Cuts the block at `head` in two free ones. */
    method CutBlock(head: int)
      requires Separate() && 0 <= head < frame.Length && head + Pow2(frame[head].index - 1) < frame.Length
      requires Bounded()
      modifies frame
      ensures Bounded() && frame[..] == Reserve.CutFree(old(frame[..]), head)
    {
      frame[head] := frame[head].(index := frame[head].index - 1);
      frame[head] := frame[head].(status := 0);
      var size := Power2(frame[head].index);
      frame[head + size] := frame[head + size].(index := frame[head].index);
      frame[head + size] := frame[head + size].(status := 0);
    }

    /** Marks the block at `head` reserved. */
    method ReserveBlock(head: int)
      requires Separate() && 0 <= head < frame.Length && head + Pow2(frame[head].index) <= frame.Length
      requires Bounded()
      modifies frame
      ensures Bounded() && frame[..] == Reserve.ReserveBlock(old(frame[..]), head)
    {
      frame[head] := frame[head].(status := 1);
      var size := Power2(frame[head].index);
      var i := 1;
      while i < size
        invariant 1 <= i && (i <= size || i == 1)
        invariant Bounded()
        invariant frame[..] == SetInterior(SetStatus(old(frame[..]), head, 1), head, i, RESERVED)
      {
        frame[head + i] := frame[head + i].(index := RESERVED);
        i := i + 1;
      }
    }

    /** First part of `memory_reserve`: find the block, cut it until one starts
        at page `start`. */
    method OpenAt(start: int, ghost end: int) returns (head: int)
      requires Separate() && Bounded() && Reserve.Reservable(frame[..], start, end)
      modifies frame
      ensures Bounded() && head == start && frame[..] == Reserve.Opened(old(frame[..]), start, end).f
    {
      Reserve.FindHeadFinds(frame[..], start);
      head := BlockOf(start);
      head := CutDown(head, start);
    }

    /** The walk down to the head of the block that holds page `start`. */
    method BlockOf(start: int) returns (head: int)
      requires Separate() && Tiled(frame[..]) && FreePage(frame[..], start)
      ensures head == Reserve.FindHead(frame[..], start)
    {
      ghost var f := frame[..];
      Reserve.FindHeadFinds(f, start);
      head := start;
      while frame[head].index == FREE
        invariant 0 <= head <= start
        invariant Reserve.FindHead(f, head) == Reserve.FindHead(f, start)
        decreases head
      {
        head := head - 1;
      }
    }

    /** The first loop. */
    method CutDown(from: int, start: int) returns (head: int)
      requires Separate() && Bounded() && Reserve.Holds(frame[..], from, start)
      modifies frame
      ensures Bounded() && Reserve.Cursor(frame[..], head) == Reserve.SplitTo(old(frame[..]), from, start)
    {
      head := from;
      while head != start
        invariant Bounded() && Reserve.Holds(frame[..], head, start)
        invariant Reserve.SplitTo(frame[..], head, start) == Reserve.SplitTo(old(frame[..]), from, start)
        decreases frame[head].index
      {
        head := CutTowards(head, start);
      }
    }

    /** One round of it: cut the block, and go on in the half that holds page `start`. */
    method CutTowards(from: int, start: int) returns (head: int)
      requires Separate() && Bounded() && Reserve.Holds(frame[..], from, start) && from != start
      modifies frame
      ensures Bounded() && Reserve.Cursor(frame[..], head) == Reserve.SplitStep(old(frame[..]), from, start)
    {
      ghost var c := Reserve.SplitStep(frame[..], from, start);
      CutBlock(from);
      assert frame[..] == c.f;
      var half := Power2(frame[from].index);
      head := from + half;
      if head > start {
        half := Power2(frame[head].index);
        head := head - half;
      }
    }

    /** `memory_reserve`. */
    method MemoryReserve(range: Range)
      requires Separate() && Bounded() && Reserve.Reservable(frame[..], FirstPage(range), LastPage(range))
      modifies frame
      ensures Bounded()
      ensures frame[..] == Reserve.Reserve(old(frame[..]), FirstPage(range), LastPage(range))
    {
      var startIndex := range.start / 0x1000;
      var endIndex := range.end / 0x1000;
      ghost var a := Reserve.Opened(frame[..], startIndex, endIndex).f;
      Reserve.ReserveRunKeeps(frame[..], a, startIndex, startIndex, endIndex);
      var head := OpenAt(startIndex, endIndex);
      head := ReserveUpTo(head, endIndex);
      head := CloseAt(head, endIndex);
      ReserveBlock(head);
    }

    /** Second part: reserve the blocks that end before page `end`. */
    method ReserveUpTo(start: int, end: int) returns (head: int)
      requires Separate() && Bounded() && 0 <= start <= end < frame.Length - 1
      modifies frame
      ensures Bounded() && Reserve.Cursor(frame[..], head) == Reserve.ReserveRun(old(frame[..]), start, end)
    {
      head := start;
      var size := Power2(frame[head].index);
      while head + size < end
        invariant Bounded() && 0 <= head <= end && size == Pow2(frame[head].index)
        invariant Reserve.ReserveRun(frame[..], head, end) == Reserve.ReserveRun(old(frame[..]), start, end)
        decreases end - head
      {
        ghost var f := frame[..];
        Reserve.ReserveRunStep(f, head, end);
        ReserveBlock(head);
        assert frame[..] == Reserve.ReserveBlock(f, head);
        head := head + size;
        size := Power2(frame[head].index);
      }
    }

    /** Third part: cut the last block until one ends at page `end`. */
    method CloseAt(start: int, end: int) returns (head: int)
      requires Separate() && Bounded() && Reserve.Reaches(frame[..], start, end)
      modifies frame
      ensures Bounded() && Reserve.Cursor(frame[..], head) == Reserve.SplitEnd(old(frame[..]), start, end)
    {
      head := start;
      var size := Power2(frame[head].index);
      while head + size - 1 != end
        invariant Bounded() && Reserve.Reaches(frame[..], head, end) && size == Pow2(frame[head].index)
        invariant Reserve.SplitEnd(frame[..], head, end) == Reserve.SplitEnd(old(frame[..]), start, end)
        decreases frame[head].index
      {
        ghost var g := frame[..];
        ghost var c := Reserve.EndStep(g, head, end);
        CutBlock(head);
        size := Power2(frame[head].index);
        if end >= head + size {
          ReserveBlock(head);
          head := head + size;
          size := Power2(frame[head].index);
        }
        assert Reserve.Cursor(frame[..], head) == c;
      }
    }

    method AddPageItem(index: int)
      requires Valid() && IsHead(frame[..], index) && OnNone(lists, index)
      modifies this, previous, next, pageList
      ensures Valid() && lists == PushOn(old(lists), frame[index].index, index) && Fresh(index)
      ensures touched <= old(touched) + {index} + Front(old(lists[frame[index].index]))
      ensures Logged(old(touched), old(previous[..]), old(next[..]))
    {
      var level := frame[index].index;
      PushLinked(frame[..], previous[..], next[..], pageList[..], lists, index, level);
      assert Chain(previous[..], next[..], pageList[level], lists[level]);
      touched := touched + {index};
      previous[index] := NULL;
      next[index] := NULL;
      if pageList[level] == NULL {
        pageList[level] := index;
      } else {
        var current := pageList[level];
        next[index] := pageList[level];
        touched := touched + {current};
        previous[current] := index;
        pageList[level] := index;
      }
      lists := lists[level := [index] + lists[level]];
      assert next[..] == old(next[..])[index := old(pageList[level])];
      assert pageList[..] == old(pageList[..])[level := index];
      assert previous[..] == var p := old(previous[..])[index := NULL];
                             var h := old(pageList[level]); if h == NULL then p else p[h := index];
    }

    method DeletePageItem(index: int)
      requires Valid() && IsHead(frame[..], index) && index in lists[frame[index].index]
      // the item's own links are not stale
      requires lists[frame[index].index][0] == index ==> previous[index] == NULL
      modifies this, previous, next, pageList
      ensures Valid() && lists == Unlist(old(lists), frame[index].index, index)
      ensures old(lists[frame[index].index][0]) == index ==>
                forall i | First(lists[frame[index].index]) == i && i != NULL :: previous[i] == NULL
      ensures forall p | p in touched :: p in old(touched) || p in old(lists)[frame[index].index]
      ensures Logged(old(touched), old(previous[..]), old(next[..]))
    {
      var level := frame[index].index;
      DeleteReady(frame[..], previous[..], next[..], pageList[..], lists, index, level);
      BypassItem(index, level);
      lists := Unlist(lists, level, index);
    }

    /** The pointer surgery of `delete_page_item`. */
    method BypassItem(index: int, level: int)
      requires Separate() && 0 <= index < next.Length && 0 <= level <= MAX_ORDER
      requires previous[index] == NULL || 0 <= previous[index] < next.Length
      requires next[index] == NULL || 0 <= next[index] < next.Length
      modifies this`touched, previous, next, pageList
      ensures next[..] == NextAfterDelete(old(previous[..]), old(next[..]), index)
      ensures previous[..] == PreviousAfterDelete(old(previous[..]), old(next[..]), index)
      ensures pageList[..] ==
              if old(previous[index]) == NULL then old(pageList[..])[level := old(next[index])] else old(pageList[..])
      ensures forall p | p in touched ::
                p in old(touched) || (p != NULL && p in {old(previous[index]), old(next[index])})
      ensures Logged(old(touched), old(previous[..]), old(next[..]))
    {
      var prev := previous[index];
      var nxt := next[index];
      if nxt != NULL && prev != NULL {
        touched := touched + {prev, nxt};
        next[prev] := nxt;
        previous[nxt] := prev;
      } else {
        if nxt != NULL {
          touched := touched + {nxt};
          previous[nxt] := NULL;
          pageList[level] := nxt;
        } else if prev != NULL {
          touched := touched + {prev};
          next[prev] := NULL;
        } else {
          pageList[level] := NULL;
        }
      }
    }

    /** The items written since are those of pages free in f. */
    ghost predicate TouchedOnly(before: set<int>, f: Frame)
      reads this
    {
      forall p {:trigger p in touched} | p in touched :: p in before || FreePage(f, p)
    }

    /** `(frame + i)->index = order`. */
    method SetOrder(i: int, order: int)
      requires Valid() && 0 <= i < frame.Length && OnNone(lists, i)
      modifies frame
      ensures Valid() && frame[..] == SetIndex(old(frame[..]), i, order)
    {
      frame[i] := frame[i].(index := order);
    }

    /** The loop that marks the pages of a block after its head. */
    method MarkInterior(head: int, size: int, mark: int)
      requires Valid() && 0 <= head && head + size <= frame.Length - 1
      requires forall p | head < p < head + size :: frame[p].index < 0
      modifies frame
      ensures Valid() && frame[..] == SetInterior(old(frame[..]), head, size, mark)
    {
      var i := 1;
      while i < size
        invariant 1 <= i && (i <= size || i == 1)
        invariant frame[..] == SetInterior(old(frame[..]), head, i, mark)
      {
        frame[head + i] := frame[head + i].(index := mark);
        i := i + 1;
      }
    }

    /** `page_list[level] = page_list[level]->next` on a non-empty list. */
    method PopFront(level: int) returns (index: int)
      requires Valid() && 0 <= level <= MAX_ORDER && lists[level] != []
      modifies this`lists, pageList
      ensures Valid() && index == old(lists[level][0]) && OnNone(lists, index)
      ensures lists == old(lists)[level := old(lists[level])[1..]]
    {
      PopLinked(frame[..], previous[..], next[..], pageList[..], lists, level);
      index := pageList[level];
      pageList[level] := next[index];
      lists := lists[level := lists[level][1..]];
      assert pageList[..] == old(pageList[..])[level := next[index]];
    }

    /** The branch of `page_divide` that finds a block to cut. */
    method CutFront(level: int)
      requires Valid() && CanCut(Abs(), level)
      modifies this, frame, previous, next, pageList
      ensures Valid() && Abs() == Split(old(Abs()), level)
      ensures touched <= old(touched) + CutItems(old(Abs()), level)
      ensures Logged(old(touched), old(previous[..]), old(next[..]))
    {
      ghost var s := Abs();
      var index := LowerFront(level);
      var half := Power2(level - 1);
      SetOrder(index + half, level - 1);
      assert frame[..] == Split(s, level).frame;
      AddPageItem(index + half);
      assert lists == Split(s, level).lists;
    }

    /** The front block of the list becomes its own lower half. */
    method LowerFront(level: int) returns (index: int)
      requires Valid() && CanCut(Abs(), level)
      modifies this, frame, previous, next, pageList
      ensures Valid() && index == old(lists[level][0]) && frame[..] == SetIndex(old(frame[..]), index, level - 1)
      ensures lists == PushOn(old(lists)[level := old(lists[level])[1..]], level - 1, index)
      ensures touched <= old(touched) + {index} + Front(old(lists[level - 1]))
      ensures Logged(old(touched), old(previous[..]), old(next[..]))
    {
      index := PopFront(level);
      SetOrder(index, frame[index].index - 1);
      AddPageItem(index);
    }

    method PageDivide(level: int)
      requires Valid() && Consistent(Abs()) && 1 <= level <= MAX_ORDER
      requires level >= 5 || CanDivide(lists, level)
      modifies this, frame, previous, next, pageList
      ensures Valid()
      ensures old(CanDivide(lists, level)) ==> Abs() == Divide(old(Abs()), level) && Consistent(Abs())
      ensures !old(CanDivide(lists, level)) ==> Abs() == old(Abs())
      ensures TouchedOnly(old(touched), old(frame[..]))
      ensures Logged(old(touched), old(previous[..]), old(next[..]))
      decreases NextSource(lists, level) - level
    {
      assert Chain(previous[..], next[..], pageList[level], lists[level]);
      if pageList[level] != NULL {
        CutReady(Abs(), level);
        CutFront(level);
        DivideConsistent(old(Abs()), level);
        CutFromFree(old(Abs()), level);
      } else {
        if level < 5 {
          PageDivide(level + 1);
          label Divided:
          DivideSameUse(old(Abs()), level + 1);
          ghost var f := frame[..];
          PageDivide(level);
          forall p {:trigger p in touched} | p in touched ensures p in old(touched) || FreePage(old(frame[..]), p) {
            if 0 <= p < frame.Length {
              assert SamePageUse(old(frame[..]), f, p);
            }
          }
        }
      }
    }

    /** `page_allocate`. Where no list the search reaches has a block, the code
        would follow a null item or recurse for ever. */
    method PageAllocate(size: nat) returns (r: int)
      requires Valid() && Inv(Abs()) && size <= 0x1000_0000
      requires OrderFor(size) < MAX_ORDER ==> CanAllocate(lists, OrderFor(size))
      modifies this, frame, previous, next, pageList
      ensures Valid() && Inv(Abs())
      ensures old(CanAllocate(lists, OrderFor(size))) ==>
                r == old(Allocated(Abs(), OrderFor(size))) && Abs() == Allocate(old(Abs()), OrderFor(size))
      ensures !old(CanAllocate(lists, OrderFor(size))) ==> r == -1 && Abs() == old(Abs())
      // the items written by this call, and that no other item changed
      ensures TouchedOnly({}, old(frame[..])) && Logged({}, old(previous[..]), old(next[..]))
    {
      touched := {};
      var level := Log2(if size == 0 then -1 else (size - 1) / 0x1000);
      level := level + 1;
      var found := FindBlock(level);
      if !found {
        return -1;
      }
      AllocateKeeps(old(Abs()), level);
      r := HandOut(level);
    }

    /** The start of `page_allocate`: a block of order `level` comes to the front of
        its list, if there is one to be had. */
    method FindBlock(level: int) returns (found: bool)
      requires Valid() && Consistent(Abs()) && 0 <= level <= MAX_ORDER
      requires level < MAX_ORDER ==> CanAllocate(lists, level)
      modifies this, frame, previous, next, pageList
      ensures Valid() && found == old(CanAllocate(lists, level))
      ensures if found then Consistent(Abs()) && Abs() == Prepare(old(Abs()), level) else Abs() == old(Abs())
      ensures TouchedOnly(old(touched), old(frame[..])) && Logged(old(touched), old(previous[..]), old(next[..]))
    {
      assert Chain(previous[..], next[..], pageList[level], lists[level]);
      if pageList[level] == NULL {
        if level < MAX_ORDER {
          PageDivide(level + 1);
        } else {
          return false;
        }
      }
      found := true;
    }

    /** The end of `page_allocate`: the front block of the list goes into use. */
    method HandOut(level: int) returns (r: int)
      requires Valid() && Consistent(Abs()) && 0 <= level <= MAX_ORDER && lists[level] != []
      modifies this, frame, pageList
      ensures Valid() && r == old(lists[level][0]) && Abs() == Take(old(Abs()), level)
      ensures touched == old(touched)
    {
      ghost var s := Abs();
      assert ListOk(s.frame, lists[level], level);
      assert lists[level][0] in lists[level];
      assert HeadOk(s.frame, lists[level][0]);
      var current := pageList[level];
      assert Chain(previous[..], next[..], pageList[level], lists[level]);
      frame[current] := frame[current].(status := 1);
      var size := Power2(level);
      MarkInterior(current, size, ALLOCATED);
      r := PopFront(level);
    }

    /** `merge`, called right after `index` was put on its list. */
    method Merge(index: int)
      requires Valid() && Consistent(Abs()) && Fresh(index) && frame[index].status == 0
      modifies this, frame, previous, next, pageList
      ensures Valid() && Abs() == Buddy.Merge(old(Abs()), index)
      ensures TouchedOnly(old(touched), old(frame[..]))
      ensures Logged(old(touched), old(previous[..]), old(next[..]))
      decreases MAX_ORDER - frame[index].index, 1
    {
      ghost var s := Abs();
      if frame[index].index == MAX_ORDER {
        return;
      }
      var level := frame[index].index;
      var size := Power2(level);
      assert HeadOk(s.frame, index);
      var mergeIndex := index + size;
      if index % (2 * size) != 0 {
        mergeIndex := index - size;
      }
      assert mergeIndex == BuddyOf(index, level);
      assert 0 <= mergeIndex < frame.Length by { BuddyFacts(index, level); }
      if frame[index].index == frame[mergeIndex].index {
        if frame[index].status == 0 && frame[mergeIndex].status == 0 {
          MergeOn(index, mergeIndex);
        }
      }
    }

    /** The branch of `merge` for two free buddies: join them and merge on. */
    method MergeOn(index: int, mergeIndex: int)
      requires Valid() && Consistent(Abs()) && Fresh(index) && Mergeable(Abs(), index)
      requires mergeIndex == BuddyOf(index, frame[index].index)
      modifies this, frame, previous, next, pageList
      ensures Valid() && Abs() == Buddy.Merge(old(Abs()), index)
      ensures TouchedOnly(old(touched), old(frame[..]))
      ensures Logged(old(touched), old(previous[..]), old(next[..]))
      decreases MAX_ORDER - frame[index].index, 0
    {
      ghost var s := Abs();
      JoinReady(s, index);
      MergeOnceTiled(s, index);
      MergeOnceLists(s, index);
      MergeOnceSameUse(s, index);
      Join(index, mergeIndex);
      var lower := if mergeIndex > index then index else mergeIndex;
      Merge(lower);
      SameFree(s.frame, MergeOnce(s, index).frame);
    }

    /** The joining. */
    method Join(index: int, mergeIndex: int)
      requires Valid() && Fresh(index) && CanJoin(Abs(), index)
      requires mergeIndex == BuddyOf(index, frame[index].index)
      modifies this, frame, previous, next, pageList
      ensures Valid() && Abs() == MergeOnce(old(Abs()), index) && Fresh(Lower(old(Abs()), index))
      ensures TouchedOnly(old(touched), old(frame[..]))
      ensures Logged(old(touched), old(previous[..]), old(next[..]))
    {
      ghost var s := Abs();
      BothUnlinked(s, index);
      UnlinkBoth(index, mergeIndex);
      RaiseLower(index, mergeIndex, s);
    }

    /** Its second half, from the state s before it: which of the two is the lower. */
    method RaiseLower(index: int, mergeIndex: int, ghost s: State)
      requires CanJoin(s, index) && mergeIndex == BuddyOf(index, s.frame[index].index)
      requires Valid() && Abs() == State(s.frame, BothUnlisted(s, index))
      requires OnNone(lists, index) && OnNone(lists, mergeIndex)
      modifies this, frame, previous, next, pageList
      ensures Valid() && Abs() == MergeOnce(s, index) && Fresh(Lower(s, index))
      ensures TouchedOnly(old(touched), s.frame)
      ensures Logged(old(touched), old(previous[..]), old(next[..]))
    {
      var upper, lower := index, mergeIndex;
      if mergeIndex > index {
        upper, lower := mergeIndex, index;
      }
      JoinIs(s, index, lower, upper, s.frame[index].index);
      JoinFree(s, index, s.frame[index].index);
      Raise(lower, upper);
    }

    /** The lower of two buddies on no list becomes a listed block of the next order. */
    method Raise(lower: int, upper: int)
      requires Valid() && 0 <= lower < frame.Length - 1 && 0 <= upper < frame.Length && lower != upper
      requires 0 <= frame[lower].index < MAX_ORDER && OnNone(lists, lower) && OnNone(lists, upper)
      modifies this, frame, previous, next, pageList
      ensures Valid() && Fresh(lower)
      ensures frame[..] == SetIndex(SetIndex(old(frame[..]), upper, FREE), lower, old(frame[lower].index) + 1)
      ensures lists == PushOn(old(lists), old(frame[lower].index) + 1, lower)
      ensures touched <= old(touched) + {lower} + Front(old(lists[frame[lower].index + 1]))
      ensures Logged(old(touched), old(previous[..]), old(next[..]))
    {
      SetOrder(upper, FREE);
      SetOrder(lower, frame[lower].index + 1);
      AddPageItem(lower);
    }

    /** Takes both buddies off their list. */
    method UnlinkBoth(index: int, mergeIndex: int)
      requires Valid() && Fresh(index) && CanJoin(Abs(), index)
      requires mergeIndex == BuddyOf(index, frame[index].index)
      modifies this, previous, next, pageList
      ensures Valid() && lists == BothUnlisted(old(Abs()), index)
      ensures TouchedOnly(old(touched), old(frame[..]))
      ensures Logged(old(touched), old(previous[..]), old(next[..]))
    {
      BothUnlinked(Abs(), index);
      DeletePageItem(index);
      DeletePageItem(mergeIndex);
    }

    /** The start of `page_free`: list the block and mark its pages free. */
    method ReturnBlock(index: int)
      requires Valid() && Inv(Abs()) && IsHead(frame[..], index) && frame[index].status == 1
      modifies this, frame, previous, next, pageList
      ensures Valid() && Abs() == Release(old(Abs()), index) && Fresh(index)
      ensures TouchedOnly(old(touched) + {index}, old(frame[..]))
      ensures Logged(old(touched), old(previous[..]), old(next[..]))
    {
      ghost var s := Abs();
      assert HeadOk(s.frame, index);
      var size := frame[index].index;
      ListedFree(s, size);
      assert OnNone(lists, index) by {
        forall k {:trigger lists[k]} | 0 <= k < |lists| ensures index !in lists[k] {
          assert ListOk(s.frame, s.lists[k], k);
        }
      }
      AddPageItem(index);
      frame[index] := frame[index].(status := 0);
      var pages := Power2(size);
      MarkInterior(index, pages, FREE);
      assert frame[..] == Release(s, index).frame;
    }

    /** `page_free` of a block in use. */
    method PageFree(index: int)
      requires Valid() && Inv(Abs()) && IsHead(frame[..], index) && frame[index].status == 1
      modifies this, frame, previous, next, pageList
      ensures Valid() && Inv(Abs()) && Abs() == Free(old(Abs()), index)
      // the items written by this call, and that no other item changed
      ensures forall p {:trigger p in touched} | p in touched ::
                FreePage(old(frame[..]), p) || InBlock(index, old(frame[index].index), p)
      ensures Logged({}, old(previous[..]), old(next[..]))
    {
      touched := {};
      ghost var s := Abs();
      FreeKeeps(s, index);
      ReleaseKeeps(s, index);
      ReleaseUses(s, index);
      ReturnBlock(index);
      ghost var f := frame[..];
      Merge(index);
      forall p {:trigger p in touched} | p in touched
        ensures FreePage(s.frame, p) || InBlock(index, s.frame[index].index, p)
      {
        assert 0 <= p < |s.frame| ==> PageUsed(f, s.frame, index, s.frame[index].index, p);
      }
    }
  }
}
