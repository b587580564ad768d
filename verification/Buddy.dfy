/** The page frames of lib/malloc.c and the operations of its buddy allocator as
    functions on values: splitting, allocating, freeing and merging blocks. */
module Buddy {
  import opened Powers

  // Marks of the pages inside a block (lib/include/malloc.h)
  const FREE: int := -1
  const ALLOCATED: int := -2
  const RESERVED: int := -3

  /** One `frame_info`: the order of the block a head starts, or a mark inside
      a block; and whether the block is in use. */
  datatype FrameInfo = FrameInfo(index: int, status: int)

  /** The frames of pages 0 .. N-1, followed by the one entry past the end that
      `merge` may look at. */
  type Frame = seq<FrameInfo>

  /** The frames and the free list of every order, front first. */
  datatype State = State(frame: Frame, lists: seq<seq<int>>)

  // ------------------------------------------------------------ operations

  /** Gives the pages after `head` in a block of `size` pages a mark. */
  function SetInterior(f: Frame, head: int, size: int, mark: int): (g: Frame)
  {
    seq(|f|, (j: int) requires 0 <= j < |f| => if head < j < head + size then f[j].(index := mark) else f[j])
  }

  predicate Shaped(s: State) {
    |s.lists| == MAX_ORDER + 1 && |s.frame| >= 1
  }

  predicate IsHead(f: Frame, i: int) {
    0 <= i < |f| - 1 && 0 <= f[i].index <= MAX_ORDER
  }

  /** Puts page i at the front of list k. */
  function PushOn(lists: seq<seq<int>>, k: int, i: int): (r: seq<seq<int>>)
    requires |lists| == MAX_ORDER + 1 && 0 <= k <= MAX_ORDER
    ensures |r| == |lists|
  {
    lists[k := [i] + lists[k]]
  }

  /** Puts block i at the front of the list of its order (`add_page_item`). */
  function Push(s: State, i: int): (t: State)
    requires Shaped(s) && IsHead(s.frame, i)
    ensures Shaped(t) && t.frame == s.frame
  {
    var k := s.frame[i].index;
    s.(lists := PushOn(s.lists, k, i))
  }

  /** xs without its elements equal to x. */
  function Without(xs: seq<int>, x: int): (ys: seq<int>)
    ensures forall y :: y in ys <==> y in xs && y != x
  {
    if xs == [] then []
    else if xs[0] == x then Without(xs[1..], x)
    else [xs[0]] + Without(xs[1..], x)
  }

  /** Takes page i off list k. */
  function Unlist(lists: seq<seq<int>>, k: int, i: int): (r: seq<seq<int>>)
    requires |lists| == MAX_ORDER + 1 && 0 <= k <= MAX_ORDER
    ensures |r| == |lists|
  {
    lists[k := Without(lists[k], i)]
  }

  /** Takes block i off the list of its order (`delete_page_item`). */
  function Unlink(s: State, i: int): (t: State)
    requires Shaped(s) && IsHead(s.frame, i)
    ensures Shaped(t) && t.frame == s.frame
  {
    s.(lists := Unlist(s.lists, s.frame[i].index, i))
  }

  /** Frame f with the `index` of entry i changed, if there is such an entry. */
  function SetIndex(f: Frame, i: int, index: int): (g: Frame)
    ensures |g| == |f|
  {
    if 0 <= i < |f| then f[i := f[i].(index := index)] else f
  }

  function SetStatus(f: Frame, i: int, status: int): (g: Frame)
    ensures |g| == |f|
  {
    if 0 <= i < |f| then f[i := f[i].(status := status)] else f
  }

  /** Cuts the block at a into two of order k. */
  function Halve(f: Frame, a: int, k: int): (g: Frame)
    ensures |g| == |f|
  {
    SetIndex(SetIndex(f, a, k), a + Pow2(k), k)
  }

  /** Cuts the front block of list L in two (`page_divide`, non-empty case). */
  function Split(s: State, L: int): (t: State)
    requires Shaped(s) && 1 <= L <= MAX_ORDER && s.lists[L] != []
    ensures Shaped(t) && |t.frame| == |s.frame| && t.lists[L - 1] != []
  {
    var a := s.lists[L][0];
    var u := a + Pow2(L - 1);
    var rest := s.lists[L := s.lists[L][1..]];
    State(Halve(s.frame, a, L - 1), PushOn(PushOn(rest, L - 1, a), L - 1, u))
  }

  /** The least order from L upward whose list is not empty, or MAX_ORDER + 1. */
  function NextSource(lists: seq<seq<int>>, L: int): (k: int)
    requires |lists| == MAX_ORDER + 1 && 0 <= L <= MAX_ORDER + 1
    ensures L <= k <= MAX_ORDER + 1
    ensures k <= MAX_ORDER ==> lists[k] != []
    ensures forall j | L <= j < k :: lists[j] == []
    decreases MAX_ORDER - L
  {
    if L > MAX_ORDER || lists[L] != [] then L else NextSource(lists, L + 1)
  }

  /** `page_divide` looks for a block to cut in list L and, only below order 5,
      in the lists above it up to order 5. */
  predicate CanDivide(lists: seq<seq<int>>, L: int)
    requires |lists| == MAX_ORDER + 1 && 1 <= L <= MAX_ORDER
  {
    NextSource(lists, L) <= if L < 5 then 5 else L
  }

  /** `page_divide`: cuts blocks until list L - 1 has one. */
  function Divide(s: State, L: int): (t: State)
    requires Shaped(s) && 1 <= L <= MAX_ORDER && CanDivide(s.lists, L)
    ensures Shaped(t) && |t.frame| == |s.frame| && t.lists[L - 1] != []
    decreases MAX_ORDER - L
  {
    if s.lists[L] != [] then Split(s, L) else Split(Divide(s, L + 1), L)
  }

  predicate CanAllocate(lists: seq<seq<int>>, k: int)
    requires |lists| == MAX_ORDER + 1 && 0 <= k <= MAX_ORDER
  {
    lists[k] != [] || (k < MAX_ORDER && CanDivide(lists, k + 1))
  }

  /** The state in which list k has a block to hand out. */
  function Prepare(s: State, k: int): (t: State)
    requires Shaped(s) && 0 <= k <= MAX_ORDER && CanAllocate(s.lists, k)
    ensures Shaped(t) && |t.frame| == |s.frame| && t.lists[k] != []
  {
    if s.lists[k] != [] then s else Divide(s, k + 1)
  }

  /** Takes the front block of list k for use. */
  function Take(s: State, k: int): (t: State)
    requires Shaped(s) && 0 <= k <= MAX_ORDER && s.lists[k] != []
    ensures Shaped(t) && |t.frame| == |s.frame|
  {
    var i := s.lists[k][0];
    State(SetInterior(SetStatus(s.frame, i, 1), i, Pow2(k), ALLOCATED), s.lists[k := s.lists[k][1..]])
  }

  /** `page_allocate` for a block of order k, when there is one to be had. */
  function Allocate(s: State, k: int): (t: State)
    requires Shaped(s) && 0 <= k <= MAX_ORDER && CanAllocate(s.lists, k)
    ensures Shaped(t) && |t.frame| == |s.frame|
  {
    Take(Prepare(s, k), k)
  }

  /** The page index `page_allocate` returns. */
  function Allocated(s: State, k: int): (i: int)
    requires Shaped(s) && 0 <= k <= MAX_ORDER && CanAllocate(s.lists, k)
  {
    Prepare(s, k).lists[k][0]
  }

  /** Marks block i free and lists it, before any merging (`page_free`). */
  function Release(s: State, i: int): (t: State)
    requires Shaped(s) && IsHead(s.frame, i)
    ensures Shaped(t) && |t.frame| == |s.frame| && IsHead(t.frame, i)
    ensures t.frame[i] == FrameInfo(s.frame[i].index, 0)
  {
    var k := s.frame[i].index;
    State(SetInterior(s.frame[i := FrameInfo(k, 0)], i, Pow2(k), FREE), Push(s, i).lists)
  }

  /** The test of `merge`: the block at i and its buddy are two free blocks of
      one order below the largest. */
  predicate Mergeable(s: State, i: int)
    requires Shaped(s) && IsHead(s.frame, i)
  {
    var k := s.frame[i].index;
    var b := BuddyOf(i, k);
    k < MAX_ORDER && 0 <= b < |s.frame| - 1 &&
    s.frame[b].index == k && s.frame[i].status == 0 && s.frame[b].status == 0
  }

  /** One merge of block i with its buddy. */
  function MergeOnce(s: State, i: int): (t: State)
    requires Shaped(s) && IsHead(s.frame, i) && Mergeable(s, i)
    ensures Shaped(t) && |t.frame| == |s.frame|
    ensures IsHead(t.frame, Lower(s, i)) && t.frame[Lower(s, i)].index == s.frame[i].index + 1
  {
    var k := s.frame[i].index;
    var b := BuddyOf(i, k);
    var lo := Lower(s, i);
    var hi := if i < b then b else i;
    var unlinked := Unlink(Unlink(s, i), b);
    Push(State(SetIndex(SetIndex(s.frame, hi, FREE), lo, k + 1), unlinked.lists), lo)
  }

  function Lower(s: State, i: int): int
    requires Shaped(s) && IsHead(s.frame, i)
  {
    var b := BuddyOf(i, s.frame[i].index);
    if i < b then i else b
  }

  /** Merges upward from block i for as long as the buddy is free (`merge`). */
  function Merge(s: State, i: int): (t: State)
    requires Shaped(s) && IsHead(s.frame, i)
    ensures Shaped(t) && |t.frame| == |s.frame|
    decreases MAX_ORDER - s.frame[i].index
  {
    if Mergeable(s, i) then Merge(MergeOnce(s, i), Lower(s, i)) else s
  }

  /** `page_free`. */
  function Free(s: State, i: int): (t: State)
    requires Shaped(s) && IsHead(s.frame, i)
    ensures Shaped(t) && |t.frame| == |s.frame|
  {
    Merge(Release(s, i), i)
  }

  // ------------------------------------------------------------- invariant

  /** The pages after `head` in a block of `size` pages carry a mark. */
  predicate Interior(f: Frame, head: int, size: int, mark: int)
    requires 0 <= head && head + size <= |f|
  {
    forall j {:trigger f[j]} | head < j < head + size :: f[j] == FrameInfo(mark, 0)
  }

  /** A block starts at page i. Besides the blocks of order 0 and up there are
      stubs: single pages in use, of order -1, that `memory_reserve` can leave. */
  predicate Starts(f: Frame, i: int)
    requires 0 <= i < |f|
  {
    f[i].index >= 0 || f[i] == FrameInfo(-1, 1)
  }

  /** The head at i starts an aligned block that ends where another block, or
      the end of memory, begins. */
  predicate HeadOk(f: Frame, i: int)
    requires 0 <= i < |f| - 1
  {
    var k := f[i].index;
    Starts(f, i) && k <= MAX_ORDER && Aligned(i, k) && i + Pow2(k) <= |f| - 1 &&
    (i + Pow2(k) < |f| - 1 ==> Starts(f, i + Pow2(k))) &&
    if f[i].status == 0 then Interior(f, i, Pow2(k), FREE)
    else f[i].status == 1 && (Interior(f, i, Pow2(k), ALLOCATED) || Interior(f, i, Pow2(k), RESERVED))
  }

  /** The blocks cut [0, N) into aligned pieces, page by page as marked. */
  ghost predicate Tiled(f: Frame) {
    |f| >= 1 && f[|f| - 1].index < 0 && (|f| > 1 ==> Starts(f, 0)) &&
    forall i {:trigger HeadOk(f, i)} | 0 <= i < |f| - 1 && Starts(f, i) :: HeadOk(f, i)
  }

  predicate FreeHead(f: Frame, i: int, k: int) {
    0 <= i < |f| - 1 && f[i] == FrameInfo(k, 0)
  }

  predicate FreeBuddies(f: Frame, i: int, k: int)
    requires 0 <= k
  {
    FreeHead(f, i, k) && FreeHead(f, BuddyOf(i, k), k)
  }

  /** No two free blocks of one order below the largest are buddies, except
      perhaps the block at x and its buddy. */
  ghost predicate CoalescedBut(f: Frame, x: int) {
    forall i, k {:trigger FreeBuddies(f, i, k)} | 0 <= k < MAX_ORDER && FreeBuddies(f, i, k) ::
      i == x || BuddyOf(i, k) == x
  }

  ghost predicate Coalesced(f: Frame) {
    forall i, k {:trigger FreeBuddies(f, i, k)} | 0 <= k < MAX_ORDER :: !FreeBuddies(f, i, k)
  }

  predicate Distinct(xs: seq<int>) {
    xs == [] || (xs[0] !in xs[1..] && Distinct(xs[1..]))
  }

  lemma {:induction false} DistinctAt(xs: seq<int>, i: int, j: int)
    requires Distinct(xs) && 0 <= i < j < |xs|
    ensures xs[i] != xs[j]
  {
    if i > 0 {
      DistinctAt(xs[1..], i - 1, j - 1);
    }
  }

  /** The list of order k holds exactly the free blocks of order k, once each. */
  ghost predicate ListOk(f: Frame, xs: seq<int>, k: int) {
    Distinct(xs) && forall i :: i in xs <==> FreeHead(f, i, k)
  }

  ghost predicate ListsOk(s: State) {
    |s.lists| == MAX_ORDER + 1 &&
    forall k {:trigger ListOk(s.frame, s.lists[k], k)} | 0 <= k <= MAX_ORDER :: ListOk(s.frame, s.lists[k], k)
  }

  /** Tiling and free lists agree. */
  ghost predicate Consistent(s: State) {
    Tiled(s.frame) && ListsOk(s)
  }

  /** The allocator's invariant between calls. */
  ghost predicate Inv(s: State) {
    Consistent(s) && Coalesced(s.frame)
  }

  // --------------------------------------------------------- tiling lemmas

  /** A head after i lies at or past the end of the block at i. */
  lemma BlocksApart(f: Frame, i: int, j: int)
    requires Tiled(f) && 0 <= i < j < |f| - 1 && Starts(f, i) && Starts(f, j)
    ensures i + Pow2(f[i].index) <= j
  {
    assert HeadOk(f, i);
    assert f[j].index >= 0 || f[j].status == 1;
  }

  /** Every page lies in the block of some head, found by walking down. */
  lemma {:induction false} OwnerExists(f: Frame, p: int) returns (h: int)
    requires Tiled(f) && 0 <= p < |f| - 1
    ensures 0 <= h <= p && Starts(f, h) && p < h + Pow2(f[h].index)
  {
    if Starts(f, p) {
      h := p;
    } else {
      h := OwnerExists(f, p - 1);
      assert HeadOk(f, h);
    }
  }

  /** Every page lies in exactly one block. */
  lemma UniqueBlock(f: Frame, p: int)
    requires Tiled(f) && 0 <= p < |f| - 1
    ensures exists h :: 0 <= h <= p && Starts(f, h) && p < h + Pow2(f[h].index)
    ensures forall h, g | 0 <= h <= p && Starts(f, h) && p < h + Pow2(f[h].index) &&
                          0 <= g <= p && Starts(f, g) && p < g + Pow2(f[g].index) :: h == g
  {
    var o := OwnerExists(f, p);
    forall h, g | 0 <= h <= p && Starts(f, h) && p < h + Pow2(f[h].index) &&
                  0 <= g <= p && Starts(f, g) && p < g + Pow2(f[g].index)
      ensures h == g
    {
      if h < g { BlocksApart(f, h, g); } else if g < h { BlocksApart(f, g, h); }
    }
  }

  /** Retiling the pages [a, e) between two block boundaries keeps the tiling. */
  lemma ReplaceRegion(f: Frame, g: Frame, a: int, e: int)
    requires Tiled(f) && |g| == |f|
    requires 0 <= a < e <= |f| - 1 && Starts(f, a) && (e < |f| - 1 ==> Starts(f, e))
    requires forall j | 0 <= j < |f| && !(a <= j < e) :: g[j] == f[j]
    requires Starts(g, a)
    requires forall j {:trigger HeadOk(g, j)} | a <= j < e && Starts(g, j) :: HeadOk(g, j)
    ensures Tiled(g)
  {
    forall j {:trigger HeadOk(g, j)} | 0 <= j < |g| - 1 && Starts(g, j)
      ensures HeadOk(g, j)
    {
      if !(a <= j < e) {
        assert HeadOk(f, j);
        if j < a {
          BlocksApart(f, j, a);
        }
      }
    }
  }
}
