/** What the buddy allocator is for: which pages an allocation and a release
    change, that full coalescing leaves one way to tile free memory, and that
    releasing undoes allocating exactly. */
module BuddyTheorems {
  import opened Powers
  import opened Buddy
  import opened BuddyProofs

  // ------------------------------------------------ free memory is canonical

  /** In an aligned block of free pages, next to a smaller block there is one
      smaller still: its buddy is free but is no block of the same order. */
  lemma SmallerFragment(f: Frame, c: int, m: int, i: int) returns (o: int)
    requires Tiled(f) && Coalesced(f)
    requires 0 <= c && 0 <= m <= MAX_ORDER && Aligned(c, m) && c + Pow2(m) <= |f| - 1
    requires forall p {:trigger FreePage(f, p)} | c <= p < c + Pow2(m) :: FreePage(f, p)
    requires c <= i < c + Pow2(m) && 0 <= f[i].index < m
    ensures c <= o < c + Pow2(m) && 0 <= f[o].index < f[i].index
  {
    var k := f[i].index;
    assert HeadOk(f, i) && FreePage(f, i);
    assert !FreeBuddies(f, i, k);
    BuddyFacts(i, k);
    var b := BuddyOf(i, k);
    var lo := if i < b then i else b;
    assert Pow2(k + 1) == 2 * Pow2(k);
    Nested(c, m, lo, k + 1, i);
    o := OwnerOfFree(f, b);
    var n := f[o].index;
    if n <= k {
      Nested(b, k, o, n, b);
    } else {
      Nested(o, n, lo, k + 1, b);
      BlocksApart(f, o, i);
    }
  }

  lemma OwnerOfFree(f: Frame, p: int) returns (o: int)
    requires Tiled(f) && FreePage(f, p)
    ensures 0 <= o <= p < o + Pow2(f[o].index) && FreeHead(f, o, f[o].index) && HeadOk(f, o)
  {
    o := OwnerExists(f, p);
    assert HeadOk(f, o);
  }

  /** So no block of f lies strictly inside an aligned block of free pages. */
  lemma {:induction false} NoFragment(f: Frame, c: int, m: int, i: int)
    requires Tiled(f) && Coalesced(f)
    requires 0 <= c && 0 <= m <= MAX_ORDER && Aligned(c, m) && c + Pow2(m) <= |f| - 1
    requires forall p {:trigger FreePage(f, p)} | c <= p < c + Pow2(m) :: FreePage(f, p)
    requires c <= i < c + Pow2(m) && 0 <= f[i].index
    ensures f[i].index >= m
    decreases f[i].index
  {
    if f[i].index < m {
      var o := SmallerFragment(f, c, m, i);
      NoFragment(f, c, m, o);
    }
  }

  /** The block around a free page is the same in two coalesced tilings with the
      same free pages. */
  lemma SameOwner(f: Frame, g: Frame, i: int, j: int, p: int)
    requires Tiled(f) && Coalesced(f) && Tiled(g) && Coalesced(g) && SameUse(f, g)
    requires 0 <= i <= p < |f| - 1 && f[i].index >= 0 && p < i + Pow2(f[i].index) && FreePage(f, i)
    requires 0 <= j <= p && g[j].index >= 0 && p < j + Pow2(g[j].index) && FreePage(g, j)
    ensures i == j && f[i] == g[j]
  {
    assert HeadOk(f, i) && HeadOk(g, j);
    var k, n := f[i].index, g[j].index;
    if k < n {
      Nested(j, n, i, k, p);
      forall q {:trigger FreePage(f, q)} | j <= q < j + Pow2(n) ensures FreePage(f, q) {
        assert SamePageUse(f, g, q) && FreePage(g, q);
      }
      NoFragment(f, j, n, i);
    } else if n < k {
      Nested(i, k, j, n, p);
      forall q {:trigger FreePage(g, q)} | i <= q < i + Pow2(k) ensures FreePage(g, q) {
        assert SamePageUse(f, g, q) && FreePage(f, q);
      }
      NoFragment(g, i, k, j);
    } else {
      Nested(i, k, j, n, p);
      Nested(j, n, i, k, p);
    }
  }

  /** Full coalescing is canonical: the pages in use determine the whole frame
      array, orders and marks of the free blocks included. */
  lemma CoalescedIsCanonical(f: Frame, g: Frame)
    requires Tiled(f) && Coalesced(f) && Tiled(g) && Coalesced(g) && SameUse(f, g)
    ensures f == g
  {
    forall p | 0 <= p < |f| ensures f[p] == g[p] {
      assert SamePageUse(f, g, p);
      if FreePage(f, p) {
        var i := OwnerExists(f, p);
        var j := OwnerExists(g, p);
        assert HeadOk(f, i) && HeadOk(g, j);
        assert FreePage(f, i) && FreePage(g, j);
        SameOwner(f, g, i, j, p);
      }
    }
  }

  // -------------------------------------------- what one call changes

  predicate InBlock(i: int, k: int, p: int) {
    i <= p < i + Pow2(k)
  }

  /** Page p of block (i, k) goes from free in f to in use in g; any other page
      keeps its use, and if in use its description. */
  predicate PageUsed(f: Frame, g: Frame, i: int, k: int, p: int)
    requires 0 <= p < |f| == |g|
  {
    (InBlock(i, k, p) ==> FreePage(f, p)) &&
    (FreePage(g, p) <==> FreePage(f, p) && !InBlock(i, k, p)) &&
    (!FreePage(f, p) ==> g[p] == f[p])
  }

  /** From f to g, exactly the pages of block (i, k) go from free to in use. */
  ghost predicate UsesBlock(f: Frame, g: Frame, i: int, k: int) {
    |g| == |f| &&
    forall p {:trigger PageUsed(f, g, i, k, p)} | 0 <= p < |f| :: PageUsed(f, g, i, k, p)
  }

  lemma SameUseSymmetric(f: Frame, g: Frame)
    requires SameUse(f, g)
    ensures SameUse(g, f)
  {
    forall p {:trigger SamePageUse(g, f, p)} | 0 <= p < |f| ensures SamePageUse(g, f, p) {
      assert SamePageUse(f, g, p);
    }
  }

  lemma SameUseThenUses(f: Frame, g: Frame, h: Frame, i: int, k: int)
    requires SameUse(f, g) && UsesBlock(g, h, i, k)
    ensures UsesBlock(f, h, i, k)
  {
    forall p {:trigger PageUsed(f, h, i, k, p)} | 0 <= p < |f| ensures PageUsed(f, h, i, k, p) {
      assert SamePageUse(f, g, p) && PageUsed(g, h, i, k, p);
    }
  }

  lemma TakeUses(s: State, k: int)
    requires Consistent(s) && 0 <= k <= MAX_ORDER && s.lists[k] != []
    ensures UsesBlock(s.frame, Take(s, k).frame, s.lists[k][0], k)
  {
    var i := s.lists[k][0];
    assert ListOk(s.frame, s.lists[k], k);
    assert i in s.lists[k];
    assert HeadOk(s.frame, i);
  }

  lemma PrepareSameUse(s: State, k: int)
    requires Inv(s) && 0 <= k <= MAX_ORDER && CanAllocate(s.lists, k)
    ensures SameUse(s.frame, Prepare(s, k).frame)
  {
    if s.lists[k] == [] {
      DivideSameUse(s, k + 1);
    }
  }

  /** `page_allocate` hands out an aligned block of the order asked for, all of
      whose pages were free, and changes no other page's use. */
  lemma AllocateUses(s: State, k: int)
    requires Inv(s) && 0 <= k <= MAX_ORDER && CanAllocate(s.lists, k)
    ensures var i := Allocated(s, k); var t := Allocate(s, k);
            Inv(t) && Aligned(i, k) && 0 <= i && i + Pow2(k) <= |s.frame| - 1 &&
            t.frame[i] == FrameInfo(k, 1) && Interior(t.frame, i, Pow2(k), ALLOCATED) &&
            UsesBlock(s.frame, t.frame, i, k)
  {
    AllocateKeeps(s, k);
    PrepareKeeps(s, k);
    PrepareSameUse(s, k);
    var r := Prepare(s, k);
    TakeUses(r, k);
    SameUseThenUses(s.frame, r.frame, Allocate(s, k).frame, Allocated(s, k), k);
  }

  lemma MergeOnceSameUse(s: State, i: int)
    requires Consistent(s) && IsHead(s.frame, i) && Mergeable(s, i)
    ensures SameUse(s.frame, MergeOnce(s, i).frame)
  {
    MergeShape(s, i);
    var t := MergeOnce(s, i);
    var lo := Lower(s, i);
    var hi := lo + Pow2(s.frame[i].index);
    forall p {:trigger SamePageUse(s.frame, t.frame, p)} | 0 <= p < |s.frame|
      ensures SamePageUse(s.frame, t.frame, p)
    {
      assert p == lo || p == hi || t.frame[p] == s.frame[p];
    }
  }

  lemma {:induction false} MergeSameUse(s: State, i: int)
    requires Consistent(s) && IsHead(s.frame, i) && s.frame[i].status == 0
    ensures SameUse(s.frame, Merge(s, i).frame)
    decreases MAX_ORDER - s.frame[i].index
  {
    if Mergeable(s, i) {
      var t := MergeOnce(s, i);
      MergeOnceTiled(s, i);
      MergeOnceLists(s, i);
      MergeShape(s, i);
      MergeSameUse(t, Lower(s, i));
      MergeOnceSameUse(s, i);
      SameUseTransitive(s.frame, t.frame, Merge(s, i).frame);
    }
  }

  lemma ReleaseUses(s: State, i: int)
    requires Inv(s) && IsHead(s.frame, i) && s.frame[i].status == 1
    ensures UsesBlock(Release(s, i).frame, s.frame, i, s.frame[i].index)
  {
    assert HeadOk(s.frame, i);
    var r := Release(s, i).frame;
    var k := s.frame[i].index;
    forall p {:trigger PageUsed(r, s.frame, i, k, p)} | 0 <= p < |r| ensures PageUsed(r, s.frame, i, k, p) {
      assert InBlock(i, k, p) || r[p] == s.frame[p];
    }
  }

  /** `page_free` frees exactly the pages of the block given. */
  lemma FreeUses(s: State, i: int)
    requires Inv(s) && IsHead(s.frame, i) && s.frame[i].status == 1
    ensures Inv(Free(s, i)) && UsesBlock(Free(s, i).frame, s.frame, i, s.frame[i].index)
  {
    FreeKeeps(s, i);
    ReleaseKeeps(s, i);
    ReleaseUses(s, i);
    MergeSameUse(Release(s, i), i);
    SameUseSymmetric(Release(s, i).frame, Free(s, i).frame);
    SameUseThenUses(Free(s, i).frame, Release(s, i).frame, s.frame, i, s.frame[i].index);
  }

  /** A release leaves every other block in use as it was. */
  lemma OtherKept(s: State, i: int, j: int)
    requires Inv(s) && IsHead(s.frame, i) && s.frame[i].status == 1
    requires IsHead(s.frame, j) && s.frame[j].status == 1 && i != j
    ensures IsHead(Free(s, i).frame, j) && Free(s, i).frame[j] == s.frame[j]
    ensures forall p | InBlock(i, s.frame[i].index, p) :: !InBlock(j, s.frame[j].index, p)
  {
    FreeUses(s, i);
    if i < j { BlocksApart(s.frame, i, j); } else { BlocksApart(s.frame, j, i); }
    assert PageUsed(Free(s, i).frame, s.frame, i, s.frame[i].index, j);
  }

  /** The order in which two blocks are released leaves no trace in the frame
      array. */
  lemma FreesCommute(s: State, i: int, j: int)
    requires Inv(s) && IsHead(s.frame, i) && s.frame[i].status == 1
    requires IsHead(s.frame, j) && s.frame[j].status == 1 && i != j
    ensures IsHead(Free(s, i).frame, j) && IsHead(Free(s, j).frame, i)
    ensures Free(Free(s, i), j).frame == Free(Free(s, j), i).frame
  {
    OtherKept(s, i, j);
    OtherKept(s, j, i);
    FreeUses(s, i);
    FreeUses(s, j);
    var a, b := Free(s, i), Free(s, j);
    FreeUses(a, j);
    FreeUses(b, i);
    var f, g := Free(a, j).frame, Free(b, i).frame;
    var k, m := s.frame[i].index, s.frame[j].index;
    forall p {:trigger SamePageUse(f, g, p)} | 0 <= p < |f| ensures SamePageUse(f, g, p) {
      assert PageUsed(a.frame, s.frame, i, k, p) && PageUsed(b.frame, s.frame, j, m, p);
      assert PageUsed(f, a.frame, j, m, p) && PageUsed(g, b.frame, i, k, p);
    }
    CoalescedIsCanonical(f, g);
  }

  // -------------------------------------------------------------- exact undo

  lemma WithoutBoth(xs: seq<int>, a: int, u: int)
    requires Distinct(xs) && a !in xs && u !in xs && a != u
    ensures Without(Without([u] + ([a] + xs), u), a) == xs
  {
    WithoutDistinct(xs, u);
    WithoutDistinct(xs, a);
    assert ([u] + ([a] + xs))[1..] == [a] + xs;
    assert ([a] + xs)[1..] == xs;
  }

  /** The two halves of a block just cut can be joined, to the frames before. */
  lemma HalvesRejoin(f: Frame, a: int, L: int, u: int)
    requires Tiled(f) && 1 <= L <= MAX_ORDER && FreeHead(f, a, L) && u == a + Pow2(L - 1)
    ensures var g := Halve(f, a, L - 1);
            |g| == |f| && FreeHead(g, a, L - 1) && FreeHead(g, u, L - 1) && BuddyOf(u, L - 1) == a && a < u &&
            SetIndex(SetIndex(g, u, FREE), a, L) == f
  {
    HalfShape(f, a, L);
  }

  /** Merging the upper half undoes a split, down to the order of the lists. */
  lemma SplitUndone(s: State, L: int)
    requires Consistent(s) && 1 <= L <= MAX_ORDER && s.lists[L] != []
    ensures var t := Split(s, L); var u := t.lists[L - 1][0];
            IsHead(t.frame, u) && Mergeable(t, u) && MergeOnce(t, u) == s && Lower(t, u) == s.lists[L][0]
  {
    var t, a := Split(s, L), s.lists[L][0];
    var u := a + Pow2(L - 1);
    SplitShape(s, L);
    SplitIs(s, L, L - 1);
    SplitIs(s, L, L);
    HalvesRejoin(s.frame, a, L, u);
    assert ListOk(s.frame, s.lists[L - 1], L - 1);
    HalfShape(s.frame, a, L);
    WithoutBoth(s.lists[L - 1], a, u);
    assert s.lists[L] == [a] + t.lists[L];
    assert MergeOnce(t, u).lists == s.lists;
  }

  lemma NothingToMerge(s: State, i: int)
    requires Inv(s) && IsHead(s.frame, i)
    ensures Merge(s, i) == s
  {
    assert HeadOk(s.frame, i);
    assert Mergeable(s, i) ==> FreeBuddies(s.frame, i, s.frame[i].index);
  }

  /** One cascade of merges undoes a division through any number of levels. */
  lemma {:induction false} DivideUndone(s: State, L: int)
    requires Inv(s) && 1 <= L <= MAX_ORDER && CanDivide(s.lists, L)
    ensures var t := Divide(s, L); IsHead(t.frame, t.lists[L - 1][0]) && Merge(t, t.lists[L - 1][0]) == s
    decreases MAX_ORDER - L
  {
    if s.lists[L] != [] {
      SplitUndone(s, L);
      SplitShape(s, L);
      NothingToMerge(s, s.lists[L][0]);
    } else {
      var r := Divide(s, L + 1);
      DivideConsistent(s, L + 1);
      DivideUndone(s, L + 1);
      SplitUndone(r, L);
    }
  }

  lemma TakeUndone(r: State, k: int)
    requires Consistent(r) && 0 <= k <= MAX_ORDER && r.lists[k] != []
    ensures var i := r.lists[k][0]; var t := Take(r, k);
            IsHead(t.frame, i) && Release(t, i) == r
  {
    var i := r.lists[k][0];
    assert ListOk(r.frame, r.lists[k], k);
    assert i in r.lists[k];
    assert HeadOk(r.frame, i);
    var t := Take(r, k);
    assert Release(t, i).frame == r.frame;
    assert r.lists[k] == [i] + t.lists[k];
    assert Release(t, i).lists == r.lists;
  }

  /** Exact undo: releasing the block just allocated restores every frame entry
      and every free list, however many blocks the allocation had to split. */
  lemma ExactUndo(s: State, k: int)
    requires Inv(s) && 0 <= k <= MAX_ORDER && CanAllocate(s.lists, k)
    ensures var i := Allocated(s, k); var t := Allocate(s, k);
            IsHead(t.frame, i) && Free(t, i) == s
  {
    PrepareKeeps(s, k);
    TakeUndone(Prepare(s, k), k);
    if s.lists[k] == [] {
      DivideUndone(s, k + 1);
    } else {
      NothingToMerge(s, s.lists[k][0]);
    }
  }

  // -------------------------------------------------------------------- runs

  datatype Op = AllocOp(order: int) | FreeOp(page: int)

  /** A state together with the blocks a run has allocated and not yet freed. */
  datatype Traced = Traced(s: State, live: set<int>)

  /** Allocations find memory; releases name a block the run allocated. */
  predicate Enabled(t: Traced, op: Op) {
    Shaped(t.s) &&
    match op
    case AllocOp(k) => 0 <= k <= MAX_ORDER && CanAllocate(t.s.lists, k)
    case FreeOp(i) => i in t.live && IsHead(t.s.frame, i)
  }

  function Step(t: Traced, op: Op): (r: Traced)
    requires Enabled(t, op)
    ensures Shaped(r.s)
  {
    match op
    case AllocOp(k) => Traced(Allocate(t.s, k), t.live + {Allocated(t.s, k)})
    case FreeOp(i) => Traced(Free(t.s, i), t.live - {i})
  }

  predicate CanRun(t: Traced, ops: seq<Op>)
    decreases |ops|
  {
    ops != [] ==> Enabled(t, ops[0]) && CanRun(Step(t, ops[0]), ops[1..])
  }

  function Run(t: Traced, ops: seq<Op>): (r: Traced)
    requires CanRun(t, ops)
    ensures Shaped(t.s) ==> Shaped(r.s)
    decreases |ops|
  {
    if ops == [] then t else Run(Step(t, ops[0]), ops[1..])
  }

  ghost predicate Covered(f: Frame, live: set<int>, p: int) {
    exists i {:trigger i in live} :: i in live && 0 <= i < |f| - 1 && InBlock(i, f[i].index, p)
  }

  predicate PageSince(f: Frame, t: Traced, covered: bool, p: int)
    requires 0 <= p < |f| == |t.s.frame|
  {
    (covered ==> FreePage(f, p)) &&
    (FreePage(t.s.frame, p) <==> FreePage(f, p) && !covered) &&
    (!FreePage(f, p) ==> t.s.frame[p] == f[p])
  }

  /** Since f, exactly the pages of the live blocks went into use. */
  ghost predicate Since(f: Frame, t: Traced) {
    Inv(t.s) && |t.s.frame| == |f| &&
    (forall i {:trigger i in t.live} | i in t.live :: IsHead(t.s.frame, i) && t.s.frame[i].status == 1) &&
    forall p {:trigger PageSince(f, t, Covered(t.s.frame, t.live, p), p)} | 0 <= p < |f| ::
      PageSince(f, t, Covered(t.s.frame, t.live, p), p)
  }

  lemma CoveredGrows(g: Frame, h: Frame, live: set<int>, i: int, k: int)
    requires |g| == |h| && 0 <= i < |h| - 1 && h[i].index == k
    requires forall j {:trigger j in live} | j in live :: 0 <= j < |g| - 1 && h[j] == g[j]
    ensures forall p {:trigger InBlock(i, k, p)} ::
              Covered(h, live + {i}, p) <==> Covered(g, live, p) || InBlock(i, k, p)
  {
    forall p {:trigger InBlock(i, k, p)}
      ensures Covered(h, live + {i}, p) <==> Covered(g, live, p) || InBlock(i, k, p)
    {
      assert i in live + {i};
      assert forall j | j in live :: j in live + {i};
    }
  }

  lemma AllocStep(f: Frame, t: Traced, k: int)
    requires Since(f, t) && Enabled(t, AllocOp(k))
    ensures Since(f, Step(t, AllocOp(k)))
  {
    var r := Step(t, AllocOp(k));
    var i := Allocated(t.s, k);
    AllocateUses(t.s, k);
    var g, h := t.s.frame, r.s.frame;
    forall j | j in t.live ensures h[j] == g[j] {
      assert PageUsed(g, h, i, k, j);
    }
    CoveredGrows(g, h, t.live, i, k);
    forall p {:trigger PageSince(f, r, Covered(h, r.live, p), p)} | 0 <= p < |f|
      ensures PageSince(f, r, Covered(h, r.live, p), p)
    {
      assert PageSince(f, t, Covered(g, t.live, p), p) && PageUsed(g, h, i, k, p);
      assert Covered(h, r.live, p) <==> Covered(g, t.live, p) || InBlock(i, k, p);
    }
  }

  lemma FreeStep(f: Frame, t: Traced, i: int)
    requires Since(f, t) && Enabled(t, FreeOp(i))
    ensures Since(f, Step(t, FreeOp(i)))
  {
    var r := Step(t, FreeOp(i));
    var k := t.s.frame[i].index;
    FreeUses(t.s, i);
    var g, h := t.s.frame, r.s.frame;
    forall j | j in r.live ensures h[j] == g[j] {
      if j < i { BlocksApart(g, j, i); } else { BlocksApart(g, i, j); }
      assert PageUsed(h, g, i, k, j);
    }
    assert r.live + {i} == t.live;
    CoveredGrows(h, g, r.live, i, k);
    forall p {:trigger PageSince(f, r, Covered(h, r.live, p), p)} | 0 <= p < |f|
      ensures PageSince(f, r, Covered(h, r.live, p), p)
    {
      assert PageSince(f, t, Covered(g, t.live, p), p) && PageUsed(h, g, i, k, p);
      assert Covered(g, t.live, p) <==> Covered(h, r.live, p) || InBlock(i, k, p);
      if InBlock(i, k, p) && Covered(h, r.live, p) {
        var j :| j in r.live && 0 <= j < |h| - 1 && InBlock(j, h[j].index, p);
        if j < i { BlocksApart(g, j, i); } else { BlocksApart(g, i, j); }
        assert false;
      }
    }
  }

  /** Every state a run reaches satisfies the invariant: aligned tiling, exact
      free lists and no two free buddies; and since its start exactly the live
      blocks went into use. */
  lemma {:induction false} RunKeeps(f: Frame, t: Traced, ops: seq<Op>)
    requires Since(f, t) && CanRun(t, ops)
    ensures Since(f, Run(t, ops))
    decreases |ops|
  {
    if ops != [] {
      match ops[0] {
        case AllocOp(k) => AllocStep(f, t, k);
        case FreeOp(i) => FreeStep(f, t, i);
      }
      RunKeeps(f, Step(t, ops[0]), ops[1..]);
    }
  }

  /** Whatever is allocated and freed, in whatever order: once everything is
      freed the whole frame array is as it was, and so is every set of free
      blocks. */
  lemma BalancedRunRestores(s: State, ops: seq<Op>)
    requires Inv(s) && CanRun(Traced(s, {}), ops) && Run(Traced(s, {}), ops).live == {}
    ensures var t := Run(Traced(s, {}), ops).s;
            t.frame == s.frame && forall k, i | 0 <= k <= MAX_ORDER :: i in t.lists[k] <==> i in s.lists[k]
  {
    var start := Traced(s, {});
    forall p {:trigger PageSince(s.frame, start, Covered(s.frame, {}, p), p)} | 0 <= p < |s.frame|
      ensures PageSince(s.frame, start, Covered(s.frame, {}, p), p)
    {
    }
    RunKeeps(s.frame, start, ops);
    var r := Run(start, ops);
    forall p {:trigger SamePageUse(s.frame, r.s.frame, p)} | 0 <= p < |s.frame|
      ensures SamePageUse(s.frame, r.s.frame, p)
    {
      assert PageSince(s.frame, r, Covered(r.s.frame, r.live, p), p);
    }
    CoalescedIsCanonical(s.frame, r.s.frame);
    forall k, i | 0 <= k <= MAX_ORDER ensures i in r.s.lists[k] <==> i in s.lists[k] {
      assert ListOk(s.frame, s.lists[k], k) && ListOk(r.s.frame, r.s.lists[k], k);
    }
  }

  // ------------------------------------------------------------ conservation

  function FreeCount(f: Frame, n: int): (r: int)
    ensures r >= 0
  {
    if n <= 0 then 0 else FreeCount(f, n - 1) + if FreePage(f, n - 1) then 1 else 0
  }

  lemma {:induction false} CountBelow(f: Frame, g: Frame, i: int, k: int, n: int)
    requires UsesBlock(f, g, i, k) && 0 <= i && 0 <= n < |f|
    ensures FreeCount(f, n) == FreeCount(g, n) + if n <= i then 0 else if n - i <= Pow2(k) then n - i else Pow2(k)
  {
    if n > 0 {
      CountBelow(f, g, i, k, n - 1);
      assert PageUsed(f, g, i, k, n - 1);
    }
  }

  lemma FreeCounted(s: State, i: int)
    requires Inv(s) && IsHead(s.frame, i) && s.frame[i].status == 1
    ensures FreeCount(Free(s, i).frame, |s.frame| - 1) == FreeCount(s.frame, |s.frame| - 1) + Pow2(s.frame[i].index)
  {
    FreeUses(s, i);
    assert i + Pow2(s.frame[i].index) <= |s.frame| - 1 by { assert HeadOk(s.frame, i); }
    CountBelow(Free(s, i).frame, s.frame, i, s.frame[i].index, |s.frame| - 1);
  }

  /** Pages are conserved: an allocation of order k takes exactly 2^k pages out
      of the free ones, and a release gives exactly the block's pages back. */
  lemma PagesConserved(s: State, k: int)
    requires Inv(s) && 0 <= k <= MAX_ORDER
    ensures CanAllocate(s.lists, k) ==>
              FreeCount(Allocate(s, k).frame, |s.frame| - 1) == FreeCount(s.frame, |s.frame| - 1) - Pow2(k)
    ensures forall i | IsHead(s.frame, i) && s.frame[i] == FrameInfo(k, 1) ::
              FreeCount(Free(s, i).frame, |s.frame| - 1) == FreeCount(s.frame, |s.frame| - 1) + Pow2(k)
  {
    if CanAllocate(s.lists, k) {
      AllocateUses(s, k);
      CountBelow(s.frame, Allocate(s, k).frame, Allocated(s, k), k, |s.frame| - 1);
    }
    forall i | IsHead(s.frame, i) && s.frame[i] == FrameInfo(k, 1)
      ensures FreeCount(Free(s, i).frame, |s.frame| - 1) == FreeCount(s.frame, |s.frame| - 1) + Pow2(k)
    {
      FreeCounted(s, i);
    }
  }

  // --------------------------------------------------- orders and termination

  /** The order `page_allocate` picks for a size in bytes. A size of 0 wraps to
      2^64 - 1, whose page number truncates to the int -1. */
  ghost function OrderFor(size: nat): (k: int)
    ensures size <= 0x1000_0000 ==> 0 <= k <= MAX_ORDER
  {
    Pow2Values();
    FloorLog2(if size == 0 then -1 else (size - 1) / 0x1000) + 1
  }

  /** It is the least order whose block holds the size. */
  lemma OrderForIsLeast(size: nat)
    requires size <= 0x1000_0000
    ensures var k := OrderFor(size);
            size <= 0x1000 * Pow2(k) && (k > 0 ==> 0x1000 * Pow2(k - 1) < size)
  {
    Pow2Values();
  }

  datatype Outcome = OutOfFuel | Returned(s: State)

  /** `page_divide` line by line, giving up after `fuel` nested calls. Its last
      branch prints a message and returns. */
  function DivideWithin(s: State, L: int, fuel: nat): (o: Outcome)
    requires Shaped(s) && 1 <= L <= MAX_ORDER
    ensures o.Returned? ==> Shaped(o.s)
    decreases fuel
  {
    if fuel == 0 then OutOfFuel
    else if s.lists[L] != [] then Returned(Split(s, L))
    else if L < 5 then
      var inner := DivideWithin(s, L + 1, fuel - 1);
      if inner.OutOfFuel? then OutOfFuel else DivideWithin(inner.s, L, fuel - 1)
    else Returned(s)
  }

  lemma {:induction false} DivideStuck(s: State, L: int, fuel: nat)
    requires Shaped(s) && 1 <= L < 5 && !CanDivide(s.lists, L)
    ensures DivideWithin(s, L, fuel).OutOfFuel?
    decreases fuel
  {
    if fuel > 0 {
      if L + 1 < 5 {
        DivideStuck(s, L + 1, fuel - 1);
      } else if fuel > 1 {
        assert DivideWithin(s, L + 1, fuel - 1) == Returned(s);
        DivideStuck(s, L, fuel - 1);
      }
    }
  }

  lemma NextList(s: State, L: int)
    requires Shaped(s) && 1 <= L <= MAX_ORDER && CanDivide(s.lists, L) && s.lists[L] == []
    ensures L < 5 && CanDivide(s.lists, L + 1) && Divide(s, L) == Split(Divide(s, L + 1), L)
  {
  }

  lemma {:induction false} DivideReturns(s: State, L: int, fuel: nat)
    requires Shaped(s) && 1 <= L <= MAX_ORDER && CanDivide(s.lists, L) && fuel + L > MAX_ORDER + 1
    ensures DivideWithin(s, L, fuel) == Returned(Divide(s, L))
    decreases fuel, 1
  {
    if s.lists[L] == [] {
      DeeperReturns(s, L, fuel);
    } else {
      SplitReturns(s, L, fuel);
    }
  }

  lemma {:induction false} DeeperReturns(s: State, L: int, fuel: nat)
    requires Shaped(s) && 1 <= L <= MAX_ORDER && CanDivide(s.lists, L) && fuel + L > MAX_ORDER + 1 && s.lists[L] == []
    ensures DivideWithin(s, L, fuel) == Returned(Divide(s, L))
    decreases fuel, 0
  {
    NextList(s, L);
    DivideReturns(s, L + 1, fuel - 1);
    ReturnsOn(s, L, fuel);
  }

  lemma ReturnsOn(s: State, L: int, fuel: nat)
    requires Shaped(s) && 1 <= L <= MAX_ORDER && CanDivide(s.lists, L) && s.lists[L] == [] && fuel > 1
    requires L < 5 && CanDivide(s.lists, L + 1) && DivideWithin(s, L + 1, fuel - 1) == Returned(Divide(s, L + 1))
    ensures DivideWithin(s, L, fuel) == Returned(Divide(s, L))
  {
    NextList(s, L);
    RecursionReturns(s, L, fuel, Divide(s, L + 1));
  }

  lemma RecursionReturns(s: State, L: int, fuel: nat, inner: State)
    requires Shaped(s) && 1 <= L < 5 && s.lists[L] == [] && fuel > 1
    requires DivideWithin(s, L + 1, fuel - 1) == Returned(inner) && Shaped(inner) && inner.lists[L] != []
    ensures DivideWithin(s, L, fuel) == Returned(Split(inner, L))
  {
    SplitReturns(inner, L, fuel - 1);
  }

  lemma SplitReturns(s: State, L: int, fuel: nat)
    requires Shaped(s) && 1 <= L <= MAX_ORDER && s.lists[L] != [] && fuel > 0
    ensures DivideWithin(s, L, fuel) == Returned(Split(s, L))
  {
  }

  /** Exactly when `page_divide` returns: below order 5 it recurses for ever
      unless a list from L to 5 has a block. When it has one, the result is
      `Divide`. */
  lemma DivideTerminatesIff(s: State, L: int)
    requires Shaped(s) && 1 <= L <= MAX_ORDER
    ensures (exists fuel: nat :: DivideWithin(s, L, fuel).Returned?) <==> L >= 5 || CanDivide(s.lists, L)
    ensures CanDivide(s.lists, L) ==> exists fuel: nat :: DivideWithin(s, L, fuel) == Returned(Divide(s, L))
  {
    if CanDivide(s.lists, L) {
      DivideReturns(s, L, 20);
    } else if L >= 5 {
      assert DivideWithin(s, L, 1).Returned?;
    } else {
      forall fuel: nat ensures DivideWithin(s, L, fuel).OutOfFuel? {
        DivideStuck(s, L, fuel);
      }
    }
  }

  /** What a call of `page_allocate` for a block of order k comes to, with `fuel`
      nested calls of `page_divide`: a page, the answer -1, a read through a null
      item, or no end yet. */
  datatype Attempt = Got(s: State, page: int) | Refused | NullItem | Unfinished

  function AllocateWithin(s: State, k: int, fuel: nat): (a: Attempt)
    requires Shaped(s) && 0 <= k <= MAX_ORDER
  {
    if s.lists[k] != [] then Got(Take(s, k), s.lists[k][0])
    else if k == MAX_ORDER then Refused
    else
      match DivideWithin(s, k + 1, fuel)
      case OutOfFuel => Unfinished
      case Returned(t) => if t.lists[k] == [] then NullItem else Got(Take(t, k), t.lists[k][0])
  }

  /** Below order 4 a request that no list in reach can meet never ends. */
  lemma AllocateHangs(s: State, k: int, fuel: nat)
    requires Shaped(s) && 0 <= k < 4 && !CanAllocate(s.lists, k)
    ensures AllocateWithin(s, k, fuel).Unfinished?
  {
    DivideStuck(s, k + 1, fuel);
  }

  /** Every request has one of four ends, and the lists before the call tell which:
      exactly when a list in reach has a block the call hands it out, as `Allocate`
      says. */
  lemma AllocateOutcome(s: State, k: int, fuel: nat)
    requires Shaped(s) && 0 <= k <= MAX_ORDER && fuel > MAX_ORDER + 1
    ensures AllocateWithin(s, k, fuel).Got? <==> CanAllocate(s.lists, k)
    ensures CanAllocate(s.lists, k) ==> AllocateWithin(s, k, fuel) == Got(Allocate(s, k), Allocated(s, k))
    ensures AllocateWithin(s, k, fuel).Refused? <==> k == MAX_ORDER && s.lists[k] == []
    ensures AllocateWithin(s, k, fuel).NullItem? <==> 4 <= k < MAX_ORDER && !CanAllocate(s.lists, k)
    ensures AllocateWithin(s, k, fuel).Unfinished? <==> k < 4 && !CanAllocate(s.lists, k)
  {
    if s.lists[k] == [] && k < MAX_ORDER {
      if CanAllocate(s.lists, k) {
        DivideReturns(s, k + 1, fuel);
      } else if k < 4 {
        AllocateHangs(s, k, fuel);
      } else {
        assert DivideWithin(s, k + 1, fuel) == Returned(s);
      }
    }
  }

  // --------------------------------------------------------- running dry

  /** Dividing at order 5 or below leaves the lists above order 5 alone. */
  lemma {:induction false} DivideLeaves(s: State, L: int, m: int)
    requires Shaped(s) && 1 <= L <= 5 < m <= MAX_ORDER && CanDivide(s.lists, L)
    ensures Divide(s, L).lists[m] == s.lists[m]
    decreases 5 - L
  {
    if s.lists[L] == [] {
      NextList(s, L);
      DivideLeaves(s, L + 1, m);
    }
  }

  /** So does a request for one page, which also takes one page. */
  lemma OnePageStep(t: Traced)
    requires Inv(t.s) && CanAllocate(t.s.lists, 0)
    ensures Enabled(t, AllocOp(0)) && var r := Step(t, AllocOp(0)).s;
            Inv(r) && |r.frame| == |t.s.frame| &&
            FreeCount(r.frame, |r.frame| - 1) == FreeCount(t.s.frame, |t.s.frame| - 1) - 1 &&
            forall m | 5 < m <= MAX_ORDER :: r.lists[m] == t.s.lists[m]
  {
    AllocateKeeps(t.s, 0);
    PagesConserved(t.s, 0);
    forall m | 5 < m <= MAX_ORDER ensures Allocate(t.s, 0).lists[m] == t.s.lists[m] {
      if t.s.lists[0] == [] {
        DivideLeaves(t.s, 1, m);
      }
    }
  }

  /** n requests for one page each. */
  function OnePages(n: nat): (ops: seq<Op>)
    ensures |ops| == n
  {
    if n == 0 then [] else [AllocOp(0)] + OnePages(n - 1)
  }

  /** Whatever state they start in, requests for one page can be met for a while,
      one page each, until none of the lists up to order 5 has a block; larger blocks
      are not touched. */
  lemma {:induction false} OnePagesEnd(t: Traced) returns (n: nat)
    requires Inv(t.s)
    ensures CanRun(t, OnePages(n)) && n <= FreeCount(t.s.frame, |t.s.frame| - 1)
    ensures var r := Run(t, OnePages(n)).s;
            Inv(r) && !CanAllocate(r.lists, 0) && forall m | 5 < m <= MAX_ORDER :: r.lists[m] == t.s.lists[m]
    decreases FreeCount(t.s.frame, |t.s.frame| - 1)
  {
    n := 0;
    if CanAllocate(t.s.lists, 0) {
      OnePageStep(t);
      var m := OnePagesEnd(Step(t, AllocOp(0)));
      n := m + 1;
      OnePagesUnfold(t, m);
    }
  }

  lemma OnePagesUnfold(t: Traced, m: nat)
    requires Enabled(t, AllocOp(0)) && CanRun(Step(t, AllocOp(0)), OnePages(m))
    ensures CanRun(t, OnePages(m + 1)) && Run(t, OnePages(m + 1)) == Run(Step(t, AllocOp(0)), OnePages(m))
  {
    assert OnePages(m + 1)[1..] == OnePages(m);
  }

  /** So memory that is handed out page by page always ends the same way: after some
      requests the next one never returns (it is not refused), and a request for 16
      pages reads a null item, though every free block of 64 pages and more is still
      there. */
  lemma EveryStateDrains(s: State) returns (n: nat)
    requires Inv(s)
    ensures CanRun(Traced(s, {}), OnePages(n)) && n <= FreeCount(s.frame, |s.frame| - 1)
    ensures var r := Run(Traced(s, {}), OnePages(n)).s;
            Inv(r) && (forall fuel: nat :: AllocateWithin(r, 0, fuel).Unfinished?) &&
            (forall fuel: nat | fuel > MAX_ORDER + 1 :: AllocateWithin(r, 4, fuel).NullItem?) &&
            forall m | 5 < m <= MAX_ORDER :: r.lists[m] == s.lists[m]
  {
    n := OnePagesEnd(Traced(s, {}));
    var r := Run(Traced(s, {}), OnePages(n)).s;
    forall fuel: nat ensures AllocateWithin(r, 0, fuel).Unfinished? {
      AllocateHangs(r, 0, fuel);
    }
    forall fuel: nat | fuel > MAX_ORDER + 1 ensures AllocateWithin(r, 4, fuel).NullItem? {
      NoneInReach(r.lists);
      AllocateOutcome(r, 4, fuel);
    }
  }

  /** When a request for one page cannot be met, neither can one for 16. */
  lemma NoneInReach(lists: seq<seq<int>>)
    requires |lists| == MAX_ORDER + 1 && !CanAllocate(lists, 0)
    ensures !CanAllocate(lists, 4)
  {
    var k := NextSource(lists, 1);
    assert lists[4] == [] && lists[5] == [];
  }
}
