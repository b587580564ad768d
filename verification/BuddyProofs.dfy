/** What the buddy operations keep: the tiling, the free lists, full coalescing;
    and exact undo of an allocation. */
module BuddyProofs {
  import opened Powers
  import opened Buddy

  /** A page is free if it is inside a free block or heads one. */
  predicate FreePage(f: Frame, p: int) {
    0 <= p < |f| - 1 && f[p].index >= FREE && f[p].status == 0
  }

  /** Page p is in both frames free, or in neither and described alike. */
  predicate SamePageUse(f: Frame, g: Frame, p: int)
    requires 0 <= p < |f| == |g|
  {
    (FreePage(g, p) <==> FreePage(f, p)) && (!FreePage(f, p) ==> g[p] == f[p])
  }

  ghost predicate SameUse(f: Frame, g: Frame) {
    |g| == |f| &&
    forall p {:trigger SamePageUse(f, g, p)} | 0 <= p < |f| :: SamePageUse(f, g, p)
  }

  // ------------------------------------------------------------------ Halve

  /** A free block of order k and its upper half, with the facts the lemmas
      below share. */
  lemma HalfShape(f: Frame, a: int, k: int)
    requires Tiled(f) && 1 <= k && FreeHead(f, a, k)
    ensures k <= MAX_ORDER && HeadOk(f, a)
    ensures var u := a + Pow2(k - 1);
            Aligned(a, k - 1) && Aligned(u, k - 1) &&
            a < u < a + Pow2(k) <= |f| - 1 && Pow2(k) == 2 * Pow2(k - 1) &&
            f[u] == FrameInfo(FREE, 0) && BuddyOf(u, k - 1) == a && BuddyOf(a, k - 1) == u
  {
    assert HeadOk(f, a);
    AlignedSplit(a, k);
    BuddyFacts(a + Pow2(k - 1), k - 1);
  }

  lemma HalveTiled(f: Frame, a: int, k: int)
    requires Tiled(f) && 1 <= k && FreeHead(f, a, k)
    ensures Tiled(Halve(f, a, k - 1))
  {
    HalfShape(f, a, k);
    var u := a + Pow2(k - 1);
    var g := Halve(f, a, k - 1);
    assert HeadOk(g, a) && HeadOk(g, u);
    ReplaceRegion(f, g, a, a + Pow2(k));
  }

  /** After a cut, the only free buddies that are new are the two halves. */
  lemma HalveCoalesced(f: Frame, a: int, k: int)
    requires Tiled(f) && 1 <= k && FreeHead(f, a, k) && CoalescedBut(f, a)
    ensures CoalescedBut(Halve(f, a, k - 1), a) && CoalescedBut(Halve(f, a, k - 1), a + Pow2(k - 1))
  {
    HalfShape(f, a, k);
    var u := a + Pow2(k - 1);
    var g := Halve(f, a, k - 1);
    forall i, m {:trigger FreeBuddies(g, i, m)} | 0 <= m < MAX_ORDER && FreeBuddies(g, i, m)
      ensures i == u || BuddyOf(i, m) == u
      ensures i == a || BuddyOf(i, m) == a
    {
      var b := BuddyOf(i, m);
      assert HeadOk(g, i) by { HalveTiled(f, a, k); }
      BuddyFacts(i, m);
      assert i != u && b != u && i != a && b != a ==> FreeBuddies(f, i, m);
    }
  }

  lemma HalveSameUse(f: Frame, a: int, k: int)
    requires Tiled(f) && 1 <= k && FreeHead(f, a, k)
    ensures SameUse(f, Halve(f, a, k - 1))
  {
    HalfShape(f, a, k);
    var u := a + Pow2(k - 1);
    var g := Halve(f, a, k - 1);
    assert FreePage(f, a) && FreePage(g, a) && FreePage(f, u) && FreePage(g, u);
    forall p {:trigger SamePageUse(f, g, p)} | 0 <= p < |g| ensures SamePageUse(f, g, p) {
      assert p == a || p == u || g[p] == f[p];
    }
  }

  // ------------------------------------------------------------------ Split

  lemma SplitShape(s: State, L: int)
    requires Consistent(s) && 1 <= L <= MAX_ORDER && s.lists[L] != []
    ensures FreeHead(s.frame, s.lists[L][0], L)
  {
    assert ListOk(s.frame, s.lists[L], L);
    assert s.lists[L][0] in s.lists[L];
  }

  lemma SplitTiled(s: State, L: int)
    requires Consistent(s) && 1 <= L <= MAX_ORDER && s.lists[L] != []
    ensures Tiled(Split(s, L).frame)
  {
    SplitShape(s, L);
    HalveTiled(s.frame, s.lists[L][0], L);
  }

  lemma PopDistinct(xs: seq<int>)
    requires Distinct(xs) && xs != []
    ensures Distinct(xs[1..])
    ensures forall y :: y in xs[1..] <==> y in xs && y != xs[0]
  {
    assert xs == [xs[0]] + xs[1..];
  }

  lemma PushDistinct(xs: seq<int>, x: int)
    requires Distinct(xs) && x !in xs
    ensures Distinct([x] + xs)
  {
    assert ([x] + xs)[1..] == xs;
  }

  /** Which blocks of order k are free once the block of order K at a is cut. */
  lemma HalveHeads(f: Frame, a: int, K: int, u: int, k: int)
    requires Tiled(f) && 1 <= K && FreeHead(f, a, K) && u == a + Pow2(K - 1)
    ensures a != u && (FreeHead(f, a, k) <==> k == K) && (k >= 0 ==> !FreeHead(f, u, k))
    ensures var g := Halve(f, a, K - 1);
            (FreeHead(g, a, k) <==> k == K - 1) && (FreeHead(g, u, k) <==> k == K - 1) &&
            forall i {:trigger FreeHead(g, i, k)} | i != a && i != u :: FreeHead(g, i, k) <==> FreeHead(f, i, k)
  {
    HalfShape(f, a, K);
    var g := Halve(f, a, K - 1);
    forall i {:trigger FreeHead(g, i, k)} | i != a && i != u ensures FreeHead(g, i, k) <==> FreeHead(f, i, k) {
      assert 0 <= i < |f| ==> g[i] == f[i];
    }
  }

  lemma PoppedOk(f: Frame, g: Frame, xs: seq<int>, k: int)
    requires ListOk(f, xs, k) && xs != []
    requires forall i :: FreeHead(g, i, k) <==> FreeHead(f, i, k) && i != xs[0]
    ensures ListOk(g, xs[1..], k)
  {
    PopDistinct(xs);
  }

  /** The list of order k once the block of order K at a, with upper half u, is cut. */
  function CutList(xs: seq<int>, a: int, K: int, u: int, k: int): seq<int>
    requires k == K ==> xs != []
  {
    if k == K then xs[1..] else if k == K - 1 then [u] + ([a] + xs) else xs
  }

  lemma CutListOk(f: Frame, xs: seq<int>, a: int, K: int, u: int, k: int)
    requires Tiled(f) && 1 <= K && FreeHead(f, a, K) && u == a + Pow2(K - 1)
    requires ListOk(f, xs, k) && 0 <= k && (k == K ==> xs != [] && xs[0] == a)
    ensures ListOk(Halve(f, a, K - 1), CutList(xs, a, K, u, k), k)
  {
    var g := Halve(f, a, K - 1);
    HalveHeads(f, a, K, u, k);
    if k == K {
      PoppedOk(f, g, xs, k);
    } else if k == K - 1 {
      PushDistinct(xs, a);
      PushDistinct([a] + xs, u);
    }
  }

  lemma PushOnAt(lists: seq<seq<int>>, k: int, i: int, m: int)
    requires |lists| == MAX_ORDER + 1 && 0 <= k <= MAX_ORDER && 0 <= m <= MAX_ORDER
    ensures PushOn(lists, k, i)[m] == if m == k then [i] + lists[k] else lists[m]
  {
  }

  lemma SplitIs(s: State, L: int, k: int)
    requires Shaped(s) && 1 <= L <= MAX_ORDER && s.lists[L] != [] && 0 <= k <= MAX_ORDER
    ensures var a := s.lists[L][0];
            Split(s, L).frame == Halve(s.frame, a, L - 1) &&
            Split(s, L).lists[k] == CutList(s.lists[k], a, L, a + Pow2(L - 1), k)
  {
    var a := s.lists[L][0];
    var rest := s.lists[L := s.lists[L][1..]];
    PushOnAt(rest, L - 1, a, k);
    PushOnAt(PushOn(rest, L - 1, a), L - 1, a + Pow2(L - 1), k);
  }

  lemma SplitListOk(s: State, L: int, k: int)
    requires Consistent(s) && 1 <= L <= MAX_ORDER && s.lists[L] != [] && 0 <= k <= MAX_ORDER
    ensures ListOk(Split(s, L).frame, Split(s, L).lists[k], k)
  {
    var a := s.lists[L][0];
    SplitShape(s, L);
    SplitIs(s, L, k);
    assert ListOk(s.frame, s.lists[k], k);
    CutListOk(s.frame, s.lists[k], a, L, a + Pow2(L - 1), k);
  }

  lemma SplitLists(s: State, L: int)
    requires Consistent(s) && 1 <= L <= MAX_ORDER && s.lists[L] != []
    ensures ListsOk(Split(s, L))
  {
    var t := Split(s, L);
    forall k {:trigger ListOk(t.frame, t.lists[k], k)} | 0 <= k <= MAX_ORDER
      ensures ListOk(t.frame, t.lists[k], k)
    {
      SplitListOk(s, L, k);
    }
  }

  lemma SplitCoalesced(s: State, L: int)
    requires Consistent(s) && 1 <= L <= MAX_ORDER && s.lists[L] != []
    requires CoalescedBut(s.frame, s.lists[L][0])
    ensures CoalescedBut(Split(s, L).frame, Split(s, L).lists[L - 1][0])
  {
    SplitShape(s, L);
    HalveCoalesced(s.frame, s.lists[L][0], L);
  }

  // ----------------------------------------------------------------- Divide

  lemma {:induction false} DivideConsistent(s: State, L: int)
    requires Consistent(s) && 1 <= L <= MAX_ORDER && CanDivide(s.lists, L)
    ensures Consistent(Divide(s, L))
    decreases MAX_ORDER - L
  {
    if s.lists[L] == [] {
      DivideConsistent(s, L + 1);
    }
    var r := if s.lists[L] != [] then s else Divide(s, L + 1);
    SplitTiled(r, L);
    SplitLists(r, L);
  }

  /** The block that dividing puts in front of list L - 1 is the only one that
      may have a free buddy. */
  lemma {:induction false} DivideCoalesced(s: State, L: int)
    requires Inv(s) && 1 <= L <= MAX_ORDER && CanDivide(s.lists, L)
    ensures CoalescedBut(Divide(s, L).frame, Divide(s, L).lists[L - 1][0])
    decreases MAX_ORDER - L
  {
    if s.lists[L] == [] {
      DivideCoalesced(s, L + 1);
      DivideConsistent(s, L + 1);
    }
    SplitCoalesced(if s.lists[L] != [] then s else Divide(s, L + 1), L);
  }

  lemma SplitSameUse(s: State, L: int)
    requires Consistent(s) && 1 <= L <= MAX_ORDER && s.lists[L] != []
    ensures SameUse(s.frame, Split(s, L).frame)
  {
    SplitShape(s, L);
    HalveSameUse(s.frame, s.lists[L][0], L);
  }

  lemma SameUseTransitive(f: Frame, g: Frame, h: Frame)
    requires SameUse(f, g) && SameUse(g, h)
    ensures SameUse(f, h)
  {
    forall p {:trigger SamePageUse(f, h, p)} | 0 <= p < |f|
      ensures SamePageUse(f, h, p)
    {
      assert SamePageUse(f, g, p) && SamePageUse(g, h, p);
    }
  }

  /** Dividing frees nothing, uses nothing and touches no page that was in use. */
  lemma {:induction false} DivideSameUse(s: State, L: int)
    requires Consistent(s) && 1 <= L <= MAX_ORDER && CanDivide(s.lists, L)
    ensures SameUse(s.frame, Divide(s, L).frame)
    decreases MAX_ORDER - L
  {
    if s.lists[L] != [] {
      SplitSameUse(s, L);
    } else {
      var r := Divide(s, L + 1);
      DivideSameUse(s, L + 1);
      DivideConsistent(s, L + 1);
      SplitSameUse(r, L);
      SameUseTransitive(s.frame, r.frame, Split(r, L).frame);
    }
  }

  // --------------------------------------------------------- Take, Release

  /** The block handed out is free, aligned and of the wanted order. */
  lemma PrepareKeeps(s: State, k: int)
    requires Inv(s) && 0 <= k <= MAX_ORDER && CanAllocate(s.lists, k)
    ensures var t := Prepare(s, k);
            Consistent(t) && CoalescedBut(t.frame, t.lists[k][0]) &&
            FreeHead(t.frame, t.lists[k][0], k) && HeadOk(t.frame, t.lists[k][0])
  {
    if s.lists[k] == [] {
      DivideConsistent(s, k + 1);
      DivideCoalesced(s, k + 1);
    }
    var t := Prepare(s, k);
    assert ListOk(t.frame, t.lists[k], k);
    assert t.lists[k][0] in t.lists[k];
  }

  /** Marking a free block as used, or a used one as free, keeps the tiling. */
  lemma RemarkTiled(f: Frame, i: int, status: int, mark: int)
    requires Tiled(f) && 0 <= i < |f| - 1 && f[i].index >= 0
    requires if status == 0 then mark == FREE else status == 1 && (mark == ALLOCATED || mark == RESERVED)
    ensures var k := f[i].index; Tiled(SetInterior(SetStatus(f, i, status), i, Pow2(k), mark))
  {
    var k := f[i].index;
    var g := SetInterior(SetStatus(f, i, status), i, Pow2(k), mark);
    assert HeadOk(f, i);
    assert Interior(g, i, Pow2(k), mark);
    assert HeadOk(g, i);
    ReplaceRegion(f, g, i, i + Pow2(k));
  }

  lemma TakeKeeps(s: State, k: int)
    requires Consistent(s) && 0 <= k <= MAX_ORDER && s.lists[k] != []
    requires CoalescedBut(s.frame, s.lists[k][0])
    ensures Inv(Take(s, k))
  {
    var i := s.lists[k][0];
    var t := Take(s, k);
    assert ListOk(s.frame, s.lists[k], k);
    assert i in s.lists[k];
    assert HeadOk(s.frame, i);
    RemarkTiled(s.frame, i, 1, ALLOCATED);
    PopDistinct(s.lists[k]);
    assert forall j, m | m >= 0 :: FreeHead(t.frame, j, m) <==> FreeHead(s.frame, j, m) && j != i;
    forall m {:trigger ListOk(t.frame, t.lists[m], m)} | 0 <= m <= MAX_ORDER
      ensures ListOk(t.frame, t.lists[m], m)
    {
      assert ListOk(s.frame, s.lists[m], m);
    }
    forall j, m {:trigger FreeBuddies(t.frame, j, m)} | 0 <= m < MAX_ORDER
      ensures !FreeBuddies(t.frame, j, m)
    {
      assert FreeBuddies(t.frame, j, m) ==> FreeBuddies(s.frame, j, m);
    }
  }

  lemma ReleaseKeeps(s: State, i: int)
    requires Inv(s) && IsHead(s.frame, i) && s.frame[i].status == 1
    ensures var t := Release(s, i); Consistent(t) && CoalescedBut(t.frame, i)
  {
    var k := s.frame[i].index;
    var t := Release(s, i);
    assert HeadOk(s.frame, i);
    RemarkTiled(s.frame, i, 0, FREE);
    assert t.frame == SetInterior(SetStatus(s.frame, i, 0), i, Pow2(k), FREE);
    assert forall j, m | m >= 0 :: FreeHead(t.frame, j, m) <==> FreeHead(s.frame, j, m) || (j == i && m == k);
    forall m {:trigger ListOk(t.frame, t.lists[m], m)} | 0 <= m <= MAX_ORDER
      ensures ListOk(t.frame, t.lists[m], m)
    {
      assert ListOk(s.frame, s.lists[m], m);
      if m == k {
        assert !FreeHead(s.frame, i, k);
        PushDistinct(s.lists[k], i);
      }
    }
    forall j, m {:trigger FreeBuddies(t.frame, j, m)} | 0 <= m < MAX_ORDER && FreeBuddies(t.frame, j, m)
      ensures j == i || BuddyOf(j, m) == i
    {
      assert FreeBuddies(s.frame, j, m) || j == i || BuddyOf(j, m) == i;
    }
  }

  // ------------------------------------------------------------------ Merge

  lemma {:induction false} WithoutDistinct(xs: seq<int>, x: int)
    requires Distinct(xs)
    ensures Distinct(Without(xs, x))
    ensures x !in xs ==> Without(xs, x) == xs
  {
    if xs != [] {
      var rest := xs[1..];
      WithoutDistinct(rest, x);
      if xs[0] != x {
        PushDistinct(Without(rest, x), xs[0]);
      }
      assert xs == [xs[0]] + rest;
    }
  }

  /** Two mergeable blocks, their lower and upper member, and the facts the
      lemmas below share. */
  lemma MergeShape(s: State, i: int)
    requires Consistent(s) && IsHead(s.frame, i) && Mergeable(s, i)
    ensures var k := s.frame[i].index; var b := BuddyOf(i, k); var lo := Lower(s, i); var hi := lo + Pow2(k);
            0 <= k < MAX_ORDER && {i, b} == {lo, hi} && BuddyOf(lo, k) == hi && BuddyOf(hi, k) == lo &&
            FreeHead(s.frame, lo, k) && FreeHead(s.frame, hi, k) && Aligned(lo, k + 1) &&
            HeadOk(s.frame, lo) && HeadOk(s.frame, hi) && Pow2(k + 1) == 2 * Pow2(k)
  {
    assert HeadOk(s.frame, i);
    var k := s.frame[i].index;
    BuddyFacts(i, k);
    assert HeadOk(s.frame, BuddyOf(i, k));
  }

  /** Two free buddies of order k joined to one block. */
  lemma JoinTiled(f: Frame, lo: int, hi: int, k: int)
    requires Tiled(f) && 0 <= k < MAX_ORDER && Aligned(lo, k + 1) && hi == lo + Pow2(k) && Pow2(k + 1) == 2 * Pow2(k)
    requires FreeHead(f, lo, k) && FreeHead(f, hi, k) && HeadOk(f, lo) && HeadOk(f, hi)
    ensures Tiled(SetIndex(SetIndex(f, hi, FREE), lo, k + 1))
  {
    var g := SetIndex(SetIndex(f, hi, FREE), lo, k + 1);
    assert Interior(g, lo, Pow2(k + 1), FREE) by {
      assert Interior(f, lo, Pow2(k), FREE) && Interior(f, hi, Pow2(k), FREE);
    }
    assert HeadOk(g, lo);
    ReplaceRegion(f, g, lo, lo + Pow2(k + 1));
  }

  lemma MergeOnceTiled(s: State, i: int)
    requires Consistent(s) && IsHead(s.frame, i) && Mergeable(s, i)
    ensures Tiled(MergeOnce(s, i).frame)
  {
    MergeShape(s, i);
    var k, lo := s.frame[i].index, Lower(s, i);
    assert MergeOnce(s, i).frame == SetIndex(SetIndex(s.frame, lo + Pow2(k), FREE), lo, k + 1);
    JoinTiled(s.frame, lo, lo + Pow2(k), k);
  }

  lemma MergeOnceLists(s: State, i: int)
    requires Consistent(s) && IsHead(s.frame, i) && Mergeable(s, i)
    ensures ListsOk(MergeOnce(s, i))
  {
    MergeShape(s, i);
    var k := s.frame[i].index;
    var lo := Lower(s, i);
    var hi := lo + Pow2(k);
    var b := BuddyOf(i, k);
    var t := MergeOnce(s, i);
    forall m {:trigger ListOk(t.frame, t.lists[m], m)} | 0 <= m <= MAX_ORDER
      ensures ListOk(t.frame, t.lists[m], m)
    {
      assert ListOk(s.frame, s.lists[m], m);
      assert forall j | j != lo && j != hi :: FreeHead(t.frame, j, m) <==> FreeHead(s.frame, j, m);
      if m == k {
        assert t.lists[k] == Without(Without(s.lists[k], i), b);
        WithoutDistinct(s.lists[k], i);
        WithoutDistinct(Without(s.lists[k], i), b);
      } else if m == k + 1 {
        assert t.lists[m] == [lo] + s.lists[m];
        assert !FreeHead(s.frame, lo, m);
        PushDistinct(s.lists[m], lo);
      }
    }
  }

  lemma MergeOnceCoalesced(s: State, i: int)
    requires Consistent(s) && IsHead(s.frame, i) && Mergeable(s, i) && CoalescedBut(s.frame, i)
    ensures CoalescedBut(MergeOnce(s, i).frame, Lower(s, i))
  {
    MergeShape(s, i);
    var k := s.frame[i].index;
    var lo := Lower(s, i);
    var hi := lo + Pow2(k);
    var g := MergeOnce(s, i).frame;
    forall j, m {:trigger FreeBuddies(g, j, m)} | 0 <= m < MAX_ORDER && FreeBuddies(g, j, m)
      ensures j == lo || BuddyOf(j, m) == lo
    {
      var c := BuddyOf(j, m);
      assert HeadOk(g, j) by { MergeOnceTiled(s, i); }
      BuddyFacts(j, m);
      assert j != lo && c != lo ==> FreeBuddies(s.frame, j, m);
    }
  }

  /** `merge` restores full coalescing: from a state whose only free buddies are
      i and its buddy it reaches one with none. */
  lemma {:induction false} MergeKeeps(s: State, i: int)
    requires Consistent(s) && IsHead(s.frame, i) && s.frame[i].status == 0 && CoalescedBut(s.frame, i)
    ensures Inv(Merge(s, i))
    decreases MAX_ORDER - s.frame[i].index
  {
    if Mergeable(s, i) {
      MergeOnceTiled(s, i);
      MergeOnceLists(s, i);
      MergeOnceCoalesced(s, i);
      MergeShape(s, i);
      MergeKeeps(MergeOnce(s, i), Lower(s, i));
    } else {
      assert HeadOk(s.frame, i);
      forall j, m {:trigger FreeBuddies(s.frame, j, m)} | 0 <= m < MAX_ORDER
        ensures !FreeBuddies(s.frame, j, m)
      {
        if 0 <= j < |s.frame| - 1 && s.frame[j].index == m {
          assert HeadOk(s.frame, j);
          BuddyFacts(j, m);
        }
      }
    }
  }

  // ----------------------------------------------------------- main results

  /** `page_allocate` keeps the invariant. */
  lemma AllocateKeeps(s: State, k: int)
    requires Inv(s) && 0 <= k <= MAX_ORDER && CanAllocate(s.lists, k)
    ensures Inv(Allocate(s, k))
  {
    PrepareKeeps(s, k);
    TakeKeeps(Prepare(s, k), k);
  }

  /** `page_free` of a block in use keeps the invariant. */
  lemma FreeKeeps(s: State, i: int)
    requires Inv(s) && IsHead(s.frame, i) && s.frame[i].status == 1
    ensures Inv(Free(s, i))
  {
    ReleaseKeeps(s, i);
    MergeKeeps(Release(s, i), i);
  }
}
