/** What `malloc_` and `free` keep: the pool-page invariant, disjoint live
    objects that metadata never overlaps, and exact undo. */
module PoolProofs {
  import opened Powers
  import opened Buddy
  import opened BuddyProofs
  import opened BuddyTheorems
  import opened Pool

  // ------------------------------------------------------------ size classes

  lemma Pow2Table(k: int)
    requires 3 <= k <= 17
    ensures Pow2(k) ==
            [8, 16, 32, 64, 128, 256, 512, 1024, 2048, 0x1000, 0x2000, 0x4000, 0x8000, 0x1_0000, 0x2_0000][k - 3]
  {
    assert Pow2(3) == 8;
    if k > 3 {
      Pow2Table(k - 1);
    }
  }

  lemma LogIs(value: int, r: int)
    requires value >= 1 && IsLog2(value, r)
    ensures FloorLog2(value) == r
  {
    Log2Unique(value, FloorLog2(value), r);
  }

  /** The pages of a class: one for the small ones, else enough for twice the
      largest request. */
  lemma ClassOrder(c: int)
    requires SmallClass(c) || BigClass(c)
    ensures 0 <= OrderFor(c) <= 6
    ensures SmallClass(c) ==> OrderFor(c) == 0
    ensures BigClass(c) ==> PAGE * Pow2(OrderFor(c)) == c
  {
    assert Pow2(0) == 1 && Pow2(1) == 2 && Pow2(2) == 4 && Pow2(3) == 8 && Pow2(4) == 16 && Pow2(5) == 32 &&
           Pow2(6) == 64;
    if BigClass(c) {
      var v := (c - 1) / 0x1000;
      var r := if v == 1 then 0 else if v == 3 then 1 else if v == 7 then 2
               else if v == 15 then 3 else if v == 31 then 4 else 5;
      assert IsLog2(v, r);
      LogIs(v, r);
    }
  }

  /** A request is rounded up to a class that holds it. */
  lemma ClassHolds(size: nat)
    requires size <= 0x2_0000
    ensures var c := ClassSize(size);
            (SmallClass(c) && size <= c) || (BigClass(c) && 2 * size <= c)
  {
    var s := if size < 8 then 8 else size;
    var r := FloorLog2(s - 1);
    assert IsLog2(s - 1, r);
    assert Pow2(2) == 4;
    if r < 2 {
      Pow2Monotone(r + 1, 2);
    }
    Pow2Table(r + 1);
    if r == 16 {
      assert s - 1 < Pow2(17);
    }
  }

  lemma SlotsFit(c: int)
    requires SmallClass(c)
    ensures SlotCount(c) >= 1 && HEADER + Align8(SlotCount(c)) + c * SlotCount(c) <= PAGE && c % 8 == 0
  {
  }

  // ------------------------------------------------------------------- slots

  lemma TimesOrder(i: int, j: int, c: int)
    requires c > 0 && i < j
    ensures i * c + c <= j * c
  {
    MulGrows(j - i, c);
    assert (j - i) * c == j * c - i * c;
  }

  /** Slots are 8-aligned and lie between the map and the end of the page. */
  lemma SlotInPage(s: State, p: int, h: Header, i: int)
    requires PageOk(s, p, h) && 0 <= i < |h.info|
    ensures h.total >= 0 && h.size > 0 && (h.size * i) % 8 == 0
    ensures HEADER + h.total <= SlotOffset(h, i) < PAGE && (h.total > 0 ==> SlotOffset(h, i) + h.size <= PAGE)
  {
    if SmallClass(h.size) {
      SlotsFit(h.size);
      TimesOrder(i, h.total, h.size);
      assert h.size * i == i * h.size;
      MulGrows(i, h.size);
      MultipleOf8(h.size, i);
    } else {
      assert h.total == 0 && i == 0;
    }
  }

  lemma MultipleOf8(c: int, i: int)
    requires SmallClass(c)
    ensures (c * i) % 8 == 0
  {
    var d := c / 8;
    assert c == 8 * d;
    assert c * i == (d * i) * 8;
    MultipleOf(c * i, 8, d * i);
  }

  /** The address of a slot gives back the page and the slot. */
  lemma SlotDecodes(s: State, p: int, h: Header, i: int)
    requires PageOk(s, p, h) && 0 <= i < |h.info|
    ensures h.total >= 0 && h.size > 0
    ensures var a := SlotAddr(p, h, i); a / PAGE == p && SlotOf(h, a) == i && a % 8 == 0
  {
    SlotInPage(s, p, h, i);
    PageAndOffset(p, Align8(h.total), h.size * i);
    OffsetDecodes(Align8(h.total), h.size, i);
  }

  lemma OffsetDecodes(bytes: int, size: int, i: int)
    requires size > 0
    ensures (HEADER + bytes + size * i - bytes - HEADER) / size == i
  {
    var x := size * i;
    assert x == i * size;
    DivModUnique(x, size, i, 0);
  }

  lemma PageAndOffset(p: int, bytes: int, x: int)
    requires 0 <= HEADER + bytes + x < PAGE && bytes % 8 == 0 && x % 8 == 0
    ensures var a := PAGE * p + (HEADER + bytes + x); a / PAGE == p && a % PAGE == HEADER + bytes + x && a % 8 == 0
  {
  }

  // ------------------------------------------------------------ counting ones

  lemma {:induction false} ZeroExists(info: seq<int>)
    requires (forall i | 0 <= i < |info| :: info[i] == 0 || info[i] == 1) && Ones(info) < |info|
    ensures FirstZero(info) < |info|
  {
    if info[0] == 1 {
      ZeroExists(info[1..]);
    }
  }

  lemma {:induction false} OnesUpdate(info: seq<int>, i: int, v: int)
    requires 0 <= i < |info|
    ensures Ones(info[i := v]) == Ones(info) + (if v == 1 then 1 else 0) - if info[i] == 1 then 1 else 0
  {
    var g := info[i := v];
    if i == 0 {
      assert g[1..] == info[1..];
    } else {
      OnesUpdate(info[1..], i - 1, v);
      assert g[1..] == info[1..][i - 1 := v];
    }
  }

  lemma {:induction false} OnesOfZeros(n: nat)
    ensures Ones(seq(n, _ => 0)) == 0
  {
    if n > 0 {
      OnesOfZeros(n - 1);
      assert seq(n, _ => 0)[1..] == seq(n - 1, _ => 0);
    }
  }

  // ------------------------------------------------------------------ malloc

  /** Exactly the object in slot i of page p was added. */
  ghost predicate Adds(s: Heap, t: Heap, p: int, i: int) {
    !Live(s, p, i) && Live(t, p, i) &&
    forall q, j {:trigger Live(t, q, j)} {:trigger Live(s, q, j)} | !(q == p && j == i) ::
      Live(t, q, j) <==> Live(s, q, j)
  }

  /** `malloc_` takes a page of the exact class. */
  lemma SameClass(a: int, c: int)
    requires (SmallClass(a) || BigClass(a)) && (SmallClass(c) || BigClass(c)) && c <= a < 2 * c
    ensures a == c
  {
  }

  lemma MallocInPage(s: Heap, size: nat, p: int)
    requires HeapOk(s) && size <= 0x2_0000 && p == FindPage(s.chain, s.pages, ClassSize(size)) && p != -1
    ensures CanMalloc(s, size)
    ensures var h := s.pages[p]; var i := FirstZero(h.info); var r := Malloc(s, size);
            i < |h.info| && h.total > 0 && r.1 == SlotAddr(p, h, i) && HeapOk(r.0) && Adds(s, r.0, p, i) &&
            Room(h) >= size
  {
    var h := s.pages[p];
    assert PageOk(s.buddy, p, h);
    ClassHolds(size);
    SameClass(h.size, ClassSize(size));
    ZeroExists(h.info);
    var i := FirstZero(h.info);
    OnesUpdate(h.info, i, 1);
    var t := Malloc(s, size).0;
    forall q {:trigger PageOk(t.buddy, q, t.pages[q])} | q in t.pages ensures PageOk(t.buddy, q, t.pages[q]) {
      assert PageOk(s.buddy, q, s.pages[q]);
    }
  }

  lemma NewHeaderOk(s: State, p: int, c: int)
    requires SmallClass(c) || BigClass(c)
    requires IsHead(s.frame, p) && s.frame[p] == FrameInfo(OrderFor(c), 1)
    ensures PageOk(s, p, NewHeader(c))
    ensures forall i | 0 <= i < |NewHeader(c).info| :: NewHeader(c).info[i] == 1 <==> i == 0
  {
    var h := NewHeader(c);
    OnesOfZeros(|h.info| - 1);
    assert h.info[1..] == seq(|h.info| - 1, _ => 0);
  }

  /** A page of the pool is in use, so it is not the one handed out. */
  lemma MallocNewPage(s: Heap, size: nat)
    requires HeapOk(s) && size <= 0x2_0000 && FindPage(s.chain, s.pages, ClassSize(size)) == -1
    requires CanMalloc(s, size)
    ensures var c := ClassSize(size);
            var q := Allocated(s.buddy, OrderFor(c)); var h := NewHeader(c); var r := Malloc(s, size);
            q !in s.pages && r.0.pages == s.pages[q := h] && r.1 == SlotAddr(q, h, 0) &&
            HeapOk(r.0) && Adds(s, r.0, q, 0) && Room(h) >= size
  {
    var c := ClassSize(size);
    ClassHolds(size);
    ClassOrder(c);
    var k := OrderFor(c);
    var q := Allocated(s.buddy, k);
    AllocateUses(s.buddy, k);
    var f, g := s.buddy.frame, Allocate(s.buddy, k).frame;
    assert FreePage(f, q) by { assert PageUsed(f, g, q, k, q); }
    forall p | p in s.pages ensures 0 <= p < |f| && p != q && g[p] == f[p] {
      assert PageOk(s.buddy, p, s.pages[p]);
      assert PageUsed(f, g, q, k, p);
    }
    var t := Malloc(s, size).0;
    NewHeaderOk(t.buddy, q, c);
    PushDistinct(s.chain, q);
    forall p {:trigger PageOk(t.buddy, p, t.pages[p])} | p in t.pages ensures PageOk(t.buddy, p, t.pages[p]) {
      if p != q {
        assert PageOk(s.buddy, p, s.pages[p]);
      }
    }
  }

  // -------------------------------------------------------------------- free

  lemma {:induction false} NoOnes(info: seq<int>, i: int)
    requires 0 <= i < |info| && info[i] == 1
    ensures Ones(info) >= 1
  {
    if i > 0 {
      NoOnes(info[1..], i - 1);
    }
  }

  lemma {:induction false} SomeOne(info: seq<int>) returns (i: int)
    requires Ones(info) >= 1
    ensures 0 <= i < |info| && info[i] == 1
  {
    if info[0] == 1 {
      i := 0;
    } else {
      i := SomeOne(info[1..]);
      i := i + 1;
    }
  }

  /** Slot i is the only one in use exactly if `used` is 1. */
  lemma LastOne(info: seq<int>, i: int)
    requires 0 <= i < |info| && info[i] == 1
    ensures Ones(info) == 1 <==> forall j | 0 <= j < |info| && info[j] == 1 :: j == i
  {
    OnesUpdate(info, i, 0);
    var rest := info[i := 0];
    if Ones(info) == 1 {
      forall j | 0 <= j < |info| && info[j] == 1 ensures j == i {
        if j != i { NoOnes(rest, j); }
      }
    } else {
      NoOnes(info, i);
      var j := SomeOne(rest);
      assert info[j] == 1 && j != i;
    }
  }

  lemma FreeInPage(s: Heap, p: int, i: int)
    requires HeapOk(s) && Live(s, p, i) && s.pages[p].used != 1
    ensures s.pages[p].total >= 0
    ensures var a := SlotAddr(p, s.pages[p], i);
            CanFree(s, a) && var t := FreeAt(s, a);
            HeapOk(t) && Adds(t, s, p, i) && p in t.pages
  {
    var h := s.pages[p];
    assert PageOk(s.buddy, p, h);
    SlotDecodes(s.buddy, p, h, i);
    OnesUpdate(h.info, i, 0);
    var t := FreeAt(s, SlotAddr(p, h, i));
    forall q {:trigger PageOk(t.buddy, q, t.pages[q])} | q in t.pages ensures PageOk(t.buddy, q, t.pages[q]) {
      assert PageOk(s.buddy, q, s.pages[q]);
    }
  }

  lemma FreeLastInPage(s: Heap, p: int, i: int)
    requires HeapOk(s) && Live(s, p, i) && s.pages[p].used == 1
    ensures s.pages[p].total >= 0
    ensures var a := SlotAddr(p, s.pages[p], i);
            CanFree(s, a) && var t := FreeAt(s, a);
            HeapOk(t) && Adds(t, s, p, i) && p !in t.pages
  {
    var h := s.pages[p];
    assert PageOk(s.buddy, p, h);
    SlotDecodes(s.buddy, p, h, i);
    LastOne(h.info, i);
    FreeUses(s.buddy, p);
    var t := FreeAt(s, SlotAddr(p, h, i));
    var f, g := t.buddy.frame, s.buddy.frame;
    WithoutDistinct(s.chain, p);
    forall j | 0 <= j < |t.chain| ensures t.chain[j] in t.pages {
      assert t.chain[j] in s.chain;
    }
    forall q | q in t.pages ensures 0 <= q < |f| && f[q] == g[q] {
      assert PageOk(s.buddy, q, s.pages[q]);
      if q < p { BlocksApart(g, q, p); } else { BlocksApart(g, p, q); }
      assert PageUsed(f, g, p, g[p].index, q);
    }
    forall q {:trigger PageOk(t.buddy, q, t.pages[q])} | q in t.pages ensures PageOk(t.buddy, q, t.pages[q]) {
      assert PageOk(s.buddy, q, s.pages[q]);
    }
  }

  /** `free` of a live object removes exactly that object, and gives the page
      back exactly when it was the last on its page. */
  lemma FreeRemoves(s: Heap, p: int, i: int)
    requires HeapOk(s) && Live(s, p, i)
    ensures s.pages[p].total >= 0
    ensures var a := SlotAddr(p, s.pages[p], i);
            CanFree(s, a) && var t := FreeAt(s, a);
            HeapOk(t) && Adds(t, s, p, i) &&
            (p !in t.pages <==> forall j | Live(s, p, j) :: j == i)
  {
    assert PageOk(s.buddy, p, s.pages[p]);
    LastOne(s.pages[p].info, i);
    if s.pages[p].used == 1 {
      FreeLastInPage(s, p, i);
    } else {
      FreeInPage(s, p, i);
      var j :| 0 <= j < |s.pages[p].info| && s.pages[p].info[j] == 1 && j != i;
      assert Live(s, p, j);
    }
  }

  /** `malloc_` adds exactly one object, 8-aligned and with room for the request. */
  lemma MallocAdds(s: Heap, size: nat) returns (p: int, i: int)
    requires HeapOk(s) && size <= 0x2_0000 && CanMalloc(s, size)
    ensures var t := Malloc(s, size).0;
            HeapOk(t) && p in t.pages && t.pages[p].total >= 0 && Adds(s, t, p, i) && Room(t.pages[p]) >= size &&
            Malloc(s, size).1 == SlotAddr(p, t.pages[p], i) && Malloc(s, size).1 % 8 == 0
  {
    p := FindPage(s.chain, s.pages, ClassSize(size));
    if p != -1 {
      i := FirstZero(s.pages[p].info);
      MallocInPage(s, size, p);
    } else {
      p := Allocated(s.buddy, OrderFor(ClassSize(size)));
      i := 0;
      MallocNewPage(s, size);
    }
    var t := Malloc(s, size).0;
    assert Live(t, p, i);
    assert PageOk(t.buddy, p, t.pages[p]);
    SlotDecodes(t.buddy, p, t.pages[p], i);
  }

  lemma SlotUndone(h: Header)
    requires FirstZero(h.info) < |h.info|
    ensures var g, i := TakeSlot(h), FirstZero(h.info);
            g.(used := g.used - 1, info := g.info[i := 0]) == h
  {
    var i := FirstZero(h.info);
    assert h.info[i := 1][i := 0] == h.info;
  }

  /** Freeing slot i of page p, which keeps other objects, puts back the header h. */
  lemma PutBack(s: Heap, t: Heap, p: int, h: Header, i: int)
    requires p in s.pages && p in t.pages && s.pages[p] == h && t == s.(pages := s.pages[p := t.pages[p]])
    requires t.pages[p].used != 1 && t.pages[p].total >= 0 && t.pages[p].size > 0 && 0 <= i < |t.pages[p].info|
    requires var g := t.pages[p]; g.(used := g.used - 1, info := g.info[i := 0]) == h
    requires var a := SlotAddr(p, t.pages[p], i);
             a / PAGE == p && CanFree(t, a) && SlotOf(t.pages[p], a) == i
    ensures FreeAt(t, SlotAddr(p, t.pages[p], i)) == s
  {
    assert s.pages[p := t.pages[p]][p := h] == s.pages;
  }

  lemma UndoSlot(s: Heap, t: Heap, p: int, a: int)
    requires HeapOk(s) && HeapOk(t) && p in s.pages && FirstZero(s.pages[p].info) < |s.pages[p].info|
    requires s.pages[p].total >= 0 && a == SlotAddr(p, s.pages[p], FirstZero(s.pages[p].info))
    requires t == s.(pages := s.pages[p := TakeSlot(s.pages[p])])
    ensures CanFree(t, a) && FreeAt(t, a) == s
  {
    var h := s.pages[p];
    assert PageOk(t.buddy, p, t.pages[p]) && PageOk(s.buddy, p, h);
    SlotDecodes(t.buddy, p, t.pages[p], FirstZero(h.info));
    SlotUndone(h);
    PutBack(s, t, p, h, FirstZero(h.info));
  }

  lemma UndoInPage(s: Heap, size: nat, p: int)
    requires HeapOk(s) && size <= 0x2_0000 && p == FindPage(s.chain, s.pages, ClassSize(size)) && p != -1
    ensures CanMalloc(s, size)
    ensures var r := Malloc(s, size); CanFree(r.0, r.1) && FreeAt(r.0, r.1) == s
  {
    MallocInPage(s, size, p);
    var (t, a) := Malloc(s, size);
    UndoSlot(s, t, p, a);
  }

  /** Freeing the one object of page q, listed in front, gives the page back. */
  lemma GiveBack(s: Heap, t: Heap, q: int, h: Header, a: int)
    requires Shaped(t.buddy) && IsHead(t.buddy.frame, q) && Free(t.buddy, q) == s.buddy
    requires t.chain == [q] + s.chain && t.pages == s.pages[q := h] && h.used == 1
    requires q !in s.pages && q !in s.chain && Distinct(s.chain)
    requires a / PAGE == q && CanFree(t, a)
    ensures FreeAt(t, a) == s
  {
    WithoutDistinct(s.chain, q);
    assert ([q] + s.chain)[1..] == s.chain;
    assert s.pages[q := h] - {q} == s.pages;
  }

  lemma UndoNewPage(s: Heap, size: nat)
    requires HeapOk(s) && size <= 0x2_0000 && FindPage(s.chain, s.pages, ClassSize(size)) == -1
    requires CanMalloc(s, size)
    ensures var r := Malloc(s, size); CanFree(r.0, r.1) && FreeAt(r.0, r.1) == s
  {
    MallocNewPage(s, size);
    var k := OrderFor(ClassSize(size));
    var q := Allocated(s.buddy, k);
    var (t, a) := Malloc(s, size);
    assert PageOk(t.buddy, q, t.pages[q]);
    SlotDecodes(t.buddy, q, t.pages[q], 0);
    ExactUndo(s.buddy, k);
    GiveBack(s, t, q, t.pages[q], a);
  }

  /** Exact undo: freeing what was just allocated restores the heap, pages, pool
      list and map included. */
  lemma MallocUndone(s: Heap, size: nat)
    requires HeapOk(s) && size <= 0x2_0000 && CanMalloc(s, size)
    ensures var r := Malloc(s, size); CanFree(r.0, r.1) && FreeAt(r.0, r.1) == s
  {
    var p := FindPage(s.chain, s.pages, ClassSize(size));
    if p != -1 {
      UndoInPage(s, size, p);
    } else {
      UndoNewPage(s, size);
    }
  }

  // ---------------------------------------------- objects, metadata and runs

  /** Bytes lo .. hi-1. */
  datatype Span = Span(lo: int, hi: int)

  predicate Clear(a: Span, b: Span) {
    a.hi <= b.lo || b.hi <= a.lo
  }

  /** The bytes a live object may use. */
  ghost function Object(s: Heap, p: int, i: int): Span
    requires Live(s, p, i) && s.pages[p].total >= 0
  {
    var a := SlotAddr(p, s.pages[p], i);
    Span(a, a + Room(s.pages[p]))
  }

  /** An object lies in the block of its page, past the header and the map. */
  lemma ObjectInBlock(s: Heap, p: int, i: int)
    requires HeapOk(s) && Live(s, p, i)
    ensures s.pages[p].total >= 0 && 0 <= p < |s.buddy.frame| - 1
    ensures var o := Object(s, p, i);
            PAGE * p + HEADER + s.pages[p].total <= o.lo && o.hi <= PAGE * (p + Pow2(s.buddy.frame[p].index))
  {
    var h := s.pages[p];
    assert PageOk(s.buddy, p, h);
    SlotInPage(s.buddy, p, h, i);
    ClassOrder(h.size);
    assert Pow2(0) == 1;
  }

  lemma SlotsApart(s: Heap, p: int, i: int, j: int)
    requires HeapOk(s) && Live(s, p, i) && Live(s, p, j) && i < j
    ensures s.pages[p].total >= 0 && Object(s, p, i).hi <= Object(s, p, j).lo
  {
    var h := s.pages[p];
    assert PageOk(s.buddy, p, h);
    TimesOrder(i, j, h.size);
    assert h.total > 0;
    assert Object(s, p, i).hi == PAGE * p + HEADER + Align8(h.total) + h.size * i + h.size;
  }

  lemma BlocksClear(s: Heap, p: int, i: int, q: int, j: int)
    requires HeapOk(s) && Live(s, p, i) && Live(s, q, j) && p < q
    ensures s.pages[p].total >= 0 && s.pages[q].total >= 0 && Object(s, p, i).hi <= Object(s, q, j).lo
  {
    ObjectInBlock(s, p, i);
    ObjectInBlock(s, q, j);
    assert PageOk(s.buddy, p, s.pages[p]) && PageOk(s.buddy, q, s.pages[q]);
    BlocksApart(s.buddy.frame, p, q);
  }

  /** Distinct live objects are disjoint. */
  lemma LiveDisjoint(s: Heap, p: int, i: int, q: int, j: int)
    requires HeapOk(s) && Live(s, p, i) && Live(s, q, j) && !(p == q && i == j)
    ensures s.pages[p].total >= 0 && s.pages[q].total >= 0
    ensures Clear(Object(s, p, i), Object(s, q, j))
  {
    if p < q {
      BlocksClear(s, p, i, q, j);
    } else if q < p {
      BlocksClear(s, q, j, p, i);
    } else if i < j {
      SlotsApart(s, p, i, j);
    } else {
      SlotsApart(s, p, j, i);
    }
  }

  // The bytes of allocator metadata: the header of a pool page, a byte of its
  // map, and the page_item in the tail of a free page

  function HeaderSpan(p: int): Span { Span(PAGE * p, PAGE * p + HEADER) }

  function MapSpan(p: int, i: int): Span { Span(PAGE * p + HEADER + i, PAGE * p + HEADER + i + 1) }

  function ItemSpan(p: int): Span { Span(PAGE * p + PAGE - 24, PAGE * p + PAGE) }

  /** Writing these bytes touches no live object. */
  ghost predicate Harmless(s: Heap, w: Span) {
    forall q, j {:trigger Live(s, q, j)} | Live(s, q, j) && s.pages[q].total >= 0 :: Clear(w, Object(s, q, j))
  }

  /** Bytes of a page outside every pool page's block touch no live object. */
  lemma OutsideHarmless(s: Heap, w: Span, p: int)
    requires HeapOk(s) && 0 <= p < |s.buddy.frame| - 1 && FreePage(s.buddy.frame, p)
    requires PAGE * p <= w.lo <= w.hi <= PAGE * p + PAGE
    ensures Harmless(s, w)
  {
    forall q, j {:trigger Live(s, q, j)} | Live(s, q, j) && s.pages[q].total >= 0 ensures Clear(w, Object(s, q, j)) {
      ObjectInBlock(s, q, j);
      assert PageOk(s.buddy, q, s.pages[q]);
      assert HeadOk(s.buddy.frame, q);
    }
  }

  /** The header and map of a pool page touch no live object. */
  lemma MetadataHarmless(s: Heap, p: int, w: Span)
    requires HeapOk(s) && p in s.pages
    requires PAGE * p <= w.lo <= w.hi <= PAGE * p + HEADER + s.pages[p].total
    ensures Harmless(s, w)
  {
    assert PageOk(s.buddy, p, s.pages[p]);
    forall q, j {:trigger Live(s, q, j)} | Live(s, q, j) && s.pages[q].total >= 0 ensures Clear(w, Object(s, q, j)) {
      ObjectInBlock(s, q, j);
      assert PageOk(s.buddy, q, s.pages[q]);
      if SmallClass(s.pages[p].size) {
        SlotsFit(s.pages[p].size);
      }
      assert w.hi <= PAGE * p + PAGE;
      if p < q {
      } else if q < p {
        BlocksApart(s.buddy.frame, q, p);
      }
    }
  }

  // -------------------------------------------------------------------- runs

  datatype HeapOp = RequestOp(size: nat) | ReturnOp(addr: int)

  /** A heap and the objects a run holds: the size asked for at each address. */
  datatype Client = Client(heap: Heap, held: map<int, nat>)

  /** Requests are within the limit and can be met; only held objects are freed. */
  ghost predicate OpEnabled(r: Client, op: HeapOp) {
    Linked(r.heap) &&
    match op
    case RequestOp(size) => size <= 0x2_0000 && CanMalloc(r.heap, size)
    case ReturnOp(addr) => addr in r.held && CanFree(r.heap, addr)
  }

  ghost function OpStep(r: Client, op: HeapOp): (t: Client)
    requires OpEnabled(r, op)
  {
    match op
    case RequestOp(size) => var (h, a) := Malloc(r.heap, size); Client(h, r.held[a := size])
    case ReturnOp(addr) => Client(FreeAt(r.heap, addr), r.held - {addr})
  }

  /** The slot at address a, if there is one that holds a live object. */
  ghost predicate LiveAt(s: Heap, a: int) {
    var p := a / PAGE;
    p in s.pages && s.pages[p].total >= 0 && s.pages[p].size > 0 &&
    Live(s, p, SlotOf(s.pages[p], a)) && a == SlotAddr(p, s.pages[p], SlotOf(s.pages[p], a))
  }

  /** What is held at an address is a live object with room for what was asked. */
  ghost predicate HeldAt(s: Heap, held: map<int, nat>, a: int) {
    a in held ==> LiveAt(s, a) && held[a] <= Room(s.pages[a / PAGE])
  }

  /** A live object is held. */
  ghost predicate IsHeld(s: Heap, held: map<int, nat>, p: int, i: int) {
    Live(s, p, i) && s.pages[p].total >= 0 ==> SlotAddr(p, s.pages[p], i) in held
  }

  /** The live objects are exactly those held, with room for what was asked. */
  ghost predicate Holds(r: Client) {
    HeapOk(r.heap) &&
    (forall a {:trigger a in r.held} | a in r.held :: HeldAt(r.heap, r.held, a)) &&
    forall p, i {:trigger Live(r.heap, p, i)} | Live(r.heap, p, i) :: IsHeld(r.heap, r.held, p, i)
  }

  /** A run starts, after `page_init`, with an empty pool and nothing held. */
  lemma BootHolds(buddy: State)
    requires Inv(buddy)
    ensures Holds(Client(Heap(buddy, [], map[]), map[]))
  {
  }

  lemma LiveIsLiveAt(s: Heap, p: int, i: int)
    requires HeapOk(s) && Live(s, p, i)
    ensures s.pages[p].total >= 0 && s.pages[p].size > 0
    ensures var a := SlotAddr(p, s.pages[p], i); LiveAt(s, a) && a / PAGE == p && SlotOf(s.pages[p], a) == i
  {
    assert PageOk(s.buddy, p, s.pages[p]);
    SlotDecodes(s.buddy, p, s.pages[p], i);
  }

  /** Pages that stay keep their class, so addresses keep their meaning. */
  ghost predicate SameClasses(s: Heap, t: Heap) {
    forall p {:trigger p in s.pages} {:trigger p in t.pages} | p in s.pages && p in t.pages ::
      t.pages[p].size == s.pages[p].size && t.pages[p].total == s.pages[p].total &&
      |t.pages[p].info| == |s.pages[p].info|
  }

  /** If from s to t exactly one object is added, addresses agree about it. */
  lemma AddsAt(s: Heap, t: Heap, p: int, i: int, a: int)
    requires HeapOk(s) && HeapOk(t) && Adds(s, t, p, i) && SameClasses(s, t)
    ensures t.pages[p].total >= 0
    ensures LiveAt(t, a) <==> LiveAt(s, a) || a == SlotAddr(p, t.pages[p], i)
    ensures LiveAt(s, a) ==> a != SlotAddr(p, t.pages[p], i) && Room(t.pages[a / PAGE]) == Room(s.pages[a / PAGE])
  {
    LiveIsLiveAt(t, p, i);
    var q := a / PAGE;
    if LiveAt(s, a) {
      assert Live(t, q, SlotOf(s.pages[q], a));
    }
    if LiveAt(t, a) && a != SlotAddr(p, t.pages[p], i) {
      assert Live(s, q, SlotOf(t.pages[q], a));
    }
  }

  lemma HeldAfterAdd(s: Heap, t: Heap, p: int, i: int, held: map<int, nat>, size: nat, x: int, a: int)
    requires HeapOk(s) && HeapOk(t) && Adds(s, t, p, i) && SameClasses(s, t)
    requires t.pages[p].total >= 0 && Room(t.pages[p]) >= size && x == SlotAddr(p, t.pages[p], i)
    requires HeldAt(s, held, a)
    ensures HeldAt(t, held[x := size], a)
  {
    AddsAt(s, t, p, i, a);
    LiveIsLiveAt(t, p, i);
  }

  lemma LiveAfterAdd(s: Heap, t: Heap, p: int, i: int, held: map<int, nat>, size: nat, x: int, q: int, j: int)
    requires HeapOk(s) && HeapOk(t) && Adds(s, t, p, i) && SameClasses(s, t)
    requires t.pages[p].total >= 0 && x == SlotAddr(p, t.pages[p], i)
    requires Live(s, q, j) ==> IsHeld(s, held, q, j)
    ensures IsHeld(t, held[x := size], q, j)
  {
  }

  /** One more live object is one more held. */
  lemma AddedHolds(s: Heap, t: Heap, p: int, i: int, held: map<int, nat>, size: nat, x: int)
    requires Holds(Client(s, held)) && HeapOk(t) && Adds(s, t, p, i) && SameClasses(s, t)
    requires t.pages[p].total >= 0 && Room(t.pages[p]) >= size && x == SlotAddr(p, t.pages[p], i)
    ensures Holds(Client(t, held[x := size]))
  {
    var now := held[x := size];
    forall a {:trigger a in now} | a in now ensures HeldAt(t, now, a) {
      HeldAfterAdd(s, t, p, i, held, size, x, a);
    }
    forall q, j {:trigger Live(t, q, j)} | Live(t, q, j) ensures IsHeld(t, now, q, j) {
      LiveAfterAdd(s, t, p, i, held, size, x, q, j);
    }
  }

  lemma MallocClasses(s: Heap, size: nat)
    requires HeapOk(s) && size <= 0x2_0000 && CanMalloc(s, size)
    ensures SameClasses(s, Malloc(s, size).0)
  {
    var p := FindPage(s.chain, s.pages, ClassSize(size));
    if p == -1 {
      MallocNewPage(s, size);
    }
  }

  lemma RequestStep(r: Client, size: nat)
    requires Holds(r) && OpEnabled(r, RequestOp(size))
    ensures Holds(OpStep(r, RequestOp(size)))
  {
    var p, i := MallocAdds(r.heap, size);
    MallocClasses(r.heap, size);
    var (t, x) := Malloc(r.heap, size);
    AddedHolds(r.heap, t, p, i, r.held, size, x);
  }

  lemma HeldAfterRemove(s: Heap, t: Heap, p: int, i: int, held: map<int, nat>, x: int, a: int)
    requires HeapOk(s) && HeapOk(t) && Adds(t, s, p, i) && SameClasses(t, s)
    requires s.pages[p].total >= 0 && x == SlotAddr(p, s.pages[p], i) && HeldAt(s, held, a)
    ensures HeldAt(t, held - {x}, a)
  {
    AddsAt(t, s, p, i, a);
  }

  lemma LiveAfterRemove(s: Heap, t: Heap, p: int, i: int, held: map<int, nat>, x: int, q: int, j: int)
    requires HeapOk(s) && HeapOk(t) && Adds(t, s, p, i) && SameClasses(t, s)
    requires s.pages[p].total >= 0 && x == SlotAddr(p, s.pages[p], i) && Live(t, q, j)
    requires Live(s, q, j) ==> IsHeld(s, held, q, j)
    ensures IsHeld(t, held - {x}, q, j)
  {
    LiveIsLiveAt(t, q, j);
    AddsAt(t, s, p, i, SlotAddr(q, t.pages[q], j));
  }

  /** One live object less is one less held. */
  lemma RemovedHolds(s: Heap, t: Heap, p: int, i: int, held: map<int, nat>, x: int)
    requires Holds(Client(s, held)) && HeapOk(t) && Adds(t, s, p, i) && SameClasses(t, s)
    requires s.pages[p].total >= 0 && x == SlotAddr(p, s.pages[p], i)
    ensures Holds(Client(t, held - {x}))
  {
    var now := held - {x};
    forall a {:trigger a in now} | a in now ensures HeldAt(t, now, a) {
      HeldAfterRemove(s, t, p, i, held, x, a);
    }
    forall q, j {:trigger Live(t, q, j)} | Live(t, q, j) ensures IsHeld(t, now, q, j) {
      LiveAfterRemove(s, t, p, i, held, x, q, j);
    }
  }

  lemma ReleaseStep(r: Client, addr: int)
    requires Holds(r) && OpEnabled(r, ReturnOp(addr))
    ensures Holds(OpStep(r, ReturnOp(addr)))
  {
    var p := addr / PAGE;
    assert HeldAt(r.heap, r.held, addr);
    var i := SlotOf(r.heap.pages[p], addr);
    FreeRemoves(r.heap, p, i);
    RemovedHolds(r.heap, FreeAt(r.heap, addr), p, i, r.held, addr);
  }

  ghost predicate OpsEnabled(r: Client, ops: seq<HeapOp>)
    decreases |ops|
  {
    ops != [] ==> OpEnabled(r, ops[0]) && OpsEnabled(OpStep(r, ops[0]), ops[1..])
  }

  ghost function AfterOps(r: Client, ops: seq<HeapOp>): Client
    requires OpsEnabled(r, ops)
    decreases |ops|
  {
    if ops == [] then r else AfterOps(OpStep(r, ops[0]), ops[1..])
  }

  /** Over every run of `malloc_` and `free` on held objects the live objects are
      exactly those held. */
  lemma {:induction false} RunHolds(r: Client, ops: seq<HeapOp>)
    requires Holds(r) && OpsEnabled(r, ops)
    ensures Holds(AfterOps(r, ops))
    decreases |ops|
  {
    if ops != [] {
      match ops[0] {
        case RequestOp(size) => RequestStep(r, size);
        case ReturnOp(addr) => ReleaseStep(r, addr);
      }
      RunHolds(OpStep(r, ops[0]), ops[1..]);
    }
  }

  /** So in every state of every run the objects held are as large as was asked
      and pairwise disjoint. */
  lemma RunDisjoint(r: Client, ops: seq<HeapOp>, a: int, b: int)
    requires Holds(r) && OpsEnabled(r, ops)
    requires var held := AfterOps(r, ops).held; a in held && b in held && a != b
    ensures var held := AfterOps(r, ops).held; Clear(Span(a, a + held[a]), Span(b, b + held[b]))
  {
    RunHolds(r, ops);
    var s, held := AfterOps(r, ops).heap, AfterOps(r, ops).held;
    var p, q := a / PAGE, b / PAGE;
    assert HeldAt(s, held, a) && HeldAt(s, held, b);
    LiveDisjoint(s, p, SlotOf(s.pages[p], a), q, SlotOf(s.pages[q], b));
  }

  // ------------------------------------------- metadata written by each call

  /** Opening a page writes into pages that were free: their items, the new
      header and the new map. */
  lemma OpenHarmless(s: Heap, size: nat, w: Span)
    requires HeapOk(s) && size <= 0x2_0000 && CanMalloc(s, size)
    requires FindPage(s.chain, s.pages, ClassSize(size)) == -1
    requires var q := Allocated(s.buddy, OrderFor(ClassSize(size))); var h := NewHeader(ClassSize(size));
             w == HeaderSpan(q) || exists i :: 0 <= i < |h.info| && w == MapSpan(q, i)
    ensures Harmless(s, w)
  {
    var c := ClassSize(size);
    ClassHolds(size);
    ClassOrder(c);
    var k := OrderFor(c);
    var q := Allocated(s.buddy, k);
    AllocateUses(s.buddy, k);
    assert PageUsed(s.buddy.frame, Allocate(s.buddy, k).frame, q, k, q);
    if SmallClass(c) { SlotsFit(c); }
    OutsideHarmless(s, w, q);
  }

  ghost function Items(pages: set<int>): set<Span> {
    set p | p in pages :: ItemSpan(p)
  }

  ghost function Maps(p: int, h: Header): set<Span> {
    set i | 0 <= i < |h.info| :: MapSpan(p, i)
  }

  /** The items of free pages touch no live object. */
  lemma ItemsHarmless(s: Heap, pages: set<int>, w: Span)
    requires HeapOk(s) && w in Items(pages) && forall p | p in pages :: FreePage(s.buddy.frame, p)
    ensures Harmless(s, w)
  {
    var p :| p in pages && w == ItemSpan(p);
    OutsideHarmless(s, w, p);
  }

  /** What `malloc_` writes when it opens a page touches no live object. */
  lemma OpenWritesHarmless(s: Heap, size: nat, pages: set<int>, w: Span)
    requires HeapOk(s) && size <= 0x2_0000 && CanMalloc(s, size)
    requires FindPage(s.chain, s.pages, ClassSize(size)) == -1
    requires forall p | p in pages :: FreePage(s.buddy.frame, p)
    requires var q := Allocated(s.buddy, OrderFor(ClassSize(size)));
             w in Items(pages) + {HeaderSpan(q)} + Maps(q, NewHeader(ClassSize(size)))
    ensures Harmless(s, w)
  {
    if w in Items(pages) {
      ItemsHarmless(s, pages, w);
    } else {
      OpenHarmless(s, size, w);
    }
  }

  /** What `free` writes when it gives page p back touches no object that remains:
      items of pages now free, and the header before p on the pool list. */
  lemma RemoveWritesHarmless(s: Heap, p: int, pages: set<int>, w: Span)
    requires HeapOk(s) && p in s.pages && IsHead(s.buddy.frame, p) && HeapOk(Removed(s, p))
    requires forall q | q in pages :: FreePage(s.buddy.frame, q) || InBlock(p, s.buddy.frame[p].index, q)
    requires w in Items(pages) || exists q :: q in s.pages && q != p && w == HeaderSpan(q)
    ensures Harmless(Removed(s, p), w)
  {
    var t := Removed(s, p);
    assert PageOk(s.buddy, p, s.pages[p]);
    FreeUses(s.buddy, p);
    if w in Items(pages) {
      forall q | q in pages ensures FreePage(t.buddy.frame, q) {
        assert HeadOk(s.buddy.frame, p);
        assert PageUsed(t.buddy.frame, s.buddy.frame, p, s.buddy.frame[p].index, q);
      }
      ItemsHarmless(t, pages, w);
    } else {
      var q :| q in s.pages && q != p && w == HeaderSpan(q);
      assert PageOk(t.buddy, q, t.pages[q]);
      MetadataHarmless(t, q, w);
    }
  }
}
