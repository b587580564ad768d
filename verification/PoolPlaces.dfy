/** Where `malloc_` of lib/malloc.c puts an object: on a page of the least class that
    holds it, in the first free slot, and on a new page only when every page of that
    class is full. */
module PoolPlaces {
  import opened Powers
  import opened Buddy
  import opened BuddyProofs
  import opened BuddyTheorems
  import opened Pool
  import opened PoolProofs

  // ---------------------------------------------------------------- the least class

  /** Requests of up to 2048 bytes get the least power of two from 8 up that holds them,
      larger ones the least that is at least twice as large. */
  lemma ClassLeast(size: nat)
    requires size <= 0x2_0000
    ensures var c := ClassSize(size);
            if size <= 2048
            then c in {8, 16, 32, 64, 128, 256, 512, 1024, 2048} && size <= c && (c == 8 || c < 2 * size)
            else c in {0x2000, 0x4000, 0x8000, 0x1_0000, 0x2_0000, 0x4_0000} && 2 * size <= c < 4 * size
  {
    var s := if size < 8 then 8 else size;
    var r := FloorLog2(s - 1);
    ClassHolds(size);
    assert IsLog2(s - 1, r);
    assert Pow2(r + 1) == 2 * Pow2(r);
    if size <= 8 {
      assert Pow2(2) == 4 && Pow2(3) == 8;
      LogIs(7, 2);
    }
  }

  /** No smaller class would do. */
  lemma NoSmallerClass(size: nat, c: int)
    requires size <= 0x2_0000
    ensures size <= 2048 && size <= c && c in {8, 16, 32, 64, 128, 256, 512, 1024, 2048} ==> ClassSize(size) <= c
    ensures size > 2048 && 2 * size <= c && c in {0x2000, 0x4000, 0x8000, 0x1_0000, 0x2_0000, 0x4_0000} ==>
              ClassSize(size) <= c
  {
    ClassLeast(size);
  }

  lemma Quotient(v: int, m: int)
    requires m > 0
    ensures v / m * m <= v < (v / m + 1) * m
  {
    assert v == v / m * m + v % m;
  }

  /** A page has as many slots as its 4048 bytes hold, with a map byte each. */
  lemma SlotsFill(c: int)
    requires c > 0
    ensures SlotCount(c) * (c + 1) <= 4048 < (SlotCount(c) + 1) * (c + 1)
  {
    Quotient(4048, c + 1);
  }

  // ------------------------------------------------------------------- pages with room

  /** Slot i of page p is one of class c that holds no object. */
  predicate FreeSlot(s: Heap, c: int, p: int, i: int) {
    p in s.pages && s.pages[p].size == c && 0 <= i < s.pages[p].total && !Live(s, p, i)
  }

  ghost predicate HasRoom(s: Heap, c: int) {
    exists p, i :: FreeSlot(s, c, p, i)
  }

  lemma {:induction false} NotAllOnes(info: seq<int>, i: int)
    requires 0 <= i < |info| && info[i] != 1
    ensures Ones(info) < |info|
  {
    if i > 0 {
      NotAllOnes(info[1..], i - 1);
    }
  }

  /** The pages that `malloc_` takes for a class are those of the class with a slot free. */
  lemma SuitableIff(s: Heap, p: int, c: int)
    requires HeapOk(s) && p in s.pages && (SmallClass(c) || BigClass(c))
    ensures !Unsuitable(s.pages[p], c) <==> exists i :: FreeSlot(s, c, p, i)
  {
    var h := s.pages[p];
    assert PageOk(s.buddy, p, h);
    if !Unsuitable(h, c) {
      SameClass(h.size, c);
      ZeroExists(h.info);
      assert FreeSlot(s, c, p, FirstZero(h.info));
    }
    if i :| FreeSlot(s, c, p, i) {
      NotAllOnes(h.info, i);
    }
  }

  lemma {:induction false} NoneFound(chain: seq<int>, pages: map<int, Header>, c: int)
    requires (forall j | 0 <= j < |chain| :: chain[j] in pages) && FindPage(chain, pages, c) == -1 && -1 !in chain
    ensures forall p | p in chain :: Unsuitable(pages[p], c)
  {
    if chain != [] {
      NoneFound(chain[1..], pages, c);
      assert chain == [chain[0]] + chain[1..];
    }
  }

  lemma NoPageBelow(s: Heap)
    requires HeapOk(s)
    ensures forall p | p in s.chain :: p >= 0
  {
    forall p | p in s.pages ensures p >= 0 {
      assert PageOk(s.buddy, p, s.pages[p]);
    }
  }

  /** The search finds a page exactly when one of the class has a slot free. */
  lemma FoundIff(s: Heap, c: int)
    requires HeapOk(s) && (SmallClass(c) || BigClass(c))
    ensures var p := FindPage(s.chain, s.pages, c);
            (p != -1 <==> HasRoom(s, c)) && (p != -1 ==> p in s.pages && s.pages[p].size == c)
  {
    var p := FindPage(s.chain, s.pages, c);
    if p != -1 {
      SuitableIff(s, p, c);
    } else {
      NoPageBelow(s);
      NoneFound(s.chain, s.pages, c);
      forall q, i ensures !FreeSlot(s, c, q, i) {
        if q in s.pages {
          SuitableIff(s, q, c);
        }
      }
    }
  }

  // -------------------------------------------------------------------------- placing

  /** The address of slot i on page p of class c, behind the 32 bytes of the header and
      the map of n bytes, rounded up to 8. */
  function AddressOf(p: int, n: int, c: int, i: int): int {
    0x1000 * p + 32 + (n + 7) / 8 * 8 + c * i
  }

  lemma AddressIs(p: int, h: Header, i: int)
    requires h.total >= 0
    ensures SlotAddr(p, h, i) == AddressOf(p, h.total, h.size, i)
  {
  }

  /** While a page of the class has a slot free, the object goes there, to the first one,
      and the page layer does not change. */
  lemma PlacedInRoom(s: Heap, size: nat)
    requires HeapOk(s) && size <= 0x2_0000 && HasRoom(s, ClassSize(size))
    ensures CanMalloc(s, size)
    ensures var (t, a) := Malloc(s, size); var p := a / 0x1000;
            t.buddy == s.buddy && t.chain == s.chain && p in s.pages && s.pages[p].size == ClassSize(size) &&
            exists i :: FreeSlot(s, ClassSize(size), p, i) && (forall j | 0 <= j < i :: Live(s, p, j)) &&
                        a == AddressOf(p, s.pages[p].total, s.pages[p].size, i)
  {
    ClassHolds(size);
    var c := ClassSize(size);
    FoundIff(s, c);
    var p := FindPage(s.chain, s.pages, c);
    var h := s.pages[p];
    MallocInPage(s, size, p);
    var i := FirstZero(h.info);
    assert PageOk(s.buddy, p, h);
    SlotDecodes(s.buddy, p, h, i);
    AddressIs(p, h, i);
    assert FreeSlot(s, c, p, i);
  }

  /** Otherwise it goes to the first slot of a new page of the class, with as many slots
      as fit, which is taken from the free ones. */
  lemma PlacedOnNewPage(s: Heap, size: nat)
    requires HeapOk(s) && size <= 0x2_0000 && CanMalloc(s, size) && !HasRoom(s, ClassSize(size))
    ensures var c := ClassSize(size); var (t, a) := Malloc(s, size); var p := a / 0x1000; var n := 4048 / (c + 1);
            p !in s.pages && FreePage(s.buddy.frame, p) && t.chain == [p] + s.chain && p in t.pages &&
            t.pages == s.pages[p := t.pages[p]] && t.pages[p].size == c && t.pages[p].total == n &&
            a == AddressOf(p, n, c, 0) && t.buddy != s.buddy
  {
    ClassHolds(size);
    var c := ClassSize(size);
    FoundIff(s, c);
    ClassOrder(c);
    MallocNewPage(s, size);
    var k := OrderFor(c);
    var q := Allocated(s.buddy, k);
    var (t, a) := Malloc(s, size);
    assert PageOk(t.buddy, q, t.pages[q]);
    SlotDecodes(t.buddy, q, t.pages[q], 0);
    AddressIs(q, t.pages[q], 0);
    AllocateUses(s.buddy, k);
    assert PageUsed(s.buddy.frame, t.buddy.frame, q, k, q);
  }

  /** So the page layer changes exactly when every page of the least class is full. */
  lemma PageTakenIff(s: Heap, size: nat)
    requires HeapOk(s) && size <= 0x2_0000 && CanMalloc(s, size)
    ensures Malloc(s, size).0.buddy != s.buddy <==> !HasRoom(s, ClassSize(size))
  {
    if HasRoom(s, ClassSize(size)) {
      PlacedInRoom(s, size);
    } else {
      PlacedOnNewPage(s, size);
    }
  }
}
