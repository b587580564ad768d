/** The size-class allocator on top of the pages, `malloc_` and `free` of
    lib/malloc.c, as functions on values: pages with a header, a map of used
    slots and the slots. */
module Pool {
  import opened Powers
  import opened Buddy
  import opened BuddyTheorems

  const PAGE: int := 0x1000
  // aling8(sizeof(pool_header))
  const HEADER: int := 32

  /** A `pool_header` without its link, and the map bytes behind it. A page
      without slots still has one map byte. */
  datatype Header = Header(size: int, total: int, used: int, info: seq<int>)

  /** The page layer, the pool list and the headers of its pages. */
  datatype Heap = Heap(buddy: State, chain: seq<int>, pages: map<int, Header>)

  // -------------------------------------------------------------- operations

  /** The size `malloc_` rounds a request to. */
  ghost function ClassSize(size: nat): (c: int) {
    var s := if size < 8 then 8 else size;
    var c := Pow2(FloorLog2(s - 1) + 1);
    if c > 0x800 then 2 * c else c
  }

  /** The number of slots of a page of a size class. */
  function SlotCount(size: int): (n: int)
    requires size > 0
    ensures n >= 0
  {
    (PAGE - HEADER - 16) / (size + 1)
  }

  function MapLength(total: int): int {
    if total >= 1 then total else 1
  }

  function SlotOffset(h: Header, i: int): int
    requires h.total >= 0
  {
    HEADER + Align8(h.total) + h.size * i
  }

  function SlotAddr(p: int, h: Header, i: int): int
    requires h.total >= 0
  {
    PAGE * p + SlotOffset(h, i)
  }

  /** The test by which `malloc_` passes a page over. */
  predicate Unsuitable(h: Header, size: int) {
    h.size < size || h.size >= 2 * size || h.used >= h.total
  }

  /** The first suitable page of the pool list, or -1. */
  function FindPage(chain: seq<int>, pages: map<int, Header>, size: int): (p: int)
    requires forall j | 0 <= j < |chain| :: chain[j] in pages
    ensures p != -1 ==> p in chain && p in pages && !Unsuitable(pages[p], size)
  {
    if chain == [] then -1
    else if Unsuitable(pages[chain[0]], size) then FindPage(chain[1..], pages, size)
    else chain[0]
  }

  function FirstZero(info: seq<int>): (i: int)
    ensures 0 <= i <= |info|
    ensures i < |info| ==> info[i] == 0
    ensures forall j | 0 <= j < i :: info[j] != 0
  {
    if info == [] || info[0] == 0 then 0 else 1 + FirstZero(info[1..])
  }

  function TakeSlot(h: Header): (g: Header)
    requires FirstZero(h.info) < |h.info|
  {
    h.(used := h.used + 1, info := h.info[FirstZero(h.info) := 1])
  }

  function NewHeader(size: int): (h: Header)
    requires size > 0
    ensures h.total >= 0
  {
    var total := SlotCount(size);
    Header(size, total, 1, [1] + seq(MapLength(total) - 1, _ => 0))
  }

  predicate Linked(s: Heap) {
    Shaped(s.buddy) && (forall j | 0 <= j < |s.chain| :: s.chain[j] in s.pages) &&
    forall p | p in s.pages :: p in s.chain
  }

  /** A request can be met: a page of the class has room, or a page can be had. */
  ghost predicate CanMalloc(s: Heap, size: nat)
    requires Linked(s)
  {
    var c := ClassSize(size);
    var p := FindPage(s.chain, s.pages, c);
    if p != -1 then FirstZero(s.pages[p].info) < |s.pages[p].info| && s.pages[p].total >= 0
    else c > 0 && 0 <= OrderFor(c) <= MAX_ORDER && CanAllocate(s.buddy.lists, OrderFor(c))
  }

  /** `malloc_`: the heap after it, and the address it returns. */
  ghost function Malloc(s: Heap, size: nat): (r: (Heap, int))
    requires Linked(s) && CanMalloc(s, size)
  {
    var c := ClassSize(size);
    var p := FindPage(s.chain, s.pages, c);
    if p != -1 then
      var h := s.pages[p];
      (s.(pages := s.pages[p := TakeSlot(h)]), SlotAddr(p, h, FirstZero(h.info)))
    else
      var k := OrderFor(c);
      var q := Allocated(s.buddy, k);
      var h := NewHeader(c);
      (Heap(Allocate(s.buddy, k), [q] + s.chain, s.pages[q := h]), SlotAddr(q, h, 0))
  }

  /** The slot that `free` computes from an address. */
  function SlotOf(h: Header, addr: int): int
    requires h.total >= 0 && h.size > 0
  {
    (addr % PAGE - Align8(h.total) - HEADER) / h.size
  }

  predicate CanFree(s: Heap, addr: int) {
    Linked(s) &&
    var p := addr / PAGE;
    p in s.pages && var h := s.pages[p];
    h.total >= 0 && h.size > 0 && 0 <= SlotOf(h, addr) < |h.info| && IsHead(s.buddy.frame, p)
  }

  /** The heap without pool page p, given back to the page layer (`remove_page`). */
  function Removed(s: Heap, p: int): (t: Heap)
    requires Shaped(s.buddy) && IsHead(s.buddy.frame, p)
  {
    Heap(Free(s.buddy, p), Without(s.chain, p), s.pages - {p})
  }

  /** `free`. */
  function FreeAt(s: Heap, addr: int): (t: Heap)
    requires CanFree(s, addr)
  {
    var p := addr / PAGE;
    var h := s.pages[p];
    if h.used != 1 then
      s.(pages := s.pages[p := h.(used := h.used - 1, info := h.info[SlotOf(h, addr) := 0])])
    else
      Removed(s, p)
  }

  // --------------------------------------------------------------- invariant

  function Ones(info: seq<int>): (n: int)
    ensures 0 <= n <= |info|
  {
    if info == [] then 0 else (if info[0] == 1 then 1 else 0) + Ones(info[1..])
  }

  predicate SmallClass(c: int) {
    c in {8, 16, 32, 64, 128, 256, 512, 1024, 2048}
  }

  predicate BigClass(c: int) {
    c in {0x2000, 0x4000, 0x8000, 0x10000, 0x20000, 0x40000}
  }

  /** The header of page p: its class and slot count, `used` the number of ones
      in the map, and the page in use as a block of the right order. */
  ghost predicate PageOk(s: State, p: int, h: Header) {
    (SmallClass(h.size) || BigClass(h.size)) && h.total == SlotCount(h.size) &&
    |h.info| == MapLength(h.total) && h.used == Ones(h.info) && h.used >= 1 &&
    (forall i | 0 <= i < |h.info| :: h.info[i] == 0 || h.info[i] == 1) &&
    IsHead(s.frame, p) && s.frame[p] == FrameInfo(OrderFor(h.size), 1)
  }

  ghost predicate HeapOk(s: Heap) {
    Inv(s.buddy) && Linked(s) && Distinct(s.chain) &&
    forall p {:trigger PageOk(s.buddy, p, s.pages[p])} | p in s.pages :: PageOk(s.buddy, p, s.pages[p])
  }

  /** Slot i of page p holds a live object. */
  predicate Live(s: Heap, p: int, i: int) {
    p in s.pages && 0 <= i < |s.pages[p].info| && s.pages[p].info[i] == 1
  }

  /** The bytes from the start of a slot that an object in it may use. */
  ghost function Room(h: Header): int {
    if h.total > 0 || h.size < 0 then h.size else PAGE * Pow2(OrderFor(h.size)) - HEADER
  }
}
