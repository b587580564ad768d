/** `page_init` of lib/malloc.c on the memory of this kernel: for which kernel
    images what it reserves leaves an aligned tiling. */
module BootMemory {
  import opened Powers
  import opened Buddy
  import opened BuddyProofs
  import opened BuddyTheorems
  import opened Reserve
  import opened PageInit

  // PAGE_MAX_ENTRY, and the bytes of one `frame_info`
  const PAGES: int := 0x3C000
  const FRAME_INFO_SIZE: int := 8

  const KERNEL_START: int := 0x80000
  const USER_SPACE: int := 0x900000
  const USER_MAX_SIZE: int := 0x500000

  /** The kernel's end and the heap's start, 16-byte aligned, in the same page, and
      so low that the frame array ends below the user programs. */
  predicate Image(kernelEnd: int, heapStart: int) {
    KERNEL_START <= kernelEnd <= heapStart <= 0x700000 && kernelEnd / 0x1000 == heapStart / 0x1000
  }

  /** The ranges `page_init` reserves, in its order: those that the linker fixes,
      the archive, the devicetree, and the space of the user programs. */
  function BootRanges(kernelEnd: int, heapStart: int, cpio: Range, dtb: Range): (r: seq<Range>)
    requires Image(kernelEnd, heapStart)
  {
    LinkedRanges(kernelEnd, heapStart) + [cpio] + [dtb] + [UserSpace()]
  }

  /** The frame array, the spin table, the kernel and its stack. */
  function LinkedRanges(kernelEnd: int, heapStart: int): (r: seq<Range>)
    requires Image(kernelEnd, heapStart)
  {
    [FrameArray(heapStart)] + [Range(0, 0x1000)] + [Range(KERNEL_START, kernelEnd)] +
    [Range(KERNEL_START - 0x2000, KERNEL_START - 0x1000)]
  }

  function UserSpace(): (r: Range) {
    Range(USER_SPACE, USER_SPACE + USER_MAX_SIZE)
  }

  /** The frame array, allocated first, one page after the start of the heap. */
  function FrameArray(heapStart: int): (r: Range)
    requires 0 <= heapStart
  {
    Range(heapStart + 0x1000, heapStart + 0x1000 + PAGES * FRAME_INFO_SIZE)
  }

  // ------------------------------------------------------ the greedy cut

  lemma Pow2To16()
    ensures Pow2(16) == 0x10000 && Pow2(9) == 512 && Pow2(10) == 1024
  {
    assert Pow2(4) == 16;
    assert Pow2(8) == 256;
    assert Pow2(12) == 4096;
  }

  /** A memory of at least 2^16 pages begins with a block of the largest order. */
  lemma FirstBlockLargest(n: nat)
    requires n >= 0x10000
    ensures InitFrame(n)[0] == FrameInfo(MAX_ORDER, 0)
  {
    Pow2To16();
    Log2Unique(n, Order(Blank(n), 0), MAX_ORDER);
    FillUnfold(Blank(n), 0);
    FillLeaves(Started(Blank(n), 0), Pow2(MAX_ORDER));
  }

  /** On it, a range in the first block ends well exactly when it is one page or its
      last page is far enough from the first. */
  lemma FirstFits(s: int, e: int, K: int)
    requires 0 <= s <= e < 0xFFFF && K == MAX_ORDER
    ensures var f := InitFrame(PAGES);
            Reservable(f, s, e) && FreePage(f, e + 1) &&
            (EndFits(f, s, e) <==> s == e || !NearBoundary(s, e, K))
  {
    var f := InitFrame(PAGES);
    Pow2To16();
    InitTiled(PAGES);
    FirstBlockLargest(PAGES);
    WalkDown(f, 0, s);
    EndInsideIff(f, s, e);
  }

  /** `memory_reserve` of pages 1 and 2 lists page 3 under order -1. */
  lemma OvershootSample()
    ensures var f := InitFrame(PAGES); Reservable(f, 1, 2) && !EndFits(f, 1, 2) && !Tiled(Reserve.Reserve(f, 1, 2))
    ensures !ListsBlocks(Reserve.Reserve(InitFrame(PAGES), 1, 2))
  {
    FirstFits(1, 2, MAX_ORDER);
    assert Pow2(1) == 2;
    assert Aligned(2, 1) && 2 - 1 < Pow2(1);
    ReserveTilesIff(InitFrame(PAGES), 1, 2);
    LastLoopIff(InitFrame(PAGES), 1, 2);
  }

  /** The frame array's pages end near a boundary exactly when the page after them
      is a multiple of 512. */
  lemma ArrayNear(s: int, e: int, K: int)
    requires 0 <= s && e == s + 480 && K == MAX_ORDER
    ensures NearBoundary(s, e, K) <==> e % 512 == 0
  {
    Pow2To16();
    if e % 512 == 0 {
      assert Aligned(e, 9) && e - s < Pow2(9);
    }
    if NearBoundary(s, e, K) {
      var k :| 0 <= k < K && Aligned(e, k) && e - s < Pow2(k);
      if k < 9 {
        Pow2Monotone(k, 8);
      }
      AlignedLower(e, k, 9);
    }
  }

  // --------------------------------------------------- one range after another

  /** A tiling of this memory with exactly the pages in `used` in use. */
  ghost predicate Booted(f: Frame, used: set<int>) {
    Tiled(f) && Coalesced(f) && |f| == PAGES + 1 &&
    forall p {:trigger FreePage(f, p)} | 0 <= p < PAGES :: FreePage(f, p) <==> p !in used
  }

  /** The pages from s to e. */
  function Pages(s: int, e: int): (ps: set<int>)
    ensures forall p :: p in ps <==> s <= p <= e
    decreases e - s
  {
    if e < s then {} else Pages(s, e - 1) + {e}
  }

  ghost predicate Unused(used: set<int>, s: int, e: int) {
    0 <= s <= e < PAGES && forall p | s <= p <= e :: p !in used
  }

  lemma NextRange(f: Frame, used: set<int>, s: int, e: int)
    requires Booted(f, used) && Unused(used, s, e) && Reservable(f, s, e) && EndFits(f, s, e)
    ensures Booted(Reserve.Reserve(f, s, e), used + Pages(s, e))
  {
    ReserveReserves(f, s, e);
    var g := Reserve.Reserve(f, s, e);
    forall p {:trigger FreePage(g, p)} | 0 <= p < PAGES ensures FreePage(g, p) <==> p !in used + Pages(s, e) {
      assert PageStep(f, g, s, e + 1, p);
    }
  }

  /** A range that is one page, or ends at an odd page or right before a used one. */
  lemma FitsByParity(f: Frame, used: set<int>, s: int, e: int)
    requires Booted(f, used) && Unused(used, s, e)
    requires s == e || e % 2 == 1 || e + 1 in used
    ensures Reservable(f, s, e) && EndFits(f, s, e)
  {
    if e % 2 == 1 {
      EndParity(f, s, e);
    }
  }

  /** So a kernel that ends in an even page, right before the frame array, is reserved
      up to two stubs. */
  lemma EvenKernelStubs(f: Frame, used: set<int>, k: int)
    requires Booted(f, used) && Unused(used, 0x80, k) && 0x80 < k && k % 2 == 0 && k + 1 in used
    ensures Reservable(f, 0x80, k) && EndFits(f, 0x80, k) && !EndInsideBlock(f, 0x80, k)
    ensures var r := Reserve.Reserve(f, 0x80, k); Tiled(r) && r[k - 1] == FrameInfo(-1, 1) && r[k] == FrameInfo(-1, 1)
  {
    FitsByParity(f, used, 0x80, k);
    EndInsideByParity(f, 0x80, k);
    ReserveTilesIff(f, 0x80, k);
    var m := ReserveOvershoots(f, 0x80, k);
  }

  /** A range that ends inside an aligned block of free pages, and starts no later
      than that block. */
  lemma EndDeepInside(f: Frame, s: int, e: int, c: int, m: int)
    requires Reservable(f, s, e) && 0 <= m <= MAX_ORDER && Aligned(c, m)
    requires s <= c < e < c + Pow2(m) <= |f| - 1
    requires forall p {:trigger FreePage(f, p)} | c <= p < c + Pow2(m) :: FreePage(f, p)
    ensures EndInsideBlock(f, s, e)
  {
    EndInsideIff(f, s, e);
    InLaterBlock(f, c, m, e);
    forall k {:trigger Pow2(k)} | 0 <= k ensures !(Aligned(e, k) && e - s < Pow2(k)) {
      if Aligned(e, k) {
        NotNearInside(c, m, e, k);
      }
    }
  }

  /** Inside an aligned block, a multiple of a power of two is at least that power away
      from the block's first page. */
  lemma NotNearInside(c: int, m: int, e: int, k: int)
    requires 0 <= m && 0 <= k && Aligned(c, m) && Aligned(e, k) && c < e < c + Pow2(m)
    ensures Pow2(k) <= e - c
  {
    if k <= m {
      AlignedLower(c, m, k);
      MultiplesApart(c, e, Pow2(k));
    } else {
      AlignedLower(e, k, m);
      MultiplesApart(c, e, Pow2(m));
    }
  }

  lemma InLaterBlock(f: Frame, c: int, m: int, e: int)
    requires Tiled(f) && Coalesced(f) && 0 <= m <= MAX_ORDER && Aligned(c, m) && 0 <= c < e < c + Pow2(m) <= |f| - 1
    requires forall p {:trigger FreePage(f, p)} | c <= p < c + Pow2(m) :: FreePage(f, p)
    ensures f[e].index < 0
  {
    if f[e].index >= 0 {
      NoFragment(f, c, m, e);
      assert HeadOk(f, e);
      NotNearInside(c, m, e, f[e].index);
      Pow2Monotone(m, f[e].index);
    }
  }

  // ----------------------------------------------------------------- boot

  /** Reserving the given ranges leads from f to g: what fits after them is what fits
      in g. */
  ghost predicate Leads(f: Frame, ranges: seq<Range>, g: Frame) {
    forall rest {:trigger RangesOk(g, rest)} :: RangesOk(f, ranges + rest) <==> RangesOk(g, rest)
  }

  lemma LeadsOn(f: Frame, a: seq<Range>, g: Frame, b: seq<Range>, h: Frame)
    requires Leads(f, a, g) && Leads(g, b, h)
    ensures Leads(f, a + b, h)
  {
    forall rest {:trigger RangesOk(h, rest)} ensures RangesOk(f, (a + b) + rest) <==> RangesOk(h, rest) {
      assert (a + b) + rest == a + (b + rest);
      assert RangesOk(g, b + rest) <==> RangesOk(h, rest);
    }
  }

  lemma OneLeads(f: Frame, r: Range)
    requires Reservable(f, FirstPage(r), LastPage(r)) && EndFits(f, FirstPage(r), LastPage(r))
    ensures Leads(f, [r], Reserve.Reserve(f, FirstPage(r), LastPage(r)))
  {
    var g := Reserve.Reserve(f, FirstPage(r), LastPage(r));
    forall rest {:trigger RangesOk(g, rest)} ensures RangesOk(f, [r] + rest) <==> RangesOk(g, rest) {
      assert ([r] + rest)[1..] == rest;
    }
  }

  /** One more range of free pages that ends well by parity. */
  lemma ParityRange(f: Frame, done: seq<Range>, g: Frame, used: set<int>, r: Range, s: int, e: int) returns (h: Frame)
    requires Leads(f, done, g) && Booted(g, used)
    requires Unused(used, s, e) && FirstPage(r) == s && LastPage(r) == e && (s == e || e % 2 == 1 || e + 1 in used)
    ensures Leads(f, done + [r], h) && Booted(h, used + Pages(s, e))
  {
    FitsByParity(g, used, s, e);
    h := Reserve.Reserve(g, s, e);
    NextRange(g, used, s, e);
    OneLeads(g, r);
    LeadsOn(f, done, g, [r], h);
  }

  /** The last range, that of the user programs. */
  lemma UserRange(f: Frame, used: set<int>, r: Range)
    requires Booted(f, used) && Unused(used, 0x900, 0xFFF) && r == UserSpace()
    ensures exists h :: Leads(f, [r], h)
  {
    Pow2To16();
    assert Reservable(f, 0x900, 0xE00) by {
      assert forall p | 0x900 <= p <= 0xE00 :: FreePage(f, p);
    }
    assert Aligned(0xC00, 10);
    forall p {:trigger FreePage(f, p)} | 0xC00 <= p < 0xC00 + Pow2(10) ensures FreePage(f, p) {
    }
    EndDeepInside(f, 0x900, 0xE00, 0xC00, 10);
    OneLeads(f, r);
  }

  /** The first range, that of the frame array: its end fits unless the kernel ends in
      page 31 of a group of 512. */
  lemma ArrayFits(heapStart: int)
    requires KERNEL_START <= heapStart <= 0x700000
    ensures var s, e := FirstPage(FrameArray(heapStart)), LastPage(FrameArray(heapStart));
            s == heapStart / 0x1000 + 1 && e == heapStart / 0x1000 + 481 && Reservable(InitFrame(PAGES), s, e) &&
            (EndFits(InitFrame(PAGES), s, e) <==> heapStart / 0x1000 % 512 != 31)
  {
    ArrayPages(heapStart);
    EndOfArray(heapStart / 0x1000);
    ArrayFitsAt(heapStart / 0x1000 + 1, heapStart / 0x1000 + 481);
  }

  lemma EndOfArray(k: int)
    ensures (k + 481) % 512 != 0 <==> k % 512 != 31
  {
  }

  lemma ArrayPages(heapStart: int)
    requires 0 <= heapStart
    ensures var r := FrameArray(heapStart);
            FirstPage(r) == heapStart / 0x1000 + 1 && LastPage(r) == heapStart / 0x1000 + 481
  {
  }

  lemma ArrayFitsAt(s: int, e: int)
    requires 0 <= s <= 0x701 && e == s + 480
    ensures Reservable(InitFrame(PAGES), s, e) && (EndFits(InitFrame(PAGES), s, e) <==> e % 512 != 0)
  {
    var K := MAX_ORDER;
    FirstFits(s, e, K);
    ArrayNear(s, e, K);
  }

  lemma ArrayRange(heapStart: int) returns (g: Frame)
    requires KERNEL_START <= heapStart <= 0x700000 && heapStart / 0x1000 % 512 != 31
    ensures Booted(g, Pages(heapStart / 0x1000 + 1, heapStart / 0x1000 + 481))
    ensures Leads(InitFrame(PAGES), [FrameArray(heapStart)], g)
  {
    var f, s, e := InitFrame(PAGES), heapStart / 0x1000 + 1, heapStart / 0x1000 + 481;
    ArrayFits(heapStart);
    InitTiled(PAGES);
    NextRange(f, {}, s, e);
    g := Reserve.Reserve(f, s, e);
    assert {} + Pages(s, e) == Pages(s, e);
    OneLeads(f, FrameArray(heapStart));
  }

  /** Where the boot loader puts the archive and the devicetree: above the user
      programs, apart, and each in one page or up to an odd page. */
  predicate Placed(cpio: Range, dtb: Range) {
    0x1000 <= FirstPage(cpio) <= LastPage(cpio) < PAGES && 0x1000 <= FirstPage(dtb) <= LastPage(dtb) < PAGES &&
    (LastPage(cpio) < FirstPage(dtb) || LastPage(dtb) < FirstPage(cpio)) &&
    (FirstPage(cpio) == LastPage(cpio) || LastPage(cpio) % 2 == 1) &&
    (FirstPage(dtb) == LastPage(dtb) || LastPage(dtb) % 2 == 1)
  }

  /** The pages of the ranges that the linker fixes. */
  function KernelPages(k: int): set<int> {
    Pages(k + 1, k + 481) + Pages(0, 1) + Pages(0x80, k) + Pages(0x7E, 0x7F)
  }

  lemma KernelRanges(kernelEnd: int, heapStart: int) returns (g: Frame)
    requires Image(kernelEnd, heapStart) && kernelEnd / 0x1000 % 512 != 31
    ensures Booted(g, KernelPages(kernelEnd / 0x1000))
    ensures Leads(InitFrame(PAGES), LinkedRanges(kernelEnd, heapStart), g)
  {
    var f, k := InitFrame(PAGES), kernelEnd / 0x1000;
    var done, used := [FrameArray(heapStart)], Pages(k + 1, k + 481);
    g := ArrayRange(heapStart);
    g := ParityRange(f, done, g, used, Range(0, 0x1000), 0, 1);
    done, used := done + [Range(0, 0x1000)], used + Pages(0, 1);
    g := ParityRange(f, done, g, used, Range(KERNEL_START, kernelEnd), 0x80, k);
    done, used := done + [Range(KERNEL_START, kernelEnd)], used + Pages(0x80, k);
    g := ParityRange(f, done, g, used, Range(KERNEL_START - 0x2000, KERNEL_START - 0x1000), 0x7E, 0x7F);
  }

  /** Whatever is reserved after them, the ranges that the linker fixes all fit exactly
      when the kernel does not end in page 31 of a group of 512 pages; then exactly
      their pages are in use. */
  lemma LinkedFitsIff(kernelEnd: int, heapStart: int) returns (g: Frame)
    requires Image(kernelEnd, heapStart)
    ensures kernelEnd / 0x1000 % 512 != 31 ==> Booted(g, KernelPages(kernelEnd / 0x1000))
    ensures forall rest {:trigger RangesOk(g, rest)} ::
              RangesOk(InitFrame(PAGES), LinkedRanges(kernelEnd, heapStart) + rest) <==>
              kernelEnd / 0x1000 % 512 != 31 && RangesOk(g, rest)
  {
    g := InitFrame(PAGES);
    if kernelEnd / 0x1000 % 512 != 31 {
      g := KernelRanges(kernelEnd, heapStart);
    } else {
      ArrayFits(heapStart);
      forall rest ensures !RangesOk(InitFrame(PAGES), LinkedRanges(kernelEnd, heapStart) + rest) {
        assert (LinkedRanges(kernelEnd, heapStart) + rest)[0] == FrameArray(heapStart);
      }
    }
  }

  lemma PlacedRanges(f: Frame, done: seq<Range>, g: Frame, used: set<int>, cpio: Range, dtb: Range) returns (h: Frame)
    requires Leads(f, done, g) && Booted(g, used) && Placed(cpio, dtb) && forall p | p in used :: p < 0x1000
    ensures Leads(f, done + [cpio] + [dtb], h)
    ensures Booted(h, used + Pages(FirstPage(cpio), LastPage(cpio)) + Pages(FirstPage(dtb), LastPage(dtb)))
  {
    h := ParityRange(f, done, g, used, cpio, FirstPage(cpio), LastPage(cpio));
    var more := used + Pages(FirstPage(cpio), LastPage(cpio));
    h := ParityRange(f, done + [cpio], h, more, dtb, FirstPage(dtb), LastPage(dtb));
  }

  lemma BootFits(kernelEnd: int, heapStart: int, cpio: Range, dtb: Range)
    requires Image(kernelEnd, heapStart) && Placed(cpio, dtb) && kernelEnd / 0x1000 % 512 != 31
    ensures RangesOk(InitFrame(PAGES), BootRanges(kernelEnd, heapStart, cpio, dtb))
  {
    var f, done, used := InitFrame(PAGES), LinkedRanges(kernelEnd, heapStart), KernelPages(kernelEnd / 0x1000);
    var g := KernelRanges(kernelEnd, heapStart);
    g := PlacedRanges(f, done, g, used, cpio, dtb);
    UserRange(g, used + Pages(FirstPage(cpio), LastPage(cpio)) + Pages(FirstPage(dtb), LastPage(dtb)), UserSpace());
    var h :| Leads(g, [UserSpace()], h);
    LeadsOn(f, done + [cpio] + [dtb], g, [UserSpace()], h);
    assert RangesOk(h, []);
    assert BootRanges(kernelEnd, heapStart, cpio, dtb) == done + [cpio] + [dtb] + [UserSpace()] + [];
  }

  /** Boot leaves an aligned tiling exactly when the kernel does not end in page 31 of
      a group of 512 pages. */
  lemma BootFitsIff(kernelEnd: int, heapStart: int, cpio: Range, dtb: Range)
    requires Image(kernelEnd, heapStart) && Placed(cpio, dtb)
    ensures RangesOk(InitFrame(PAGES), BootRanges(kernelEnd, heapStart, cpio, dtb)) <==> kernelEnd / 0x1000 % 512 != 31
  {
    if kernelEnd / 0x1000 % 512 != 31 {
      BootFits(kernelEnd, heapStart, cpio, dtb);
    } else {
      ArrayFits(heapStart);
    }
  }
}
