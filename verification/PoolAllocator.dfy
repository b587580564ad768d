/** `malloc_` and `free` of lib/malloc.c in place: headers and maps in the pool's
    pages, linked in a list, over the page allocator. */
module PoolAllocation {
  import opened Common
  import opened Powers
  import opened Buddy
  import opened BuddyProofs
  import opened BuddyTheorems
  import opened FreeLists
  import opened Sequences
  import opened PageAllocation
  import opened Pool
  import opened PoolProofs

  /** Of page p, from the header h and link l to g and m, only bytes in the spans
      changed: the fields of the header, and bytes of the map behind it. */
  ghost predicate OnlySpans(p: int, h: Header, l: int, g: Header, m: int, spans: set<Span>) {
    (HeaderSpan(p) !in spans ==> g.size == h.size && g.total == h.total && g.used == h.used && m == l) &&
    forall i {:trigger MapSpan(p, i)} | 0 <= i < |g.info| && MapSpan(p, i) !in spans ::
      i < |h.info| && g.info[i] == h.info[i]
  }

  /** From headers h and links l to g and m, every byte of a header or a map that
      changed came to the log. */
  ghost predicate PagesFollow(before: set<Span>, h: seq<Header>, l: seq<int>, after: set<Span>, g: seq<Header>,
                              m: seq<int>) {
    before <= after && |h| == |l| == |g| == |m| &&
    forall p | 0 <= p < |h| :: OnlySpans(p, h[p], l[p], g[p], m[p], after)
  }

  /** One page was written to. */
  lemma PageWritten(before: set<Span>, h: seq<Header>, l: seq<int>, after: set<Span>, g: seq<Header>, m: seq<int>,
                    p: int)
    requires before <= after && |h| == |l| && 0 <= p < |h| && |g| == |m| == |h|
    requires g == h[p := g[p]] && m == l[p := m[p]] && OnlySpans(p, h[p], l[p], g[p], m[p], after)
    ensures PagesFollow(before, h, l, after, g, m)
  {
    forall q | 0 <= q < |h| ensures OnlySpans(q, h[q], l[q], g[q], m[q], after) {
      if q != p {
        assert g[q] == h[q] && m[q] == l[q];
      }
    }
  }

  /** None was. */
  lemma NoneWritten(before: set<Span>, h: seq<Header>, l: seq<int>, after: set<Span>)
    requires before <= after && |h| == |l|
    ensures PagesFollow(before, h, l, after, h, l)
  {
  }

  /** Two steps of the log are one. */
  lemma PagesTwice(a: set<Span>, h: seq<Header>, b: set<Span>, g: seq<Header>, c: set<Span>, f: seq<Header>,
                   l: seq<int>)
    requires PagesFollow(a, h, l, b, g, l) && PagesFollow(b, g, l, c, f, l)
    ensures PagesFollow(a, h, l, c, f, l)
  {
    forall p | 0 <= p < |h| ensures OnlySpans(p, h[p], l[p], f[p], l[p], c) {
      assert OnlySpans(p, h[p], l[p], g[p], l[p], b) && OnlySpans(p, g[p], l[p], f[p], l[p], c);
    }
  }

  /** Bytes that belong to no live object. */
  ghost predicate AllHarmless(s: Heap, writes: set<Span>) {
    forall w | w in writes :: Harmless(s, w)
  }

  class PoolAllocator {
    const pageLayer: PageAllocator
    // The header at the start of each page, if it is a pool page, and its `next`
    const header: array<Header>
    const link: array<int>
    // The first page of the pool list
    var pool: int

    // The pages of the pool list in order
    ghost var chain: seq<int>
    // The bytes of metadata the last call wrote
    ghost var writes: set<Span>

    ghost predicate Separate() {
      pageLayer.Separate() && header.Length == link.Length == pageLayer.frame.Length - 1 &&
      link != pageLayer.previous && link != pageLayer.next && link != pageLayer.pageList
    }

    ghost predicate Valid()
      reads this, header, link
      reads pageLayer, pageLayer.frame, pageLayer.previous, pageLayer.next, pageLayer.pageList
    {
      Separate() && pageLayer.Valid() && ChainOk(link[..], pool, chain) && HeapOk(Abs())
    }

    ghost function Abs(): (s: Heap)
      reads this, header, link, pageLayer, pageLayer.frame
    {
      Heap(pageLayer.Abs(), chain, Headers(header[..], chain))
    }

    /** Since a state of the log, the headers and the links, every byte of a header or
        a map that changed is logged. */
    ghost predicate PagesLogged(before: set<Span>, h: seq<Header>, l: seq<int>)
      reads this, header, link
    {
      PagesFollow(before, h, l, writes, header[..], link[..])
    }

    /** And so is every item of a page that changed. */
    ghost predicate ItemsLogged(previous: seq<int>, next: seq<int>)
      reads this, pageLayer.previous, pageLayer.next
    {
      |previous| == pageLayer.previous.Length && |next| == pageLayer.next.Length && |previous| == |next| &&
      forall p {:trigger ItemSpan(p)} | 0 <= p < |previous| && ItemSpan(p) !in writes ::
        pageLayer.previous[p] == previous[p] && pageLayer.next[p] == next[p]
    }

    /** An empty pool over the pages that `page_init` set up. */
    constructor (layer: PageAllocator)
      requires layer.Valid() && Inv(layer.Abs())
      ensures Valid() && pageLayer == layer && Abs() == Heap(layer.Abs(), [], map[])
    {
      pageLayer := layer;
      header := new Header[layer.frame.Length - 1](_ => Header(0, 0, 0, []));
      link := new int[layer.frame.Length - 1];
      pool := NULL;
      chain := [];
      writes := {};
      new;
      assert Headers(header[..], chain) == map[];
    }

    /** `malloc_`. */
    method Malloc(size: nat) returns (addr: int)
      requires Valid() && size <= 0x2_0000 && CanMalloc(Abs(), size)
      modifies this, header, link
      modifies pageLayer, pageLayer.frame, pageLayer.previous, pageLayer.next, pageLayer.pageList
      ensures Valid() && (Abs(), addr) == Pool.Malloc(old(Abs()), size)
      // no byte of metadata changed but those logged, and they touch no live object
      ensures PagesLogged({}, old(header[..]), old(link[..]))
      ensures ItemsLogged(old(pageLayer.previous[..]), old(pageLayer.next[..]))
      ensures AllHarmless(old(Abs()), writes)
    {
      writes := {};
      var rounded := Round(size);
      var cur := Search(rounded);
      if cur != NULL {
        addr := UseSlot(size, cur);
      } else {
        addr := OpenPage(size, rounded);
      }
    }

    /** The size `malloc_` rounds a request to. */
    static method Round(size: nat) returns (rounded: int)
      requires size <= 0x2_0000
      ensures rounded == ClassSize(size)
    {
      rounded := size;
      if rounded < 8 {
        rounded := 8;
      }
      var level := Log2(rounded - 1);
      level := level + 1;
      ClassHolds(size);
      rounded := Power2(level);
      if rounded > 0x800 {
        rounded := rounded * 2;
      }
    }

    /** The walk of `malloc_` over the pool list. */
    method Search(rounded: int) returns (cur: int)
      requires Valid()
      ensures cur == FindPage(chain, Abs().pages, rounded)
    {
      ghost var s := Abs();
      cur := pool;
      ghost var j := 0;
      while cur != NULL
        invariant 0 <= j <= |chain| && cur == First(chain[j..])
        invariant FindPage(chain[j..], s.pages, rounded) == FindPage(chain, s.pages, rounded)
        decreases |chain| - j
      {
        HeadersAt(header[..], chain, chain[j]);
        SearchOn(chain, s.pages, rounded, j);
        if header[cur].size < rounded || header[cur].size >= 2 * rounded || header[cur].used >= header[cur].total {
          assert link[chain[j]] == if j + 1 < |chain| then chain[j + 1] else NULL;
          cur := link[cur];
          j := j + 1;
        } else {
          return;
        }
      }
    }

    /** `page->used = used`. */
    method SetUsed(page: int, used: int)
      requires Separate() && 0 <= page < header.Length
      modifies this`writes, header
      ensures header[..] == old(header[..])[page := old(header[page]).(used := used)]
      ensures writes == old(writes) + {HeaderSpan(page)} && PagesLogged(old(writes), old(header[..]), link[..])
    {
      writes := writes + {HeaderSpan(page)};
      header[page] := header[page].(used := used);
      PageWritten(old(writes), old(header[..]), link[..], writes, header[..], link[..], page);
    }

    /** Writes one byte of a page's map. */
    method SetMap(page: int, i: int, value: int)
      requires Separate() && 0 <= page < header.Length && 0 <= i < |header[page].info|
      modifies this`writes, header
      ensures header[..] == old(header[..])[page := old(header[page]).(info := old(header[page]).info[i := value])]
      ensures writes == old(writes) + {MapSpan(page, i)} && PagesLogged(old(writes), old(header[..]), link[..])
    {
      writes := writes + {MapSpan(page, i)};
      header[page] := header[page].(info := header[page].info[i := value]);
      PageWritten(old(writes), old(header[..]), link[..], writes, header[..], link[..], page);
    }

    /** The two writes by which an object comes or goes on a page. */
    method SetUsedAndMap(page: int, used: int, i: int, value: int)
      requires Separate() && 0 <= page < header.Length && 0 <= i < |header[page].info|
      modifies this`writes, header
      ensures var h := old(header[page]);
              header[..] == old(header[..])[page := h.(used := used, info := h.info[i := value])]
      ensures writes == old(writes) + {HeaderSpan(page), MapSpan(page, i)}
      ensures PagesLogged(old(writes), old(header[..]), link[..])
    {
      SetUsed(page, used);
      ghost var w, h := writes, header[..];
      SetMap(page, i, value);
      PagesTwice(old(writes), old(header[..]), w, h, writes, header[..], link[..]);
    }

    /** The search of `malloc_` through the map of a page. */
    method FindFree(page: int) returns (i: int)
      requires 0 <= page < header.Length && FirstZero(header[page].info) < |header[page].info| 
      requires FirstZero(header[page].info) < header[page].total
      ensures i == FirstZero(header[page].info)
    {
      i := 0;
      while i < header[page].total
        invariant 0 <= i <= FirstZero(header[page].info)
      {
        if header[page].info[i] == 0 {
          return;
        }
        i := i + 1;
      }
    }

    /** The branch of `malloc_` for a suitable page: it always finds a slot. */
    method UseSlot(ghost size: nat, cur: int) returns (addr: int)
      requires Valid() && size <= 0x2_0000 && writes == {}
      requires cur == FindPage(chain, Abs().pages, ClassSize(size)) && cur != NULL
      modifies this`writes, header
      ensures CanMalloc(old(Abs()), size)
      ensures Valid() && (Abs(), addr) == Pool.Malloc(old(Abs()), size)
      ensures AllHarmless(old(Abs()), writes) && ItemsLogged(pageLayer.previous[..], pageLayer.next[..])
      ensures PagesLogged({}, old(header[..]), old(link[..]))
    {
      SlotReady(Abs(), size, cur);
      addr := MarkSlot(cur, Pool.Malloc(Abs(), size).0);
    }

    method MarkSlot(cur: int, ghost t: Heap) returns (addr: int)
      requires Valid() && cur in chain && HeapOk(t) && writes == {}
      requires CanTake(Abs().pages[cur]) && t == Abs().(pages := Abs().pages[cur := TakeSlot(Abs().pages[cur])])
      modifies this`writes, header
      ensures Valid() && Abs() == t
      ensures addr == SlotAddr(cur, old(Abs().pages[cur]), FirstZero(old(Abs().pages[cur]).info))
      ensures AllHarmless(old(Abs()), writes)
      ensures PagesLogged(old(writes), old(header[..]), old(link[..]))
    {
      ghost var s, h := Abs(), header[cur];
      HeadersAt(header[..], chain, cur);
      assert h == s.pages[cur];
      MetadataHarmless(s, cur, HeaderSpan(cur));
      var i := FindFree(cur);
      MetadataHarmless(s, cur, MapSpan(cur, i));
      SetUsedAndMap(cur, header[cur].used + 1, i, 1);
      assert header[cur] == TakeSlot(h);
      HeadersUpdate(old(header[..]), chain, cur, TakeSlot(h));
      assert Abs() == t;
      addr := PAGE * cur + HEADER + Align8(header[cur].total) + header[cur].size * i;
    }

    /** `open_page`. */
    method OpenPage(ghost request: nat, size: int) returns (addr: int)
      requires Valid() && request <= 0x2_0000 && CanMalloc(Abs(), request) && size == ClassSize(request)
      requires FindPage(chain, Abs().pages, size) == NULL
      modifies this, header, link
      modifies pageLayer, pageLayer.frame, pageLayer.previous, pageLayer.next, pageLayer.pageList
      ensures Valid() && (Abs(), addr) == Pool.Malloc(old(Abs()), request)
      ensures PagesLogged({}, old(header[..]), old(link[..]))
      ensures ItemsLogged(old(pageLayer.previous[..]), old(pageLayer.next[..]))
      ensures AllHarmless(old(Abs()), writes)
    {
      ghost var s := Abs();
      OpenReady(s, request, size);
      var page := pageLayer.PageAllocate(size);
      writes := Items(pageLayer.touched);
      OpenedHarmless(s, request, page, size, pageLayer.touched);
      addr := EnterPage(page, size);
    }

    /** The rest of `open_page`: the header and the map of the page, which joins
        the pool list in front. */
    method EnterPage(page: int, size: int) returns (addr: int)
      requires Separate() && ChainOk(link[..], pool, chain) && 0 <= page < header.Length && page !in chain
      requires SmallClass(size) || BigClass(size)
      modifies this, header, link
      ensures ChainOk(link[..], pool, chain) && chain == [page] + old(chain)
      ensures Headers(header[..], chain) == old(Headers(header[..], chain))[page := NewHeader(size)]
      ensures addr == SlotAddr(page, NewHeader(size), 0)
      ensures writes == old(writes) + {HeaderSpan(page)} + Maps(page, NewHeader(size))
      ensures PagesLogged(old(writes), old(header[..]), old(link[..]))
    {
      ghost var h, l, first := header[..], link[..], pool;
      var total := (PAGE - Align8(HEADER) - 16) / (size + 1);
      header[page] := Header(size, total, 1, header[page].info);
      link[page] := pool;
      pool := page;
      var info: seq<int> := InitMap(total);
      header[page] := header[page].(info := info);
      assert header[..] == h[page := NewHeader(size)] && link[..] == l[page := first];
      writes := writes + {HeaderSpan(page)} + Maps(page, NewHeader(size));
      PageWritten(old(writes), h, l, writes, header[..], link[..], page);
      HeadersPush(h, chain, page, NewHeader(size));
      ChainPush(l, first, chain, page);
      chain := [page] + chain;
      addr := PAGE * page + Align8(HEADER) + Align8(total);
    }

    /** The map of a page opened for `total` slots: the first byte set, and the
        rest of the slots' bytes cleared. */
    method InitMap(total: int) returns (info: seq<int>)
      requires total >= 0
      ensures info == [1] + seq(MapLength(total) - 1, _ => 0)
    {
      // whatever the page held before
      assert |seq(MapLength(total), _ => 0)| == MapLength(total);
      info :| |info| == MapLength(total);
      info := info[0 := 1];
      var i := 1;
      while i < total
        invariant 1 <= i <= MapLength(total) && |info| == MapLength(total)
        invariant info[0] == 1 && forall j | 1 <= j < i :: info[j] == 0
      {
        info := info[i := 0];
        i := i + 1;
      }
    }

    /** `free` of a live object. */
    method FreeObject(addr: int)
      requires Valid() && LiveAt(Abs(), addr)
      modifies this, header, link
      modifies pageLayer, pageLayer.frame, pageLayer.previous, pageLayer.next, pageLayer.pageList
      ensures CanFree(old(Abs()), addr)
      ensures Valid() && Abs() == Pool.FreeAt(old(Abs()), addr)
      // no byte of metadata changed but those logged, and they stay clear of the
      // objects that remain
      ensures PagesLogged({}, old(header[..]), old(link[..]))
      ensures ItemsLogged(old(pageLayer.previous[..]), old(pageLayer.next[..]))
      ensures AllHarmless(Abs(), writes)
    {
      FreeReady(Abs(), addr);
      HeadersAt(header[..], chain, addr / PAGE);
      writes := {};
      var index := addr % PAGE;
      var page := addr / PAGE;
      index := (index - Align8(header[page].total) - Align8(HEADER)) / header[page].size;
      if header[page].used != 1 {
        ClearSlot(addr, page, index);
      } else {
        RemovePage(page);
      }
    }

    /** The branch of `free` for a page that keeps other objects. */
    method ClearSlot(ghost addr: int, page: int, index: int)
      requires Valid() && LiveAt(Abs(), addr) && page == addr / PAGE && writes == {}
      requires index == SlotOf(Abs().pages[page], addr) && Abs().pages[page].used != 1
      modifies this`writes, header
      ensures CanFree(old(Abs()), addr)
      ensures Valid() && Abs() == Pool.FreeAt(old(Abs()), addr)
      ensures PagesLogged({}, old(header[..]), link[..])
      ensures AllHarmless(Abs(), writes)
    {
      ghost var s := Abs();
      FreeReady(s, addr);
      ghost var t := Pool.FreeAt(s, addr);
      HeadersAt(header[..], chain, page);
      SetUsedAndMap(page, header[page].used - 1, index, 0);
      HeadersUpdate(old(header[..]), chain, page, header[page]);
      assert Abs() == t;
      MetadataHarmless(t, page, HeaderSpan(page));
      MetadataHarmless(t, page, MapSpan(page, index));
    }

    /** `remove_page`: takes the page off the pool list and gives it back. */
    method RemovePage(page: int)
      requires Valid() && page in chain && writes == {}
      requires IsHead(Abs().buddy.frame, page) && HeapOk(Removed(Abs(), page))
      modifies this, header, link
      modifies pageLayer, pageLayer.frame, pageLayer.previous, pageLayer.next, pageLayer.pageList
      ensures Valid() && Abs() == Removed(old(Abs()), page)
      ensures PagesLogged({}, old(header[..]), old(link[..]))
      ensures ItemsLogged(old(pageLayer.previous[..]), old(pageLayer.next[..]))
      ensures AllHarmless(Abs(), writes)
    {
      ghost var s := Abs();
      assert PageOk(s.buddy, page, s.pages[page]);
      Unchain(page);
      HeadersLeft(header[..], s.chain, page);
      ReturnPage(page, s);
    }

    /** The end of `remove_page`. */
    method ReturnPage(page: int, ghost s: Heap)
      requires Separate() && pageLayer.Valid() && ChainOk(link[..], pool, chain) && HeapOk(s) && page in s.pages
      requires pageLayer.Abs() == s.buddy && IsHead(s.buddy.frame, page) && s.buddy.frame[page].status == 1
      requires HeapOk(Removed(s, page)) && chain == Without(s.chain, page)
      requires Headers(header[..], chain) == s.pages - {page}
      requires forall w | w in writes :: exists q :: q in s.pages && q != page && w == HeaderSpan(q)
      modifies this`writes, pageLayer, pageLayer.frame, pageLayer.previous, pageLayer.next, pageLayer.pageList
      ensures Valid() && Abs() == Removed(s, page)
      ensures old(writes) <= writes && ItemsLogged(old(pageLayer.previous[..]), old(pageLayer.next[..]))
      ensures AllHarmless(Abs(), writes)
    {
      pageLayer.PageFree(page);
      writes := writes + Items(pageLayer.touched);
      forall w | w in writes ensures Harmless(Removed(s, page), w) {
        RemoveWritesHarmless(s, page, pageLayer.touched, w);
      }
    }

    /** The walk of `remove_page` to the page, and its unlinking. */
    method Unchain(page: int)
      requires Separate() && ChainOk(link[..], pool, chain) && Distinct(chain) && page in chain && writes == {}
      modifies this, link
      ensures ChainOk(link[..], pool, chain) && chain == Without(old(chain), page)
      ensures forall w | w in writes :: exists q :: q in old(chain) && q != page && w == HeaderSpan(q)
      ensures PagesLogged(old(writes), old(header[..]), old(link[..]))
    {
      var cur := pool;
      var pre := NULL;
      ghost var j := 0;
      while cur != page
        invariant 0 <= j < |chain| && page in chain[j..] && cur == chain[j]
        invariant pre == if j == 0 then NULL else chain[j - 1]
        decreases |chain| - j
      {
        assert link[chain[j]] == if j + 1 < |chain| then chain[j + 1] else NULL;
        assert chain[j..] == [chain[j]] + chain[j + 1..];
        pre := cur;
        cur := link[cur];
        j := j + 1;
      }
      if j > 0 {
        DistinctAt(chain, j - 1, j);
      }
      Detach(pre, cur, j);
    }

    /** The unlinking in `remove_page`. */
    method Detach(pre: int, cur: int, ghost j: int)
      requires Separate() && ChainOk(link[..], pool, chain) && Distinct(chain)
      requires 0 <= j < |chain| && cur == chain[j] && pre == if j == 0 then NULL else chain[j - 1]
      modifies this, link
      ensures ChainOk(link[..], pool, chain) && chain == Without(old(chain), cur)
      ensures writes == if pre == NULL then old(writes) else old(writes) + {HeaderSpan(pre)}
      ensures PagesLogged(old(writes), old(header[..]), old(link[..]))
    {
      assert link[chain[j]] == if j + 1 < |chain| then chain[j + 1] else NULL;
      RemoveAtIsWithout(chain, j);
      DetachChain(link[..], pool, chain, j);
      if pre == NULL {
        NoneWritten(writes, header[..], link[..], writes);
        pool := link[cur];
      } else {
        writes := writes + {HeaderSpan(pre)};
        link[pre] := link[cur];
        PageWritten(old(writes), header[..], old(link[..]), writes, header[..], link[..], pre);
      }
      chain := RemoveAt(chain, j);
    }
  }

  lemma LinkAt(link: seq<int>, first: int, chain: seq<int>, j: int)
    requires ChainOk(link, first, chain) && 0 <= j < |chain|
    ensures 0 <= chain[j] < |link| && link[chain[j]] == if j + 1 < |chain| then chain[j + 1] else NULL
  {
  }

  /** The links once the one of the page before place j, if any, leads past it. */
  function PastLinks(link: seq<int>, chain: seq<int>, j: int): (l: seq<int>)
    requires 0 <= j < |chain| && 0 <= chain[j] < |link| && (j > 0 ==> 0 <= chain[j - 1] < |link|)
    ensures |l| == |link|
  {
    if j == 0 then link else link[chain[j - 1] := link[chain[j]]]
  }

  lemma PastAt(link: seq<int>, first: int, chain: seq<int>, j: int, m: int)
    requires ChainOk(link, first, chain) && Distinct(chain) && 0 <= j < |chain| && 0 <= m < |chain| - 1
    ensures 0 <= chain[j] < |link| && (j > 0 ==> 0 <= chain[j - 1] < |link|)
    ensures var x := chain[Skip(j, m)];
            0 <= x < |link| &&
            PastLinks(link, chain, j)[x] == if m + 2 < |chain| then chain[Skip(j, m + 1)] else NULL
  {
    var o := Skip(j, m);
    LinkAt(link, first, chain, j);
    LinkAt(link, first, chain, o);
    if j > 0 {
      LinkAt(link, first, chain, j - 1);
    }
    if j > 0 && o == j - 1 {
      assert m == j - 1 && Skip(j, m + 1) == j + 1;
    } else {
      if j > 0 {
        PlacesApart(chain, o, j - 1);
      }
      assert Skip(j, m + 1) == o + 1;
      assert PastLinks(link, chain, j)[chain[o]] == link[chain[o]];
    }
  }

  lemma PlacesApart(chain: seq<int>, i: int, j: int)
    requires Distinct(chain) && 0 <= i < |chain| && 0 <= j < |chain| && i != j
    ensures chain[i] != chain[j]
  {
    if i < j {
      DistinctAt(chain, i, j);
    } else {
      DistinctAt(chain, j, i);
    }
  }

  lemma DetachChain(link: seq<int>, first: int, chain: seq<int>, j: int)
    requires ChainOk(link, first, chain) && Distinct(chain) && 0 <= j < |chain|
    ensures 0 <= chain[j] < |link| && (j > 0 ==> 0 <= chain[j - 1] < |link|)
    ensures ChainOk(PastLinks(link, chain, j), if j == 0 then link[chain[j]] else first, RemoveAt(chain, j))
  {
    LinkAt(link, first, chain, j);
    var ys := RemoveAt(chain, j);
    var l := PastLinks(link, chain, j);
    forall m {:trigger ys[m]} | 0 <= m < |ys|
      ensures 0 <= ys[m] < |l| && l[ys[m]] == if m + 1 < |ys| then ys[m + 1] else NULL
    {
      PastAt(link, first, chain, j, m);
    }
  }

  /** The links of the pool list. */
  predicate ChainOk(link: seq<int>, first: int, chain: seq<int>) {
    first == First(chain) &&
    (forall j {:trigger chain[j]} | 0 <= j < |chain| :: 0 <= chain[j] < |link|) &&
    forall j {:trigger link[chain[j]]} | 0 <= j < |chain| ::
      link[chain[j]] == if j + 1 < |chain| then chain[j + 1] else NULL
  }

  // ---------------------------------------------------- what the methods rely on

  predicate CanTake(h: Header) {
    FirstZero(h.info) < h.total <= |h.info|
  }

  /** The page that `malloc_` found has a free slot within its total. */
  lemma SlotReady(s: Heap, size: nat, p: int)
    requires HeapOk(s) && size <= 0x2_0000 && p == FindPage(s.chain, s.pages, ClassSize(size)) && p != NULL
    ensures CanMalloc(s, size) && HeapOk(Pool.Malloc(s, size).0) && p in s.chain && p in s.pages
    ensures var h := s.pages[p];
            CanTake(h) &&
            Pool.Malloc(s, size) == (s.(pages := s.pages[p := TakeSlot(h)]), SlotAddr(p, h, FirstZero(h.info)))
  {
    MallocInPage(s, size, p);
    assert PageOk(s.buddy, p, s.pages[p]);
  }

  /** A live object has a slot of a page, which `free` leaves in order. */
  lemma FreeReady(s: Heap, addr: int)
    requires HeapOk(s) && LiveAt(s, addr)
    ensures var p := addr / PAGE;
            p in s.chain && p in s.pages && CanFree(s, addr) && HeapOk(Pool.FreeAt(s, addr)) &&
            SlotOf(s.pages[p], addr) < s.pages[p].total + 1 &&
            (s.pages[p].used != 1 ==> SlotOf(s.pages[p], addr) < s.pages[p].total)
  {
    var p := addr / PAGE;
    FreeRemoves(s, p, SlotOf(s.pages[p], addr));
    assert PageOk(s.buddy, p, s.pages[p]);
    LastOne(s.pages[p].info, SlotOf(s.pages[p], addr));
  }

  /** The walk over the pool list, one page on. */
  lemma SearchOn(chain: seq<int>, pages: map<int, Header>, size: int, j: int)
    requires 0 <= j < |chain| && forall i | 0 <= i < |chain| :: chain[i] in pages
    ensures FindPage(chain[j..], pages, size) ==
              if Unsuitable(pages[chain[j]], size) then FindPage(chain[j + 1..], pages, size) else chain[j]
  {
    assert chain[j..][0] == chain[j] && chain[j..][1..] == chain[j + 1..];
  }

  /** What `malloc_` comes to when it opens a page. */
  lemma OpenReady(s: Heap, request: nat, size: int)
    requires HeapOk(s) && request <= 0x2_0000 && CanMalloc(s, request) && size == ClassSize(request)
    requires FindPage(s.chain, s.pages, size) == -1
    ensures (SmallClass(size) || BigClass(size)) && size <= 0x1000_0000
    ensures var k := OrderFor(size);
            0 <= k <= MAX_ORDER && CanAllocate(s.buddy.lists, k) && var q := Allocated(s.buddy, k);
            0 <= q < |s.buddy.frame| - 1 && q !in s.chain &&
            var t := Heap(Allocate(s.buddy, k), [q] + s.chain, s.pages[q := NewHeader(size)]);
            HeapOk(t) && Pool.Malloc(s, request) == (t, SlotAddr(q, NewHeader(size), 0))
  {
    ClassHolds(request);
    ClassOrder(size);
    MallocNewPage(s, request);
    AllocateUses(s.buddy, OrderFor(size));
  }

  lemma OpenedHarmless(s: Heap, request: nat, page: int, size: int, touched: set<int>)
    requires HeapOk(s) && request <= 0x2_0000 && CanMalloc(s, request) && size == ClassSize(request) && size > 0
    requires FindPage(s.chain, s.pages, size) == -1 && page == Allocated(s.buddy, OrderFor(size))
    requires forall p | p in touched :: FreePage(s.buddy.frame, p)
    ensures AllHarmless(s, Items(touched) + {HeaderSpan(page)} + Maps(page, NewHeader(size)))
  {
    forall w | w in Items(touched) + {HeaderSpan(page)} + Maps(page, NewHeader(size)) ensures Harmless(s, w) {
      OpenWritesHarmless(s, request, touched, w);
    }
  }

  lemma HeadersAt(header: seq<Header>, chain: seq<int>, p: int)
    requires p in Headers(header, chain)
    ensures 0 <= p < |header| && Headers(header, chain)[p] == header[p]
  {
  }

  lemma HeadersPush(header: seq<Header>, chain: seq<int>, p: int, h: Header)
    requires p !in chain && 0 <= p < |header|
    ensures Headers(header[p := h], [p] + chain) == Headers(header, chain)[p := h]
  {
  }

  /** A page linked in front. */
  lemma ChainPush(link: seq<int>, first: int, chain: seq<int>, p: int)
    requires ChainOk(link, first, chain) && p !in chain && 0 <= p < |link|
    ensures ChainOk(link[p := first], p, [p] + chain)
  {
    var ys, l := [p] + chain, link[p := first];
    forall j {:trigger ys[j]} | 0 <= j < |ys|
      ensures 0 <= ys[j] < |l| && l[ys[j]] == if j + 1 < |ys| then ys[j + 1] else NULL
    {
      if j > 0 {
        LinkAt(link, first, chain, j - 1);
        assert ys[j] in chain;
      }
    }
  }

  lemma HeadersUpdate(header: seq<Header>, chain: seq<int>, p: int, h: Header)
    requires p in chain && 0 <= p < |header|
    ensures Headers(header[p := h], chain) == Headers(header, chain)[p := h]
  {
  }

  lemma HeadersLeft(header: seq<Header>, chain: seq<int>, p: int)
    ensures Headers(header, Without(chain, p)) == Headers(header, chain) - {p}
  {
  }

  /** The headers of the pages on the list. */
  function Headers(header: seq<Header>, chain: seq<int>): (m: map<int, Header>) {
    map p | p in chain && 0 <= p < |header| :: header[p]
  }
}
