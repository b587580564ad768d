/** The doubly linked free lists of lib/malloc.c: the `page_item` that each free
    page holds in its tail, with the links as page numbers. */
module FreeLists {
  import opened Common
  import opened Powers
  import opened Sequences
  import Buddy
  import BuddyProofs

  function First(xs: seq<int>): int {
    if xs == [] then NULL else xs[0]
  }

  /** The links of the list xs that starts at head. The `previous` of the first
      item is unconstrained: popping a list leaves it stale. */
  predicate Chain(previous: seq<int>, next: seq<int>, head: int, xs: seq<int>)
    requires |previous| == |next|
  {
    head == First(xs) &&
    (forall j {:trigger xs[j]} | 0 <= j < |xs| :: 0 <= xs[j] < |next|) &&
    (forall j {:trigger next[xs[j]]} | 0 <= j < |xs| :: next[xs[j]] == if j + 1 < |xs| then xs[j + 1] else NULL) &&
    forall j {:trigger previous[xs[j]]} | 1 <= j < |xs| :: previous[xs[j]] == xs[j - 1]
  }

  /** A listed page heads a block of the list's order; so no page is on two
      lists. */
  ghost predicate Owned(f: Buddy.Frame, lists: seq<seq<int>>) {
    forall k, x {:trigger x in lists[k]} | 0 <= k < |lists| && x in lists[k] ::
      0 <= x < |f| - 1 && f[x].index == k
  }

  ghost predicate Linked(f: Buddy.Frame, previous: seq<int>, next: seq<int>, heads: seq<int>, lists: seq<seq<int>>) {
    |previous| == |next| == |f| - 1 && |heads| == |lists| == MAX_ORDER + 1 && Owned(f, lists) &&
    forall k {:trigger lists[k]} | 0 <= k < |lists| ::
      Buddy.Distinct(lists[k]) && Chain(previous, next, heads[k], lists[k])
  }

  ghost predicate OnNone(lists: seq<seq<int>>, i: int) {
    forall k | 0 <= k < |lists| :: i !in lists[k]
  }

  lemma PushLinked(f: Buddy.Frame, previous: seq<int>, next: seq<int>, heads: seq<int>, lists: seq<seq<int>>, i: int,
                   k: int)
    requires Linked(f, previous, next, heads, lists)
    requires 0 <= i < |next| && 0 <= k <= MAX_ORDER && f[i].index == k && OnNone(lists, i)
    ensures var h := heads[k];
            var p := previous[i := NULL];
            (h != NULL ==> 0 <= h < |next|) &&
            Linked(f, if h == NULL then p else p[h := i], next[i := h], heads[k := i], lists[k := [i] + lists[k]])
  {
    var h := heads[k];
    var xs := lists[k];
    var p := previous[i := NULL];
    assert Chain(previous, next, h, xs);
    assert xs != [] ==> h == xs[0] && 0 <= xs[0] < |next|;
    var p', n', heads', lists' := if h == NULL then p else p[h := i], next[i := h], heads[k := i], lists[k := [i] + xs];
    BuddyProofs.PushDistinct(xs, i);
    forall m {:trigger lists'[m]} | 0 <= m < |lists'|
      ensures Buddy.Distinct(lists'[m]) && Chain(p', n', heads'[m], lists'[m])
    {
      var ys := lists[m];
      assert Chain(previous, next, heads[m], ys);
      if m == k {
        var zs := [i] + xs;
        forall j {:trigger zs[j]} | 1 <= j < |zs| ensures zs[j] == xs[j - 1] && zs[j] != i {
          assert xs[j - 1] in lists[k];
        }
        forall j {:trigger zs[j]} | 2 <= j < |zs| ensures zs[j] != h {
          Buddy.DistinctAt(xs, 0, j - 1);
        }
      } else {
        forall j {:trigger ys[j]} | 0 <= j < |ys| ensures ys[j] != i && ys[j] != h {
          assert ys[j] in lists[m];
          assert h != NULL ==> h in lists[k];
        }
      }
    }
  }

  lemma PopLinked(f: Buddy.Frame, previous: seq<int>, next: seq<int>, heads: seq<int>, lists: seq<seq<int>>, k: int)
    requires Linked(f, previous, next, heads, lists) && 0 <= k <= MAX_ORDER && lists[k] != []
    ensures 0 <= heads[k] < |next| && heads[k] == lists[k][0]
    ensures Linked(f, previous, next, heads[k := next[heads[k]]], lists[k := lists[k][1..]])
    ensures OnNone(lists[k := lists[k][1..]], lists[k][0])
  {
    var xs := lists[k];
    assert Chain(previous, next, heads[k], xs);
    var rest := xs[1..];
    forall j {:trigger rest[j]} | 0 <= j < |rest| ensures rest[j] == xs[j + 1] {
    }
    var lists' := lists[k := rest];
    BuddyProofs.PopDistinct(xs);
    forall m {:trigger lists'[m]} | 0 <= m < |lists'| ensures xs[0] !in lists'[m] {
      assert xs[0] in lists[k];
    }
    forall m {:trigger lists'[m]} | 0 <= m < |lists'|
      ensures Buddy.Distinct(lists'[m]) && Chain(previous, next, heads[k := next[heads[k]]][m], lists'[m])
    {
      assert Chain(previous, next, heads[m], lists[m]);
    }
  }

  lemma {:induction false} RemoveAtIsWithout(xs: seq<int>, p: int)
    requires 0 <= p < |xs| && Buddy.Distinct(xs)
    ensures RemoveAt(xs, p) == Buddy.Without(xs, xs[p])
    decreases |xs|
  {
    var rest := xs[1..];
    if p == 0 {
      NotIn(rest, xs[0]);
      assert RemoveAt(xs, p) == rest;
    } else {
      RemoveAtIsWithout(rest, p - 1);
      assert RemoveAt(xs, p) == [xs[0]] + RemoveAt(rest, p - 1);
    }
  }

  lemma {:induction false} NotIn(xs: seq<int>, x: int)
    requires x !in xs
    ensures Buddy.Without(xs, x) == xs
  {
    if xs != [] {
      NotIn(xs[1..], x);
      assert xs == [xs[0]] + xs[1..];
    }
  }

  /** The links after `delete_page_item`: the neighbours of i, where there are
      any, are linked past it. */
  function NextAfterDelete(previous: seq<int>, next: seq<int>, i: int): (n: seq<int>)
    requires |previous| == |next| && 0 <= i < |next|
    requires previous[i] == NULL || 0 <= previous[i] < |next|
  {
    if previous[i] == NULL then next else next[previous[i] := next[i]]
  }

  function PreviousAfterDelete(previous: seq<int>, next: seq<int>, i: int): (p: seq<int>)
    requires |previous| == |next| && 0 <= i < |next|
    requires next[i] == NULL || 0 <= next[i] < |next|
  {
    if next[i] == NULL then previous else previous[next[i] := previous[i]]
  }

  /** The links at i's place in its list, before it is deleted. */
  lemma ItemLinks(previous: seq<int>, next: seq<int>, head: int, xs: seq<int>, p: int)
    requires |previous| == |next| && Chain(previous, next, head, xs) && 0 <= p < |xs|
    requires p == 0 ==> previous[xs[0]] == NULL
    ensures 0 <= xs[p] < |next|
    ensures next[xs[p]] == (if p + 1 < |xs| then xs[p + 1] else NULL) && (p + 1 < |xs| ==> 0 <= xs[p + 1] < |next|)
    ensures previous[xs[p]] == (if p > 0 then xs[p - 1] else NULL) && (p > 0 ==> 0 <= xs[p - 1] < |next|)
  {
  }

  /** Linking i's neighbours to each other takes i out of its chain. */
  lemma DeleteChain(previous: seq<int>, next: seq<int>, head: int, xs: seq<int>, p: int)
    requires |previous| == |next| && Chain(previous, next, head, xs) && 0 <= p < |xs| && Buddy.Distinct(xs)
    requires p == 0 ==> previous[xs[0]] == NULL
    requires 0 <= xs[p] < |next|
    requires next[xs[p]] == NULL || 0 <= next[xs[p]] < |next|
    requires previous[xs[p]] == NULL || 0 <= previous[xs[p]] < |next|
    ensures Chain(PreviousAfterDelete(previous, next, xs[p]), NextAfterDelete(previous, next, xs[p]),
                  if p == 0 then next[xs[p]] else head, RemoveAt(xs, p))
  {
    ItemLinks(previous, next, head, xs, p);
    var ys := RemoveAt(xs, p);
    var p', n' := PreviousAfterDelete(previous, next, xs[p]), NextAfterDelete(previous, next, xs[p]);
    forall j {:trigger ys[j]} | 0 <= j < |ys|
      ensures 0 <= ys[j] < |next| && n'[ys[j]] == if j + 1 < |ys| then ys[j + 1] else NULL
    {
      NextWithout(previous, next, head, xs, p, j);
    }
    forall j {:trigger ys[j]} | 1 <= j < |ys| ensures p'[ys[j]] == ys[j - 1] {
      PreviousWithout(previous, next, head, xs, p, j);
    }
  }

  lemma NextWithout(previous: seq<int>, next: seq<int>, head: int, xs: seq<int>, p: int, j: int)
    requires |previous| == |next| && Chain(previous, next, head, xs) && Buddy.Distinct(xs)
    requires 0 <= p < |xs| && 0 <= j < |xs| - 1 && (p == 0 ==> previous[xs[0]] == NULL)
    ensures 0 <= xs[p] < |next| && (previous[xs[p]] == NULL || 0 <= previous[xs[p]] < |next|)
    ensures var x := xs[Skip(p, j)];
            0 <= x < |next| &&
            NextAfterDelete(previous, next, xs[p])[x] == if j + 2 < |xs| then xs[Skip(p, j + 1)] else NULL
  {
    ItemLinks(previous, next, head, xs, p);
    var o := Skip(p, j);
    assert next[xs[o]] == if o + 1 < |xs| then xs[o + 1] else NULL;
    if o < p - 1 {
      Buddy.DistinctAt(xs, o, p - 1);
    } else if p > 0 && o > p - 1 {
      Buddy.DistinctAt(xs, p - 1, o);
    }
  }

  lemma PreviousWithout(previous: seq<int>, next: seq<int>, head: int, xs: seq<int>, p: int, j: int)
    requires |previous| == |next| && Chain(previous, next, head, xs) && Buddy.Distinct(xs)
    requires 0 <= p < |xs| && 1 <= j < |xs| - 1 && (p == 0 ==> previous[xs[0]] == NULL)
    ensures 0 <= xs[p] < |next| && (next[xs[p]] == NULL || 0 <= next[xs[p]] < |next|)
    ensures var x := xs[Skip(p, j)];
            0 <= x < |next| && PreviousAfterDelete(previous, next, xs[p])[x] == xs[Skip(p, j - 1)]
  {
    ItemLinks(previous, next, head, xs, p);
    var o := Skip(p, j);
    assert previous[xs[o]] == xs[o - 1];
    if o > p + 1 {
      Buddy.DistinctAt(xs, p + 1, o);
    } else if o < p + 1 < |xs| {
      Buddy.DistinctAt(xs, o, p + 1);
    }
  }

  /** Deleting i leaves the chain of any other list alone. */
  lemma OtherChain(previous: seq<int>, next: seq<int>, head: int, zs: seq<int>, i: int)
    requires |previous| == |next| && 0 <= i < |next| && Chain(previous, next, head, zs)
    requires next[i] == NULL || 0 <= next[i] < |next|
    requires previous[i] == NULL || 0 <= previous[i] < |next|
    requires previous[i] !in zs && next[i] !in zs
    ensures Chain(PreviousAfterDelete(previous, next, i), NextAfterDelete(previous, next, i), head, zs)
  {
  }

  lemma DeleteLinked(f: Buddy.Frame, previous: seq<int>, next: seq<int>, heads: seq<int>, lists: seq<seq<int>>, k: int,
                     p: int)
    requires Linked(f, previous, next, heads, lists) && 0 <= k <= MAX_ORDER && 0 <= p < |lists[k]|
    requires p == 0 ==> previous[lists[k][0]] == NULL
    ensures var i := lists[k][p];
            0 <= i < |next| &&
            (next[i] == NULL || 0 <= next[i] < |next|) && (previous[i] == NULL || 0 <= previous[i] < |next|) &&
            (previous[i] == NULL <==> p == 0) && (next[i] == NULL <==> p == |lists[k]| - 1) &&
            Linked(f, PreviousAfterDelete(previous, next, i), NextAfterDelete(previous, next, i),
                   if p == 0 then heads[k := next[i]] else heads, lists[k := RemoveAt(lists[k], p)])
  {
    var xs := lists[k];
    var i := xs[p];
    ItemLinks(previous, next, heads[k], xs, p);
    var p', n' := PreviousAfterDelete(previous, next, i), NextAfterDelete(previous, next, i);
    var heads' := if p == 0 then heads[k := next[i]] else heads;
    RemoveAtIsWithout(xs, p);
    BuddyProofs.WithoutDistinct(xs, i);
    DeleteChain(previous, next, heads[k], xs, p);
    var lists' := lists[k := RemoveAt(xs, p)];
    forall m {:trigger lists'[m]} | 0 <= m < |lists'|
      ensures Buddy.Distinct(lists'[m]) && Chain(p', n', heads'[m], lists'[m])
    {
      if m != k {
        assert previous[i] !in lists[m] && next[i] !in lists[m] by {
          assert p > 0 ==> xs[p - 1] in lists[k];
          assert p + 1 < |xs| ==> xs[p + 1] in lists[k];
        }
        OtherChain(previous, next, heads[m], lists[m], i);
      }
    }
  }
}
