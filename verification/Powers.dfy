/** Powers of two and the size arithmetic of the allocator: `log2`, `power2`
    and `aling8` of lib/malloc.c. */
module Powers {

  /** The largest block order (PAGE_MAX_ORDER). */
  const MAX_ORDER: int := 16

  /** 2^k, and 1 for every k <= 0, as `power2` computes it. */
  function Pow2(k: int): (r: int)
    ensures r >= 1
  {
    if k <= 0 then 1 else Pow2(k - 1) + Pow2(k - 1)
  }

  lemma {:induction false} Pow2Monotone(a: int, b: int)
    requires a <= b
    ensures Pow2(a) <= Pow2(b)
    decreases b - a
  {
    if a < b {
      Pow2Monotone(a, b - 1);
    }
  }

  lemma Pow2Values()
    ensures Pow2(3) == 8 && Pow2(11) == 0x800 && Pow2(12) == 0x1000 && Pow2(13) == 0x2000
    ensures Pow2(16) == 0x1_0000 && Pow2(17) == 0x2_0000 && Pow2(18) == 0x4_0000
  {
    assert Pow2(4) == 16;
    assert Pow2(8) == 256;
  }

  method Power2(value: int) returns (ans: int)
    requires value <= 30
    ensures ans == Pow2(value)
  {
    ans := 1;
    var i := 0;
    while i < value
      invariant 0 <= i && (i <= value || i == 0)
      invariant ans == Pow2(i)
    {
      ans := ans * 2;
      i := i + 1;
    }
  }

  /** r is the rounded-down logarithm of value, capped at the largest order. */
  predicate IsLog2(value: int, r: int) {
    0 <= r <= MAX_ORDER && Pow2(r) <= value && (r < MAX_ORDER ==> value < Pow2(r + 1))
  }

  lemma {:induction false} Log2Exists(value: int)
    requires value >= 1
    ensures exists r :: IsLog2(value, r)
  {
    if value == 1 {
      assert IsLog2(1, 0);
    } else {
      Log2Exists(value / 2);
      var h :| IsLog2(value / 2, h);
      assert IsLog2(value, if h < MAX_ORDER then h + 1 else h);
    }
  }

  lemma Log2Unique(value: int, q: int, r: int)
    requires IsLog2(value, q) && IsLog2(value, r)
    ensures q == r
  {
    if q < r {
      Pow2Monotone(q + 1, r);
    } else if r < q {
      Pow2Monotone(r + 1, q);
    }
  }

  /** The capped logarithm; -1 for values below 1. */
  ghost function FloorLog2(value: int): (r: int)
    ensures if value <= 0 then r == -1 else IsLog2(value, r)
  {
    if value <= 0 then -1
    else
      Log2Exists(value);
      var r :| IsLog2(value, r); r
  }

  /** The loop of `log2`. Below 2^30 its `ans` stays inside a 32-bit int. */
  method Log2(value: int) returns (r: int)
    requires value < 0x4000_0000
    ensures r == FloorLog2(value)
  {
    var ans := 1;
    var i := 0;
    while ans <= value
      invariant 0 <= i
      invariant ans == Pow2(i)
      invariant i > 0 ==> Pow2(i - 1) <= value
      invariant ans < 0x8000_0000
      decreases value - ans
    {
      ans := ans * 2;
      i := i + 1;
    }
    i := i - 1;
    r := if i > MAX_ORDER then MAX_ORDER else i;
    if value >= 1 {
      if i > MAX_ORDER {
        Pow2Monotone(MAX_ORDER, i);
      }
      Log2Unique(value, r, FloorLog2(value));
    }
  }

  /** Rounds up to a multiple of 8. */
  function Align8(value: nat): (r: nat)
    ensures r % 8 == 0 && value <= r < value + 8
  {
    if value % 8 == 0 then value else 8 + value - value % 8
  }

  // Alignment of block heads

  predicate Aligned(i: int, k: int) {
    i % Pow2(k) == 0
  }

  lemma MulGrows(d: int, m: int)
    requires m > 0
    ensures d >= 1 ==> d * m >= m
    ensures d <= -1 ==> d * m <= -m
  {
  }

  /** Quotient and remainder are determined by their defining equation. */
  lemma DivModUnique(x: int, m: int, q: int, r: int)
    requires m > 0 && x == q * m + r && 0 <= r < m
    ensures x / m == q && x % m == r
  {
    var d := q - x / m;
    assert d * m == x % m - r;
    MulGrows(d, m);
  }

  /** i is a multiple of m exactly when it is q * m for some q. */
  lemma MultipleOf(i: int, m: int, q: int)
    requires m > 0 && i == q * m
    ensures i % m == 0
  {
    DivModUnique(i, m, q, 0);
  }

  /** Halves of an interval of 2h aligned to 2h. */
  lemma HalvesAligned(i: int, h: int)
    requires h > 0 && i % (2 * h) == 0
    ensures i % h == 0 && (i + h) % h == 0 && (i + h) % (2 * h) == h
  {
    var q := i / (2 * h);
    var p := q * h;
    assert i == 2 * p;
    assert (2 * q) * h == 2 * p;
    MultipleOf(i, h, 2 * q);
    assert (2 * q + 1) * h == 2 * p + h;
    MultipleOf(i + h, h, 2 * q + 1);
    assert q * (2 * h) == 2 * p;
    DivModUnique(i + h, 2 * h, q, h);
  }

  /** A multiple of h that is not a multiple of 2h starts the upper half of an
      interval of 2h aligned to 2h. */
  lemma UpperHalf(i: int, h: int)
    requires h > 0 && i % h == 0 && i % (2 * h) != 0
    ensures (i - h) % (2 * h) == 0
    ensures i >= 0 ==> i >= h
  {
    var q := i / h;
    var p := q / 2;
    assert i == q * h;
    if q == 2 * p {
      assert i == p * (2 * h);
      MultipleOf(i, 2 * h, p);
      assert false;
    }
    assert q == 2 * p + 1;
    assert p * (2 * h) == i - h;
    MultipleOf(i - h, 2 * h, p);
    if 0 <= i < h {
      DivModUnique(i, h, 0, i);
      MultipleOf(i, 2 * h, 0);
      assert false;
    }
  }

  /** A block of order k splits into two aligned blocks of order k - 1. */
  lemma AlignedSplit(i: int, k: int)
    requires k >= 1 && Aligned(i, k)
    ensures Aligned(i, k - 1) && Aligned(i + Pow2(k - 1), k - 1)
    ensures (i + Pow2(k - 1)) % Pow2(k) != 0
  {
    HalvesAligned(i, Pow2(k - 1));
  }

  /** The buddy of the block of order k at i, as `merge` computes it. */
  function BuddyOf(i: int, k: int): int
    requires 0 <= k
  {
    if i % (2 * Pow2(k)) != 0 then i - Pow2(k) else i + Pow2(k)
  }

  /** Two buddies are aligned neighbours, each the buddy of the other, and the
      lower one heads an aligned block of the next order. */
  lemma BuddyFacts(i: int, k: int)
    requires 0 <= k && 0 <= i && Aligned(i, k)
    ensures var b := BuddyOf(i, k);
            0 <= b && Aligned(b, k) && BuddyOf(b, k) == i && b != i &&
            Aligned(if i < b then i else b, k + 1)
  {
    var h := Pow2(k);
    assert Pow2(k + 1) == 2 * h;
    if i % (2 * h) == 0 {
      HalvesAligned(i, h);
    } else {
      UpperHalf(i, h);
      HalvesAligned(i - h, h);
    }
  }

  lemma {:induction false} AlignedLower(i: int, m: int, k: int)
    requires 0 <= k <= m && Aligned(i, m)
    ensures Aligned(i, k)
    decreases m
  {
    if k < m {
      AlignedSplit(i, m);
      AlignedLower(i, m - 1, k);
    }
  }

  /** Two multiples of h that are apart are at least h apart. */
  lemma MultiplesApart(a: int, b: int, h: int)
    requires h > 0 && a % h == 0 && b % h == 0 && a < b
    ensures a + h <= b
  {
    var q, r := a / h, b / h;
    assert (r - q) * h == b - a;
    MulGrows(r - q, h);
  }

  /** Of two aligned blocks with a page in common, the smaller lies inside the
      larger. */
  lemma Nested(a: int, m: int, b: int, k: int, x: int)
    requires 0 <= k <= m && Aligned(a, m) && Aligned(b, k)
    requires a <= x < a + Pow2(m) && b <= x < b + Pow2(k)
    ensures a <= b && b + Pow2(k) <= a + Pow2(m)
  {
    AlignedLower(a, m, k);
    BlockEndAligned(a, m, k);
    if b < a {
      MultiplesApart(b, a, Pow2(k));
    }
    MultiplesApart(b, a + Pow2(m), Pow2(k));
  }

  /** The end of an aligned block is aligned to every smaller order. */
  lemma BlockEndAligned(a: int, m: int, k: int)
    requires 0 <= k <= m && Aligned(a, m)
    ensures Aligned(a + Pow2(m), k)
  {
    var h := Pow2(m);
    var q := a / h;
    assert (q + 1) * h == a + h;
    MultipleOf(a + h, h, q + 1);
    AlignedLower(a + h, m, k);
  }
}
