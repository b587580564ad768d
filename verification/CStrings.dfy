/** The byte loops of lib/string.c over buffers in memory: `strlen`, `strcmp`,
    `strcpy` and `strcat_`. */
module CStrings {
  import opened Common
  import opened Strings

  /** The characters of s stand at p, followed by a NUL. */
  predicate Stored(m: seq<char>, p: int, s: string) {
    0 <= p && p + |s| < |m| && m[p..p + |s|] == s && m[p + |s|] == NUL && NUL !in s
  }

  lemma StoredIsCString(m: seq<char>, p: int, s: string)
    requires Stored(m, p, s)
    ensures IsCString(m, p) && CString(m, p) == s && StrEnd(m, p) == p + |s|
  {
    forall k | p <= k < p + |s| ensures m[k] != NUL {
      assert m[k] == s[k - p];
    }
    StrEndIs(m, p, p + |s|);
  }

  method Strlen(mem: array<char>, p: int) returns (n: int)
    requires IsCString(mem[..], p)
    ensures n == StrEnd(mem[..], p) - p
  {
    n := 0;
    while mem[p + n] != NUL
      invariant 0 <= n && p + n <= StrEnd(mem[..], p)
      decreases StrEnd(mem[..], p) - p - n
    {
      n := n + 1;
    }
  }

  /** The difference `strcmp` returns: 0 exactly for equal strings. */
  method Strcmp(xs: array<char>, x: int, ys: array<char>, y: int) returns (d: int)
    requires IsCString(xs[..], x) && IsCString(ys[..], y)
    ensures d == 0 <==> CString(xs[..], x) == CString(ys[..], y)
  {
    ghost var s, t := CString(xs[..], x), CString(ys[..], y);
    var i := 0;
    while xs[x + i] != NUL
      invariant 0 <= i <= |s| && i <= |t|
      invariant s[..i] == t[..i]
      decreases |s| - i
    {
      if xs[x + i] != ys[y + i] {
        break;
      }
      assert s[i] == t[i];
      i := i + 1;
    }
    d := xs[x + i] as int - ys[y + i] as int;
    assert i < |s| ==> s[i] == xs[x + i];
    assert i < |t| ==> t[i] == ys[y + i];
  }

  /** Copies the string at p of src to place `at` of dest, with its NUL: the loop
      that `strcpy` and `strcat_` share. */
  method CopyTo(dest: array<char>, at: int, src: array<char>, p: int)
    requires dest != src && IsCString(src[..], p) && 0 <= at && at + |CString(src[..], p)| < dest.Length
    modifies dest
    ensures dest[..at] == old(dest[..at]) && Stored(dest[..], at, CString(src[..], p))
  {
    ghost var s := CString(src[..], p);
    var i := 0;
    while src[p + i] != NUL
      invariant 0 <= i <= |s|
      invariant dest[at..at + i] == s[..i] && dest[..at] == old(dest[..at])
      decreases |s| - i
    {
      assert src[p + i] == s[i];
      dest[at + i] := src[p + i];
      i := i + 1;
    }
    dest[at + i] := NUL;
  }

  method Strcpy(dest: array<char>, src: array<char>, p: int)
    requires dest != src && IsCString(src[..], p) && |CString(src[..], p)| < dest.Length
    modifies dest
    ensures Stored(dest[..], 0, CString(src[..], p))
  {
    CopyTo(dest, 0, src, p);
  }

  method Strcat(dest: array<char>, src: array<char>, p: int, ghost s: string)
    requires Stored(dest[..], 0, s)
    requires dest != src && IsCString(src[..], p) && |s| + |CString(src[..], p)| < dest.Length
    modifies dest
    ensures Stored(dest[..], 0, s + CString(src[..], p))
  {
    StoredIsCString(dest[..], 0, s);
    var n := Strlen(dest, 0);
    CopyTo(dest, n, src, p);
  }
}
