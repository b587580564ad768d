/** C strings in memory and their pieces between delimiters (lib/string.c). */
module Strings {
  import opened Common
  import opened Sequences

  // ---------------------------------------------------------------- C strings

  /** Where the string at p ends: at its NUL, or at the end of memory. */
  function StrEnd(m: seq<char>, p: int): (e: int)
    requires 0 <= p <= |m|
    ensures p <= e <= |m|
    ensures e < |m| ==> m[e] == NUL
    ensures forall k | p <= k < e :: m[k] != NUL
    decreases |m| - p
  {
    if p == |m| || m[p] == NUL then p else StrEnd(m, p + 1)
  }

  predicate IsCString(m: seq<char>, p: int) {
    0 <= p < |m| && StrEnd(m, p) < |m|
  }

  function CString(m: seq<char>, p: int): (s: string)
    requires 0 <= p <= |m|
  {
    m[p..StrEnd(m, p)]
  }

  /** The end of a string is its first NUL. */
  lemma {:induction false} StrEndIs(m: seq<char>, p: int, e: int)
    requires 0 <= p <= e < |m| && m[e] == NUL && forall k | p <= k < e :: m[k] != NUL
    ensures StrEnd(m, p) == e && CString(m, p) == m[p..e]
  {
    var f := StrEnd(m, p);
    assert !(f < e) && !(e < f);
  }

  // ------------------------------------------------------------------- pieces

  /** The first place of s that holds one of the delimiters, or its length. */
  function FirstDelimiter(s: string, d: string): (i: int)
    ensures 0 <= i <= |s|
    ensures i < |s| ==> s[i] in d
    ensures forall k | 0 <= k < i :: s[k] !in d
  {
    if s == [] || s[0] in d then 0 else 1 + FirstDelimiter(s[1..], d)
  }

  /** What lies between the delimiters, empty pieces included. */
  function Split(s: string, d: string): (ps: seq<string>)
    ensures |ps| >= 1
    decreases |s|
  {
    var i := FirstDelimiter(s, d);
    if i == |s| then [s] else [s[..i]] + Split(s[i + 1..], d)
  }

  function Join(ps: seq<string>, c: char): (s: string) {
    if ps == [] then [] else if |ps| == 1 then ps[0] else ps[0] + [c] + Join(ps[1..], c)
  }

  function Count(s: string, d: string): (n: int)
    ensures 0 <= n <= |s|
  {
    if s == [] then 0 else (if s[0] in d then 1 else 0) + Count(s[1..], d)
  }

  lemma {:induction false} CountAfter(s: string, d: string, i: int)
    requires i == FirstDelimiter(s, d)
    ensures Count(s, d) == if i == |s| then 0 else 1 + Count(s[i + 1..], d)
  {
    if 0 < i {
      CountAfter(s[1..], d, i - 1);
      assert i < |s| ==> s[1..][i..] == s[i + 1..];
    }
  }

  /** There is one piece more than there are delimiters. */
  lemma {:induction false} SplitCount(s: string, d: string)
    ensures |Split(s, d)| == Count(s, d) + 1
    decreases |s|
  {
    var i := FirstDelimiter(s, d);
    CountAfter(s, d, i);
    if i < |s| {
      SplitCount(s[i + 1..], d);
    }
  }

  /** No piece contains a delimiter. */
  lemma {:induction false} SplitPieces(s: string, d: string, k: int)
    requires 0 <= k < |Split(s, d)|
    ensures forall c | c in d :: c !in Split(s, d)[k]
    decreases |s|
  {
    var i := FirstDelimiter(s, d);
    if i < |s| && k > 0 {
      SplitPieces(s[i + 1..], d, k - 1);
    }
  }

  lemma JoinCons(p: string, ps: seq<string>, c: char)
    requires ps != []
    ensures Join([p] + ps, c) == p + [c] + Join(ps, c)
  {
    assert ([p] + ps)[1..] == ps;
  }

  lemma CutAt(s: string, i: int, c: char)
    requires 0 <= i < |s| && s[i] == c
    ensures s == s[..i] + [c] + s[i + 1..]
  {
  }

  /** Joining the pieces with the delimiter gives the string back. */
  lemma {:induction false} JoinSplit(s: string, c: char)
    ensures Join(Split(s, [c]), c) == s
    decreases |s|
  {
    var i := FirstDelimiter(s, [c]);
    if i < |s| {
      JoinSplit(s[i + 1..], c);
      JoinCons(s[..i], Split(s[i + 1..], [c]), c);
      CutAt(s, i, c);
    }
  }

  lemma {:induction false} FirstDelimiterIs(s: string, d: string, i: int)
    requires 0 <= i <= |s| && (i < |s| ==> s[i] in d) && forall k | 0 <= k < i :: s[k] !in d
    ensures FirstDelimiter(s, d) == i
  {
    var f := FirstDelimiter(s, d);
    assert !(f < i) && !(i < f);
  }

  /** A delimiter-free head, a delimiter and a tail. */
  lemma SplitHead(head: string, tail: string, c: char)
    requires c !in head
    ensures Split(head + [c] + tail, [c]) == [head] + Split(tail, [c])
  {
    var s := head + [c] + tail;
    FirstDelimiterIs(s, [c], |head|);
    assert s[..|head|] == head && s[|head| + 1..] == tail;
  }

  lemma SplitWhole(s: string, c: char)
    requires c !in s
    ensures Split(s, [c]) == [s]
  {
    FirstDelimiterIs(s, [c], |s|);
  }

  /** Splitting the join of delimiter-free pieces gives the pieces back: the
      pieces of a string are determined by it. */
  lemma {:induction false} SplitJoin(ps: seq<string>, c: char)
    requires |ps| >= 1 && forall k | 0 <= k < |ps| :: c !in ps[k]
    ensures Split(Join(ps, c), [c]) == ps
    decreases |ps|
  {
    if |ps| == 1 {
      SplitWhole(ps[0], c);
    } else {
      SplitJoin(ps[1..], c);
      SplitHead(ps[0], Join(ps[1..], c), c);
      assert ps == [ps[0]] + ps[1..];
    }
  }

  lemma {:induction false} JoinConcat(ps: seq<string>, qs: seq<string>, c: char)
    requires |ps| >= 1 && |qs| >= 1
    ensures Join(ps + qs, c) == Join(ps, c) + [c] + Join(qs, c)
    decreases |ps|
  {
    var all := ps + qs;
    if |ps| == 1 {
      assert all[1..] == qs;
    } else {
      JoinConcat(ps[1..], qs, c);
      assert all[1..] == ps[1..] + qs;
      ConcatAssociates(ps[0] + [c], Join(ps[1..], c), [c] + Join(qs, c));
      ConcatAssociates(Join(ps[1..], c), [c], Join(qs, c));
      ConcatAssociates(Join(ps, c), [c], Join(qs, c));
    }
  }

  /** Splitting a + c + b splits a and b. */
  lemma SplitConcat(a: string, b: string, c: char)
    ensures Split(a + [c] + b, [c]) == Split(a, [c]) + Split(b, [c])
  {
    var ps, qs := Split(a, [c]), Split(b, [c]);
    JoinSplit(a, c);
    JoinSplit(b, c);
    JoinConcat(ps, qs, c);
    forall k | 0 <= k < |ps + qs| ensures c !in (ps + qs)[k] {
      if k < |ps| { SplitPieces(a, [c], k); } else { SplitPieces(b, [c], k - |ps|); }
    }
    SplitJoin(ps + qs, c);
  }
}
