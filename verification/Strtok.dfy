/** `strtok` and `spilt_strings` of lib/string.c: cutting a string in place, with
    the tokenizer's static state as fields. */
module Strtok {
  import opened Common
  import opened Strings
  import opened CStrings

  /** The string at p in m, cut at its first delimiter: the NUL that `strtok`
      writes, and where the next token starts. */
  function TokenEnd(m: seq<char>, p: int, delimiter: string): (e: int)
    requires 0 <= p <= |m|
    ensures p <= e <= StrEnd(m, p)
  {
    p + FirstDelimiter(CString(m, p), delimiter)
  }

  /** What the static state is about to return next: a NULL, or the next piece of
      the string at `p`. */
  datatype Rest = Done | From(p: int)

  /** The tokens so far are the first pieces, all in [str, limit). */
  predicate TokensOk(m: seq<char>, tokens: seq<int>, pieces: seq<string>, limit: int) {
    |tokens| <= |pieces| &&
    forall k {:trigger tokens[k]} | 0 <= k < |tokens| ::
      Stored(m, tokens[k], pieces[k]) && tokens[k] + |pieces[k]| < limit
  }

  /** Halfway through cutting the string [str, end] of m0 into pieces: tokens for
      the first ones are stored, and the rest is still to be split. */
  ghost predicate Cutting(m: seq<char>, m0: seq<char>, str: int, end: int, pieces: seq<string>, d: string,
                          tokens: seq<int>, rest: Rest) {
    |m| == |m0| && 0 <= str <= end < |m| && SameOutside(m, m0, str, end) &&
    match rest
    case Done => |tokens| == |pieces| && TokensOk(m, tokens, pieces, end + 1)
    case From(p) =>
      str <= p <= end && Stored(m, p, m[p..end]) && |tokens| <= |pieces| && Split(m[p..end], d) == pieces[|tokens|..] &&
      TokensOk(m, tokens, pieces, p)
  }

  lemma CuttingStarts(m: seq<char>, str: int, d: string)
    requires IsCString(m, str)
    ensures Cutting(m, m, str, StrEnd(m, str), Split(CString(m, str), d), d, [], From(str))
  {
  }

  /** One call of `strtok` stores the next token: the last one, */
  lemma CuttingEnds(m: seq<char>, m0: seq<char>, str: int, end: int, pieces: seq<string>, d: string, tokens: seq<int>,
                    p: int)
    requires Cutting(m, m0, str, end, pieces, d, tokens, From(p)) && FirstDelimiter(m[p..end], d) == end - p
    ensures Cutting(m, m0, str, end, pieces, d, tokens + [p], Done)
  {
    assert Split(m[p..end], d) == [m[p..end]];
    assert |pieces| == |tokens| + 1 && pieces[|tokens|..][0] == pieces[|tokens|];
  }

  /** The pointers lead to the pieces, one each. */
  predicate PointTo(m: seq<char>, pointers: seq<int>, pieces: seq<string>) {
    |pointers| == |pieces| &&
    forall k | 0 <= k < |pointers| :: IsCString(m, pointers[k]) && CString(m, pointers[k]) == pieces[k]
  }

  /** No byte outside [str, end] differs. */
  predicate SameOutside(m: seq<char>, m0: seq<char>, str: int, end: int)
    requires |m| == |m0|
  {
    forall k | 0 <= k < |m| && !(str <= k <= end) :: m[k] == m0[k]
  }

  lemma CuttingDone(m: seq<char>, m0: seq<char>, str: int, end: int, pieces: seq<string>, d: string, tokens: seq<int>)
    requires Cutting(m, m0, str, end, pieces, d, tokens, Done)
    ensures PointTo(m, tokens, pieces) && |m| == |m0| && SameOutside(m, m0, str, end)
  {
    forall k | 0 <= k < |tokens| ensures IsCString(m, tokens[k]) && CString(m, tokens[k]) == pieces[k] {
      StoredIsCString(m, tokens[k], pieces[k]);
    }
  }

  /** A stored string lasts as long as the bytes up to its NUL do. */
  lemma StoredKeeps(m: seq<char>, n: seq<char>, p: int, s: string, limit: int)
    requires Stored(m, p, s) && |n| == |m| && p + |s| < limit <= |m| && n[..limit] == m[..limit]
    ensures Stored(n, p, s)
  {
    var e := p + |s|;
    assert n[..limit][p..e] == n[p..e];
    assert m[..limit][p..e] == m[p..e];
    assert n[..limit][e] == n[e] && m[..limit][e] == m[e];
  }

  lemma TokensKeep(m: seq<char>, n: seq<char>, tokens: seq<int>, pieces: seq<string>, limit: int)
    requires TokensOk(m, tokens, pieces, limit) && |n| == |m| && 0 <= limit <= |m| && n[..limit] == m[..limit]
    ensures TokensOk(n, tokens, pieces, limit)
  {
    forall k {:trigger tokens[k]} | 0 <= k < |tokens| ensures Stored(n, tokens[k], pieces[k]) {
      StoredKeeps(m, n, tokens[k], pieces[k], limit);
    }
  }

  lemma TokenAdded(n: seq<char>, tokens: seq<int>, pieces: seq<string>, p: int, e: int)
    requires TokensOk(n, tokens, pieces, p) && |tokens| < |pieces|
    requires p <= e && Stored(n, p, pieces[|tokens|]) && e == p + |pieces[|tokens|]|
    ensures TokensOk(n, tokens + [p], pieces, e + 1)
  {
  }

  /** A NUL written inside a stored string leaves two. */
  lemma CutStored(m: seq<char>, p: int, e: int, end: int)
    requires 0 <= p <= e < end < |m| && Stored(m, p, m[p..end])
    ensures var n := m[e := NUL];
            Stored(n, p, m[p..end][..e - p]) && n[e + 1..end] == m[p..end][e - p + 1..] &&
            Stored(n, e + 1, n[e + 1..end])
  {
    var n, s := m[e := NUL], m[p..end];
    assert n[e + 1..end] == s[e - p + 1..] && n[p..e] == s[..e - p];
  }

  lemma DropOne<T>(xs: seq<T>, k: int, x: T, rest: seq<T>)
    requires 0 <= k <= |xs| && xs[k..] == [x] + rest
    ensures k < |xs| && xs[k] == x && xs[k + 1..] == rest
  {
    assert k < |xs| && xs[k..][0] == x && xs[k..][1..] == rest;
  }

  /** or one that a delimiter follows, which becomes a NUL. */
  lemma CuttingGoesOn(m: seq<char>, m0: seq<char>, str: int, end: int, pieces: seq<string>, d: string, tokens: seq<int>,
                      p: int, e: int)
    requires Cutting(m, m0, str, end, pieces, d, tokens, From(p)) && e == p + FirstDelimiter(m[p..end], d) < end
    ensures Cutting(m[e := NUL], m0, str, end, pieces, d, tokens + [p], From(e + 1))
  {
    var s, n := m[p..end], m[e := NUL];
    CutStored(m, p, e, end);
    DropOne(pieces, |tokens|, s[..e - p], Split(s[e - p + 1..], d));
    TokensKeep(m, n, tokens, pieces, p);
    TokenAdded(n, tokens, pieces, p, e);
  }

  /** What one call of `strtok` does to memory m and the static state: it cuts the
      string at p at its first delimiter, or notes that the end is reached. */
  predicate TokenTaken(m: seq<char>, p: int, d: string, n: seq<char>, flag: int, tempPtr: int)
    requires 0 <= p <= |m|
  {
    var e := TokenEnd(m, p, d);
    e < |m| &&
    if m[e] == NUL then flag == 1 && tempPtr == p && n == m
    else flag == 0 && tempPtr == e + 1 && n == m[e := NUL]
  }

  lemma CuttingIsCString(m: seq<char>, m0: seq<char>, str: int, end: int, pieces: seq<string>, d: string,
                         tokens: seq<int>, p: int)
    requires Cutting(m, m0, str, end, pieces, d, tokens, From(p))
    ensures IsCString(m, p) && CString(m, p) == m[p..end] && StrEnd(m, p) == end
  {
    StoredIsCString(m, p, m[p..end]);
  }

  lemma AfterToken(m: seq<char>, m0: seq<char>, str: int, end: int, pieces: seq<string>, d: string, tokens: seq<int>,
                   p: int,
                   n: seq<char>, flag: int, tempPtr: int)
    requires Cutting(m, m0, str, end, pieces, d, tokens, From(p)) && NUL !in d
    requires 0 <= p <= |m| && TokenTaken(m, p, d, n, flag, tempPtr)
    ensures Cutting(n, m0, str, end, pieces, d, tokens + [p], if flag == 1 then Done else From(tempPtr))
  {
    CuttingIsCString(m, m0, str, end, pieces, d, tokens, p);
    if TokenEnd(m, p, d) == end {
      CuttingEnds(m, m0, str, end, pieces, d, tokens, p);
    } else {
      CuttingGoesOn(m, m0, str, end, pieces, d, tokens, p, TokenEnd(m, p, d));
    }
  }

  class Tokenizer {
    // The static variables of `strtok`
    var tempPtr: int
    var flag: int

    constructor ()
      ensures Fresh()
    {
      tempPtr := NULL;
      flag := 0;
    }

    /** The initial values of the static variables. */
    predicate Fresh()
      reads this
    {
      tempPtr == NULL && flag == 0
    }

    /** `strtok` for a delimiter string, and `str` a string or NULL. */
    method Strtok(mem: array<char>, str: int, delimiter: string) returns (token: int)
      requires flag == 0 || flag == 1
      requires flag == 0 ==> IsCString(mem[..], if str != NULL then str else tempPtr)
      requires NUL !in delimiter
      modifies this, mem
      ensures old(flag) == 1 || delimiter == "" ==> token == NULL && Fresh() && mem[..] == old(mem[..])
      ensures old(flag) == 0 && delimiter != "" ==>
                token == (if str != NULL then str else old(tempPtr)) &&
                TokenTaken(old(mem[..]), token, delimiter, mem[..], flag, tempPtr)
    {
      if flag == 1 {
        flag := 0;
        tempPtr := NULL;
        return NULL;
      }
      if str != NULL {
        tempPtr := str;
      }
      var finalPtr := tempPtr;
      ghost var m := mem[..];
      ghost var s := CString(m, finalPtr);
      var i := 0;
      var length := Strlen(mem, tempPtr);
      while i <= length
        invariant 0 <= i <= length + 1 && tempPtr == finalPtr && flag == 0 && mem[..] == m
        invariant delimiter != "" ==> i <= length
        invariant delimiter != "" ==> forall k | 0 <= k < i :: s[k] !in delimiter
      {
        var j := 0;
        while j < |delimiter|
          invariant 0 <= j <= |delimiter| && mem[..] == m && tempPtr == finalPtr && flag == 0
          invariant j > 0 ==> i < length
          invariant forall k | 0 <= k < j :: m[finalPtr + i] != delimiter[k]
        {
          if mem[tempPtr + i] == NUL {
            flag := 1;
            FirstDelimiterIs(s, delimiter, i);
            return finalPtr;
          }
          if mem[tempPtr + i] == delimiter[j] {
            FirstDelimiterIs(s, delimiter, i);
            mem[tempPtr + i] := NUL;
            tempPtr := tempPtr + i + 1;
            return finalPtr;
          }
          j := j + 1;
        }
        i := i + 1;
      }
      flag := 0;
      tempPtr := NULL;
      return NULL;
    }

    /** `spilt_strings`: stores pointers to the pieces, then NULL. */
    method SpiltStrings(mem: array<char>, strArr: array<int>, str: int, delimiter: string) returns (count: int)
      requires (flag == 0 || flag == 1) && NUL !in delimiter && str != NULL && IsCString(mem[..], str)
      requires strArr.Length > (if flag == 1 || delimiter == "" then 0 else |Split(CString(mem[..], str), delimiter)|)
      modifies this, mem, strArr
      ensures Fresh() && 0 <= count < strArr.Length && strArr[count] == NULL
      ensures old(flag) == 1 || delimiter == "" ==> count == 0 && mem[..] == old(mem[..])
      ensures old(flag) == 0 && delimiter != "" ==>
                PointTo(mem[..], strArr[..count], Split(old(CString(mem[..], str)), delimiter))
      ensures SameOutside(mem[..], old(mem[..]), str, old(StrEnd(mem[..], str)))
    {
      ghost var m, end := mem[..], StrEnd(mem[..], str);
      ghost var pieces := Split(CString(m, str), delimiter);
      CuttingStarts(m, str, delimiter);
      count := 0;
      if flag == 1 || delimiter == "" {
        strArr[0] := Strtok(mem, str, delimiter);
        return;
      }
      var token;
      ghost var tokens: seq<int>;
      token, tokens := NextToken(mem, str, delimiter, m, str, end, pieces, []);
      strArr[0] := token;
      assert tokens == [strArr[0]];
      count, tokens := CutRest(mem, strArr, delimiter, m, str, end, pieces);
      CuttingDone(mem[..], m, str, end, pieces, delimiter, tokens);
    }

    /** One call of `strtok` with something left to cut, or after the end. */
    method NextToken(mem: array<char>, p: int, delimiter: string,
                     ghost m: seq<char>, ghost str: int, ghost end: int, ghost pieces: seq<string>,
                     ghost tokens: seq<int>)
      returns (token: int, ghost more: seq<int>)
      requires NUL !in delimiter && delimiter != "" && (flag == 0 || flag == 1) && (p != NULL ==> flag == 0)
      requires Cutting(mem[..], m, str, end, pieces, delimiter, tokens, if p != NULL then From(p) else Next())
      modifies this, mem
      ensures old(flag) == 1 ==> token == NULL && more == tokens && Fresh() &&
                                 Cutting(mem[..], m, str, end, pieces, delimiter, more, Done)
      ensures old(flag) == 0 ==> token >= 0 && more == tokens + [token] && (flag == 0 || flag == 1) &&
                                 Cutting(mem[..], m, str, end, pieces, delimiter, more, Next())
    {
      ghost var before, first := mem[..], flag == 0;
      if first {
        CuttingIsCString(before, m, str, end, pieces, delimiter, tokens, if p != NULL then p else tempPtr);
      }
      token := Strtok(mem, p, delimiter);
      more := tokens;
      if first {
        more := tokens + [token];
        AfterToken(before, m, str, end, pieces, delimiter, tokens, token, mem[..], flag, tempPtr);
      }
    }

    /** The loop of `spilt_strings`, after the first token. */
    method CutRest(mem: array<char>, strArr: array<int>, delimiter: string,
                   ghost m: seq<char>, ghost str: int, ghost end: int, ghost pieces: seq<string>)
      returns (count: int, ghost tokens: seq<int>)
      requires NUL !in delimiter && delimiter != "" && strArr.Length > |pieces| >= 1 && strArr[0] >= 0
      requires (flag == 0 || flag == 1) && Cutting(mem[..], m, str, end, pieces, delimiter, [strArr[0]], Next())
      modifies this, mem, strArr
      ensures Fresh() && 0 <= count < strArr.Length && strArr[count] == NULL && strArr[..count] == tokens
      ensures Cutting(mem[..], m, str, end, pieces, delimiter, tokens, Done)
    {
      count := 0;
      tokens := [strArr[0]];
      while strArr[count] != NULL
        invariant 0 <= count <= |pieces|
        invariant strArr[count] == NULL ==> Fresh() && strArr[..count] == tokens
        invariant strArr[count] != NULL ==> (flag == 0 || flag == 1) && strArr[..count + 1] == tokens
        invariant Cutting(mem[..], m, str, end, pieces, delimiter, tokens,
                          if strArr[count] == NULL then Done else Next())
        decreases |pieces| - count
      {
        ghost var stored := strArr[..count + 1];
        count := count + 1;
        var token;
        token, tokens := NextToken(mem, NULL, delimiter, m, str, end, pieces, tokens);
        strArr[count] := token;
        assert strArr[..count] == stored && strArr[..count + 1] == stored + [token];
      }
    }

    /** What the static variables say is still to be cut. */
    ghost function Next(): Rest
      reads this
    {
      if flag == 1 then Done else From(tempPtr)
    }
  }
}
