/** `to_abs_path` of lib/vfs.c on its buffers: concatenate, cut, normalise the
    component array in place with a write and a read index, and join. */
module AbsolutePath {
  import opened Common
  import opened Sequences
  import opened Strings
  import opened CStrings
  import opened Strtok
  import opened Paths

  const MAX_PATH := 255
  const MAX_DEPTH := 64

  datatype Outcome = Returned(code: int) | NullRead

  lemma RenderPrefix(comps: seq<string>, i: int)
    requires 0 <= i < |comps|
    ensures Render(comps[..i + 1]) == Render(comps[..i]) + ([SLASH] + comps[i])
    ensures |Render(comps[..i + 1])| <= |Render(comps)|
  {
    assert comps[..i] + [comps[i]] == comps[..i + 1];
    RenderSnoc(comps[..i], comps[i]);
    WeightConcat(comps[..i + 1], comps[i + 1..]);
    assert comps[..i + 1] + comps[i + 1..] == comps;
    RenderWeight(comps);
    RenderWeight(comps[..i + 1]);
  }

  /** Halfway through the pieces cs: the array starts with the stack they give, and
      from r on it still leads to the pieces. */
  predicate Halfway(m: seq<char>, ptrs: seq<int>, cs: seq<string>, w: int, r: int) {
    0 <= w <= r <= |cs| && |ptrs| > |cs| &&
    PointTo(m, ptrs[..w], Normalise([], cs[..r])) && PointTo(m, ptrs[r..|cs|], cs[r..])
  }

  lemma PointToAt(m: seq<char>, ptrs: seq<int>, cs: seq<string>, w: int, r: int)
    requires Halfway(m, ptrs, cs, w, r)
    ensures r < |cs| ==> IsCString(m, ptrs[r]) && CString(m, ptrs[r]) == cs[r]
    ensures |Normalise([], cs[..r])| == w
    ensures w > 0 ==> IsCString(m, ptrs[w - 1]) && CString(m, ptrs[w - 1]) == Normalise([], cs[..r])[w - 1]
  {
    assert r < |cs| ==> ptrs[r..|cs|][0] == ptrs[r] && cs[r..][0] == cs[r];
    assert w > 0 ==> ptrs[..w][w - 1] == ptrs[w - 1];
  }

  lemma NextStack(cs: seq<string>, r: int)
    requires 0 <= r < |cs|
    ensures Normalise([], cs[..r + 1]) == Enter(Normalise([], cs[..r]), cs[r])
  {
    assert cs[..r] + [cs[r]] == cs[..r + 1];
    NormaliseSnoc([], cs[..r], cs[r]);
  }

  /** Reading on leaves the rest of the pieces. */
  lemma RestOfPieces(m: seq<char>, ptrs: seq<int>, now: seq<int>, cs: seq<string>, r: int)
    requires 0 <= r < |cs| < |ptrs| == |now| && PointTo(m, ptrs[r..|cs|], cs[r..])
    requires ptrs[r + 1..|cs|] == now[r + 1..|cs|]
    ensures PointTo(m, now[r + 1..|cs|], cs[r + 1..])
  {
    var a, b := ptrs[r..|cs|], cs[r..];
    assert now[r + 1..|cs|] == a[1..] && cs[r + 1..] == b[1..];
  }

  lemma PassOver(m: seq<char>, ptrs: seq<int>, cs: seq<string>, w: int, r: int)
    requires Halfway(m, ptrs, cs, w, r) && r < |cs| && Skipped(cs[r])
    ensures Halfway(m, ptrs, cs, w, r + 1)
  {
    NextStack(cs, r);
    RestOfPieces(m, ptrs, ptrs, cs, r);
  }

  lemma PointToFewer(m: seq<char>, ptrs: seq<int>, pieces: seq<string>, k: int)
    requires PointTo(m, ptrs, pieces) && 0 <= k <= |ptrs|
    ensures PointTo(m, ptrs[..k], pieces[..k])
  {
  }

  lemma StepUp(m: seq<char>, ptrs: seq<int>, now: seq<int>, cs: seq<string>, w: int, r: int)
    requires Halfway(m, ptrs, cs, w, r) && r < |cs| && cs[r] == PARENT
    requires w > 0 && Normalise([], cs[..r])[w - 1] != PARENT && now == ptrs[w := NULL]
    ensures Halfway(m, now, cs, w - 1, r + 1)
  {
    var stack := Normalise([], cs[..r]);
    NextStack(cs, r);
    PointToAt(m, ptrs, cs, w, r);
    SlicesUp(ptrs, now, w, r, |cs|);
    PointToFewer(m, ptrs[..w], stack, w - 1);
    RestOfPieces(m, ptrs, now, cs, r);
    Joins(m, now, cs, w - 1, r + 1, ptrs[..w][..w - 1], stack[..w - 1]);
  }

  lemma SlicesUp(ptrs: seq<int>, now: seq<int>, w: int, r: int, n: int)
    requires 0 < w <= r < n < |ptrs| && now == ptrs[w := NULL]
    ensures now[..w - 1] == ptrs[..w][..w - 1]
    ensures now[r + 1..n] == ptrs[r + 1..n]
  {
  }

  lemma Slices(ptrs: seq<int>, now: seq<int>, w: int, r: int, n: int)
    requires 0 <= w <= r < n < |ptrs| && now == ptrs[w := ptrs[r]]
    ensures now[..w + 1] == ptrs[..w] + [ptrs[r]]
    ensures now[r + 1..n] == ptrs[r + 1..n]
  {
  }

  lemma PointToMore(m: seq<char>, ptrs: seq<int>, pieces: seq<string>, p: int, c: string)
    requires PointTo(m, ptrs, pieces) && IsCString(m, p) && CString(m, p) == c
    ensures PointTo(m, ptrs + [p], pieces + [c])
  {
  }

  lemma Joins(m: seq<char>, now: seq<int>, cs: seq<string>, w: int, r: int, start: seq<int>, stack: seq<string>)
    requires 0 <= w <= r <= |cs| < |now| && now[..w] == start && Normalise([], cs[..r]) == stack
    requires PointTo(m, start, stack) && PointTo(m, now[r..|cs|], cs[r..])
    ensures Halfway(m, now, cs, w, r)
  {
  }

  lemma StepDown(m: seq<char>, ptrs: seq<int>, now: seq<int>, cs: seq<string>, w: int, r: int)
    requires Halfway(m, ptrs, cs, w, r) && r < |cs| && !Skipped(cs[r])
    requires cs[r] == PARENT ==> w == 0 || Normalise([], cs[..r])[w - 1] == PARENT
    requires now == ptrs[w := ptrs[r]]
    ensures Halfway(m, now, cs, w + 1, r + 1)
  {
    var stack := Normalise([], cs[..r]);
    NextStack(cs, r);
    PointToAt(m, ptrs, cs, w, r);
    Slices(ptrs, now, w, r, |cs|);
    PointToMore(m, ptrs[..w], stack, ptrs[r], cs[r]);
    RestOfPieces(m, ptrs, now, cs, r);
    Joins(m, now, cs, w + 1, r + 1, ptrs[..w] + [ptrs[r]], stack + [cs[r]]);
  }

  lemma Whole(m: seq<char>, ptrs: seq<int>, cs: seq<string>)
    requires |ptrs| > |cs| && PointTo(m, ptrs[..|cs|], cs)
    ensures Halfway(m, ptrs, cs, 0, 0)
  {
    assert cs[..0] == [] && cs[0..] == cs;
    assert ptrs[0..|cs|] == ptrs[..|cs|];
  }

  lemma HalfwayDone(m: seq<char>, ptrs: seq<int>, cs: seq<string>, w: int)
    requires Halfway(m, ptrs, cs, w, |cs|)
    ensures PointTo(m, ptrs[..w], Normalise([], cs))
  {
    assert cs[..|cs|] == cs;
  }

  /** The read index is past the end once the write index is. */
  lemma BothDone(m: seq<char>, ptrs: seq<int>, cs: seq<string>, w: int, r: int)
    requires Halfway(m, ptrs, cs, w, r)
    ensures 0 <= w <= r <= |cs|
  {
  }

  lemma LastIsNull(m: seq<char>, ptrs: seq<int>, cs: seq<string>, w: int, r: int)
    requires Halfway(m, ptrs, cs, w, r) && ptrs[|cs|] == NULL
    ensures ptrs[r] == NULL <==> r == |cs|
  {
    PointToAt(m, ptrs, cs, w, r);
  }

  lemma BlankString(m: seq<char>, p: int)
    requires IsCString(m, p)
    ensures CString(m, p) == "" <==> m[p] == NUL
  {
  }

  /** Passes over blank components and "."; true when it runs on to the NULL after
      the last component. */
  method PassBlanks(comps: array<int>, mem: array<char>, current: array<char>, from: int,
                    ghost m: seq<char>, ghost cs: seq<string>, ghost w: int)
    returns (end: bool, r: int)
    requires mem[..] == m && Halfway(m, comps[..], cs, w, from) && from < |cs| && comps[|cs|] == NULL
    requires Holds(current[..], CURRENT)
    ensures from <= r <= |cs| && Halfway(m, comps[..], cs, w, r)
    ensures end ==> Skipped(cs[|cs| - 1])
    ensures !end ==> r < |cs| && !Skipped(cs[r])
  {
    r := from;
    while true
      invariant from <= r < |cs| && Halfway(m, comps[..], cs, w, r)
      decreases |cs| - r
    {
      PointToAt(m, comps[..], cs, w, r);
      BlankString(m, comps[r]);
      var d := Strcmp(mem, comps[r], current, 0);
      if mem[comps[r]] != NUL && d != 0 {
        return false, r;
      }
      PassOver(m, comps[..], cs, w, r);
      r := r + 1;
      LastIsNull(m, comps[..], cs, w, r);
      if comps[r] == NULL {
        return true, r;
      }
    }
  }

  /** One component that is not passed over. */
  method EnterComponent(comps: array<int>, mem: array<char>, parent: array<char>, w: int, r: int,
                        ghost m: seq<char>, ghost cs: seq<string>)
    returns (next: int)
    requires mem[..] == m && Halfway(m, comps[..], cs, w, r) && r < |cs| && !Skipped(cs[r])
    requires Holds(parent[..], PARENT)
    modifies comps
    ensures Halfway(m, comps[..], cs, next, r + 1) && comps[|cs|] == old(comps[|cs|])
  {
    ghost var ptrs := comps[..];
    PointToAt(m, ptrs, cs, w, r);
    var d := Strcmp(mem, comps[r], parent, 0);
    if d == 0 {
      var top := 0;
      if w > 0 {
        top := Strcmp(mem, comps[w - 1], parent, 0);
      }
      if w == 0 || top == 0 {
        comps[w] := comps[r];
        StepDown(m, ptrs, comps[..], cs, w, r);
        next := w + 1;
      } else {
        comps[w] := NULL;
        StepUp(m, ptrs, comps[..], cs, w, r);
        next := w - 1;
      }
    } else {
      comps[w] := comps[r];
      StepDown(m, ptrs, comps[..], cs, w, r);
      next := w + 1;
    }
  }

  predicate Holds(m: seq<char>, s: string) {
    IsCString(m, 0) && CString(m, 0) == s
  }

  method Literal(s: string) returns (a: array<char>)
    requires NUL !in s
    ensures fresh(a) && Holds(a[..], s)
  {
    a := new char[|s| + 1](i => if 0 <= i < |s| then s[i] else NUL);
    assert a[..|s|] == s;
    StoredIsCString(a[..], 0, s);
  }

  /** The body of the component loop: the next component that is not passed over;
      true when there is none. */
  method NextComponent(comps: array<int>, mem: array<char>, current: array<char>, parent: array<char>, w: int, r: int,
                       ghost m: seq<char>, ghost cs: seq<string>)
    returns (end: bool, nextW: int, nextR: int)
    requires mem[..] == m && Halfway(m, comps[..], cs, w, r) && r < |cs| && comps[|cs|] == NULL
    requires Holds(current[..], CURRENT) && Holds(parent[..], PARENT)
    modifies comps
    ensures end ==> Skipped(cs[|cs| - 1])
    ensures !end ==> 0 <= nextW <= nextR && r < nextR <= |cs| && !Skipped(cs[nextR - 1]) &&
                     Halfway(m, comps[..], cs, nextW, nextR) && comps[|cs|] == NULL
  {
    end, nextR := PassBlanks(comps, mem, current, r, m, cs, w);
    nextW := w;
    if !end {
      nextW := EnterComponent(comps, mem, parent, w, nextR, m, cs);
      nextR := nextR + 1;
      BothDone(m, comps[..], cs, nextW, nextR);
    }
  }

  /** The component loop. The write index never passes the read index; the first
      `count` entries come to lead to the normalised components, unless the reading
      runs on to the NULL after the last one. */
  method NormaliseInPlace(comps: array<int>, mem: array<char>, n: int, ghost cs: seq<string>)
    returns (outcome: Outcome, count: int)
    requires n == |cs| >= 1 && comps.Length > n && PointTo(mem[..], comps[..n], cs) && comps[n] == NULL
    modifies comps
    ensures outcome == NullRead <==> Skipped(cs[n - 1])
    ensures outcome != NullRead ==>
              outcome == Returned(0) && 0 <= count <= n && PointTo(mem[..], comps[..count], Normalise([], cs))
  {
    ghost var m := mem[..];
    var current := Literal(CURRENT);
    var parent := Literal(PARENT);
    Whole(m, comps[..], cs);
    var end, w := NormaliseLoop(comps, mem, current, parent, n, m, cs);
    if end {
      return NullRead, 0;
    }
    HalfwayDone(m, comps[..], cs, w);
    return Returned(0), w;
  }

  /** Its loop; true when the reading runs on to the NULL. */
  method NormaliseLoop(comps: array<int>, mem: array<char>, current: array<char>, parent: array<char>, n: int,
                       ghost m: seq<char>, ghost cs: seq<string>)
    returns (end: bool, w: int)
    requires mem[..] == m && n == |cs| >= 1 && Halfway(m, comps[..], cs, 0, 0) && comps[n] == NULL
    requires Holds(current[..], CURRENT) && Holds(parent[..], PARENT)
    modifies comps
    ensures end <==> Skipped(cs[n - 1])
    ensures !end ==> 0 <= w <= n && Halfway(m, comps[..], cs, w, n)
  {
    var r := 0;
    w, end := 0, false;
    while w < n && r < n
      invariant 0 <= w <= r <= n && Halfway(m, comps[..], cs, w, r) && comps[n] == NULL
      invariant r == n ==> !Skipped(cs[n - 1])
      decreases n - r
    {
      end, w, r := NextComponent(comps, mem, current, parent, w, r, m, cs);
      if end {
        return;
      }
    }
  }

  /** The joining loop. */
  method JoinComponents(absPath: array<char>, comps: array<int>, mem: array<char>, count: int, ghost stack: seq<string>)
    requires absPath != mem && 0 <= count <= comps.Length && PointTo(mem[..], comps[..count], stack)
    requires absPath.Length > |Render(stack)|
    modifies absPath
    ensures Stored(absPath[..], 0, Render(stack))
  {
    ghost var m := mem[..];
    var slash := Literal([SLASH]);
    absPath[0] := NUL;
    var i := 0;
    while i < count
      invariant 0 <= i <= count && mem[..] == m && PointTo(m, comps[..count], stack)
      invariant fresh(slash) && Holds(slash[..], [SLASH])
      invariant Stored(absPath[..], 0, Render(stack[..i]))
    {
      RenderPrefix(stack, i);
      assert comps[..count][i] == comps[i];
      ghost var before := Render(stack[..i]);
      Strcat(absPath, slash, 0, before);
      Strcat(absPath, mem, comps[i], before + [SLASH]);
      ConcatAssociates(before, [SLASH], stack[i]);
      i := i + 1;
    }
    assert stack[..count] == stack;
  }

  /** cwd followed by path, in a buffer of its own. */
  method Untranslate(cwd: array<char>, path: array<char>) returns (a: array<char>)
    requires IsCString(cwd[..], 0) && IsCString(path[..], 0)
    requires |CString(cwd[..], 0)| + |CString(path[..], 0)| < MAX_PATH
    ensures fresh(a) && Holds(a[..], CString(cwd[..], 0) + CString(path[..], 0))
  {
    ghost var c, p := CString(cwd[..], 0), CString(path[..], 0);
    a := new char[MAX_PATH];
    a[0] := NUL;
    Strcat(a, cwd, 0, "");
    assert "" + c == c;
    Strcat(a, path, 0, c);
    StoredIsCString(a[..], 0, c + p);
  }

  /** Cutting, normalising and joining a concatenation that starts with a slash. */
  method Resolve(absPath: array<char>, untranslate: array<char>, tokenizer: Tokenizer, ghost text: string)
    returns (outcome: Outcome)
    requires absPath != untranslate && absPath.Length >= MAX_PATH && tokenizer.Fresh()
    requires Holds(untranslate[..], text) && |text| < MAX_PATH && text != "" && text[0] == SLASH
    requires |Split(text, [SLASH])| < MAX_DEPTH
    modifies absPath, untranslate, tokenizer
    ensures tokenizer.Fresh() && !Resolved(text).Error?
    ensures outcome == NullRead <==> Resolved(text).Fault?
    ensures Resolved(text).Path? ==> outcome == Returned(0) && Stored(absPath[..], 0, Resolved(text).s)
  {
    var comps := new int[MAX_DEPTH];
    ghost var cs := Split(text, [SLASH]);
    var count := tokenizer.SpiltStrings(untranslate, comps, 0, [SLASH]);
    assert |comps[..count]| == |cs|;
    outcome, count := NormaliseInPlace(comps, untranslate, count, cs);
    if outcome != NullRead {
      ResolvedFits(text);
      JoinComponents(absPath, comps, untranslate, count, Normalise([], cs));
    }
  }

  lemma ResolvedFits(text: string)
    requires text != "" && text[0] == SLASH && Resolved(text).Path?
    ensures |Resolved(text).s| <= |text|
  {
    var cs := Split(text, [SLASH]);
    FirstDelimiterIs(text, [SLASH], 0);
    JoinSplit(text, SLASH);
    JoinWeight(cs, SLASH);
    NormaliseWeight([], cs[1..]);
    RenderWeight(Normalise([], cs));
  }

  /** The path, or where cwd comes into it the two together, fit the buffers. */
  predicate FitsBuffers(cwd: string, path: string) {
    |path| < MAX_PATH &&
    ((path == "" || path[0] != SLASH) && ProperCwd(cwd) ==>
       |cwd| + |path| < MAX_PATH && |Components(cwd, path)| < MAX_DEPTH)
  }

  /** `to_abs_path`, for strings that fit its buffers. */
  method ToAbsPath(absPath: array<char>, cwd: array<char>, path: array<char>, tokenizer: Tokenizer)
    returns (outcome: Outcome)
    requires absPath != cwd && absPath != path && absPath.Length >= MAX_PATH && tokenizer.Fresh()
    requires IsCString(cwd[..], 0) && IsCString(path[..], 0)
    requires FitsBuffers(CString(cwd[..], 0), CString(path[..], 0))
    modifies absPath, tokenizer
    ensures tokenizer.Fresh()
    ensures var r := AbsPath(old(CString(cwd[..], 0)), old(CString(path[..], 0)));
            match r
            case Fault => outcome == NullRead
            case Error => outcome == Returned(1) && absPath[..] == old(absPath[..])
            case Path(s) => outcome == Returned(0) && Stored(absPath[..], 0, s)
  {
    ghost var c, p := CString(cwd[..], 0), CString(path[..], 0);
    if path[0] == SLASH {
      Strcpy(absPath, path, 0);
      return Returned(0);
    }
    var length := Strlen(cwd, 0);
    if cwd[0] != SLASH || cwd[length - 1] != SLASH {
      return Returned(1);
    }
    assert ProperCwd(c) && (c + p)[0] == SLASH;
    var untranslate := Untranslate(cwd, path);
    outcome := Resolve(absPath, untranslate, tokenizer, c + p);
  }
}
