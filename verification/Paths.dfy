/** Path normalisation: what `to_abs_path` of lib/vfs.c computes, as a stack over
    the components, and how changing directory composes. */
module Paths {
  import opened Sequences
  import opened Strings

  const SLASH: char := '/'
  const CURRENT: string := "."
  const PARENT: string := ".."

  /** Components that are passed over. */
  predicate Skipped(c: string) {
    c == "" || c == CURRENT
  }

  /** One component: nothing, a step up, or a step down. */
  function Enter(stack: seq<string>, c: string): (r: seq<string>)
    ensures |r| <= |stack| + 1
  {
    if Skipped(c) then stack
    else if c == PARENT && stack != [] && stack[|stack| - 1] != PARENT then stack[..|stack| - 1]
    else stack + [c]
  }

  function Normalise(stack: seq<string>, comps: seq<string>): (r: seq<string>)
    decreases |comps|
  {
    if comps == [] then stack else Normalise(Enter(stack, comps[0]), comps[1..])
  }

  /** Each component with a slash in front; the root is the empty string. */
  function Render(comps: seq<string>): (s: string) {
    if comps == [] then "" else [SLASH] + comps[0] + Render(comps[1..])
  }

  // ------------------------------------------------------------ the fold laws

  lemma {:induction false} NormaliseConcat(stack: seq<string>, a: seq<string>, b: seq<string>)
    ensures Normalise(stack, a + b) == Normalise(Normalise(stack, a), b)
    decreases |a|
  {
    if a == [] {
      assert a + b == b;
    } else {
      assert (a + b)[1..] == a[1..] + b;
      NormaliseConcat(Enter(stack, a[0]), a[1..], b);
    }
  }

  lemma NormaliseSnoc(stack: seq<string>, a: seq<string>, c: string)
    ensures Normalise(stack, a + [c]) == Enter(Normalise(stack, a), c)
  {
    NormaliseConcat(stack, a, [c]);
    assert [c][1..] == [];
  }

  /** A run of ".." and then plain names. */
  predicate Canonical(comps: seq<string>) {
    forall i | 0 <= i < |comps| :: !Skipped(comps[i]) && (comps[i] == PARENT && i > 0 ==> comps[i - 1] == PARENT)
  }

  lemma {:induction false} NormaliseCanonical(stack: seq<string>, comps: seq<string>)
    requires Canonical(stack)
    ensures Canonical(Normalise(stack, comps))
    decreases |comps|
  {
    if comps != [] {
      NormaliseCanonical(Enter(stack, comps[0]), comps[1..]);
    }
  }

  /** Canonical components are left as they are; so normalising is idempotent. */
  lemma {:induction false} CanonicalIsFixed(stack: seq<string>, comps: seq<string>)
    requires Canonical(stack + comps)
    ensures Normalise(stack, comps) == stack + comps
    decreases |comps|
  {
    if comps == [] {
      assert stack + comps == stack;
    } else {
      var all := stack + comps;
      assert all[|stack|] == comps[0];
      assert stack != [] ==> all[|stack| - 1] == stack[|stack| - 1];
      assert Enter(stack, comps[0]) == stack + [comps[0]];
      assert (stack + [comps[0]]) + comps[1..] == all;
      CanonicalIsFixed(stack + [comps[0]], comps[1..]);
    }
  }

  lemma NormaliseIdempotent(comps: seq<string>)
    ensures Normalise([], Normalise([], comps)) == Normalise([], comps)
  {
    NormaliseCanonical([], comps);
    var n := Normalise([], comps);
    assert [] + n == n;
    CanonicalIsFixed([], n);
  }

  // ------------------------------------------------------ strings and lengths

  predicate NoSlash(comps: seq<string>) {
    forall i | 0 <= i < |comps| :: SLASH !in comps[i]
  }

  lemma {:induction false} NormaliseNoSlash(stack: seq<string>, comps: seq<string>)
    requires NoSlash(stack) && NoSlash(comps)
    ensures NoSlash(Normalise(stack, comps))
    decreases |comps|
  {
    if comps != [] {
      NormaliseNoSlash(Enter(stack, comps[0]), comps[1..]);
    }
  }

  lemma SplitNoSlash(s: string)
    ensures NoSlash(Split(s, [SLASH]))
  {
    forall k | 0 <= k < |Split(s, [SLASH])| ensures SLASH !in Split(s, [SLASH])[k] {
      SplitPieces(s, [SLASH], k);
    }
  }

  lemma {:induction false} RenderIsJoin(comps: seq<string>)
    ensures Render(comps) == Join([""] + comps, SLASH)
    decreases |comps|
  {
    if comps == [] {
      assert [""] + comps == [""];
    } else {
      RenderIsJoin(comps[1..]);
      var all := [""] + comps;
      assert all[1..] == comps;
      assert Join(all, SLASH) == [SLASH] + Join(comps, SLASH);
      if |comps| == 1 {
        assert comps[0] + Render(comps[1..]) == comps[0];
      } else {
        assert ([""] + comps[1..])[1..] == comps[1..];
        assert Render(comps[1..]) == [SLASH] + Join(comps[1..], SLASH);
      }
    }
  }

  /** Splitting a rendered path gives its components, after an empty one. */
  lemma SplitRender(comps: seq<string>)
    requires NoSlash(comps)
    ensures Split(Render(comps), [SLASH]) == [""] + comps
  {
    RenderIsJoin(comps);
    SplitJoin([""] + comps, SLASH);
  }

  /** Bytes of the components, each with a slash. */
  function Weight(comps: seq<string>): (w: int)
    ensures w >= 0
  {
    if comps == [] then 0 else |comps[0]| + 1 + Weight(comps[1..])
  }

  lemma {:induction false} WeightConcat(a: seq<string>, b: seq<string>)
    ensures Weight(a + b) == Weight(a) + Weight(b)
    decreases |a|
  {
    if a == [] {
      assert a + b == b;
    } else {
      assert (a + b)[1..] == a[1..] + b;
      WeightConcat(a[1..], b);
    }
  }

  lemma {:induction false} NormaliseWeight(stack: seq<string>, comps: seq<string>)
    ensures Weight(Normalise(stack, comps)) <= Weight(stack) + Weight(comps)
    decreases |comps|
  {
    if comps != [] {
      var c := comps[0];
      if Enter(stack, c) == stack + [c] {
        WeightConcat(stack, [c]);
      } else if stack != [] && Enter(stack, c) == stack[..|stack| - 1] {
        WeightConcat(stack[..|stack| - 1], stack[|stack| - 1..]);
        assert stack == stack[..|stack| - 1] + stack[|stack| - 1..];
      }
      NormaliseWeight(Enter(stack, c), comps[1..]);
    }
  }

  lemma {:induction false} JoinWeight(ps: seq<string>, c: char)
    requires |ps| >= 1
    ensures |Join(ps, c)| + 1 == Weight(ps)
    decreases |ps|
  {
    if |ps| > 1 {
      JoinWeight(ps[1..], c);
    }
  }

  lemma {:induction false} RenderWeight(comps: seq<string>)
    ensures |Render(comps)| == Weight(comps)
    decreases |comps|
  {
    if comps != [] {
      RenderWeight(comps[1..]);
    }
  }

  // -------------------------------------------------------------- to_abs_path

  datatype Result = Fault | Error | Path(s: string)

  predicate ProperCwd(cwd: string) {
    cwd != "" && cwd[0] == SLASH && cwd[|cwd| - 1] == SLASH
  }

  /** The components that cwd and a relative path are cut into. */
  function Components(cwd: string, path: string): (cs: seq<string>)
    ensures |cs| >= 1
  {
    Split(cwd + path, [SLASH])
  }

  /** Cutting, normalising and joining. After a last component that is passed
      over, the code runs off the component array. */
  function Resolved(text: string): (r: Result) {
    var cs := Split(text, [SLASH]);
    if Skipped(cs[|cs| - 1]) then Fault else Path(Render(Normalise([], cs)))
  }

  /** `to_abs_path`. An absolute path is copied as it stands. */
  function AbsPath(cwd: string, path: string): (r: Result) {
    if path != "" && path[0] == SLASH then Path(path)
    else if !ProperCwd(cwd) then Error
    else Resolved(cwd + path)
  }

  /** "." and "a/" run off the array, from any proper cwd. */
  lemma RunsOffSample(cwd: string)
    requires ProperCwd(cwd)
    ensures AbsPath(cwd, ".").Fault? && AbsPath(cwd, "a/").Fault?
  {
    var n := |cwd| - 1;
    assert cwd + "." == cwd[..n] + [SLASH] + "." && cwd + "a/" == (cwd + "a") + [SLASH] + "";
    LastOfSplit(cwd[..n], SLASH, ".");
    LastOfSplit(cwd + "a", SLASH, "");
    FirstDelimiterIs(".", [SLASH], 1);
    FirstDelimiterIs("", [SLASH], 0);
  }

  /** A relative path that ends in a real component gives a canonical absolute
      path, no longer than what it was made of. */
  lemma AbsPathCanonical(cwd: string, path: string)
    requires ProperCwd(cwd) && (path == "" || path[0] != SLASH) && AbsPath(cwd, path).Path?
    ensures var n := Normalise([], Components(cwd, path));
            Canonical(n) && NoSlash(n) && AbsPath(cwd, path).s == Render(n) &&
            Split(AbsPath(cwd, path).s, [SLASH]) == [""] + n && |AbsPath(cwd, path).s| <= |cwd| + |path|
  {
    var cs := Components(cwd, path);
    NormaliseCanonical([], cs);
    SplitNoSlash(cwd + path);
    NormaliseNoSlash([], cs);
    SplitRender(Normalise([], cs));
    FirstIsEmpty(cwd, path);
    JoinSplit(cwd + path, SLASH);
    JoinWeight(cs, SLASH);
    NormaliseWeight([], cs[1..]);
    RenderWeight(Normalise([], cs));
  }

  lemma FirstIsEmpty(cwd: string, path: string)
    requires ProperCwd(cwd)
    ensures Components(cwd, path)[0] == "" &&
            Normalise([], Components(cwd, path)) == Normalise([], Components(cwd, path)[1..])
  {
    FirstDelimiterIs(cwd + path, [SLASH], 0);
  }

  // -------------------------------------------------------- changing directory

  /** `sysc_chdir` when the lookup of the absolute path succeeds: the new cwd. */
  function ChangedTo(abs: string): (cwd: string)
    requires abs != ""
  {
    if abs[|abs| - 1] != SLASH then abs + [SLASH] else abs
  }

  /** A relative directory entered from a proper cwd gives a proper cwd again. */
  lemma ChangedIsProper(cwd: string, a: string)
    requires ProperCwd(cwd) && (a == "" || a[0] != SLASH) && AbsPath(cwd, a).Path? && AbsPath(cwd, a).s != ""
    ensures ProperCwd(ChangedTo(AbsPath(cwd, a).s))
    ensures ChangedTo(AbsPath(cwd, a).s) == AbsPath(cwd, a).s + [SLASH]
  {
    AbsPathCanonical(cwd, a);
    var n := Normalise([], Components(cwd, a));
    LastNotSlash(n);
  }

  lemma {:induction false} LastNotSlash(comps: seq<string>)
    requires comps != [] && NoSlash(comps) && Canonical(comps)
    ensures Render(comps) != "" && Render(comps)[0] == SLASH && Render(comps)[|Render(comps)| - 1] != SLASH
    decreases |comps|
  {
    var c := comps[|comps| - 1];
    if |comps| == 1 {
      assert Render(comps) == [SLASH] + c;
    } else {
      forall i | 0 <= i < |comps[1..]| ensures comps[1..][i] == comps[i + 1] {
      }
      LastNotSlash(comps[1..]);
    }
  }

  /** The components a path stands for. */
  function Walk(path: string): (comps: seq<string>) {
    Normalise([], Split(path, [SLASH]))
  }

  /** Walking an absolute path, and then on along a relative one. */
  lemma WalkOn(a: string, b: string)
    ensures Walk(a + [SLASH] + b) == Normalise(Walk(a), Split(b, [SLASH]))
  {
    SplitConcat(a, b, SLASH);
    NormaliseConcat([], Split(a, [SLASH]), Split(b, [SLASH]));
  }

  lemma {:induction false} LastOfSplit(s: string, c: char, b: string)
    ensures var ps, qs := Split(s + [c] + b, [c]), Split(b, [c]); ps[|ps| - 1] == qs[|qs| - 1]
  {
    SplitConcat(s, b, c);
  }

  /** A trailing slash adds nothing. */
  lemma WalkSlash(a: string)
    ensures Walk(a + [SLASH]) == Walk(a)
  {
    assert a + [SLASH] + "" == a + [SLASH];
    WalkOn(a, "");
    assert Split("", [SLASH]) == [""];
    NormaliseSnoc([], Split(a, [SLASH]), "");
    NormaliseConcat([], Split(a, [SLASH]), [""]);
  }

  /** Walking a rendered canonical path gives its components. */
  lemma WalkRender(n: seq<string>)
    requires Canonical(n) && NoSlash(n)
    ensures Walk(Render(n)) == n
  {
    SplitRender(n);
    assert ([""] + n)[1..] == n;
    assert [] + n == n;
    CanonicalIsFixed([], n);
  }

  /** What the pieces qs lead to from the directories of a stack. */
  function Below(stack: seq<string>, qs: seq<string>): (r: Result)
    requires qs != []
  {
    if Skipped(qs[|qs| - 1]) then Fault else Path(Render(Normalise(stack, qs)))
  }

  /** Resolving b below x. */
  lemma ResolvedBelow(x: string, b: string)
    ensures Resolved(x + [SLASH] + b) == Below(Walk(x), Split(b, [SLASH]))
  {
    LastOfSplit(x, SLASH, b);
    WalkOn(x, b);
  }

  lemma Regroup(cwd: string, a: string, b: string)
    ensures cwd + (a + [SLASH] + b) == (cwd + a) + [SLASH] + b
  {
  }

  lemma Joined(cwd: string, a: string, b: string)
    requires ProperCwd(cwd) && a != "" && a[0] != SLASH
    ensures AbsPath(cwd, a + [SLASH] + b) == Resolved((cwd + a) + [SLASH] + b)
  {
    var joined := a + [SLASH] + b;
    assert joined[0] == a[0];
    Regroup(cwd, a, b);
  }

  /** Changing directory by a relative a and resolving b there is resolving a/b
      here, */
  lemma ChdirComposes(cwd: string, a: string, b: string)
    requires ProperCwd(cwd) && a != "" && a[0] != SLASH && b != "" && b[0] != SLASH
    requires AbsPath(cwd, a).Path? && AbsPath(cwd, a).s != ""
    ensures AbsPath(ChangedTo(AbsPath(cwd, a).s), b) == AbsPath(cwd, a + [SLASH] + b)
  {
    var r := AbsPath(cwd, a).s;
    ChangedIsProper(cwd, a);
    AbsPathCanonical(cwd, a);
    WalkRender(Normalise([], Components(cwd, a)));
    ResolvedBelow(r, b);
    Joined(cwd, a, b);
    ResolvedBelow(cwd + a, b);
  }

  /** and for an absolute a, which is kept as it stands, both give paths with the
      same components; as text they agree just when a/b was canonical already. */
  lemma ChdirAbsolute(cwd: string, a: string, b: string)
    requires a != "" && a[0] == SLASH && b != "" && b[0] != SLASH && AbsPath(ChangedTo(a), b).Path?
    ensures ProperCwd(ChangedTo(a)) && AbsPath(cwd, a + [SLASH] + b) == Path(a + [SLASH] + b)
    ensures Walk(AbsPath(ChangedTo(a), b).s) == Walk(a + [SLASH] + b)
    ensures AbsPath(ChangedTo(a), b) == AbsPath(cwd, a + [SLASH] + b) <==>
            a + [SLASH] + b == Render(Walk(a + [SLASH] + b))
  {
    var d := if a[|a| - 1] == SLASH then a[..|a| - 1] else a;
    assert ChangedTo(a) == d + [SLASH];
    if a[|a| - 1] == SLASH {
      assert a == d + [SLASH];
      WalkSlash(d);
    }
    AbsPathCanonical(ChangedTo(a), b);
    WalkRender(Normalise([], Components(ChangedTo(a), b)));
    WalkOn(d, b);
    WalkOn(a, b);
  }

  // ------------------------------------------------ what the components do, as text

  /** Below the cwd c + "/". */
  lemma BelowCwd(cwd: string, path: string) returns (c: string)
    requires ProperCwd(cwd) && (path == "" || path[0] != '/')
    ensures cwd == c + "/" && AbsPath(cwd, path) == Resolved(c + [SLASH] + path)
  {
    c := cwd[..|cwd| - 1];
    assert cwd + path == c + [SLASH] + path;
  }

  lemma Slashes(x: string, y: string, b: string)
    ensures x + "/" + y + "/" + b == x + [SLASH] + (y + [SLASH] + b)
  {
  }

  lemma TwoPieces(x: string, y: string, b: string)
    requires '/' !in x && '/' !in y
    ensures Split(x + [SLASH] + (y + [SLASH] + b), [SLASH]) == [x, y] + Split(b, [SLASH])
  {
    var rest := y + [SLASH] + b;
    SplitHead(x, rest, SLASH);
    SplitHead(y, b, SLASH);
    assert [x] + ([y] + Split(b, [SLASH])) == [x, y] + Split(b, [SLASH]);
  }

  /** The directories of a cwd that ends in a slash. */
  function Dirs(cwd: string): seq<string>
    requires cwd != ""
  {
    Walk(cwd[..|cwd| - 1])
  }

  /** Two pieces that lead back to where they start change nothing. */
  lemma PiecesUndone(cwd: string, x: string, y: string, b: string)
    requires ProperCwd(cwd) && x != "" && '/' !in x && '/' !in y && (b == "" || b[0] != '/')
    requires Enter(Enter(Dirs(cwd), x), y) == Dirs(cwd)
    ensures AbsPath(cwd, x + "/" + y + "/" + b) == AbsPath(cwd, b)
  {
    var p := x + "/" + y + "/" + b;
    Slashes(x, y, b);
    assert p[0] == x[0];
    var c := BelowCwd(cwd, p);
    var d := BelowCwd(cwd, b);
    assert c == cwd[..|cwd| - 1] == d;
    PiecesResolved(c, x, y, b, p);
  }

  lemma PiecesResolved(c: string, x: string, y: string, b: string, p: string)
    requires '/' !in x && '/' !in y && p == x + [SLASH] + (y + [SLASH] + b)
    requires Enter(Enter(Walk(c), x), y) == Walk(c)
    ensures Resolved(c + [SLASH] + p) == Resolved(c + [SLASH] + b)
  {
    ResolvedBelow(c, p);
    ResolvedBelow(c, b);
    TwoPieces(x, y, b);
    BelowUndone(Walk(c), x, y, Split(b, [SLASH]));
  }

  lemma BelowUndone(stack: seq<string>, x: string, y: string, qs: seq<string>)
    requires Enter(Enter(stack, x), y) == stack && qs != []
    ensures Below(stack, [x, y] + qs) == Below(stack, qs)
  {
    assert ([x, y] + qs)[|qs| + 1] == qs[|qs| - 1];
    NormaliseConcat(stack, [x, y], qs);
    NormaliseTwo(stack, x, y);
  }

  lemma NormaliseTwo(stack: seq<string>, x: string, y: string)
    ensures Normalise(stack, [x, y]) == Enter(Enter(stack, x), y)
  {
    NormaliseSnoc(stack, [], x);
    NormaliseSnoc(stack, [x], y);
    assert [] + [x] == [x] && [x] + [y] == [x, y];
  }

  predicate PlainName(x: string) {
    x != "" && x != "." && x != ".." && '/' !in x
  }

  /** ".." undoes the name in front of it. */
  lemma ParentUndoes(cwd: string, x: string, b: string)
    requires ProperCwd(cwd) && PlainName(x) && (b == "" || b[0] != '/')
    ensures AbsPath(cwd, x + "/../" + b) == AbsPath(cwd, b)
  {
    assert (Dirs(cwd) + [x])[..|Dirs(cwd)|] == Dirs(cwd);
    PiecesUndone(cwd, x, "..", b);
    assert x + "/" + ".." + "/" + b == x + "/../" + b;
  }

  /** So from below the cwd "../" leads to what is in it, */
  lemma ParentOfCwd(cwd: string, x: string, b: string)
    requires ProperCwd(cwd) && PlainName(x) && (b == "" || b[0] != '/')
    ensures AbsPath(cwd + x + "/", "../" + b) == AbsPath(cwd, b)
  {
    ParentUndoes(cwd, x, b);
    assert (x + "/../" + b)[0] == x[0];
    assert (cwd + x + "/") + ("../" + b) == cwd + (x + "/../" + b);
  }

  /** but at the root it is kept. */
  lemma ParentOfRoot()
    ensures AbsPath("/", "..") == Path("/..")
  {
    assert "/" + ".." == "" + [SLASH] + "..";
    ResolvedBelow("", "..");
    SplitWhole("..", SLASH);
    SplitWhole("", SLASH);
    assert [""][1..] == [] && [".."][1..] == [];
    assert Walk("") == [];
    assert Normalise([], [".."]) == [".."];
    assert Render([".."]) == "/..";
  }

  /** "." adds nothing, */
  lemma CurrentSkipped(cwd: string, b: string)
    requires ProperCwd(cwd) && (b == "" || b[0] != '/')
    ensures AbsPath(cwd, "././" + b) == AbsPath(cwd, b)
  {
    PiecesUndone(cwd, ".", ".", b);
    assert "." + "/" + "." + "/" + b == "././" + b;
  }

  /** and neither does a second slash. */
  lemma BlankSkipped(cwd: string, b: string)
    requires ProperCwd(cwd) && (b == "" || b[0] != '/')
    ensures AbsPath(cwd, ".//" + b) == AbsPath(cwd, b)
  {
    PiecesUndone(cwd, ".", "", b);
    assert "." + "/" + "" + "/" + b == ".//" + b;
  }

  /** A plain name is appended to a canonical directory. */
  lemma NameAppended(comps: seq<string>, x: string)
    requires NoSlash(comps) && Canonical(comps) && PlainName(x)
    ensures AbsPath(Render(comps) + "/", x) == Path(Render(comps) + "/" + x)
  {
    var c := Render(comps);
    RenderProper(comps);
    assert (c + "/") + x == c + [SLASH] + x;
    ResolvedBelow(c, x);
    SplitWhole(x, SLASH);
    WalkRender(comps);
    NormaliseSnoc(comps, [], x);
    assert [] + [x] == [x];
    RenderSnoc(comps, x);
    ConcatAssociates(c, "/", x);
  }

  lemma RenderProper(comps: seq<string>)
    ensures ProperCwd(Render(comps) + "/")
  {
  }

  /** Joining one component more. */
  lemma {:induction false} RenderSnoc(comps: seq<string>, c: string)
    ensures Render(comps + [c]) == Render(comps) + ([SLASH] + c)
    decreases |comps|
  {
    if comps == [] {
      assert [] + [c] == [c];
      assert [SLASH] + c + "" == [SLASH] + c;
    } else {
      assert (comps + [c])[1..] == comps[1..] + [c];
      RenderSnoc(comps[1..], c);
      ConcatAssociates([SLASH] + comps[0], Render(comps[1..]), [SLASH] + c);
    }
  }
}
