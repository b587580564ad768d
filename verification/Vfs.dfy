/** The directory tree of lib/vfs.c and lib/tmpfs.c as a value: nodes numbered in
    the order they were made, `entries` and `mount` holding node numbers. */
module Vfs {
  import opened Strings
  import opened Paths

  const MAX_ENTRY := 16

  datatype Kind = FileNode | Directory
  datatype Mount = NoMount | Mounted(root: nat)
  datatype Node = Node(name: string, kind: Kind, entries: seq<nat>, mount: Mount)
  type Fs = seq<Node>

  datatype Found = Missing | At(node: nat)
  datatype Made = Made(fs: Fs, found: Found)

  predicate EntriesOk(size: nat, entries: seq<nat>) {
    forall k | 0 <= k < |entries| :: entries[k] < size
  }

  /** Links lead to nodes, and nothing is mounted on a mounted root. */
  predicate NodeOk(fs: Fs, x: Node) {
    EntriesOk(|fs|, x.entries) &&
    (x.mount.Mounted? ==> x.mount.root < |fs| && fs[x.mount.root].mount.NoMount?)
  }

  predicate Ok(fs: Fs) {
    forall i | 0 <= i < |fs| :: NodeOk(fs, fs[i])
  }

  // ----------------------------------------------- the two splitters of a path

  /** One leading slash is skipped. */
  function Trim(path: string): (s: string)
    ensures |s| <= |path|
  {
    if path != "" && path[0] == SLASH then path[1..] else path
  }

  /** `first_component`: what is copied out. */
  function First(path: string): (c: string) {
    Trim(path)[..FirstDelimiter(Trim(path), [SLASH])]
  }

  /** What follows the first slash. */
  function Tail(s: string): (rest: string)
    ensures |rest| <= |s| && (s != "" ==> |rest| < |s|)
  {
    var i := FirstDelimiter(s, [SLASH]);
    if i < |s| then s[i + 1..] else ""
  }

  /** `pop_first_component`: what is left. */
  function Pop(path: string): (rest: string)
    ensures |rest| <= |path| && (path != "" ==> |rest| < |path|)
  {
    Tail(Trim(path))
  }

  /** The components that the recursion of `lookup_path` goes through. */
  function Popped(path: string): (comps: seq<string>)
    ensures |comps| >= 1
    decreases |path|
  {
    if Pop(path) == "" then [First(path)] else [First(path)] + Popped(Pop(path))
  }

  function NonBlank(comps: seq<string>): (r: seq<string>) {
    if comps == [] then [] else (if comps[0] == "" then [] else [comps[0]]) + NonBlank(comps[1..])
  }

  predicate NoneBlank(comps: seq<string>) {
    forall i | 0 <= i < |comps| :: comps[i] != ""
  }

  lemma {:induction false} NonBlankConcat(a: seq<string>, b: seq<string>)
    ensures NonBlank(a + b) == NonBlank(a) + NonBlank(b)
    decreases |a|
  {
    if a == [] {
      assert a + b == b;
    } else {
      assert (a + b)[1..] == a[1..] + b;
      NonBlankConcat(a[1..], b);
    }
  }

  lemma {:induction false} NonBlankIs(comps: seq<string>)
    ensures |NonBlank(comps)| <= |comps| && NoneBlank(NonBlank(comps))
    ensures NonBlank(comps) == comps <==> NoneBlank(comps)
    decreases |comps|
  {
    if comps != [] {
      NonBlankIs(comps[1..]);
      assert comps == [comps[0]] + comps[1..];
      if NoneBlank(comps[1..]) && comps[0] != "" {
        forall i | 0 <= i < |comps| ensures comps[i] != "" {
          assert i > 0 ==> comps[i] == comps[1..][i - 1];
        }
      } else if comps[0] != "" {
        var j :| 0 <= j < |comps[1..]| && comps[1..][j] == "";
        assert comps[j + 1] == "";
      }
    }
  }

  /** A leading slash only puts a blank piece in front. */
  lemma TrimAgrees(path: string)
    ensures NonBlank(Split(path, [SLASH])) == NonBlank(Split(Trim(path), [SLASH]))
  {
    var s := Trim(path);
    if s != path {
      assert "" + [SLASH] + s == path;
      SplitHead("", s, SLASH);
      NonBlankConcat([""], Split(s, [SLASH]));
    }
  }

  /** The first piece and the others. */
  lemma TailAgrees(s: string)
    ensures NonBlank(Split(s, [SLASH])) ==
              NonBlank([s[..FirstDelimiter(s, [SLASH])]]) +
              (if Tail(s) == "" then [] else NonBlank(Split(Tail(s), [SLASH])))
  {
    var i := FirstDelimiter(s, [SLASH]);
    if i < |s| {
      NonBlankConcat([s[..i]], Split(s[i + 1..], [SLASH]));
      if Tail(s) == "" {
        assert Split("", [SLASH]) == [""];
      }
    } else {
      assert s[..i] == s;
    }
  }

  /** On every path the two splitters agree but for blank components: what
      `lookup_path` looks up and what it makes are the same names, */
  lemma {:induction false} SplittersAgree(path: string)
    ensures NonBlank(Popped(path)) == NonBlank(Split(path, [SLASH]))
    decreases |path|
  {
    TrimAgrees(path);
    TailAgrees(Trim(path));
    if Pop(path) != "" {
      SplittersAgree(Pop(path));
      NonBlankConcat([First(path)], Popped(Pop(path)));
    }
  }

  predicate ThreeSlashes(s: string, i: int) {
    0 <= i <= |s| - 3 && s[i] == SLASH && s[i + 1] == SLASH && s[i + 2] == SLASH
  }

  predicate TwoAtEnd(s: string) {
    |s| >= 2 && s[|s| - 2] == SLASH && s[|s| - 1] == SLASH
  }

  predicate Tidy(s: string) {
    s != "" && s[0] != SLASH && !TwoAtEnd(s) &&
    forall i {:trigger ThreeSlashes(s, i)} | 0 <= i < |s| :: !ThreeSlashes(s, i)
  }

  /** Past one leading slash, the path is not empty and does not begin with a slash,
      has nowhere three slashes in a row, and does not end in two. */
  predicate TidyPath(path: string) {
    Tidy(Trim(path))
  }

  /** The rest of s from d on, when its first slash is at i: past that slash, and past
      another right after it. */
  predicate Behind(s: string, i: int, d: int) {
    0 < i < |s| - 1 && s[i] == SLASH && (forall k {:trigger s[k]} | 0 <= k < i :: s[k] != SLASH) &&
    d == if s[i + 1] == SLASH then i + 2 else i + 1
  }

  lemma TidyBehind(s: string, i: int, d: int)
    requires Behind(s, i, d) && Tidy(s)
    ensures Tidy(s[d..])
  {
    var r := s[d..];
    assert r != "" by {
      assert d == |s| ==> TwoAtEnd(s);
    }
    assert r[0] == s[d];
    assert d == i + 2 && s[d] == SLASH ==> ThreeSlashes(s, i);
    assert TwoAtEnd(r) ==> TwoAtEnd(s);
    forall k {:trigger ThreeSlashes(r, k)} ensures !ThreeSlashes(r, k) {
      assert !ThreeSlashes(s, d + k);
    }
  }

  lemma TidyBefore(s: string, i: int, d: int)
    requires Behind(s, i, d) && Tidy(s[d..])
    ensures Tidy(s)
  {
    var r := s[d..];
    assert s[d] == r[0] && s[|s| - 1] == r[|r| - 1];
    assert |r| >= 2 && TwoAtEnd(s) ==> TwoAtEnd(r);
    forall k {:trigger ThreeSlashes(s, k)} ensures !ThreeSlashes(s, k) {
      if ThreeSlashes(s, k) && k >= d {
        assert ThreeSlashes(r, k - d);
      }
    }
  }

  /** What follows the first slash of a path is as tidy as the path. */
  lemma TidyRest(s: string)
    requires s != "" && s[0] != SLASH && Tail(s) != ""
    ensures Tidy(s) <==> TidyPath(Tail(s))
  {
    var i := FirstDelimiter(s, [SLASH]);
    var d := if s[i + 1] == SLASH then i + 2 else i + 1;
    forall k {:trigger s[k]} | 0 <= k < i ensures s[k] != SLASH {
      assert s[k] !in [SLASH];
    }
    assert Trim(Tail(s)) == s[d..];
    if Tidy(s) {
      TidyBehind(s, i, d);
    }
    if Tidy(s[d..]) {
      TidyBefore(s, i, d);
    }
  }

  lemma TidyEnd(s: string)
    requires s != "" && s[0] != SLASH && Tail(s) == ""
    ensures Tidy(s)
  {
    var i := FirstDelimiter(s, [SLASH]);
    assert i >= |s| - 1;
    assert forall k | 0 <= k < i :: s[k] !in [SLASH];
    forall k {:trigger ThreeSlashes(s, k)} ensures !ThreeSlashes(s, k) {
      assert 0 <= k < i ==> s[k] !in [SLASH];
    }
  }

  lemma {:induction false} PoppedTidy(path: string)
    ensures NoneBlank(Popped(path)) <==> TidyPath(path)
    decreases |path|
  {
    var s, rest := Trim(path), Popped(path)[1..];
    assert First(path) == "" <==> s == "" || s[0] == SLASH;
    NoneBlankOn(First(path), rest);
    if First(path) != "" {
      if Pop(path) == "" {
        TidyEnd(s);
      } else {
        TidyRest(s);
        PoppedTidy(Pop(path));
      }
    }
  }

  lemma NoneBlankOn(c: string, rest: seq<string>)
    ensures NoneBlank([c] + rest) <==> c != "" && NoneBlank(rest)
  {
    var all := [c] + rest;
    assert all[0] == c && forall i | 0 <= i < |rest| :: all[i + 1] == rest[i];
    if c != "" && NoneBlank(rest) {
      forall i | 0 <= i < |all| ensures all[i] != "" {
        if i > 0 { assert all[i] == rest[i - 1]; }
      }
    }
  }

  /** so they agree entirely just on the tidy paths, among them every path that
      `to_abs_path` makes below the root. */
  lemma SplittersAgreeIff(path: string)
    ensures Popped(path) == NonBlank(Split(path, [SLASH])) <==> TidyPath(path)
    ensures NoneBlank(Popped(path)) <==> TidyPath(path)
  {
    SplittersAgree(path);
    NonBlankIs(Popped(path));
    PoppedTidy(path);
  }

  lemma HeadTail(c: string, rest: string)
    requires SLASH !in c && (rest == "" || rest[0] == SLASH)
    ensures FirstDelimiter(c + rest, [SLASH]) == |c| && (c + rest)[..|c|] == c
    ensures Tail(c + rest) == if rest == "" then "" else rest[1..]
  {
    FirstDelimiterIs(c + rest, [SLASH], |c|);
  }

  lemma RenderedRest(comps: seq<string>)
    ensures Render(comps) == "" || Render(comps)[0] == SLASH
    ensures comps != [] ==> Render(comps) != "" && Render(comps)[1..] == comps[0] + Render(comps[1..])
  {
  }

  /** A rendered path without its leading slash. */
  lemma {:induction false} PoppedBare(comps: seq<string>, s: string)
    requires comps != [] && NoneBlank(comps) && NoSlash(comps) && s == comps[0] + Render(comps[1..])
    ensures Popped(s) == comps && Trim(s) == s
    decreases |comps|
  {
    var c, rest := comps[0], Render(comps[1..]);
    assert s[0] == c[0];
    RenderedRest(comps[1..]);
    HeadTail(c, rest);
    assert comps == [c] + comps[1..];
    if |comps| > 1 {
      forall i | 0 <= i < |comps[1..]| ensures comps[1..][i] == comps[i + 1] {
      }
      PoppedBare(comps[1..], rest[1..]);
      assert Pop(s) == rest[1..] && rest[1..] != "";
    }
  }

  lemma PoppedRendered(comps: seq<string>)
    requires comps != [] && NoneBlank(comps) && NoSlash(comps)
    ensures Popped(Render(comps)) == comps
  {
    var path, s := Render(comps), comps[0] + Render(comps[1..]);
    RenderedRest(comps);
    PoppedBare(comps, s);
    assert Trim(path) == s;
    assert First(path) == First(s) && Pop(path) == Pop(s);
  }

  // ------------------------------------------------------------------- lookup

  /** The root mounted on a node, or the node itself. */
  function Cross(fs: Fs, i: nat): (t: nat)
    requires Ok(fs) && i < |fs|
    ensures t < |fs| && fs[t].mount.NoMount?
  {
    assert NodeOk(fs, fs[i]);
    if fs[i].mount.NoMount? then i else fs[i].mount.root
  }

  /** The first entry of that name, or the number of entries. */
  function FindName(fs: Fs, entries: seq<nat>, name: string): (k: nat)
    requires EntriesOk(|fs|, entries)
    ensures k <= |entries|
    ensures k < |entries| ==> fs[entries[k]].name == name
    ensures forall j | 0 <= j < k :: fs[entries[j]].name != name
    decreases |entries|
  {
    if entries == [] || fs[entries[0]].name == name then 0 else 1 + FindName(fs, entries[1..], name)
  }

  /** `tmpfs_lookup`. */
  function Lookup(fs: Fs, dir: nat, name: string): (f: Found)
    requires Ok(fs) && dir < |fs|
    ensures f.At? ==> f.node < |fs| && fs[f.node].mount.NoMount?
  {
    assert NodeOk(fs, fs[dir]);
    if fs[dir].kind != Directory then Missing
    else
      var k := FindName(fs, fs[dir].entries, name);
      if k == |fs[dir].entries| then Missing else At(Cross(fs, fs[dir].entries[k]))
  }

  /** One lookup for each component. */
  function Walked(fs: Fs, dir: nat, comps: seq<string>): (f: Found)
    requires Ok(fs) && dir < |fs|
    ensures f.At? ==> f.node < |fs|
    decreases |comps|
  {
    if comps == [] then At(dir)
    else
      match Lookup(fs, dir, comps[0])
      case Missing => Missing
      case At(t) => Walked(fs, t, comps[1..])
  }

  /** `vfs_lookup`. */
  function VfsLookup(fs: Fs, root: nat, path: string): (f: Found)
    requires Ok(fs) && root < |fs|
  {
    if path == [SLASH] then At(root) else Walked(fs, Cross(fs, root), Popped(path))
  }

  // ------------------------------------------------------------------- making

  function Append(fs: Fs, dir: nat, name: string): (r: Fs)
    requires Ok(fs) && dir < |fs|
    ensures Ok(r) && |r| == |fs| + 1
  {
    var r := fs[dir := fs[dir].(entries := fs[dir].entries + [|fs|])] + [Node(name, Directory, [], NoMount)];
    assert forall i | 0 <= i < |r| :: NodeOk(r, r[i]) by {
      forall i | 0 <= i < |r| ensures NodeOk(r, r[i]) {
        if i < |fs| { assert NodeOk(fs, fs[i]); }
      }
    }
    r
  }

  /** `tmpfs_mkdir`. */
  function Make(fs: Fs, dir: nat, name: string): (m: Made)
    requires Ok(fs) && dir < |fs|
    ensures Ok(m.fs) && |fs| <= |m.fs| && (m.found.At? ==> m.found.node < |m.fs|)
  {
    if fs[dir].kind != Directory then Made(fs, Missing)
    else if Lookup(fs, dir, name).At? then Made(fs, Lookup(fs, dir, name))
    else if |fs[dir].entries| >= MAX_ENTRY then Made(fs, Missing)
    else Made(Append(fs, dir, name), At(|fs|))
  }

  /** The making loop of `lookup_path`: a component that cannot be made is passed
      over, and the loop goes on in the same directory. */
  function MakeAll(fs: Fs, dir: nat, comps: seq<string>): (m: Made)
    requires Ok(fs) && dir < |fs|
    ensures Ok(m.fs) && |fs| <= |m.fs| && m.found.At? && m.found.node < |m.fs|
    decreases |comps|
  {
    if comps == [] then Made(fs, At(dir))
    else
      var m := Make(fs, dir, comps[0]);
      MakeAll(m.fs, if m.found.At? then m.found.node else dir, comps[1..])
  }

  /** `vfs_mkdir`. */
  function VfsMkdir(fs: Fs, root: nat, path: string): (r: Fs)
    requires Ok(fs) && root < |fs|
    ensures Ok(r) && |fs| <= |r|
  {
    MakeAll(fs, Cross(fs, root), NonBlank(Split(path, [SLASH]))).fs
  }
}
