/** What making directories and mounting keep, in the tree of lib/vfs.c. */
module VfsProofs {
  import opened Strings
  import opened Paths
  import opened Vfs

  // ------------------------------------------------------------------ growing

  /** A node keeps its name, kind and mount, and only gains entries at the end; a
      full directory gains none. */
  predicate NodeGrows(x: Node, y: Node) {
    y.name == x.name && y.kind == x.kind && y.mount == x.mount &&
    x.entries <= y.entries && (|x.entries| >= 16 ==> y.entries == x.entries)
  }

  predicate Grows(a: Fs, b: Fs) {
    |a| <= |b| && forall i | 0 <= i < |a| :: NodeGrows(a[i], b[i])
  }

  lemma GrowsTrans(a: Fs, b: Fs, c: Fs)
    requires Grows(a, b) && Grows(b, c)
    ensures Grows(a, c)
  {
    forall i | 0 <= i < |a| ensures NodeGrows(a[i], c[i]) {
      assert NodeGrows(a[i], b[i]) && NodeGrows(b[i], c[i]);
    }
  }

  lemma MakeGrows(fs: Fs, dir: nat, name: string)
    requires Ok(fs) && dir < |fs|
    ensures Grows(fs, Make(fs, dir, name).fs)
  {
  }

  lemma {:induction false} MakeAllGrows(fs: Fs, dir: nat, comps: seq<string>)
    requires Ok(fs) && dir < |fs|
    ensures Grows(fs, MakeAll(fs, dir, comps).fs)
    decreases |comps|
  {
    if comps != [] {
      var m := Make(fs, dir, comps[0]);
      MakeGrows(fs, dir, comps[0]);
      MakeAllGrows(m.fs, if m.found.At? then m.found.node else dir, comps[1..]);
      GrowsTrans(fs, m.fs, MakeAll(fs, dir, comps).fs);
    }
  }

  /** Names are looked up the same in a longer list of entries. */
  lemma {:induction false} FindNameKept(a: Fs, b: Fs, xs: seq<nat>, ys: seq<nat>, name: string)
    requires Grows(a, b) && EntriesOk(|a|, xs) && EntriesOk(|b|, ys) && xs <= ys
    ensures FindName(a, xs, name) < |xs| ==> FindName(b, ys, name) == FindName(a, xs, name)
    ensures FindName(a, xs, name) == |xs| ==> FindName(b, ys, name) >= |xs|
    decreases |xs|
  {
    if xs != [] {
      assert xs[0] == ys[0] && NodeGrows(a[xs[0]], b[xs[0]]);
      FindNameKept(a, b, xs[1..], ys[1..], name);
    }
  }

  lemma CrossKept(a: Fs, b: Fs, i: nat)
    requires Ok(a) && Ok(b) && Grows(a, b) && i < |a|
    ensures Cross(b, i) == Cross(a, i)
  {
    assert NodeGrows(a[i], b[i]);
  }

  lemma LookupKept(a: Fs, b: Fs, dir: nat, name: string)
    requires Ok(a) && Ok(b) && Grows(a, b) && dir < |a|
    ensures Lookup(a, dir, name).At? ==> Lookup(b, dir, name) == Lookup(a, dir, name)
    ensures Lookup(a, dir, name).Missing? && (a[dir].kind != Directory || |a[dir].entries| >= 16) ==>
              Lookup(b, dir, name).Missing?
  {
    assert NodeGrows(a[dir], b[dir]) && NodeOk(a, a[dir]) && NodeOk(b, b[dir]);
    var xs, ys := a[dir].entries, b[dir].entries;
    FindNameKept(a, b, xs, ys, name);
    var k := FindName(a, xs, name);
    if k < |xs| {
      assert ys[k] == xs[k];
      CrossKept(a, b, xs[k]);
    }
  }

  lemma {:induction false} WalkedKept(a: Fs, b: Fs, dir: nat, comps: seq<string>)
    requires Ok(a) && Ok(b) && Grows(a, b) && dir < |a|
    ensures Walked(a, dir, comps).At? ==> Walked(b, dir, comps) == Walked(a, dir, comps)
    decreases |comps|
  {
    if comps != [] {
      LookupKept(a, b, dir, comps[0]);
      if Lookup(a, dir, comps[0]).At? {
        WalkedKept(a, b, Lookup(a, dir, comps[0]).node, comps[1..]);
      }
    }
  }

  /** Every path that resolved before a `vfs_mkdir` resolves to the same node after
      it, through mounted roots too. */
  lemma MkdirKeepsPaths(fs: Fs, root: nat, made: string, path: string)
    requires Ok(fs) && root < |fs| && VfsLookup(fs, root, path).At?
    ensures VfsLookup(VfsMkdir(fs, root, made), root, path) == VfsLookup(fs, root, path)
  {
    var r := VfsMkdir(fs, root, made);
    MakeAllGrows(fs, Cross(fs, root), NonBlank(Split(made, [SLASH])));
    CrossKept(fs, r, root);
    WalkedKept(fs, r, Cross(fs, root), Popped(path));
  }

  // ---------------------------------------------------------------- repeating

  /** What was made, found or refused once is found or refused in every later
      tree. */
  lemma MakeAgain(fs: Fs, dir: nat, name: string, later: Fs)
    requires Ok(fs) && dir < |fs| && Ok(later) && Grows(Make(fs, dir, name).fs, later)
    ensures Make(later, dir, name) == Made(later, Make(fs, dir, name).found)
  {
    var m := Make(fs, dir, name);
    assert NodeGrows(m.fs[dir], later[dir]);
    LookupKept(m.fs, later, dir, name);
    if m.fs != fs {
      FoundAfterAppend(fs, dir, name);
    }
  }

  lemma FoundAfterAppend(fs: Fs, dir: nat, name: string)
    requires Ok(fs) && dir < |fs| && fs[dir].kind == Directory && Lookup(fs, dir, name).Missing?
    ensures Lookup(Append(fs, dir, name), dir, name) == At(|fs|)
  {
    var r := Append(fs, dir, name);
    var xs := fs[dir].entries;
    assert NodeOk(fs, fs[dir]) && NodeOk(r, r[dir]);
    var k := FindName(r, r[dir].entries, name);
    assert r[dir].entries[|xs|] == |fs| && r[|fs|].name == name;
    assert FindName(fs, xs, name) == |xs|;
    assert forall j | 0 <= j < |xs| :: r[dir].entries[j] == xs[j] && r[xs[j]].name == fs[xs[j]].name;
  }

  lemma {:induction false} MakeAllAgain(fs: Fs, dir: nat, comps: seq<string>, later: Fs)
    requires Ok(fs) && dir < |fs| && Ok(later) && Grows(MakeAll(fs, dir, comps).fs, later)
    ensures MakeAll(later, dir, comps) == Made(later, MakeAll(fs, dir, comps).found)
    decreases |comps|
  {
    if comps != [] {
      var m := Make(fs, dir, comps[0]);
      var next := if m.found.At? then m.found.node else dir;
      MakeAllGrows(m.fs, next, comps[1..]);
      GrowsTrans(m.fs, MakeAll(fs, dir, comps).fs, later);
      MakeAgain(fs, dir, comps[0], later);
      MakeAllAgain(m.fs, next, comps[1..], later);
    }
  }

  /** Repeating a `vfs_mkdir` changes nothing, whether it succeeded or not, and
      whatever was made in between. */
  lemma MkdirTwice(fs: Fs, root: nat, path: string, other: string)
    requires Ok(fs) && root < |fs|
    ensures var r := VfsMkdir(VfsMkdir(fs, root, path), root, other);
            VfsMkdir(r, root, path) == r
  {
    var once := VfsMkdir(fs, root, path);
    var r := VfsMkdir(once, root, other);
    MakeAllGrows(fs, Cross(fs, root), NonBlank(Split(path, [SLASH])));
    MakeAllGrows(once, Cross(once, root), NonBlank(Split(other, [SLASH])));
    CrossKept(fs, once, root);
    CrossKept(once, r, root);
    MakeAllAgain(fs, Cross(fs, root), NonBlank(Split(path, [SLASH])), r);
  }

  // ------------------------------------------------------------------ finding

  /** The components can be walked or made: no file on the way, and room in the
      directory where the first new one goes. */
  predicate Makeable(fs: Fs, dir: nat, comps: seq<string>)
    requires Ok(fs) && dir < |fs|
    decreases |comps|
  {
    comps == [] ||
    (fs[dir].kind == Directory &&
     match Lookup(fs, dir, comps[0])
     case At(t) => Makeable(fs, t, comps[1..])
     case Missing => |fs[dir].entries| < 16)
  }

  /** A new directory is empty, so all that is below it can be made. */
  lemma {:induction false} MakeableInNew(fs: Fs, dir: nat, comps: seq<string>)
    requires Ok(fs) && dir < |fs| && fs[dir].kind == Directory && fs[dir].entries == []
    ensures Makeable(fs, dir, comps)
  {
  }

  /** What was made is what is found: */
  lemma {:induction false} MadeIsFound(fs: Fs, dir: nat, comps: seq<string>)
    requires Ok(fs) && dir < |fs| && Makeable(fs, dir, comps)
    ensures Walked(MakeAll(fs, dir, comps).fs, dir, comps) == MakeAll(fs, dir, comps).found
    decreases |comps|
  {
    if comps != [] {
      var m := Make(fs, dir, comps[0]);
      var last := MakeAll(fs, dir, comps).fs;
      assert m.found.At?;
      if m.fs != fs {
        FoundAfterAppend(fs, dir, comps[0]);
        MakeableInNew(m.fs, m.found.node, comps[1..]);
      }
      MadeIsFound(m.fs, m.found.node, comps[1..]);
      MakeAllGrows(m.fs, m.found.node, comps[1..]);
      LookupKept(m.fs, last, dir, comps[0]);
    }
  }

  /** and what cannot be made is not found afterwards either, although the loop may
      have made the later components somewhere else. */
  lemma {:induction false} NotMakeable(fs: Fs, dir: nat, comps: seq<string>, later: Fs)
    requires Ok(fs) && dir < |fs| && !Makeable(fs, dir, comps) && Ok(later) && Grows(fs, later)
    ensures Walked(later, dir, comps).Missing?
    decreases |comps|
  {
    LookupKept(fs, later, dir, comps[0]);
    match Lookup(fs, dir, comps[0])
    case At(t) => NotMakeable(fs, t, comps[1..], later);
    case Missing =>
  }

  /** No entry has a blank name, and no directory two entries of one name. */
  predicate EntriesNamed(fs: Fs, entries: seq<nat>)
    requires EntriesOk(|fs|, entries)
  {
    (forall k | 0 <= k < |entries| :: fs[entries[k]].name != "") &&
    forall j, k | 0 <= j < k < |entries| :: fs[entries[j]].name != fs[entries[k]].name
  }

  predicate Named(fs: Fs)
    requires Ok(fs)
  {
    forall i | 0 <= i < |fs| :: NodeOk(fs, fs[i]) && EntriesNamed(fs, fs[i].entries)
  }

  lemma MakeNamed(fs: Fs, dir: nat, name: string)
    requires Ok(fs) && dir < |fs| && Named(fs) && name != ""
    ensures Named(Make(fs, dir, name).fs)
  {
    var r := Make(fs, dir, name).fs;
    if r != fs {
      assert NodeOk(fs, fs[dir]);
      assert FindName(fs, fs[dir].entries, name) == |fs[dir].entries|;
      forall i | 0 <= i < |r| ensures NodeOk(r, r[i]) && EntriesNamed(r, r[i].entries) {
        if i < |fs| {
          assert NodeOk(fs, fs[i]) && EntriesNamed(fs, fs[i].entries);
          NamedEntries(fs, r, i, dir, name);
        } else {
          assert NodeOk(r, r[i]);
        }
      }
    }
  }

  lemma NamedEntries(fs: Fs, r: Fs, i: nat, dir: nat, name: string)
    requires Ok(fs) && dir < |fs| && i < |fs| && name != "" && r == Append(fs, dir, name)
    requires NodeOk(fs, fs[dir]) && FindName(fs, fs[dir].entries, name) == |fs[dir].entries|
    requires NodeOk(fs, fs[i]) && EntriesNamed(fs, fs[i].entries)
    ensures NodeOk(r, r[i]) && EntriesNamed(r, r[i].entries)
  {
    assert NodeOk(r, r[i]);
    var xs, ys := fs[i].entries, r[i].entries;
    assert forall k | 0 <= k < |xs| :: ys[k] == xs[k] && r[xs[k]].name == fs[xs[k]].name;
    if i == dir {
      assert r[ys[|xs|]].name == name;
    }
  }

  lemma {:induction false} MakeAllNamed(fs: Fs, dir: nat, comps: seq<string>)
    requires Ok(fs) && dir < |fs| && Named(fs) && NoneBlank(comps)
    ensures Named(MakeAll(fs, dir, comps).fs)
    decreases |comps|
  {
    if comps != [] {
      var m := Make(fs, dir, comps[0]);
      MakeNamed(fs, dir, comps[0]);
      forall i | 0 <= i < |comps[1..]| ensures comps[1..][i] == comps[i + 1] {
      }
      MakeAllNamed(m.fs, if m.found.At? then m.found.node else dir, comps[1..]);
    }
  }

  /** Sibling names stay unique. */
  lemma MkdirKeepsNames(fs: Fs, root: nat, path: string)
    requires Ok(fs) && root < |fs| && Named(fs)
    ensures Named(VfsMkdir(fs, root, path))
  {
    NonBlankIs(Split(path, [SLASH]));
    MakeAllNamed(fs, Cross(fs, root), NonBlank(Split(path, [SLASH])));
  }

  /** A blank component is never found. */
  lemma {:induction false} BlankIsMissing(fs: Fs, dir: nat, comps: seq<string>)
    requires Ok(fs) && dir < |fs| && Named(fs) && !NoneBlank(comps)
    ensures Walked(fs, dir, comps).Missing?
    decreases |comps|
  {
    assert NodeOk(fs, fs[dir]) && EntriesNamed(fs, fs[dir].entries);
    if comps[0] != "" && Lookup(fs, dir, comps[0]).At? {
      var j :| 0 <= j < |comps| && comps[j] == "";
      assert comps[1..][j - 1] == "";
      BlankIsMissing(fs, Lookup(fs, dir, comps[0]).node, comps[1..]);
    }
  }

  /** After `vfs_mkdir(path)`, `vfs_lookup(path)` finds a node exactly when the path
      is the root, or is tidy and could be made; and then it is the node where the
      making loop ended. */
  lemma MkdirThenLookup(fs: Fs, root: nat, path: string)
    requires Ok(fs) && root < |fs| && Named(fs)
    ensures var r := VfsMkdir(fs, root, path);
            VfsLookup(r, root, path).At? <==>
              path == [SLASH] || (TidyPath(path) && Makeable(fs, Cross(fs, root), Popped(path)))
    ensures path != [SLASH] && TidyPath(path) && Makeable(fs, Cross(fs, root), Popped(path)) ==>
              VfsLookup(VfsMkdir(fs, root, path), root, path) == MakeAll(fs, Cross(fs, root), Popped(path)).found
  {
    var r := VfsMkdir(fs, root, path);
    var comps := NonBlank(Split(path, [SLASH]));
    var dir := Cross(fs, root);
    MakeAllGrows(fs, dir, comps);
    CrossKept(fs, r, root);
    SplittersAgreeIff(path);
    if path != [SLASH] {
      if !NoneBlank(Popped(path)) {
        MkdirKeepsNames(fs, root, path);
        BlankIsMissing(r, dir, Popped(path));
      } else if Makeable(fs, dir, comps) {
        MadeIsFound(fs, dir, comps);
      } else {
        NotMakeable(fs, dir, comps, r);
      }
    }
  }

  lemma CanonicalNoneBlank(n: seq<string>)
    requires Canonical(n)
    ensures NoneBlank(n) && Render(n) != [SLASH]
  {
    forall i | 0 <= i < |n| ensures n[i] != "" {
      assert !Skipped(n[i]);
    }
    if n != [] {
      RenderWeight(n);
      assert |n[0]| >= 1 && |Render(n)| >= 2;
    }
  }

  /** The directory that `sysc_mkdir` makes from a relative path is found at the
      path it was made from, exactly when there was room for it. */
  lemma SyscMkdir(fs: Fs, root: nat, cwd: string, path: string)
    requires Ok(fs) && root < |fs| && Named(fs)
    requires ProperCwd(cwd) && (path == "" || path[0] != SLASH) && AbsPath(cwd, path).Path? &&
             AbsPath(cwd, path).s != ""
    ensures var abs := AbsPath(cwd, path).s;
            VfsLookup(VfsMkdir(fs, root, abs), root, abs).At? <==>
              Makeable(fs, Cross(fs, root), Normalise([], Components(cwd, path)))
  {
    var n, abs := Normalise([], Components(cwd, path)), AbsPath(cwd, path).s;
    AbsPathCanonical(cwd, path);
    CanonicalNoneBlank(n);
    PoppedRendered(n);
    PoppedTidy(abs);
    MkdirThenLookup(fs, root, abs);
  }

  /** A change of directory to the root by its components fails: their path is empty,
      and no lookup finds it. */
  lemma RootNotFound(fs: Fs, root: nat, cwd: string, a: string)
    requires Ok(fs) && root < |fs| && Named(fs) && AbsPath(cwd, a) == Path("")
    ensures VfsLookup(fs, root, AbsPath(cwd, a).s).Missing?
  {
    assert Popped("") == [""];
    BlankIsMissing(fs, Cross(fs, root), Popped(""));
  }

  // -------------------------------------------------------- files and mounting

  function AsFile(fs: Fs, x: nat): (r: Fs)
    requires Ok(fs) && x < |fs|
    ensures Ok(r) && |r| == |fs|
  {
    var r := fs[x := fs[x].(kind := FileNode)];
    assert forall i | 0 <= i < |r| :: NodeOk(r, r[i]) by {
      forall i | 0 <= i < |r| ensures NodeOk(r, r[i]) { assert NodeOk(fs, fs[i]); }
    }
    r
  }

  /** The making loop enters one of the components. */
  predicate Enters(fs: Fs, dir: nat, comps: seq<string>)
    requires Ok(fs) && dir < |fs|
  {
    exists i | 0 <= i < |comps| :: Make(fs, dir, comps[i]).found.At?
  }

  /** The tree with a file in it, or a node that no lookup has set, or an error. */
  datatype Opened = Created(fs: Fs) | NullNode | Refused

  /** `vfs_open` with O_CREAT on a path that is not there: the node that the making
      loop entered last becomes a file, whatever it is. */
  function OpenCreate(fs: Fs, root: nat, path: string): (r: Opened)
    requires Ok(fs) && root < |fs|
    ensures r.Created? ==> Ok(r.fs) && |r.fs| >= |fs|
  {
    var dir, names := Cross(fs, root), NonBlank(Split(path, [SLASH]));
    if fs[dir].kind != Directory then Refused
    else if !Enters(fs, dir, names) then NullNode
    else var m := MakeAll(fs, dir, names); Created(AsFile(m.fs, m.found.node))
  }

  predicate NoneThere(fs: Fs, dir: nat, names: seq<string>)
    requires Ok(fs) && dir < |fs|
  {
    forall i | 0 <= i < |names| :: Lookup(fs, dir, names[i]).Missing?
  }

  /** It is refused exactly when the root is no directory, and follows a node that is not
      set exactly when the root has no room and none of the names. */
  lemma CreateNullIff(fs: Fs, root: nat, path: string)
    requires Ok(fs) && root < |fs|
    ensures var dir, names := Cross(fs, root), NonBlank(Split(path, [SLASH]));
            (OpenCreate(fs, root, path).Refused? <==> fs[dir].kind != Directory) &&
            (OpenCreate(fs, root, path).NullNode? <==>
             fs[dir].kind == Directory && (names == [] || |fs[dir].entries| >= 16) && NoneThere(fs, dir, names))
  {
    var dir, names := Cross(fs, root), NonBlank(Split(path, [SLASH]));
    if fs[dir].kind == Directory {
      EntersIff(fs, dir, names);
    }
  }

  lemma EntersIff(fs: Fs, dir: nat, comps: seq<string>)
    requires Ok(fs) && dir < |fs| && fs[dir].kind == Directory
    ensures !Enters(fs, dir, comps) <==>
            (comps == [] || |fs[dir].entries| >= 16) && NoneThere(fs, dir, comps)
  {
    if comps != [] && |fs[dir].entries| < 16 {
      assert Make(fs, dir, comps[0]).found.At?;
    }
    if i :| 0 <= i < |comps| && Lookup(fs, dir, comps[i]).At? {
      assert Make(fs, dir, comps[i]).found.At?;
    }
  }

  /** Where nothing was found before, making ends in a new, empty directory. */
  lemma {:induction false} MadeIsNew(fs: Fs, dir: nat, comps: seq<string>)
    requires Ok(fs) && dir < |fs| && Makeable(fs, dir, comps)
    requires Walked(fs, dir, comps).Missing? || (comps == [] && fs[dir].entries == [])
    ensures var m := MakeAll(fs, dir, comps);
            m.fs[m.found.node].entries == [] && (comps != [] ==> m.found.node >= |fs|)
    decreases |comps|
  {
    if comps != [] {
      var m := Make(fs, dir, comps[0]);
      if m.fs != fs {
        MakeableInNew(m.fs, |fs|, comps[1..]);
        if comps[1..] != [] {
          assert NodeOk(m.fs, m.fs[|fs|]);
          assert Lookup(m.fs, |fs|, comps[1]).Missing?;
        }
      }
      MadeIsNew(m.fs, m.found.node, comps[1..]);
    }
  }

  lemma {:induction false} SameFind(a: Fs, b: Fs, entries: seq<nat>, name: string)
    requires |b| >= |a| && EntriesOk(|a|, entries) && forall i | 0 <= i < |a| :: b[i].name == a[i].name
    ensures EntriesOk(|b|, entries) && FindName(b, entries, name) == FindName(a, entries, name)
    decreases |entries|
  {
    if entries != [] {
      SameFind(a, b, entries[1..], name);
    }
  }

  lemma CrossAsFile(fs: Fs, x: nat, i: nat)
    requires Ok(fs) && x < |fs| && i < |fs|
    ensures Cross(AsFile(fs, x), i) == Cross(fs, i)
  {
  }

  /** The walk comes to node t before its end. */
  predicate Passes(fs: Fs, dir: nat, comps: seq<string>, t: nat)
    requires Ok(fs) && dir < |fs|
    decreases |comps|
  {
    comps != [] &&
    (dir == t || (Lookup(fs, dir, comps[0]).At? && Passes(fs, Lookup(fs, dir, comps[0]).node, comps[1..], t)))
  }

  /** When a node becomes a file, exactly the walks through it are lost. */
  lemma {:induction false} WalkedAsFile(fs: Fs, x: nat, dir: nat, comps: seq<string>)
    requires Ok(fs) && x < |fs| && dir < |fs|
    ensures Walked(AsFile(fs, x), dir, comps) == if Passes(fs, dir, comps, x) then Missing else Walked(fs, dir, comps)
    decreases |comps|
  {
    if comps != [] && dir != x {
      var r := AsFile(fs, x);
      LookupAsFile(fs, x, dir, comps[0]);
      if Lookup(fs, dir, comps[0]).At? {
        WalkedAsFile(fs, x, Lookup(fs, dir, comps[0]).node, comps[1..]);
      }
    }
  }

  lemma LookupAsFile(fs: Fs, x: nat, dir: nat, name: string)
    requires Ok(fs) && x < |fs| && dir < |fs| && dir != x
    ensures Lookup(AsFile(fs, x), dir, name) == Lookup(fs, dir, name)
  {
    var r := AsFile(fs, x);
    assert NodeOk(fs, fs[dir]) && NodeOk(r, r[dir]);
    SameFind(fs, r, fs[dir].entries, name);
    var k := FindName(fs, fs[dir].entries, name);
    if k < |fs[dir].entries| {
      CrossAsFile(fs, x, fs[dir].entries[k]);
    }
  }

  /** No walk goes through an empty node. */
  lemma {:induction false} PassesEmpty(fs: Fs, dir: nat, comps: seq<string>, x: nat)
    requires Ok(fs) && x < |fs| && dir < |fs| && fs[x].entries == [] && Walked(fs, dir, comps).At?
    ensures !Passes(fs, dir, comps, x)
    decreases |comps|
  {
    if comps != [] {
      assert NodeOk(fs, fs[dir]);
      PassesEmpty(fs, Lookup(fs, dir, comps[0]).node, comps[1..], x);
    }
  }

  predicate FileAt(fs: Fs, root: nat, path: string)
    requires Ok(fs) && root < |fs|
  {
    VfsLookup(fs, root, path).At? && fs[VfsLookup(fs, root, path).node].kind == FileNode
  }

  /** A tidy path that can be made is made at a new, empty node. */
  lemma CreatesNew(fs: Fs, root: nat, path: string)
    requires Ok(fs) && root < |fs| && VfsLookup(fs, root, path).Missing?
    requires TidyPath(path) && Makeable(fs, Cross(fs, root), Popped(path))
    ensures var dir, comps := Cross(fs, root), Popped(path);
            var m := MakeAll(fs, dir, comps);
            comps == NonBlank(Split(path, [SLASH])) && Walked(m.fs, dir, comps) == m.found && m.found.node >= |fs| &&
            m.fs[m.found.node].entries == [] && OpenCreate(fs, root, path) == Created(AsFile(m.fs, m.found.node))
  {
    var dir, comps := Cross(fs, root), Popped(path);
    SplittersAgreeIff(path);
    MadeIsFound(fs, dir, comps);
    MadeIsNew(fs, dir, comps);
    assert Make(fs, dir, comps[0]).found.At?;
  }

  lemma CreateMakes(fs: Fs, root: nat, path: string)
    requires Ok(fs) && root < |fs| && VfsLookup(fs, root, path).Missing?
    requires TidyPath(path) && Makeable(fs, Cross(fs, root), Popped(path))
    ensures var r := OpenCreate(fs, root, path);
            r.Created? && FileAt(r.fs, root, path) && |fs| <= VfsLookup(r.fs, root, path).node
  {
    var dir, comps := Cross(fs, root), Popped(path);
    var m := MakeAll(fs, dir, comps);
    var x := m.found.node;
    CreatesNew(fs, root, path);
    MakeAllGrows(fs, dir, comps);
    CrossKept(fs, m.fs, root);
    CrossAsFile(m.fs, x, root);
    WalkedAsFile(m.fs, x, dir, comps);
    PassesEmpty(m.fs, dir, comps, x);
  }

  lemma CreateMisses(fs: Fs, root: nat, path: string)
    requires Ok(fs) && root < |fs| && Named(fs) && VfsLookup(fs, root, path).Missing?
    requires !(TidyPath(path) && Makeable(fs, Cross(fs, root), Popped(path))) && OpenCreate(fs, root, path).Created?
    ensures VfsLookup(OpenCreate(fs, root, path).fs, root, path).Missing?
  {
    MkdirThenLookup(fs, root, path);
    var dir, comps := Cross(fs, root), NonBlank(Split(path, [SLASH]));
    var m := MakeAll(fs, dir, comps);
    MakeAllGrows(fs, dir, comps);
    CrossKept(fs, m.fs, root);
    CrossAsFile(m.fs, m.found.node, root);
    WalkedAsFile(m.fs, m.found.node, dir, Popped(path));
  }

  /** Creating a file leaves a file at that path exactly when the path is tidy and can
      be made, and then it is a new one: */
  lemma CreateThenLookup(fs: Fs, root: nat, path: string)
    requires Ok(fs) && root < |fs| && Named(fs) && VfsLookup(fs, root, path).Missing?
    ensures var r := OpenCreate(fs, root, path);
            (r.Created? && FileAt(r.fs, root, path) <==>
              TidyPath(path) && Makeable(fs, Cross(fs, root), Popped(path))) &&
            (r.Created? && FileAt(r.fs, root, path) ==> |fs| <= VfsLookup(r.fs, root, path).node)
  {
    if TidyPath(path) && Makeable(fs, Cross(fs, root), Popped(path)) {
      CreateMakes(fs, root, path);
    } else if OpenCreate(fs, root, path).Created? {
      CreateMisses(fs, root, path);
    }
  }

  /** every path that resolved still does, but for those that go through the node the
      making loop ended at. */
  lemma CreateLosesPaths(fs: Fs, root: nat, path: string, other: string)
    requires Ok(fs) && root < |fs| && OpenCreate(fs, root, path).Created? && VfsLookup(fs, root, other).At?
    ensures var m := MakeAll(fs, Cross(fs, root), NonBlank(Split(path, [SLASH])));
            var lost := other != [SLASH] && Passes(m.fs, Cross(fs, root), Popped(other), m.found.node);
            VfsLookup(OpenCreate(fs, root, path).fs, root, other) ==
              if lost then Missing else VfsLookup(fs, root, other)
  {
    var dir := Cross(fs, root);
    var m := MakeAll(fs, dir, NonBlank(Split(path, [SLASH])));
    MakeAllGrows(fs, dir, NonBlank(Split(path, [SLASH])));
    CrossKept(fs, m.fs, root);
    CrossAsFile(m.fs, m.found.node, root);
    WalkedKept(fs, m.fs, dir, Popped(other));
    WalkedAsFile(m.fs, m.found.node, dir, Popped(other));
  }

  // -------------------------------------- the node that creating writes to

  /** The making loop, passing over what it cannot make, comes to a file that is
      there already. It stays there, as nothing can be made in a file. */
  predicate EndsAtFile(fs: Fs, dir: nat, comps: seq<string>)
    requires Ok(fs) && dir < |fs|
    decreases |comps|
  {
    fs[dir].kind == FileNode ||
    (comps != [] &&
     match Lookup(fs, dir, comps[0])
     case At(n) => EndsAtFile(fs, n, comps[1..])
     case Missing => |fs[dir].entries| >= 16 && EndsAtFile(fs, dir, comps[1..]))
  }

  /** From a new, empty directory the making loop only comes to new ones. */
  lemma {:induction false} MadeBelowNew(fs: Fs, dir: nat, comps: seq<string>)
    requires Ok(fs) && dir < |fs| && fs[dir].kind == Directory && fs[dir].entries == []
    ensures MakeAll(fs, dir, comps).found.node >= dir
    decreases |comps|
  {
    if comps != [] {
      assert NodeOk(fs, fs[dir]);
      var m := Make(fs, dir, comps[0]);
      assert m.found == At(|fs|) && m.fs[|fs|].entries == [];
      MadeBelowNew(m.fs, |fs|, comps[1..]);
    }
  }

  lemma {:induction false} StaysAtFile(fs: Fs, dir: nat, comps: seq<string>)
    requires Ok(fs) && dir < |fs| && fs[dir].kind == FileNode
    ensures MakeAll(fs, dir, comps) == Made(fs, At(dir))
    decreases |comps|
  {
    if comps != [] {
      StaysAtFile(fs, dir, comps[1..]);
    }
  }

  lemma {:induction false} EndsAtFileIff(fs: Fs, dir: nat, comps: seq<string>)
    requires Ok(fs) && dir < |fs|
    ensures var x := MakeAll(fs, dir, comps).found.node;
            EndsAtFile(fs, dir, comps) <==> x < |fs| && fs[x].kind == FileNode
    decreases |comps|
  {
    if fs[dir].kind == FileNode {
      StaysAtFile(fs, dir, comps);
    } else if comps != [] {
      var m := Make(fs, dir, comps[0]);
      if m.fs == fs {
        EndsAtFileIff(fs, if m.found.At? then m.found.node else dir, comps[1..]);
      } else {
        MadeBelowNew(m.fs, |fs|, comps[1..]);
      }
    }
  }

  /** Creating writes to one node, and that is an old file, whose contents are so
      lost, exactly when the making loop ends at one. */
  lemma CreateLosesFile(fs: Fs, root: nat, path: string)
    requires Ok(fs) && root < |fs| && OpenCreate(fs, root, path).Created?
    ensures var dir, names := Cross(fs, root), NonBlank(Split(path, [SLASH]));
            var r, m := OpenCreate(fs, root, path).fs, MakeAll(fs, dir, names);
            var x := m.found.node;
            |r| == |m.fs| && r[x] == m.fs[x].(kind := FileNode) &&
            (forall i | 0 <= i < |r| && i != x :: r[i] == m.fs[i]) &&
            (x < |fs| && fs[x].kind == FileNode <==> EndsAtFile(fs, dir, names))
  {
    EndsAtFileIff(fs, Cross(fs, root), NonBlank(Split(path, [SLASH])));
  }

  /** So on a tidy path that can be made none is lost; */
  lemma CreateKeepsPaths(fs: Fs, root: nat, path: string, other: string)
    requires Ok(fs) && root < |fs| && VfsLookup(fs, root, path).Missing? && VfsLookup(fs, root, other).At?
    requires TidyPath(path) && Makeable(fs, Cross(fs, root), Popped(path))
    ensures OpenCreate(fs, root, path).Created?
    ensures VfsLookup(OpenCreate(fs, root, path).fs, root, other) == VfsLookup(fs, root, other)
  {
    var dir, comps := Cross(fs, root), Popped(path);
    var m := MakeAll(fs, dir, comps);
    CreatesNew(fs, root, path);
    CreateLosesPaths(fs, root, path, other);
    MakeAllGrows(fs, dir, comps);
    WalkedKept(fs, m.fs, dir, Popped(other));
    if other != [SLASH] {
      PassesEmpty(m.fs, dir, Popped(other), m.found.node);
    }
  }

  /** The tree of /a/b. */
  const SAMPLE: Fs :=
    [Node("", Directory, [1], NoMount), Node("a", Directory, [2], NoMount), Node("b", Directory, [], NoMount)]

  lemma SampleWalks()
    ensures Ok(SAMPLE) && Named(SAMPLE)
    ensures Lookup(SAMPLE, 0, "a") == At(1) && Lookup(SAMPLE, 1, "b") == At(2)
  {
    assert NodeOk(SAMPLE, SAMPLE[0]) && NodeOk(SAMPLE, SAMPLE[1]) && NodeOk(SAMPLE, SAMPLE[2]);
    assert FindName(SAMPLE, [1], "a") == 0;
    assert FindName(SAMPLE, [2], "b") == 0;
  }

  lemma SamplePath()
    ensures Popped("/a/b") == ["a", "b"]
  {
    var n := ["a", "b"];
    assert n[1..] == ["b"] && ["b"][1..] == [];
    assert Render(["b"]) == "/b";
    assert Render(n) == "/a/b";
    PoppedRendered(n);
  }

  lemma UntidySplit()
    ensures Split("//a", [SLASH]) == ["", "", "a"]
  {
    assert "" + [SLASH] + "/a" == "//a" && "" + [SLASH] + "a" == "/a";
    SplitHead("", "/a", SLASH);
    SplitHead("", "a", SLASH);
    FirstDelimiterIs("a", [SLASH], 1);
  }

  lemma UntidyNames()
    ensures NonBlank(Split("//a", [SLASH])) == ["a"] && !TidyPath("//a")
  {
    UntidySplit();
    assert ["", "", "a"][1..] == ["", "a"] && ["", "a"][1..] == ["a"] && ["a"][1..] == [];
    assert NonBlank(["a"]) == ["a"];
    assert NonBlank(["", "a"]) == ["a"];
  }

  lemma SampleMakes()
    ensures Ok(SAMPLE) && MakeAll(SAMPLE, 0, ["a"]) == Made(SAMPLE, At(1)) && Enters(SAMPLE, 0, ["a"])
    ensures Walked(SAMPLE, 0, ["a", "b"]) == At(2) && Passes(SAMPLE, 0, ["a", "b"], 1)
  {
    SampleWalks();
    assert ["a", "b"][1..] == ["b"] && ["b"][1..] == [] && ["a"][1..] == [];
    assert Walked(SAMPLE, 1, ["b"]) == At(2) && Passes(SAMPLE, 1, ["b"], 1);
    assert Make(SAMPLE, 0, ["a"][0]).found.At?;
  }

  /** but an untidy path can make a directory that was there a file: opening "//a" with
      O_CREAT loses /a/b. */
  lemma CreateLosesSample()
    ensures Ok(SAMPLE) && Named(SAMPLE) && VfsLookup(SAMPLE, 0, "//a").Missing? && VfsLookup(SAMPLE, 0, "/a/b") == At(2)
    ensures OpenCreate(SAMPLE, 0, "//a").Created?
    ensures VfsLookup(OpenCreate(SAMPLE, 0, "//a").fs, 0, "/a/b").Missing?
  {
    SampleWalks();
    SampleMakes();
    SamplePath();
    UntidyNames();
    PoppedTidy("//a");
    BlankIsMissing(SAMPLE, 0, Popped("//a"));
    CreateLosesPaths(SAMPLE, 0, "//a", "/a/b");
  }

  /** `vfs_mount` of a tmpfs at a node: a new, empty root on it. */
  function MountAt(fs: Fs, t: nat): (r: Fs)
    requires Ok(fs) && t < |fs| && Unmounted(fs, t)
    ensures Ok(r) && |r| == |fs| + 1
  {
    var r := fs[t := fs[t].(mount := Mounted(|fs|))] + [Node("", Directory, [], NoMount)];
    assert forall i | 0 <= i < |r| :: NodeOk(r, r[i]) by {
      forall i | 0 <= i < |r| ensures NodeOk(r, r[i]) {
        if i < |fs| { assert NodeOk(fs, fs[i]); }
      }
    }
    r
  }

  /** Neither mounted on, nor a mounted root itself. */
  predicate Unmounted(fs: Fs, t: nat)
    requires t < |fs|
  {
    fs[t].mount.NoMount? && forall i | 0 <= i < |fs| :: fs[i].mount != Mounted(t)
  }

  lemma LookupMounted(fs: Fs, t: nat, dir: nat, name: string)
    requires Ok(fs) && t < |fs| && Unmounted(fs, t) && dir < |fs|
    ensures Lookup(MountAt(fs, t), dir, name) ==
              if Lookup(fs, dir, name) == At(t) then At(|fs|) else Lookup(fs, dir, name)
  {
    var r := MountAt(fs, t);
    assert NodeOk(fs, fs[dir]) && NodeOk(r, r[dir]);
    SameFind(fs, r, fs[dir].entries, name);
  }

  /** A path that leads to the mount point leads to the new root, and one that goes
      through it goes on from there; */
  lemma {:induction false} MountedHere(fs: Fs, t: nat, dir: nat, a: seq<string>, b: seq<string>)
    requires Ok(fs) && t < |fs| && Unmounted(fs, t) && dir < |fs|
    requires a != [] && Walked(fs, dir, a) == At(t) && !Passes(fs, dir, a, t)
    ensures Walked(MountAt(fs, t), dir, a + b) == if b == [] then At(|fs|) else Missing
    decreases |a|
  {
    var r := MountAt(fs, t);
    LookupMounted(fs, t, dir, a[0]);
    assert (a + b)[0] == a[0] && (a + b)[1..] == a[1..] + b;
    if |a| == 1 {
      assert a[1..] + b == b;
      if b != [] {
        assert NodeOk(r, r[|fs|]);
        assert Lookup(r, |fs|, b[0]).Missing?;
      }
    } else {
      MountedHere(fs, t, Lookup(fs, dir, a[0]).node, a[1..], b);
    }
  }

  /** every other path leads where it led. */
  lemma {:induction false} MountedElsewhere(fs: Fs, t: nat, dir: nat, comps: seq<string>)
    requires Ok(fs) && t < |fs| && Unmounted(fs, t) && dir < |fs|
    requires !Passes(fs, dir, comps, t) && Walked(fs, dir, comps) != At(t)
    ensures Walked(MountAt(fs, t), dir, comps) == Walked(fs, dir, comps)
    decreases |comps|
  {
    if comps != [] {
      LookupMounted(fs, t, dir, comps[0]);
      if Lookup(fs, dir, comps[0]).At? {
        MountedElsewhere(fs, t, Lookup(fs, dir, comps[0]).node, comps[1..]);
      }
    }
  }

  // --------------------------------------------------------------------- runs

  datatype Step = MkdirStep(path: string) | CreateStep(path: string) | MountStep(path: string)

  predicate Enabled(fs: Fs, root: nat, s: Step)
    requires Ok(fs) && root < |fs|
  {
    match s
    case MkdirStep(path) => true
    case CreateStep(path) =>
      VfsLookup(fs, root, path).Missing? && OpenCreate(fs, root, path).Created?
    case MountStep(path) =>
      path != [SLASH] && VfsLookup(fs, root, path).At? && Unmounted(fs, VfsLookup(fs, root, path).node)
  }

  function Stepped(fs: Fs, root: nat, s: Step): (r: Fs)
    requires Ok(fs) && root < |fs| && Enabled(fs, root, s)
    ensures Ok(r) && |r| >= |fs|
  {
    match s
    case MkdirStep(path) => VfsMkdir(fs, root, path)
    case CreateStep(path) => OpenCreate(fs, root, path).fs
    case MountStep(path) => MountAt(fs, VfsLookup(fs, root, path).node)
  }

  /** Every tree that steps lead to from the one `vfs_mount("/")` makes. */
  predicate Runs(fs: Fs, root: nat, steps: seq<Step>, last: Fs)
    requires Ok(fs) && root < |fs|
    decreases |steps|
  {
    if steps == [] then last == fs
    else Enabled(fs, root, steps[0]) && Runs(Stepped(fs, root, steps[0]), root, steps[1..], last)
  }

  lemma CreateNamed(fs: Fs, root: nat, path: string)
    requires Ok(fs) && root < |fs| && Named(fs) && OpenCreate(fs, root, path).Created?
    ensures Named(OpenCreate(fs, root, path).fs)
  {
    var m := MakeAll(fs, Cross(fs, root), NonBlank(Split(path, [SLASH])));
    MkdirKeepsNames(fs, root, path);
    RenamedNothing(m.fs, AsFile(m.fs, m.found.node));
  }

  lemma MountNamed(fs: Fs, t: nat)
    requires Ok(fs) && t < |fs| && Unmounted(fs, t) && Named(fs)
    ensures Named(MountAt(fs, t))
  {
    RenamedNothing(fs, MountAt(fs, t));
  }

  lemma StepNamed(fs: Fs, root: nat, s: Step)
    requires Ok(fs) && root < |fs| && Enabled(fs, root, s) && Named(fs)
    ensures Named(Stepped(fs, root, s))
  {
    match s
    case MkdirStep(path) => MkdirKeepsNames(fs, root, path);
    case CreateStep(path) => CreateNamed(fs, root, path);
    case MountStep(path) => MountNamed(fs, VfsLookup(fs, root, path).node);
  }

  lemma RenamedNothing(a: Fs, b: Fs)
    requires Ok(a) && Ok(b) && Named(a) && |b| >= |a|
    requires forall i | 0 <= i < |a| :: b[i].name == a[i].name && b[i].entries == a[i].entries
    requires forall i | |a| <= i < |b| :: b[i].entries == []
    ensures Named(b)
  {
    forall i | 0 <= i < |b| ensures NodeOk(b, b[i]) && EntriesNamed(b, b[i].entries) {
      assert NodeOk(b, b[i]);
      if i < |a| {
        assert NodeOk(a, a[i]) && EntriesNamed(a, a[i].entries);
      }
    }
  }

  /** In every reachable tree links lead to nodes, mounts do not stack, names are not
      blank and siblings differ, as the results above ask. */
  lemma {:induction false} RunNamed(fs: Fs, root: nat, steps: seq<Step>, last: Fs)
    requires Ok(fs) && root < |fs| && Named(fs) && Runs(fs, root, steps, last)
    ensures Ok(last) && root < |last| && Named(last)
    decreases |steps|
  {
    if steps != [] {
      StepNamed(fs, root, steps[0]);
      RunNamed(Stepped(fs, root, steps[0]), root, steps[1..], last);
    }
  }

  lemma BootNamed()
    ensures var fs := [Node("", Directory, [], NoMount)]; Ok(fs) && Named(fs)
  {
    var fs := [Node("", Directory, [], NoMount)];
    assert NodeOk(fs, fs[0]);
  }
}
