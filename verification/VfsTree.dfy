/** The vnodes of lib/vfs.c and lib/tmpfs.c as objects: looking paths up and making
    directories in place. */
module VfsTree {
  import opened Common
  import opened Strings
  import opened CStrings
  import opened Strtok
  import opened Paths
  import opened Vfs

  const NAME_LEN := 16
  const MAX_COMPONENT_NAME := 32
  const MAX_PATH := 255
  const MAX_DEPTH := 64

  /** The components of a path fit the buffer they are copied into one by one, */
  predicate ShortNames(path: string) {
    forall c | c in Popped(path) :: |c| < MAX_COMPONENT_NAME
  }

  /** its copy fits its buffer, */
  predicate ShortPath(path: string) {
    |path| < MAX_PATH && ShortPieces(Split(path, [SLASH]))
  }

  /** and what it is cut into fits the component array and the names of new nodes. */
  predicate ShortPieces(pieces: seq<string>) {
    |pieces| < MAX_DEPTH && forall c | c in pieces :: |c| < NAME_LEN
  }

  /** What the making branch leaves, begun at node d, and what it returns. */
  predicate MadeFrom(before: Fs, d: nat, path: string, after: Fs, result: int)
    requires Ok(before) && d < |before|
  {
    after == MakeAll(before, d, NonBlank(Split(path, [SLASH]))).fs &&
    result == if before[d].kind == Directory then 0 else -1
  }

  class Vnode {
    const name: string
    var kind: Kind
    var entries: seq<Vnode>
    var mount: Vnode?
    /** The node's number in the tree. */
    ghost const id: nat

    constructor (name: string, kind: Kind, ghost id: nat)
      ensures this.name == name && this.kind == kind && this.id == id && entries == [] && mount == null
    {
      this.name, this.kind, this.id := name, kind, id;
      entries, mount := [], null;
    }
  }

  // ------------------------------------------------------------ path splitting

  lemma AfterSlash(m: seq<char>, p: int)
    requires IsCString(m, p)
    ensures var q := if m[p] == SLASH then p + 1 else p;
            IsCString(m, q) && CString(m, q) == Trim(CString(m, p)) && StrEnd(m, q) == StrEnd(m, p)
  {
    if m[p] == SLASH {
      StrEndIs(m, p + 1, StrEnd(m, p));
    }
  }

  /** The string at q, i places into which its first slash or its end was met. */
  lemma AtSlash(m: seq<char>, q: int, i: int)
    requires IsCString(m, q) && 0 <= i && q + i <= StrEnd(m, q)
    requires forall k | 0 <= k < i :: CString(m, q)[k] != SLASH
    requires m[q + i] == NUL || m[q + i] == SLASH
    ensures FirstDelimiter(CString(m, q), [SLASH]) == i && (m[q + i] == NUL <==> q + i == StrEnd(m, q))
    ensures var r := if m[q + i] == SLASH then q + i + 1 else q + i;
            IsCString(m, r) && CString(m, r) == Tail(CString(m, q))
  {
    var s := CString(m, q);
    assert i < |s| ==> s[i] == m[q + i];
    FirstDelimiterIs(s, [SLASH], i);
    StrEndIs(m, if m[q + i] == SLASH then q + i + 1 else q + i, StrEnd(m, q));
  }

  /** `first_component`, into the caller's buffer. */
  method FirstComponent(mem: array<char>, p: int, component: array<char>)
    requires mem != component && IsCString(mem[..], p) && |First(CString(mem[..], p))| < component.Length
    modifies component
    ensures Stored(component[..], 0, First(CString(mem[..], p)))
  {
    ghost var m := mem[..];
    AfterSlash(m, p);
    var q := if mem[p] == SLASH then p + 1 else p;
    ghost var s := CString(m, q);
    ghost var n := FirstDelimiter(s, [SLASH]);
    var i := 0;
    while mem[q + i] != NUL && mem[q + i] != SLASH
      invariant 0 <= i <= n && mem[..] == m
      invariant component[..i] == s[..i]
      decreases n - i
    {
      assert s[i] == m[q + i];
      ghost var copied := component[..i];
      component[i] := mem[q + i];
      assert component[..i + 1] == copied + [s[i]] && s[..i + 1] == s[..i] + [s[i]];
      i := i + 1;
    }
    assert i < |s| ==> s[i] == m[q + i];
    assert i == n && First(CString(m, p)) == s[..i];
    component[i] := NUL;
    assert component[..i] == s[..i] && component[..][i] == NUL;
    assert component[..][..i] == component[..i];
  }

  /** `pop_first_component`. */
  method PopFirstComponent(mem: array<char>, p: int) returns (rest: int)
    requires IsCString(mem[..], p)
    ensures IsCString(mem[..], rest) && CString(mem[..], rest) == Pop(CString(mem[..], p))
  {
    AfterSlash(mem[..], p);
    var q := if mem[p] == SLASH then p + 1 else p;
    ghost var s := CString(mem[..], q);
    var i := 0;
    while mem[q + i] != NUL && mem[q + i] != SLASH
      invariant 0 <= i <= |s|
      invariant forall k | 0 <= k < i :: s[k] != SLASH
      decreases |s| - i
    {
      assert s[i] == mem[q + i];
      i := i + 1;
    }
    AtSlash(mem[..], q, i);
    rest := if mem[q + i] == SLASH then q + i + 1 else q + i;
  }

  /** `strcmp(component_name, entry->component->name) == 0`. */
  method SameName(mem: array<char>, p: int, name: string) returns (same: bool)
    requires IsCString(mem[..], p)
    ensures same <==> CString(mem[..], p) == name
  {
    ghost var s := CString(mem[..], p);
    var i := 0;
    while mem[p + i] != NUL
      invariant 0 <= i <= |s| && i <= |name| && s[..i] == name[..i]
      decreases |s| - i
    {
      assert s[i] == mem[p + i];
      if i == |name| || mem[p + i] != name[i] {
        assert s != name;
        return false;
      }
      i := i + 1;
    }
    assert i == |s|;
    same := i == |name|;
  }

  /** `strcpy` into the name of a new node. */
  method ReadString(mem: array<char>, p: int) returns (s: string)
    requires IsCString(mem[..], p) && |CString(mem[..], p)| < NAME_LEN
    ensures s == CString(mem[..], p)
  {
    s := "";
    while mem[p + |s|] != NUL
      invariant |s| <= |CString(mem[..], p)| && s == CString(mem[..], p)[..|s|]
      decreases |CString(mem[..], p)| - |s|
    {
      assert CString(mem[..], p)[|s|] == mem[p + |s|];
      s := s + [mem[p + |s|]];
    }
  }

  // ------------------------------------------------------------ lemmas on Make

  lemma {:induction false} MakeAllConcat(fs: Fs, dir: nat, a: seq<string>, b: seq<string>)
    requires Ok(fs) && dir < |fs|
    ensures var m := MakeAll(fs, dir, a); MakeAll(fs, dir, a + b) == MakeAll(m.fs, m.found.node, b)
    decreases |a|
  {
    if a == [] {
      assert a + b == b;
    } else {
      assert (a + b)[0] == a[0] && (a + b)[1..] == a[1..] + b;
      var m := Make(fs, dir, a[0]);
      MakeAllConcat(m.fs, if m.found.At? then m.found.node else dir, a[1..], b);
    }
  }

  /** What one piece of the path does: a blank one nothing, and one that cannot be
      made leaves the directory where it is. */
  ghost predicate NextMade(fs: Fs, dir: nat, piece: string, after: Fs, next: nat)
    requires Ok(fs) && dir < |fs|
  {
    var m := if piece == "" then Made(fs, Missing) else Make(fs, dir, piece);
    after == m.fs && next == if m.found.At? then m.found.node else dir
  }

  /** The making loop before piece i. */
  ghost predicate MadeSoFar(f0: Fs, d0: nat, pieces: seq<string>, i: int, fs: Fs, dir: nat) {
    Ok(f0) && d0 < |f0| && 0 <= i <= |pieces| && MakeAll(f0, d0, NonBlank(pieces[..i])) == Made(fs, At(dir))
  }

  lemma MadeNothingYet(f0: Fs, d0: nat, pieces: seq<string>)
    requires Ok(f0) && d0 < |f0|
    ensures MadeSoFar(f0, d0, pieces, 0, f0, d0)
  {
    assert pieces[..0] == [];
  }

  lemma MadeMore(f0: Fs, d0: nat, pieces: seq<string>, i: int, fs: Fs, dir: nat, after: Fs, next: nat)
    requires MadeSoFar(f0, d0, pieces, i, fs, dir) && i < |pieces|
    requires Ok(fs) && dir < |fs| && NextMade(fs, dir, pieces[i], after, next)
    ensures MadeSoFar(f0, d0, pieces, i + 1, after, next)
  {
    var c := pieces[i];
    assert pieces[..i + 1] == pieces[..i] + [c];
    NonBlankConcat(pieces[..i], [c]);
    assert [c][1..] == [];
    if c == "" {
      assert NonBlank(pieces[..i]) + [] == NonBlank(pieces[..i]);
    } else {
      assert NonBlank([c]) == [c];
      MakeAllConcat(f0, d0, NonBlank(pieces[..i]), [c]);
    }
  }

  lemma MadeWhole(f0: Fs, d0: nat, pieces: seq<string>, fs: Fs, dir: nat)
    requires MadeSoFar(f0, d0, pieces, |pieces|, fs, dir)
    ensures fs == MakeAll(f0, d0, NonBlank(pieces)).fs
  {
    assert pieces[..|pieces|] == pieces;
  }

  class FileTree {
    /** `rootfs->root` */
    const root: Vnode
    const tokenizer: Tokenizer
    /** The nodes in the order they were made, and the tree they stand for. */
    ghost var nodes: seq<Vnode>
    ghost var fs: Fs

    /** The tree that `vfs_mount("/")` sets up. */
    constructor ()
      ensures Valid() && fs == [Node("", Directory, [], NoMount)] && root.id == 0
    {
      var r := new Vnode("", Directory, 0);
      root := r;
      tokenizer := new Tokenizer();
      nodes := [r];
      fs := [Node("", Directory, [], NoMount)];
      new;
      assert NodeOk(fs, fs[0]);
    }

    ghost predicate InTree(v: Vnode)
      reads this
    {
      v.id < |nodes| && nodes[v.id] == v
    }

    ghost predicate Matches(v: Vnode, x: Node)
      reads this, v
    {
      v.name == x.name && v.kind == x.kind && |v.entries| == |x.entries| &&
      (forall k | 0 <= k < |v.entries| :: InTree(v.entries[k]) && v.entries[k].id == x.entries[k]) &&
      match x.mount
      case NoMount => v.mount == null
      case Mounted(r) => v.mount != null && InTree(v.mount) && v.mount.id == r
    }

    ghost predicate Valid()
      reads this, nodes, tokenizer
    {
      Ok(fs) && |fs| == |nodes| && InTree(root) && tokenizer.Fresh() &&
      (forall i | 0 <= i < |nodes| :: nodes[i].id == i) &&
      forall i | 0 <= i < |nodes| :: Matches(nodes[i], fs[i])
    }

    /** What a call that looks a node up answers. */
    ghost predicate Answers(result: int, target: Vnode?, f: Found)
      reads this
    {
      (result == 0 || result == -1) && (result == 0 <==> f.At?) &&
      (result == 0 ==> target != null && InTree(target) && target.id == f.node)
    }

    /** Only new nodes came after the old ones. */
    twostate predicate Grown()
      reads this
    {
      old(nodes) <= nodes && forall i {:trigger nodes[i]} | |old(nodes)| <= i < |nodes| :: fresh(nodes[i])
    }

    /** `tmpfs_lookup`. */
    method TmpfsLookup(dir: Vnode, mem: array<char>, p: int) returns (result: int, target: Vnode?)
      requires Valid() && InTree(dir) && IsCString(mem[..], p)
      ensures Answers(result, target, Lookup(fs, dir.id, CString(mem[..], p)))
    {
      ghost var name := CString(mem[..], p);
      assert Matches(dir, fs[dir.id]) && NodeOk(fs, fs[dir.id]);
      ghost var xs := fs[dir.id].entries;
      target := null;
      if dir.kind != Directory {
        return -1, null;
      }
      var i := 0;
      while i < |dir.entries|
        invariant 0 <= i <= |dir.entries| && FindName(fs, xs, name) >= i
      {
        var entry := dir.entries[i];
        assert InTree(entry) && entry.id == xs[i] && Matches(entry, fs[xs[i]]);
        var same := SameName(mem, p, entry.name);
        if same {
          assert FindName(fs, xs, name) == i;
          target := if entry.mount == null then entry else entry.mount;
          return 0, target;
        }
        i := i + 1;
      }
      return -1, null;
    }

    /** `tmpfs_create`, for a name that fits a node's name buffer, and what
        `tmpfs_mkdir` does with the node it makes. */
    method TmpfsMkdir(dir: Vnode, mem: array<char>, p: int) returns (result: int, target: Vnode?)
      requires Valid() && InTree(dir) && IsCString(mem[..], p) && |CString(mem[..], p)| < NAME_LEN
      modifies this, dir
      ensures Valid() && Grown()
      ensures var m := Make(old(fs), dir.id, CString(mem[..], p));
              fs == m.fs && Answers(result, target, m.found)
    {
      assert Matches(dir, fs[dir.id]);
      if dir.kind != Directory {
        return -1, null;
      }
      result, target := TmpfsLookup(dir, mem, p);
      if result == 0 {
        return;
      }
      if |dir.entries| >= MAX_ENTRY {
        return -1, null;
      }
      var name := ReadString(mem, p);
      target := new Vnode(name, Directory, |nodes|);
      Enter(dir, target);
      result := 0;
    }

    /** `entries[len++] = target`. */
    method Enter(dir: Vnode, target: Vnode)
      requires Valid() && InTree(dir) && target !in nodes && target.id == |nodes|
      requires target.kind == Directory && target.entries == [] && target.mount == null
      modifies this, dir
      ensures Valid() && fs == Append(old(fs), dir.id, target.name) && nodes == old(nodes) + [target]
    {
      ghost var before, a := nodes, fs;
      dir.entries := dir.entries + [target];
      nodes := nodes + [target];
      fs := Append(fs, dir.id, target.name);
      forall i | 0 <= i < |nodes| ensures Matches(nodes[i], fs[i]) {
        if i < |before| {
          assert old(Matches(nodes[i], fs[i]));
          assert nodes[i] == before[i];
        }
      }
    }

    /** The first component looked up in a directory, and the rest of the path. */
    method LookupFirst(mem: array<char>, p: int, dir: Vnode) returns (result: int, target: Vnode?, rest: int)
      requires Valid() && InTree(dir) && IsCString(mem[..], p) && |First(CString(mem[..], p))| < MAX_COMPONENT_NAME
      ensures IsCString(mem[..], rest) && CString(mem[..], rest) == Pop(CString(mem[..], p))
      ensures Answers(result, target, Lookup(fs, dir.id, First(CString(mem[..], p))))
    {
      var component := new char[MAX_COMPONENT_NAME];
      FirstComponent(mem, p, component);
      StoredIsCString(component[..], 0, First(CString(mem[..], p)));
      rest := PopFirstComponent(mem, p);
      result, target := TmpfsLookup(dir, component, 0);
    }

    /** `lookup_path` with create 0. */
    method LookupPath(mem: array<char>, p: int, dir: Vnode) returns (result: int, target: Vnode?)
      requires Valid() && InTree(dir) && IsCString(mem[..], p)
      requires ShortNames(CString(mem[..], p))
      ensures Answers(result, target, Walked(fs, Cross(fs, dir.id), Popped(CString(mem[..], p))))
      decreases |CString(mem[..], p)|, if dir.mount != null then 2 else 1
    {
      ghost var path := CString(mem[..], p);
      FirstShort(path);
      Hop(dir);
      if dir.mount != null {
        result, target := LookupPath(mem, p, dir.mount);
        return;
      }
      var rest;
      result, target, rest := LookupFirst(mem, p, dir);
      if dir.kind != Directory || result != 0 {
        return -1, null;
      }
      WalkedFirst(fs, dir.id, path);
      Hop(target);
      if mem[rest] == NUL {
        assert Pop(path) == "";
        return 0, target;
      }
      assert Pop(path) != "";
      result, target := LookupOn(mem, rest, target);
    }

    lemma FirstShort(path: string)
      requires ShortNames(path)
      ensures |First(path)| < MAX_COMPONENT_NAME
    {
      assert Popped(path)[0] == First(path);
    }

    /** The rest of the path from the node of its first component. */
    method LookupOn(mem: array<char>, rest: int, dir: Vnode) returns (result: int, target: Vnode?)
      requires Valid() && InTree(dir) && IsCString(mem[..], rest) && Cross(fs, dir.id) == dir.id && dir.mount == null
      requires ShortNames(CString(mem[..], rest))
      ensures Answers(result, target, Walked(fs, dir.id, Popped(CString(mem[..], rest))))
      decreases |CString(mem[..], rest)|, 3
    {
      if dir.kind != Directory {
        Hop(dir);
        NoWay(fs, dir.id, Popped(CString(mem[..], rest)));
        return -1, null;
      }
      result, target := LookupPath(mem, rest, dir);
    }

    /** The object a lookup goes on from, and its number. */
    lemma Hop(dir: Vnode)
      requires Valid() && InTree(dir)
      ensures dir.id < |fs| && dir.kind == fs[dir.id].kind
      ensures dir.mount == null ==> fs[dir.id].mount.NoMount? && Cross(fs, dir.id) == dir.id
      ensures dir.mount != null ==> InTree(dir.mount) && dir.mount.id < |fs| && dir.mount.mount == null &&
                                    Cross(fs, dir.id) == dir.mount.id && Cross(fs, dir.mount.id) == dir.mount.id
    {
      assert Matches(dir, fs[dir.id]) && NodeOk(fs, fs[dir.id]);
      if dir.mount != null {
        assert Matches(dir.mount, fs[dir.mount.id]);
      }
    }

    lemma WalkedFirst(fs: Fs, dir: nat, path: string)
      requires Ok(fs) && dir < |fs| && Lookup(fs, dir, First(path)).At?
      ensures var t := Lookup(fs, dir, First(path)).node;
              Walked(fs, dir, Popped(path)) == if Pop(path) == "" then At(t) else Walked(fs, t, Popped(Pop(path)))
      ensures ShortNames(path) && Pop(path) != "" ==> ShortNames(Pop(path))
    {
      assert Popped(path)[1..] == if Pop(path) == "" then [] else Popped(Pop(path));
    }

    lemma NoWay(fs: Fs, dir: nat, comps: seq<string>)
      requires Ok(fs) && dir < |fs| && fs[dir].kind != Directory && comps != []
      ensures Walked(fs, dir, comps).Missing?
    {
    }

    /** `vfs_lookup`. */
    method VfsLookupPath(mem: array<char>, p: int) returns (result: int, target: Vnode?)
      requires Valid() && IsCString(mem[..], p)
      requires ShortNames(CString(mem[..], p))
      ensures Answers(result, target, VfsLookup(fs, root.id, CString(mem[..], p)))
    {
      var isRoot := SameName(mem, p, [SLASH]);
      if isRoot {
        return 0, root;
      }
      result, target := LookupPath(mem, p, root);
    }

    /** `lookup_path` with create 1; -1 only when the node is no directory. */
    method CreatePath(mem: array<char>, p: int, dir: Vnode) returns (result: int)
      requires Valid() && InTree(dir) && IsCString(mem[..], p) && ShortPath(CString(mem[..], p))
      modifies this, nodes, tokenizer
      ensures Valid() && Grown()
      ensures MadeFrom(old(fs), Cross(old(fs), dir.id), CString(mem[..], p), fs, result)
      decreases if dir.mount != null then 1 else 0
    {
      ghost var path := CString(mem[..], p);
      ghost var pieces := Split(path, [SLASH]);
      Hop(dir);
      if dir.mount != null {
        result := CreatePath(mem, p, dir.mount);
        return;
      }
      if dir.kind != Directory {
        NothingMade(fs, dir.id, NonBlank(pieces));
        return -1;
      }
      CopyAndMake(mem, p, dir, pieces);
      return 0;
    }

    /** The making branch, once the directory is known to be one. */
    method CopyAndMake(mem: array<char>, p: int, dir: Vnode, ghost pieces: seq<string>)
      requires Valid() && InTree(dir) && IsCString(mem[..], p) && |CString(mem[..], p)| < MAX_PATH
      requires pieces == Split(CString(mem[..], p), [SLASH]) && ShortPieces(pieces)
      modifies this, nodes, tokenizer
      ensures Valid() && Grown() && fs == MakeAll(old(fs), dir.id, NonBlank(pieces)).fs
    {
      var pathCopy, comps, count := CopyAndCut(mem, p, pieces);
      MakeDirectories(pathCopy, comps, count, dir, pieces);
    }

    /** The copy of the path, cut into its components. */
    method CopyAndCut(mem: array<char>, p: int, ghost pieces: seq<string>)
      returns (pathCopy: array<char>, comps: array<int>, count: int)
      requires Valid() && IsCString(mem[..], p) && |CString(mem[..], p)| < MAX_PATH
      requires pieces == Split(CString(mem[..], p), [SLASH]) && |pieces| < MAX_DEPTH
      modifies tokenizer
      ensures Valid() && 0 <= count <= comps.Length && PointTo(pathCopy[..], comps[..count], pieces)
    {
      pathCopy := new char[MAX_PATH];
      Strcpy(pathCopy, mem, p);
      StoredIsCString(pathCopy[..], 0, CString(mem[..], p));
      comps := new int[MAX_DEPTH];
      count := tokenizer.SpiltStrings(pathCopy, comps, 0, [SLASH]);
    }

    lemma NothingMade(fs: Fs, dir: nat, comps: seq<string>)
      requires Ok(fs) && dir < |fs| && fs[dir].kind != Directory
      ensures MakeAll(fs, dir, comps).fs == fs
      decreases |comps|
    {
    }

    /** One piece of the path: blank ones are passed over, and after a failure the
        directory stays. */
    method MakeNext(mem: array<char>, p: int, dir: Vnode) returns (next: Vnode)
      requires Valid() && InTree(dir) && IsCString(mem[..], p) && |CString(mem[..], p)| < NAME_LEN
      modifies this, dir
      ensures Valid() && Grown() && InTree(next)
      ensures NextMade(old(fs), dir.id, CString(mem[..], p), fs, next.id)
    {
      next := dir;
      if mem[p] != NUL {
        var result, target := TmpfsMkdir(dir, mem, p);
        if result == 0 {
          next := target;
        }
      }
    }

    /** The making loop. */
    method MakeDirectories(mem: array<char>, comps: array<int>, count: int, start: Vnode, ghost pieces: seq<string>)
      requires Valid() && InTree(start) && 0 <= count <= comps.Length && PointTo(mem[..], comps[..count], pieces)
      requires forall c | c in pieces :: |c| < NAME_LEN
      modifies this, nodes
      ensures Valid() && Grown()
      ensures fs == MakeAll(old(fs), start.id, NonBlank(pieces)).fs
    {
      ghost var m, f0, ptrs := mem[..], fs, comps[..];
      var dir := start;
      var i := 0;
      MadeNothingYet(f0, start.id, pieces);
      assert ptrs[..count] == comps[..count];
      while i < count
        invariant 0 <= i <= count && mem[..] == m && comps[..] == ptrs
        invariant Valid() && InTree(dir) && Grown()
        invariant MadeSoFar(f0, start.id, pieces, i, fs, dir.id)
      {
        PieceAt(m, ptrs, count, pieces, i);
        assert comps[i] == ptrs[i];
        dir := MakePiece(mem, comps[i], dir, f0, start.id, pieces, i);
        i := i + 1;
      }
      MadeWhole(f0, start.id, pieces, fs, dir.id);
    }

    /** One round of the loop. */
    method MakePiece(mem: array<char>, p: int, dir: Vnode, ghost f0: Fs, ghost d0: nat, ghost pieces: seq<string>,
                     ghost i: int)
      returns (next: Vnode)
      requires Valid() && InTree(dir) && IsCString(mem[..], p) && MadeSoFar(f0, d0, pieces, i, fs, dir.id)
      requires i < |pieces| && CString(mem[..], p) == pieces[i] && |pieces[i]| < NAME_LEN
      modifies this, dir
      ensures Valid() && Grown() && InTree(next) && MadeSoFar(f0, d0, pieces, i + 1, fs, next.id)
    {
      next := MakeNext(mem, p, dir);
      MadeMore(f0, d0, pieces, i, old(fs), dir.id, fs, next.id);
    }

    lemma PieceAt(m: seq<char>, ptrs: seq<int>, count: int, pieces: seq<string>, i: int)
      requires 0 <= i < count <= |ptrs| && PointTo(m, ptrs[..count], pieces)
      ensures i < |pieces| && IsCString(m, ptrs[i]) && CString(m, ptrs[i]) == pieces[i] && pieces[i] in pieces
    {
      assert ptrs[..count][i] == ptrs[i];
    }

    /** `vfs_mkdir`: its lookup never returns 1, so it always goes on to make. */
    method VfsMkdirPath(mem: array<char>, p: int) returns (result: int)
      requires Valid() && IsCString(mem[..], p) && ShortNames(CString(mem[..], p)) && ShortPath(CString(mem[..], p))
      modifies this, nodes, tokenizer
      ensures Valid() && Grown()
      ensures fs == VfsMkdir(old(fs), root.id, CString(mem[..], p))
      ensures MadeFrom(old(fs), Cross(old(fs), root.id), CString(mem[..], p), fs, result)
    {
      var found, node := VfsLookupPath(mem, p);
      if found == 1 {
        return 0;
      }
      result := CreatePath(mem, p, root);
    }
  }
}
