/** File contents and handles of lib/tmpfs.c: writing, reading, and what any
    interleaving of them leaves in a file. */
module TmpfsFile {
  import opened Common
  import opened Vfs

  const MAX_FILE_SIZE := 4096

  // --------------------------------------------------------------- one operation

  /** How much of a write of n bytes at pos fits. */
  function Writable(pos: nat, n: nat): (w: nat)
    requires pos <= MAX_FILE_SIZE
    ensures w <= n && pos + w <= 0x1000 && (w < n ==> pos + w == 0x1000)
  {
    Min(n, MAX_FILE_SIZE - pos)
  }

  /** bytes laid over contents at pos, which they may extend. */
  function Overlay(contents: seq<char>, pos: nat, bytes: seq<char>): (r: seq<char>)
    requires pos <= |contents|
    ensures |r| == Max(|contents|, pos + |bytes|)
    ensures forall i | 0 <= i < |r| :: r[i] == if pos <= i < pos + |bytes| then bytes[i - pos] else contents[i]
  {
    contents[..pos] + bytes + (if pos + |bytes| < |contents| then contents[pos + |bytes|..] else [])
  }

  /** How much of a read of n bytes at pos there is in a file of that length. */
  function Readable(len: nat, pos: nat, n: nat): (r: nat)
    requires pos <= len
    ensures r <= n && pos + r <= len && (r < n ==> pos + r == len)
  {
    Min(n, len - pos)
  }

  method Memcpy(dest: array<char>, at: nat, src: array<char>, n: nat)
    requires dest != src && at + n <= dest.Length && n <= src.Length
    modifies dest
    ensures dest[..at] == old(dest[..at]) && dest[at..at + n] == src[..n] && dest[at + n..] == old(dest[at + n..])
  {
    var i := 0;
    while i < n
      invariant 0 <= i <= n
      invariant dest[..at] == old(dest[..at]) && dest[at..at + i] == src[..i] && dest[at + i..] == old(dest[at + i..])
    {
      ghost var copied := dest[at..at + i];
      dest[at + i] := src[i];
      assert dest[at..at + i + 1] == copied + [src[i]];
      assert dest[at + i + 1..] == dest[at + i..][1..];
      i := i + 1;
    }
  }

  /** The component of a vnode; an empty array stands for a NULL data pointer. */
  class Component {
    var kind: Kind
    var len: nat
    var data: array<char>

    constructor (kind: Kind)
      ensures Valid() && Contents() == [] && this.kind == kind && fresh(data)
    {
      this.kind, len, data := kind, 0, new char[0];
    }

    predicate Valid()
      reads this
    {
      data.Length == len <= MAX_FILE_SIZE
    }

    function Contents(): (s: seq<char>)
      reads this, data
    {
      data[..]
    }

    /** What `vfs_open` does to the component of the node it creates: it drops the
        data and keeps the length, so of a file that was not empty nothing but a
        length is left. */
    method BecomeFile()
      requires Valid()
      modifies this
      ensures kind == FileNode && Contents() == [] && len == old(len)
      ensures Valid() <==> old(Contents()) == []
    {
      kind := FileNode;
      data := new char[0];
    }

    /** The growing branch of `tmpfs_write`. */
    method Grow(ideal: nat)
      requires Valid()
      modifies this
      ensures Valid() && kind == old(kind) && (data == old(data) || fresh(data))
      ensures len == Max(old(len), Min(ideal, MAX_FILE_SIZE))
      ensures Contents()[..old(len)] == old(Contents())
    {
      if ideal > len && len < MAX_FILE_SIZE {
        var newLen := if ideal >= MAX_FILE_SIZE then MAX_FILE_SIZE else ideal;
        newLen := if newLen > MAX_FILE_SIZE then MAX_FILE_SIZE else newLen;
        var newSpace := new char[newLen];
        if len > 0 {
          Memcpy(newSpace, 0, data, len);
          assert newSpace[..][..len] == newSpace[0..len];
        }
        len := newLen;
        data := newSpace;
      }
    }
  }

  /** An open file. */
  class Handle {
    const component: Component
    var pos: nat

    /** `tmpfs_open`, on a file. */
    constructor (component: Component)
      ensures this.component == component && pos == 0
    {
      this.component, pos := component, 0;
    }

    predicate Valid()
      reads this, component
    {
      component.Valid() && pos <= component.len
    }

    method Write(buf: array<char>, n: nat) returns (written: int)
      requires Valid() && n <= buf.Length && buf != component.data
      modifies this, component, component.data
      ensures Valid() && component.kind == old(component.kind)
      ensures component.data == old(component.data) || fresh(component.data)
      ensures old(component.kind) != FileNode ==>
                written == -1 && pos == old(pos) && component.Contents() == old(component.Contents())
      ensures old(component.kind) == FileNode ==>
                var w := Writable(old(pos), n);
                written == w && pos == old(pos) + w && w <= n && pos <= 0x1000 && (w < n ==> pos == 0x1000) &&
                component.Contents() == Overlay(old(component.Contents()), old(pos), buf[..w])
    {
      if component.kind != FileNode {
        return -1;
      }
      ghost var was := component.Contents();
      var idealFinalPos := pos + n;
      component.Grow(idealFinalPos);
      var writable := if idealFinalPos >= MAX_FILE_SIZE then MAX_FILE_SIZE - pos else n;
      ghost var grown := component.Contents();
      Memcpy(component.data, pos, buf, writable);
      Laid(was, grown, component.Contents(), pos, buf[..writable]);
      pos := pos + writable;
      return writable;
    }

    /** Copies from the start of the file, whatever the position is. */
    method Read(buf: array<char>, n: nat) returns (read: int)
      requires Valid() && n <= buf.Length && buf != component.data
      modifies this, buf
      ensures Valid()
      ensures component.kind != FileNode ==> read == -1 && pos == old(pos) && buf[..] == old(buf[..])
      // as many bytes as are asked for, or as there are up to the end
      ensures component.kind == FileNode ==>
                0 <= read <= n && pos == old(pos) + read <= component.len && (read < n ==> pos == component.len) &&
                buf[..read] == component.Contents()[..read] && buf[read..] == old(buf[read..])
      ensures component.kind == FileNode ==> read == Readable(component.len, old(pos), n)
    {
      if component.kind != FileNode {
        return -1;
      }
      var idealFinalPos := pos + n;
      var readable := if idealFinalPos >= component.len then component.len - pos else n;
      Memcpy(buf, 0, component.data, readable);
      assert buf[..readable] == buf[0..readable];
      pos := pos + readable;
      return readable;
    }
  }

  lemma Laid(was: seq<char>, grown: seq<char>, now: seq<char>, pos: nat, bytes: seq<char>)
    requires pos <= |was| <= |grown| == |now| == Max(|was|, pos + |bytes|) && grown[..|was|] == was
    requires now[..pos] == grown[..pos] && now[pos..pos + |bytes|] == bytes &&
             now[pos + |bytes|..] == grown[pos + |bytes|..]
    ensures now == Overlay(was, pos, bytes)
  {
    forall i | 0 <= i < |now| ensures now[i] == Overlay(was, pos, bytes)[i] {
      if i < pos {
        assert now[i] == now[..pos][i] && grown[i] == grown[..pos][i] && grown[i] == grown[..|was|][i];
      } else if i < pos + |bytes| {
        assert now[i] == now[pos..pos + |bytes|][i - pos];
      } else {
        var k := pos + |bytes|;
        assert now[i] == now[k..][i - k] && grown[i] == grown[k..][i - k];
        assert grown[i] == grown[..|was|][i];
      }
    }
  }

  /** A read is right, whatever the contents, exactly when the handle is at the
      start or there is nothing to read. */
  lemma ReadRightIff(len: nat, pos: nat, n: nat)
    requires pos <= len
    ensures var r := Readable(len, pos, n);
            (forall contents: seq<char> | |contents| == len :: contents[..r] == contents[pos..pos + r]) <==>
            pos == 0 || pos == len || n == 0
  {
    var r := Readable(len, pos, n);
    if pos > 0 && r > 0 {
      var contents := seq(len, i => if i == pos then 'b' else 'a');
      assert contents[..r][0] == 'a' && contents[pos..pos + r][0] == 'b';
    }
  }

  /** Of a file "ab", a read of one byte at position 1 gives 'a'. */
  lemma ReadWrongSample()
    ensures Readable(2, 1, 1) == 1 && "ab"[..1] == "a" && "ab"[1..2] == "b" && "ab"[..1] != "ab"[1..2]
  {
    assert "ab"[..1] == "a" && "ab"[1..2] == "b";
    assert "a"[0] != "b"[0];
  }

  // ------------------------------------------------------------------------ runs

  /** A file and the positions of the handles open on it. */
  datatype State = State(contents: seq<char>, pos: seq<nat>)
  datatype Op = OpenOp | WriteOp(handle: nat, bytes: seq<char>) | ReadOp(handle: nat, count: nat)

  /** Bytes that were written, and where. */
  datatype Patch = Patch(at: nat, bytes: seq<char>)

  predicate Ok(s: State) {
    |s.contents| <= MAX_FILE_SIZE && forall h | 0 <= h < |s.pos| :: s.pos[h] <= |s.contents|
  }

  predicate Enabled(s: State, op: Op) {
    match op
    case OpenOp => true
    case WriteOp(h, _) => h < |s.pos|
    case ReadOp(h, _) => h < |s.pos|
  }

  function Stepped(s: State, op: Op): (r: State)
    requires Ok(s) && Enabled(s, op)
    ensures Ok(r) && |r.contents| >= |s.contents| && |r.pos| >= |s.pos|
  {
    match op
    case OpenOp => s.(pos := s.pos + [0])
    case WriteOp(h, bytes) =>
      var w := Writable(s.pos[h], |bytes|);
      State(Overlay(s.contents, s.pos[h], bytes[..w]), s.pos[h := s.pos[h] + w])
    case ReadOp(h, n) => s.(pos := s.pos[h := s.pos[h] + Readable(|s.contents|, s.pos[h], n)])
  }

  predicate CanRun(s: State, ops: seq<Op>)
    requires Ok(s)
    decreases |ops|
  {
    ops == [] || (Enabled(s, ops[0]) && CanRun(Stepped(s, ops[0]), ops[1..]))
  }

  function Run(s: State, ops: seq<Op>): (r: State)
    requires Ok(s) && CanRun(s, ops)
    ensures Ok(r) && |r.pos| >= |s.pos|
    decreases |ops|
  {
    if ops == [] then s else Run(Stepped(s, ops[0]), ops[1..])
  }

  /** The patches of a run, in order, clipped to the file size. */
  function Patches(s: State, ops: seq<Op>): (ps: seq<Patch>)
    requires Ok(s) && CanRun(s, ops)
    decreases |ops|
  {
    if ops == [] then []
    else
      (match ops[0]
       case WriteOp(h, bytes) => [Patch(s.pos[h], bytes[..Writable(s.pos[h], |bytes|)])]
       case _ => []) + Patches(Stepped(s, ops[0]), ops[1..])
  }

  predicate Covers(p: Patch, i: nat) {
    p.at <= i < p.at + |p.bytes|
  }

  /** What the last patch over place i put there; d if there is none. */
  function LastWritten(ps: seq<Patch>, i: nat, d: char): (c: char) {
    if ps == [] then d
    else LastWritten(ps[1..], i, if Covers(ps[0], i) then ps[0].bytes[i - ps[0].at] else d)
  }

  /** Where the furthest patch ends. */
  function Extent(ps: seq<Patch>, from: nat): (e: nat)
    ensures e >= from
  {
    if ps == [] then from else Extent(ps[1..], Max(from, ps[0].at + |ps[0].bytes|))
  }

  /** Whatever handles wrote it, and however they took turns: the file is as long as
      the furthest patch reaches, and each byte is that of the last patch over it. */
  lemma {:induction false} LastWriterWins(s: State, ops: seq<Op>)
    requires Ok(s) && CanRun(s, ops)
    ensures |Run(s, ops).contents| == Extent(Patches(s, ops), |s.contents|) <= MAX_FILE_SIZE
    ensures forall i, d | 0 <= i < |Run(s, ops).contents| && (i < |s.contents| ==> d == s.contents[i]) ::
              Run(s, ops).contents[i] == LastWritten(Patches(s, ops), i, d)
    decreases |ops|
  {
    if ops != [] {
      var t := Stepped(s, ops[0]);
      LastWriterWins(t, ops[1..]);
      var rest, all := Patches(t, ops[1..]), Patches(s, ops);
      if ops[0].WriteOp? {
        var p := all[0];
        assert all[1..] == rest;
        forall i, d | 0 <= i < |Run(s, ops).contents| && (i < |s.contents| ==> d == s.contents[i])
          ensures Run(s, ops).contents[i] == LastWritten(all, i, d)
        {
          var e := if Covers(p, i) then p.bytes[i - p.at] else d;
          assert i < |t.contents| ==> t.contents[i] == e;
        }
      } else {
        assert all == rest;
      }
    }
  }

  /** The bytes that handle h was asked to write, one after the other. */
  function Requested(ops: seq<Op>, h: nat): (bytes: seq<char>) {
    if ops == [] then []
    else (if ops[0].WriteOp? && ops[0].handle == h then ops[0].bytes else []) + Requested(ops[1..], h)
  }

  predicate OnlyWrites(ops: seq<Op>, h: nat) {
    forall k | 0 <= k < |ops| :: !(ops[k].ReadOp? && ops[k].handle == h)
  }

  /** A handle that is never read through has written as much as was asked of it, or
      stands at the end of a full file, whatever other handles do. */
  lemma {:induction false} WriterPosition(s: State, ops: seq<Op>, h: nat)
    requires Ok(s) && CanRun(s, ops) && h < |s.pos| && OnlyWrites(ops, h)
    ensures Run(s, ops).pos[h] == Min(MAX_FILE_SIZE, s.pos[h] + |Requested(ops, h)|)
    decreases |ops|
  {
    if ops != [] {
      forall k | 0 <= k < |ops[1..]| ensures !(ops[1..][k].ReadOp? && ops[1..][k].handle == h) {
        assert ops[1..][k] == ops[k + 1];
      }
      WriterPosition(Stepped(s, ops[0]), ops[1..], h);
    }
  }

  predicate WritesOf(ops: seq<Op>, h: nat) {
    forall k | 0 <= k < |ops| :: ops[k].WriteOp? && ops[k].handle == h
  }

  lemma OverlayAppends(contents: seq<char>, bytes: seq<char>)
    ensures Overlay(contents, |contents|, bytes) == contents + bytes
  {
  }

  /** What has room of what is left to write, written in two goes. */
  lemma FirstBytes(a: seq<char>, b: seq<char>, rest: seq<char>, size: nat)
    requires |a| <= size
    ensures var first := a + b[..Min(|b|, size - |a|)];
            |first| <= size &&
            first + rest[..Min(|rest|, size - |first|)] == a + (b + rest)[..Min(|b + rest|, size - |a|)]
  {
  }

  /** A single writer that starts at the end leaves all its bytes in a row, as far as
      they fit. */
  lemma {:induction false} SingleWriter(s: State, ops: seq<Op>, h: nat)
    requires Ok(s) && CanRun(s, ops) && h < |s.pos| && s.pos[h] == |s.contents| && WritesOf(ops, h)
    ensures var all := Requested(ops, h);
            Run(s, ops).contents == s.contents + all[..Min(|all|, MAX_FILE_SIZE - |s.contents|)]
    decreases |ops|
  {
    if ops == [] {
      assert s.contents + [] == s.contents;
    } else {
      var t, bytes := Stepped(s, ops[0]), ops[0].bytes;
      OverlayAppends(s.contents, bytes[..Writable(s.pos[h], |bytes|)]);
      forall k | 0 <= k < |ops[1..]| ensures ops[1..][k].WriteOp? && ops[1..][k].handle == h {
        assert ops[1..][k] == ops[k + 1];
      }
      SingleWriter(t, ops[1..], h);
      FirstBytes(s.contents, bytes, Requested(ops[1..], h), MAX_FILE_SIZE);
    }
  }

  /** In every run from an empty file, the first read of n bytes through a newly opened
      handle gets every byte last written from the start on, up to n of them or to the
      end of the file. */
  lemma FirstRead(ops: seq<Op>, n: nat, i: nat)
    requires var s := State([], []); CanRun(s, ops) && i < n && i < |Run(s, ops).contents|
    ensures var s := State([], []); var contents := Run(s, ops).contents; var r := Readable(|contents|, 0, n);
            i < r && contents[..r][i] == LastWritten(Patches(s, ops), i, '\0')
    ensures var t := Stepped(Run(State([], []), ops), OpenOp); var h := |t.pos| - 1;
            h >= 0 && t.pos[h] == 0 && Stepped(t, ReadOp(h, n)).pos[h] == Min(n, |t.contents|)
  {
    LastWriterWins(State([], []), ops);
  }
}
