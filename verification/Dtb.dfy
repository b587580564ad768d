/** The flattened devicetree walker of lib/dtb.c, and the structure block of section
    5.4 of the Devicetree Specification that it walks. */
module Dtb {
  import opened Endian

  type Bytes = seq<Byte>

  const NUL: Byte := 0

  const MAGIC: Uint := 0xD00D_FEED
  const BEGIN_NODE: Uint := 1
  const END_NODE: Uint := 2
  const PROP: Uint := 3
  const NOP: Uint := 4
  const END: Uint := 9

  type Uint = n: int | 0 <= n < 0x1_0000_0000

  /** What the callback is told: the name of a node, or a property and its value. */
  datatype Event = NodeEvent(name: Bytes) | PropEvent(name: Bytes, value: Bytes, len: nat)

  /** The calls of the callback; a fault where the walk leaves memory. */
  datatype Trace = Events(es: seq<Event>) | Fault

  /** One token: where the pointer goes, and the calls of the callback. */
  datatype Step = Go(next: nat, calls: seq<Event>) | Stop

  function After(es: seq<Event>, t: Trace): Trace {
    if t.Events? then Events(es + t.es) else Fault
  }

  // ------------------------------------------------------------------ reading

  /** The number that the n bytes at p give, the highest first. */
  function Number(m: Bytes, p: nat, n: nat): (v: nat)
    requires p + n <= |m|
  {
    if n == 0 then 0 else 0x100 * Number(m, p, n - 1) + (m[p + n - 1] as int)
  }

  /** The number that is loaded so, as the walker calculates with it. */
  function BigAt(m: Bytes, p: nat): (n: nat)
    requires p + 4 <= |m|
  {
    Number(m, p, 4)
  }

  predicate IsBigEndian(v: nat, b: Bytes) {
    |b| == 4 && Number(b, 0, 4) == v
  }

  lemma NumberFour(m: Bytes, p: nat)
    requires p + 4 <= |m|
    ensures Number(m, p, 4) ==
              0x100_0000 * (m[p] as int) + 0x1_0000 * (m[p + 1] as int) + 0x100 * (m[p + 2] as int) + (m[p + 3] as int)
  {
    assert Number(m, p, 1) == (m[p] as int);
    assert Number(m, p, 2) == 0x100 * (m[p] as int) + (m[p + 1] as int);
  }

  lemma {:induction false} NumberMoved(m: Bytes, p: nat, b: Bytes, n: nat)
    requires n <= |b| && p + |b| <= |m| && forall i | 0 <= i < |b| :: m[p + i] == b[i]
    ensures Number(m, p, n) == Number(b, 0, n)
    decreases n
  {
    if n > 0 {
      NumberMoved(m, p, b, n - 1);
      assert b[n - 1] == m[p + (n - 1)];
    }
  }

  lemma BigEndianExists(v: Uint)
    ensures exists b: Bytes :: IsBigEndian(v, b)
  {
    var h, l := v / 0x1_0000, v % 0x1_0000;
    var b := [(h / 0x100) as Byte, (h % 0x100) as Byte, (l / 0x100) as Byte, (l % 0x100) as Byte];
    NumberFour(b, 0);
    assert IsBigEndian(v, b);
  }

  /** How a number is stored, highest byte first. */
  ghost function BigEndian(v: Uint): (b: Bytes)
    ensures |b| == 4
  {
    BigEndianExists(v);
    var b: Bytes :| IsBigEndian(v, b);
    b
  }

  lemma BigEndianIs(v: Uint)
    ensures IsBigEndian(v, BigEndian(v))
  {
    BigEndianExists(v);
  }

  /** The bytes b stand at p. */
  predicate Stands(m: Bytes, p: nat, b: Bytes) {
    p + |b| <= |m| && forall i | 0 <= i < |b| :: m[p + i] == b[i]
  }

  lemma LoadsAt(m: Bytes, p: nat, v: Uint)
    requires Stands(m, p, BigEndian(v))
    ensures p + 4 <= |m| && BigAt(m, p) == v
  {
    BigEndianIs(v);
    NumberMoved(m, p, BigEndian(v), 4);
  }

  lemma LoadsBytes(m: Bytes, p: nat, b: Bytes)
    requires |b| == 4 && Stands(m, p, b)
    ensures BigAt(m, p) ==
            0x100_0000 * (b[0] as int) + 0x1_0000 * (b[1] as int) + 0x100 * (b[2] as int) + (b[3] as int)
  {
    NumberMoved(m, p, b, 4);
    NumberFour(b, 0);
  }

  lemma LoadsSmall(m: Bytes, p: nat, v: Byte)
    requires Stands(m, p, [0, 0, 0, v])
    ensures p + 4 <= |m| && BigAt(m, p) == v as int
  {
    LoadsBytes(m, p, [0, 0, 0, v]);
  }

  /** Where the string at p ends: at its NUL, or at the end of memory. */
  function StringEnd(m: Bytes, p: nat): (e: nat)
    requires p <= |m|
    ensures p <= e <= |m| && (e < |m| ==> m[e] == NUL) && forall k | p <= k < e :: m[k] != NUL
    decreases |m| - p
  {
    if p == |m| || m[p] == NUL then p else StringEnd(m, p + 1)
  }

  lemma StringEndIs(m: Bytes, p: nat, e: nat)
    requires p <= e < |m| && m[e] == NUL && forall k | p <= k < e :: m[k] != NUL
    ensures StringEnd(m, p) == e
  {
    var f := StringEnd(m, p);
    assert !(f < e) && !(e < f);
  }

  /** The next multiple of four, p itself included. */
  function Aligned(p: nat): (q: nat)
    ensures p <= q < p + 4
  {
    if p == 0 then 0 else if p <= 4 then 4 else 4 + Aligned(p - 4)
  }

  /** What the code calculates: the next one, and the next one past p. */
  lemma {:induction false} AlignedIs(p: nat)
    ensures Aligned(p) == if p % 4 != 0 then p + (4 - p % 4) else p
  {
    if p > 4 {
      AlignedIs(p - 4);
    }
  }

  lemma PastIs(p: nat)
    ensures Aligned(p + 1) == p + (4 - p % 4)
  {
    AlignedIs(p + 1);
  }

  lemma {:induction false} AlignedShift(q: nat, n: nat)
    requires Aligned(q) == q
    ensures Aligned(q + n) == q + Aligned(n)
  {
    if q > 4 {
      AlignedShift(q - 4, n);
    }
  }

  lemma {:induction false} AlignedTwice(n: nat)
    ensures Aligned(Aligned(n)) == Aligned(n)
  {
    if n > 4 {
      AlignedTwice(n - 4);
    }
  }

  // ------------------------------------------------------------------ the walk

  /** A node that begins: its name stands at q. */
  function NodeStep(m: Bytes, q: nat): (s: Step)
    requires q <= |m|
    ensures s.Go? ==> s.next > q
  {
    var e := StringEnd(m, q);
    if e == |m| then Stop else Go(Aligned(e + 1), [NodeEvent(m[q..e])])
  }

  /** A property: its value stands at v, and its name in the strings block. */
  function PropStep(m: Bytes, name: nat, v: nat, len: nat): (s: Step)
    ensures s.Go? ==> s.next >= v
  {
    if v + len > |m| || name >= |m| || StringEnd(m, name) == |m| then Stop
    else Go(Aligned(v + len), [PropEvent(m[name..StringEnd(m, name)], m[v..v + len], len)])
  }

  /** What the loop of `fdt_traverse` does with the token at p. */
  function StepAt(m: Bytes, strings: nat, p: nat): (s: Step)
    ensures s.Go? ==> s.next > p
  {
    if p + 4 > |m| then Stop
    else if BigAt(m, p) == BEGIN_NODE then NodeStep(m, p + 4)
    else if BigAt(m, p) == PROP then
      (if p + 12 > |m| then Stop else PropStep(m, strings + BigAt(m, p + 8), p + 12, BigAt(m, p + 4)))
    else Go(p + 4, [])
  }

  /** The loop of `fdt_traverse`, from pointer p. */
  function Walk(m: Bytes, strings: nat, p: nat, end: nat): (t: Trace)
    decreases end - p
  {
    if p >= end then Events([])
    else
      match StepAt(m, strings, p)
      case Stop => Fault
      case Go(next, calls) => After(calls, Walk(m, strings, next, end))
  }

  /** `fdt_traverse` on the blob at `header`. */
  function Traverse(m: Bytes, header: nat): (t: Trace)
    requires header + 40 <= |m|
  {
    if BigAt(m, header) != MAGIC then Events([])
    else
      var at := header + BigAt(m, header + 8);
      Walk(m, header + BigAt(m, header + 12), at, at + BigAt(m, header + 36))
  }

  method Strlen(mem: array<Byte>, p: nat) returns (n: nat)
    requires p <= mem.Length && StringEnd(mem[..], p) < mem.Length
    ensures p + n == StringEnd(mem[..], p)
  {
    n := 0;
    while mem[p + n] != NUL
      invariant p + n <= StringEnd(mem[..], p)
      decreases StringEnd(mem[..], p) - p - n
    {
      n := n + 1;
    }
  }

  /** `little2big` of a 32-bit load at p. */
  method ReadBig(mem: array<Byte>, p: nat) returns (v: nat)
    requires p + 4 <= mem.Length
    ensures v == BigAt(mem[..], p)
  {
    NumberFour(mem[..], p);
    v := LoadBig(mem[p], mem[p + 1], mem[p + 2], mem[p + 3]);
  }

  /** The branch for a node. */
  method NodeToken(mem: array<Byte>, p: nat) returns (pointer: nat, calls: seq<Event>)
    requires p <= mem.Length && NodeStep(mem[..], p).Go?
    ensures NodeStep(mem[..], p) == Go(pointer, calls)
  {
    var n := Strlen(mem, p);
    calls := [NodeEvent(mem[p..p + n])];
    pointer := p + n;
    PastIs(pointer);
    pointer := pointer + (4 - pointer % 4);
  }

  /** The branch for a property. */
  method PropToken(mem: array<Byte>, strings: nat, p: nat) returns (pointer: nat, calls: seq<Event>)
    requires p + 8 <= mem.Length && PropStep(mem[..], strings + BigAt(mem[..], p + 4), p + 8, BigAt(mem[..], p)).Go?
    ensures PropStep(mem[..], strings + BigAt(mem[..], p + 4), p + 8, BigAt(mem[..], p)) == Go(pointer, calls)
  {
    var len := ReadBig(mem, p);
    var nameoff := ReadBig(mem, p + 4);
    pointer, calls := PropValue(mem, strings + nameoff, p + 8, len);
  }

  /** Its call of the callback, and the step past its value. */
  method PropValue(mem: array<Byte>, name: nat, value: nat, len: nat) returns (pointer: nat, calls: seq<Event>)
    requires PropStep(mem[..], name, value, len).Go?
    ensures PropStep(mem[..], name, value, len) == Go(pointer, calls)
  {
    var n := Strlen(mem, name);
    calls := [PropEvent(mem[name..name + n], mem[value..value + len], len)];
    pointer := value + len;
    AlignedIs(pointer);
    if pointer % 4 != 0 {
      pointer := pointer + (4 - pointer % 4);
    }
  }

  /** The body of the loop. */
  method NextToken(mem: array<Byte>, strings: nat, p: nat) returns (pointer: nat, calls: seq<Event>)
    requires StepAt(mem[..], strings, p).Go?
    ensures StepAt(mem[..], strings, p) == Go(pointer, calls)
  {
    var token := ReadBig(mem, p);
    pointer, calls := p + 4, [];
    if token == BEGIN_NODE {
      pointer, calls := NodeToken(mem, pointer);
    } else if token == PROP {
      pointer, calls := PropToken(mem, strings, pointer);
    }
  }

  lemma AfterBoth(a: seq<Event>, b: seq<Event>, t: Trace)
    ensures After(a, After(b, t)) == After(a + b, t)
  {
    if t.Events? {
      assert a + (b + t.es) == (a + b) + t.es;
    }
  }

  /** `fdt_traverse`, with the calls of its callback as result. */
  method FdtTraverse(mem: array<Byte>, header: nat) returns (calls: seq<Event>)
    requires header + 40 <= mem.Length && Traverse(mem[..], header).Events?
    ensures Traverse(mem[..], header) == Events(calls)
  {
    calls := [];
    var magic := ReadBig(mem, header);
    if magic != MAGIC {
      return;
    }
    var structSize := ReadBig(mem, header + 36);
    var offStruct := ReadBig(mem, header + 8);
    var offStrings := ReadBig(mem, header + 12);
    calls := Loop(mem, header + offStrings, header + offStruct, header + offStruct + structSize);
  }

  /** The loop. */
  method Loop(mem: array<Byte>, strings: nat, start: nat, end: nat) returns (calls: seq<Event>)
    requires Walk(mem[..], strings, start, end).Events?
    ensures Walk(mem[..], strings, start, end) == Events(calls)
  {
    ghost var m := mem[..];
    var pointer := start;
    calls := [];
    ghost var whole := Walk(m, strings, start, end);
    assert [] + whole.es == whole.es;
    while pointer < end
      invariant After(calls, Walk(m, strings, pointer, end)) == whole
      decreases end - pointer
    {
      ghost var before := pointer;
      var more;
      pointer, more := NextToken(mem, strings, pointer);
      AfterBoth(calls, more, Walk(m, strings, pointer, end));
      calls := calls + more;
    }
    assert calls + [] == calls;
  }

  // ---------------------------------------------------------- the encoded form

  datatype Token = BeginNode(name: Bytes) | EndNode | Prop(len: Uint, nameoff: Uint, value: Bytes) | Nop | End

  function Zeros(n: nat): (z: Bytes)
    ensures |z| == n
  {
    seq(n, _ => NUL)
  }

  /** The parts of an encoded token, as section 5.4 gives its bytes, the last one its
      padding to a multiple of four bytes. */
  ghost function Parts(t: Token): (parts: seq<Bytes>) {
    match t
    case BeginNode(name) => [[0, 0, 0, 1], name, [0], Zeros(Aligned(|name| + 1) - |name| - 1)]
    case EndNode => [[0, 0, 0, 2]]
    case Prop(len, nameoff, value) =>
      [[0, 0, 0, 3], BigEndian(len), BigEndian(nameoff), value, Zeros(Aligned(|value|) - |value|)]
    case Nop => [[0, 0, 0, 4]]
    case End => [[0, 0, 0, 9]]
  }

  function Flat(parts: seq<Bytes>): (b: Bytes) {
    if parts == [] then [] else parts[0] + Flat(parts[1..])
  }

  ghost function Encoded(t: Token): (b: Bytes) {
    Flat(Parts(t))
  }

  ghost function EncodedAll(ts: seq<Token>): (b: Bytes) {
    if ts == [] then [] else Encoded(ts[0]) + EncodedAll(ts[1..])
  }

  /** A node name has no NUL in it, a property's length is that of its value, and its
      name is a string in the strings block. */
  predicate TokenOk(m: Bytes, strings: nat, t: Token) {
    match t
    case BeginNode(name) => NUL !in name
    case Prop(len, nameoff, value) =>
      len == |value| && strings + nameoff < |m| && StringEnd(m, strings + nameoff) < |m|
    case _ => true
  }

  predicate TokensOk(m: Bytes, strings: nat, ts: seq<Token>) {
    ts == [] || (TokenOk(m, strings, ts[0]) && TokensOk(m, strings, ts[1..]))
  }

  /** The calls that a token stands for: one for a node that begins, with its name,
      and one for a property, with its name, value and length. */
  function Told(m: Bytes, strings: nat, t: Token): (es: seq<Event>)
    requires TokenOk(m, strings, t)
  {
    match t
    case BeginNode(name) => [NodeEvent(name)]
    case Prop(_, nameoff, value) => [PropEvent(m[strings + nameoff..StringEnd(m, strings + nameoff)], value, |value|)]
    case _ => []
  }

  function ToldAll(m: Bytes, strings: nat, ts: seq<Token>): (es: seq<Event>)
    requires TokensOk(m, strings, ts)
  {
    if ts == [] then [] else Told(m, strings, ts[0]) + ToldAll(m, strings, ts[1..])
  }

  lemma StandsSplit(m: Bytes, p: nat, a: Bytes, b: Bytes)
    requires Stands(m, p, a + b)
    ensures Stands(m, p, a) && Stands(m, p + |a|, b)
  {
    forall i | 0 <= i < |a| ensures m[p + i] == a[i] {
      assert (a + b)[i] == a[i];
    }
    forall i | 0 <= i < |b| ensures m[p + |a| + i] == b[i] {
      assert (a + b)[|a| + i] == b[i];
    }
  }

  lemma StandsFlat(m: Bytes, p: nat, parts: seq<Bytes>)
    requires parts != [] && Stands(m, p, Flat(parts))
    ensures Stands(m, p, parts[0]) && Stands(m, p + |parts[0]|, Flat(parts[1..]))
    ensures |Flat(parts)| == |parts[0]| + |Flat(parts[1..])|
  {
    StandsSplit(m, p, parts[0], Flat(parts[1..]));
  }

  /** How long an encoded token is. */
  function Size(t: Token): (n: nat)
    ensures n >= 4
  {
    match t
    case BeginNode(name) => 4 + Aligned(|name| + 1)
    case Prop(_, _, value) => 12 + Aligned(|value|)
    case _ => 4
  }

  lemma {:induction false} FlatLength(parts: seq<Bytes>)
    ensures |parts| == 1 ==> |Flat(parts)| == |parts[0]|
    ensures |parts| == 4 ==> |Flat(parts)| == |parts[0]| + |parts[1]| + |parts[2]| + |parts[3]|
    ensures |parts| == 5 ==> |Flat(parts)| == |parts[0]| + |parts[1]| + |parts[2]| + |parts[3]| + |parts[4]|
  {
    if |parts| > 0 {
      var a := parts[1..];
      assert |Flat(parts)| == |parts[0]| + |Flat(a)|;
      if |a| > 0 {
        var b := a[1..];
        assert |Flat(a)| == |a[0]| + |Flat(b)|;
        if |b| > 0 {
          var c := b[1..];
          assert |Flat(b)| == |b[0]| + |Flat(c)|;
          if |c| > 0 {
            var d := c[1..];
            assert |Flat(c)| == |c[0]| + |Flat(d)|;
            if |d| > 0 {
              assert |Flat(d)| == |d[0]| + |Flat(d[1..])|;
            }
          }
        }
      }
    }
  }

  lemma SizeIs(t: Token)
    ensures |Encoded(t)| == Size(t)
  {
    FlatLength(Parts(t));
  }

  lemma SizeAligned(t: Token)
    ensures Aligned(Size(t)) == Size(t)
  {
    assert Aligned(4) == 4 && Aligned(8) == 8 && Aligned(12) == 12;
    match t
    case BeginNode(name) =>
      AlignedTwice(|name| + 1);
      AlignedShift(4, Aligned(|name| + 1));
    case Prop(_, _, value) =>
      AlignedTwice(|value|);
      AlignedShift(12, Aligned(|value|));
    case _ =>
  }

  /** A stored name with its NUL. */
  lemma NodeStands(m: Bytes, q: nat, name: Bytes)
    requires Aligned(q) == q && NUL !in name && Stands(m, q, name) && Stands(m, q + |name|, [NUL])
    ensures q <= |m| && NodeStep(m, q) == Go(q + Aligned(|name| + 1), [NodeEvent(name)])
  {
    var e := q + |name|;
    assert [NUL][0] == m[e + 0];
    forall k | q <= k < e ensures m[k] != NUL {
      assert name[k - q] == m[q + (k - q)];
    }
    assert m[q..e] == name;
    StringEndIs(m, q, e);
    AlignedShift(q, |name| + 1);
  }

  /** A stored value. */
  lemma PropStands(m: Bytes, name: nat, v: nat, value: Bytes)
    requires Aligned(v) == v && Stands(m, v, value) && name < |m| && StringEnd(m, name) < |m|
    ensures PropStep(m, name, v, |value|) ==
              Go(v + Aligned(|value|), [PropEvent(m[name..StringEnd(m, name)], value, |value|)])
  {
    assert m[v..v + |value|] == value;
    AlignedShift(v, |value|);
  }

  lemma PropParts(m: Bytes, p: nat, t: Token)
    requires t.Prop? && Stands(m, p, Encoded(t))
    ensures Stands(m, p, [0, 0, 0, 3]) && Stands(m, p + 4, BigEndian(t.len)) && Stands(m, p + 8, BigEndian(t.nameoff))
    ensures Stands(m, p + 12, t.value)
  {
    var parts := Parts(t);
    StandsFlat(m, p, parts);
    StandsFlat(m, p + 4, parts[1..]);
    StandsFlat(m, p + 8, parts[1..][1..]);
    StandsFlat(m, p + 12, parts[1..][1..][1..]);
  }

  lemma NodeParts(m: Bytes, p: nat, t: Token)
    requires t.BeginNode? && Stands(m, p, Encoded(t))
    ensures Stands(m, p, [0, 0, 0, 1]) && Stands(m, p + 4, t.name) && Stands(m, p + 4 + |t.name|, [NUL])
  {
    var parts := Parts(t);
    StandsFlat(m, p, parts);
    StandsFlat(m, p + 4, parts[1..]);
    StandsFlat(m, p + 4 + |t.name|, parts[1..][1..]);
  }

  lemma PropNumbers(m: Bytes, p: nat, t: Token)
    requires t.Prop? && Stands(m, p, Encoded(t))
    ensures p + 12 <= |m| && BigAt(m, p) == PROP && BigAt(m, p + 4) == t.len && BigAt(m, p + 8) == t.nameoff
    ensures Stands(m, p + 12, t.value)
  {
    PropParts(m, p, t);
    LoadsSmall(m, p, 3);
    LoadsAt(m, p + 4, t.len);
    LoadsAt(m, p + 8, t.nameoff);
  }

  lemma StepNode(m: Bytes, strings: nat, p: nat, t: Token)
    requires Aligned(p) == p && t.BeginNode? && Stands(m, p, Encoded(t)) && TokenOk(m, strings, t)
    ensures StepAt(m, strings, p) == Go(p + Size(t), Told(m, strings, t))
  {
    NodeParts(m, p, t);
    LoadsSmall(m, p, 1);
    AlignedShift(p, 4);
    NodeStands(m, p + 4, t.name);
  }

  lemma StepAtProp(m: Bytes, strings: nat, p: nat, len: nat, nameoff: nat, s: Step)
    requires p + 12 <= |m| && BigAt(m, p) == PROP && BigAt(m, p + 4) == len && BigAt(m, p + 8) == nameoff
    requires PropStep(m, strings + nameoff, p + 12, len) == s
    ensures StepAt(m, strings, p) == s
  {
  }

  lemma PropTold(m: Bytes, strings: nat, p: nat, t: Token)
    requires t.Prop? && TokenOk(m, strings, t)
    ensures var name := strings + t.nameoff;
            name < |m| && StringEnd(m, name) < |m| && t.len == |t.value| &&
            Go(p + Size(t), Told(m, strings, t)) ==
            Go(p + 12 + Aligned(|t.value|), [PropEvent(m[name..StringEnd(m, name)], t.value, |t.value|)])
  {
  }

  lemma PropValueStep(m: Bytes, strings: nat, p: nat, t: Token)
    requires Aligned(p) == p && t.Prop? && Stands(m, p + 12, t.value) && TokenOk(m, strings, t)
    ensures PropStep(m, strings + t.nameoff, p + 12, t.len) == Go(p + Size(t), Told(m, strings, t))
  {
    PropTold(m, strings, p, t);
    AlignedTwelve(p);
    PropStands(m, strings + t.nameoff, p + 12, t.value);
  }

  lemma AlignedTwelve(p: nat)
    requires Aligned(p) == p
    ensures Aligned(p + 12) == p + 12
  {
    assert Aligned(12) == 12;
    AlignedShift(p, 12);
  }

  lemma StepProp(m: Bytes, strings: nat, p: nat, t: Token)
    requires Aligned(p) == p && t.Prop? && Stands(m, p, Encoded(t)) && TokenOk(m, strings, t)
    ensures StepAt(m, strings, p) == Go(p + Size(t), Told(m, strings, t))
  {
    PropNumbers(m, p, t);
    PropValueStep(m, strings, p, t);
    StepAtProp(m, strings, p, t.len, t.nameoff, Go(p + Size(t), Told(m, strings, t)));
  }

  lemma StepOther(m: Bytes, strings: nat, p: nat, t: Token)
    requires !t.BeginNode? && !t.Prop? && Stands(m, p, Encoded(t))
    ensures StepAt(m, strings, p) == Go(p + 4, [])
  {
    StandsFlat(m, p, Parts(t));
    LoadsSmall(m, p, if t.EndNode? then 2 else if t.Nop? then 4 else 9);
  }

  /** An encoded token makes the walk tell what it stands for and go on behind it. */
  lemma StepInverts(m: Bytes, strings: nat, p: nat, t: Token)
    requires Aligned(p) == p && Stands(m, p, Encoded(t)) && TokenOk(m, strings, t)
    ensures StepAt(m, strings, p) == Go(p + Size(t), Told(m, strings, t))
  {
    match t
    case BeginNode(_) => StepNode(m, strings, p, t);
    case Prop(_, _, _) => StepProp(m, strings, p, t);
    case _ => StepOther(m, strings, p, t);
  }

  lemma WalkOn(m: Bytes, strings: nat, p: nat, end: nat, next: nat, calls: seq<Event>, more: seq<Event>)
    requires p < end && StepAt(m, strings, p) == Go(next, calls) && Walk(m, strings, next, end) == Events(more)
    ensures Walk(m, strings, p, end) == Events(calls + more)
  {
  }

  lemma FirstToken(m: Bytes, p: nat, ts: seq<Token>)
    requires ts != [] && Stands(m, p, EncodedAll(ts))
    ensures Stands(m, p, Encoded(ts[0])) && Stands(m, p + Size(ts[0]), EncodedAll(ts[1..]))
    ensures |EncodedAll(ts)| == Size(ts[0]) + |EncodedAll(ts[1..])|
  {
    StandsSplit(m, p, Encoded(ts[0]), EncodedAll(ts[1..]));
    SizeIs(ts[0]);
  }

  lemma FirstStep(m: Bytes, strings: nat, p: nat, t: Token, next: nat)
    requires Aligned(p) == p && Stands(m, p, Encoded(t)) && TokenOk(m, strings, t) && next == p + Size(t)
    ensures StepAt(m, strings, p) == Go(next, Told(m, strings, t)) && Aligned(next) == next
  {
    StepInverts(m, strings, p, t);
    NextAligned(p, t);
  }

  lemma NextAligned(p: nat, t: Token)
    requires Aligned(p) == p
    ensures Aligned(p + Size(t)) == p + Size(t)
  {
    SizeAligned(t);
    AlignedShift(p, Size(t));
  }

  /** Each token from p on makes the walk tell what it stands for, up to `end`. */
  ghost predicate Follows(m: Bytes, strings: nat, p: nat, end: nat, ts: seq<Token>)
    requires TokensOk(m, strings, ts)
    decreases |ts|
  {
    if ts == [] then p == end
    else
      p < end && StepAt(m, strings, p) == Go(p + Size(ts[0]), Told(m, strings, ts[0])) &&
      Follows(m, strings, p + Size(ts[0]), end, ts[1..])
  }

  lemma FollowsOn(m: Bytes, strings: nat, p: nat, end: nat, ts: seq<Token>)
    requires TokensOk(m, strings, ts) && ts != [] && p < end
    requires StepAt(m, strings, p) == Go(p + Size(ts[0]), Told(m, strings, ts[0]))
    requires Follows(m, strings, p + Size(ts[0]), end, ts[1..])
    ensures Follows(m, strings, p, end, ts)
  {
  }

  /** The tokens ts stand encoded from p, an aligned place, to `end`. */
  ghost predicate Block(m: Bytes, p: nat, end: nat, ts: seq<Token>) {
    Aligned(p) == p && Stands(m, p, EncodedAll(ts)) && end == p + |EncodedAll(ts)|
  }

  lemma BlockSplit(m: Bytes, p: nat, end: nat, ts: seq<Token>, next: nat)
    requires ts != [] && Block(m, p, end, ts) && next == p + Size(ts[0])
    ensures p < end && Stands(m, p, Encoded(ts[0])) && Block(m, next, end, ts[1..])
  {
    FirstToken(m, p, ts);
    NextAligned(p, ts[0]);
  }

  lemma BlockRest(m: Bytes, strings: nat, p: nat, end: nat, ts: seq<Token>, next: nat)
    requires ts != [] && TokensOk(m, strings, ts) && Block(m, p, end, ts) && next == p + Size(ts[0])
    ensures p < end && StepAt(m, strings, p) == Go(next, Told(m, strings, ts[0])) && Block(m, next, end, ts[1..])
  {
    BlockSplit(m, p, end, ts, next);
    FirstStep(m, strings, p, ts[0], next);
  }

  lemma {:induction false} EncodedFollows(m: Bytes, strings: nat, p: nat, end: nat, ts: seq<Token>)
    requires Block(m, p, end, ts) && TokensOk(m, strings, ts)
    ensures Follows(m, strings, p, end, ts)
    decreases |ts|
  {
    if ts != [] {
      var next := p + Size(ts[0]);
      BlockRest(m, strings, p, end, ts, next);
      EncodedFollows(m, strings, next, end, ts[1..]);
      FollowsOn(m, strings, p, end, ts);
    }
  }

  lemma {:induction false} FollowsTold(m: Bytes, strings: nat, p: nat, end: nat, ts: seq<Token>)
    requires TokensOk(m, strings, ts) && Follows(m, strings, p, end, ts)
    ensures Walk(m, strings, p, end) == Events(ToldAll(m, strings, ts))
    decreases |ts|
  {
    if ts != [] {
      FollowsTold(m, strings, p + Size(ts[0]), end, ts[1..]);
      WalkOn(m, strings, p, end, p + Size(ts[0]), Told(m, strings, ts[0]), ToldAll(m, strings, ts[1..]));
    }
  }

  /** On every sequence of tokens, encoded from a 4-byte aligned place on, the walk
      ends at the end of the block, and the callback is told exactly the nodes begun
      and the properties, in order, with their names, values and lengths. */
  lemma WalkInverts(m: Bytes, strings: nat, p: nat, end: nat, ts: seq<Token>)
    requires Aligned(p) == p && Stands(m, p, EncodedAll(ts)) && TokensOk(m, strings, ts) && end == p + |EncodedAll(ts)|
    ensures Walk(m, strings, p, end) == Events(ToldAll(m, strings, ts))
  {
    EncodedFollows(m, strings, p, end, ts);
    FollowsTold(m, strings, p, end, ts);
  }

  lemma AlignedAt(at: nat)
    requires at % 4 == 0
    ensures Aligned(at) == at
  {
    AlignedIs(at);
  }

  /** What the header tells: where the structure and strings blocks are, and how long
      the structure block is. */
  predicate Header(m: Bytes, header: nat, at: nat, strings: nat, size: nat) {
    header + 40 <= |m| && Stands(m, header, [0xd0, 0x0d, 0xfe, 0xed]) && header + BigAt(m, header + 8) == at &&
    header + BigAt(m, header + 12) == strings && BigAt(m, header + 36) == size
  }

  lemma TraverseIs(m: Bytes, header: nat, at: nat, strings: nat, end: nat, t: Trace)
    requires at <= end && Header(m, header, at, strings, end - at) && Walk(m, strings, at, end) == t
    ensures header + 40 <= |m| && Traverse(m, header) == t
  {
    MagicIs(m, header);
  }

  lemma MagicIs(m: Bytes, header: nat)
    requires header + 4 <= |m|
    ensures BigAt(m, header) == MAGIC <==> Stands(m, header, [0xd0, 0x0d, 0xfe, 0xed])
  {
    var b: Bytes := [0xd0, 0x0d, 0xfe, 0xed];
    NumberFour(m, header);
    assert m[header] == b[0] && m[header + 1] == b[1] && m[header + 2] == b[2] && m[header + 3] == b[3] ==>
             Stands(m, header, b);
    assert Stands(m, header, b) ==>
             m[header + 0] == b[0] && m[header + 1] == b[1] && m[header + 2] == b[2] && m[header + 3] == b[3];
  }

  /** So `fdt_traverse` inverts the encoding of a whole blob. */
  lemma TraverseInverts(m: Bytes, header: nat, at: nat, strings: nat, ts: seq<Token>)
    requires Header(m, header, at, strings, |EncodedAll(ts)|)
    requires at % 4 == 0 && Stands(m, at, EncodedAll(ts)) && TokensOk(m, strings, ts)
    ensures header + 40 <= |m| && Traverse(m, header) == Events(ToldAll(m, strings, ts))
  {
    var end := at + |EncodedAll(ts)|;
    AlignedAt(at);
    WalkInverts(m, strings, at, end, ts);
    TraverseIs(m, header, at, strings, end, Events(ToldAll(m, strings, ts)));
  }

  /** Any other magic number ends the walk before it begins. */
  lemma WrongMagic(m: Bytes, header: nat)
    requires header + 40 <= |m| && !Stands(m, header, [0xd0, 0x0d, 0xfe, 0xed])
    ensures Traverse(m, header) == Events([])
  {
    MagicIs(m, header);
  }
}
