/** Whether the text of an integer directive shows the number it is given: the text
    read back as a number is read, over all flags, widths and precisions. */
module FormatReading {
  import opened Common
  import opened Sequences
  import opened Format
  import opened FormatProofs

  // ------------------------------------------------------------------- a reader

  predicate IsDigitOf(c: char, base: int) {
    ('0' <= c <= '9' || 'a' <= c <= 'f' || 'A' <= c <= 'F') && DigitValue(c) < base
  }

  /** Reads digits of a base, highest first, on from the value v. */
  function ReadDigits(s: string, base: int, v: int): (r: int)
    decreases |s|
  {
    if s != "" && IsDigitOf(s[0], base) then ReadDigits(s[1..], base, v * base + DigitValue(s[0])) else v
  }

  /** The mark of the alternative form: 0x, 0X or 0b, where the base has one. */
  predicate HasMark(s: string, base: int) {
    |s| >= 2 && s[0] == '0' && ((base == 16 && s[1] in "xX") || (base == 2 && s[1] == 'b'))
  }

  function ReadNumber(s: string, base: int): (r: int) {
    ReadDigits(if HasMark(s, base) then s[2..] else s, base, 0)
  }

  function SkipSpaces(s: string): (r: string) {
    if s != "" && s[0] == ' ' then SkipSpaces(s[1..]) else s
  }

  /** The number at the start of a text: spaces, a sign, a mark and digits, of which
      all but the digits may be missing. */
  function Reading(text: string, base: int): (r: int) {
    var s := SkipSpaces(text);
    if s != "" && s[0] == '-' then -ReadNumber(s[1..], base)
    else if s != "" && s[0] == '+' then ReadNumber(s[1..], base)
    else ReadNumber(s, base)
  }

  // ------------------------------------------------------- reading reversed digits

  predicate AllDigits(t: string, base: int) {
    forall i | 0 <= i < |t| :: IsDigitOf(t[i], base)
  }

  predicate Blank(s: string) {
    forall i | 0 <= i < |s| :: s[i] == ' '
  }

  lemma {:induction false} ReverseConcat(a: string, b: string)
    ensures Reverse(a + b) == Reverse(b) + Reverse(a)
    decreases |b|
  {
    if b == "" {
      assert a + b == a;
    } else {
      var n := |b| - 1;
      assert (a + b)[..|a + b| - 1] == a + b[..n];
      ReverseConcat(a, b[..n]);
    }
  }

  /** The highest digit and those below it. */
  lemma {:induction false} ValueOfHighest(t: string, c: char, base: int)
    requires base >= 1
    ensures Value(t + [c], base) == Value(t, base) + DigitValue(c) * Pow(base, |t|)
    decreases |t|
  {
    var s := t + [c];
    if t == "" {
      assert s[1..] == "";
    } else {
      assert s[1..] == t[1..] + [c];
      ValueOfHighest(t[1..], c, base);
      var p := Pow(base, |t| - 1);
      Distribute(base, Value(t[1..], base), DigitValue(c) * p);
      Associate(base, DigitValue(c), p);
      Associate(DigitValue(c), base, p);
    }
  }

  lemma ReverseHighest(low: string, c: char)
    ensures Reverse(low + [c]) == [c] + Reverse(low)
  {
    assert (low + [c])[..|low|] == low;
  }

  lemma ReadOne(c: char, s: string, base: int, v: int)
    requires IsDigitOf(c, base)
    ensures ReadDigits([c] + s, base, v) == ReadDigits(s, base, v * base + DigitValue(c))
  {
    assert ([c] + s)[1..] == s;
  }

  lemma LowDigits(t: string, n: nat, base: int)
    requires AllDigits(t, base) && n < |t|
    ensures AllDigits(t[..n], base) && IsDigitOf(t[n], base)
  {
  }

  lemma {:induction false} ReadReversed(t: string, rest: string, base: int, v: int)
    requires base >= 1 && AllDigits(t, base) && (rest == "" || !IsDigitOf(rest[0], base))
    ensures ReadDigits(Reverse(t) + rest, base, v) == v * Pow(base, |t|) + Value(t, base)
    decreases |t|
  {
    if t == "" {
      assert Reverse(t) + rest == rest;
    } else {
      var n := |t| - 1;
      var low, c := t[..n], t[n];
      assert t == low + [c];
      LowDigits(t, n, base);
      ReverseHighest(low, c);
      assert Reverse(t) + rest == [c] + (Reverse(low) + rest);
      ReadOne(c, Reverse(low) + rest, base, v);
      ReadReversed(low, rest, base, v * base + DigitValue(c));
      ValueOfHighest(low, c, base);
      ReadStep(v, base, DigitValue(c), Pow(base, n));
    }
  }

  lemma ReadStep(v: int, base: int, d: int, p: int)
    ensures (v * base + d) * p == v * (base * p) + d * p
  {
    Associate(v, base, p);
  }

  lemma {:induction false} ZerosOnTop(t: string, n: int, base: int)
    requires base >= 1
    ensures Value(t + Repeat('0', n), base) == Value(t, base)
    decreases n
  {
    if n <= 0 {
      assert t + Repeat('0', n) == t;
    } else {
      assert t + Repeat('0', n) == (t + Repeat('0', n - 1)) + ['0'];
      ZerosOnTop(t, n - 1, base);
      ValueOfHighest(t + Repeat('0', n - 1), '0', base);
    }
  }

  lemma NoMarkInDigits(t: string, tail: string, base: int)
    requires base in {2, 8, 10, 16} && AllDigits(t, base) && Blank(tail)
    ensures !HasMark(Reverse(t) + tail, base)
  {
    var s := Reverse(t) + tail;
    if |s| >= 2 {
      if |t| >= 2 {
        ReverseAt(t, 1);
        assert IsDigitOf(s[1], base);
      } else {
        assert s[1] == tail[1 - |t|];
      }
    }
  }

  lemma {:induction false} ReverseAt(t: string, k: int)
    requires 0 <= k < |t|
    ensures Reverse(t)[k] == t[|t| - 1 - k]
    decreases |t|
  {
    if k > 0 {
      ReverseAt(t[..|t| - 1], k - 1);
    }
  }

  /** Reversed digits are read as the number they stand for. */
  lemma ReadPlain(t: string, tail: string, base: int)
    requires base in {2, 8, 10, 16} && AllDigits(t, base) && Blank(tail)
    ensures ReadNumber(Reverse(t) + tail, base) == Value(t, base)
  {
    NoMarkInDigits(t, tail, base);
    ReadReversed(t, tail, base, 0);
  }

  // ------------------------------------------------------------ the alternative form

  /** How many digits the mark is written over: it takes the place of zeros that
      padded the number to its width, whether there are any or not. */
  function Dropped(len: int, base: int, prec: int, width: int, fl: Flags): (k: int)
    requires len >= 0
    ensures 0 <= k <= 2 && k <= len
  {
    if fl.precision || len == 0 || (len != prec && len != width) then 0 else if len > 1 && base == 16 then 2 else 1
  }

  /** The digits that the mark leaves, lowest first. */
  function Kept(b: string, base: int, prec: int, width: int, fl: Flags): (t: string)
    ensures |t| == |b| - Dropped(|b|, base, prec, width, fl)
  {
    b[..|b| - Dropped(|b|, base, prec, width, fl)]
  }

  /** The mark as it stands in the buffer, lowest first. */
  function Mark(len: int, base: int, fl: Flags): (m: string) {
    var first := if len >= DIGITS then ""
                 else if base == 16 then [if fl.upper then 'X' else 'x'] else if base == 2 then ['b'] else "";
    first + if len + |first| < DIGITS then ['0'] else ""
  }

  lemma HashedIs(buf: string, base: int, prec: int, width: int, fl: Flags)
    ensures var t := Kept(buf, base, prec, width, fl);
            Hashed(buf, base, prec, width, fl) == t + Mark(|t|, base, fl)
  {
    assert buf[..|buf|] == buf;
  }

  lemma {:induction false} ReverseTwo(t: string, x: char)
    ensures Reverse(t + [x, '0']) == ['0', x] + Reverse(t)
  {
    assert [x, '0'][..1] == [x] && [x][..0] == "";
    assert Reverse([x]) == [x] && Reverse([x, '0']) == ['0', x];
    ReverseConcat(t, [x, '0']);
  }

  lemma ReverseOne(t: string, x: char)
    ensures Reverse(t + [x]) == [x] + Reverse(t)
  {
    assert [x][..0] == "" && Reverse([x]) == [x];
    ReverseConcat(t, [x]);
  }

  lemma ReadShortMark(t: string, x: char, base: int, tail: string)
    requires x in "xXb" && base in {2, 16} && (x == 'b' ==> base == 2)
    ensures ReadNumber(Reverse(t + [x]) + tail, base) == 0
  {
    ReverseOne(t, x);
    var s := Reverse(t + [x]) + tail;
    assert s[0] == x && !IsDigitOf(x, base);
  }

  lemma ReadWholeMark(t: string, x: char, base: int, tail: string)
    requires (base == 16 && x in "xX") || (base == 2 && x == 'b')
    requires AllDigits(t, base) && Blank(tail)
    ensures ReadNumber(Reverse(t + [x, '0']) + tail, base) == Value(t, base)
  {
    ReverseTwo(t, x);
    var s := Reverse(t + [x, '0']) + tail;
    assert s[0] == '0' && s[1] == x && s[2..] == Reverse(t) + tail;
    ReadReversed(t, tail, base, 0);
  }

  /** A number with its mark is read as its digits, unless the mark is cut short. */
  lemma ReadMarked(t: string, base: int, fl: Flags, tail: string)
    requires base in {2, 8, 16} && AllDigits(t, base) && Blank(tail) && |t| <= DIGITS
    ensures ReadNumber(Reverse(t + Mark(|t|, base, fl)) + tail, base) ==
              if base != 8 && |t| == DIGITS - 1 then 0 else Value(t, base)
  {
    var x := if base == 2 then 'b' else if fl.upper then 'X' else 'x';
    if |t| == DIGITS {
      assert t + Mark(|t|, base, fl) == t;
      ReadPlain(t, tail, base);
    } else if base == 8 {
      ReadOctal(t, tail);
    } else if |t| == DIGITS - 1 {
      ReadShortMark(t, x, base, tail);
    } else {
      assert Mark(|t|, base, fl) == [x, '0'];
      ReadWholeMark(t, x, base, tail);
    }
  }

  lemma ReadOctal(t: string, tail: string)
    requires AllDigits(t, 8) && Blank(tail)
    ensures ReadNumber(Reverse(t + ['0']) + tail, 8) == Value(t, 8)
  {
    ReadPlain(t + ['0'], tail, 8);
    ValueOfHighest(t, '0', 8);
  }

  // ------------------------------------------------------------ digits that are lost

  lemma {:induction false} DigitsAreDigits(v: nat, base: int, upper: bool, room: nat)
    requires base in {2, 8, 10, 16} && room >= 1
    ensures AllDigits(Digits(v, base, upper, room), base)
    decreases room
  {
    var s := Digits(v, base, upper, room);
    var q, d := DigitsParts(v, base, upper, room);
    DigitDecodes(d, upper);
    assert IsDigitOf(s[0], base);
    if q != 0 && room > 1 {
      DigitsAreDigits(q, base, upper, room - 1);
    }
    forall i | 0 <= i < |s| ensures IsDigitOf(s[i], base) {
      if i > 0 { assert s[i] == s[1..][i - 1]; }
    }
  }

  lemma {:induction false} ValueNotNegative(t: string, base: int)
    requires base >= 1 && AllDigits(t, base)
    ensures Value(t, base) >= 0
  {
    if t != "" {
      assert AllDigits(t[1..], base) by {
        assert forall i | 0 <= i < |t[1..]| :: t[1..][i] == t[i + 1];
      }
      ValueNotNegative(t[1..], base);
      assert IsDigitOf(t[0], base);
      Monotone(base, 0, Value(t[1..], base));
    }
  }

  /** Without its highest digits a number is smaller, strictly so if the highest is
      not zero. */
  lemma {:induction false} FewerDigits(t: string, n: nat, base: int)
    requires base >= 1 && AllDigits(t, base) && n < |t|
    ensures 0 <= Value(t[..n], base) <= Value(t, base)
    ensures DigitValue(t[|t| - 1]) != 0 ==> Value(t[..n], base) < Value(t, base)
    decreases |t|
  {
    var k := |t| - 1;
    var low, c := t[..k], t[k];
    assert t == low + [c] && IsDigitOf(c, base);
    ValueOfHighest(low, c, base);
    ValueNotNegative(low, base);
    Monotone(Pow(base, k), 0, DigitValue(c));
    if DigitValue(c) != 0 {
      Monotone(Pow(base, k), 1, DigitValue(c));
    }
    if n < k {
      FewerDigits(low, n, base);
      assert low[..n] == t[..n];
    } else {
      assert t[..n] == low;
    }
  }

  lemma {:induction false} RepeatPrefix(c: char, n: nat, k: nat)
    requires k <= n
    ensures Repeat(c, n)[..k] == Repeat(c, k)
  {
  }

  lemma AllKept(d: string, zeros: nat, n: nat, base: int)
    requires base in {2, 8, 10, 16} && AllDigits(d, base) && |d| <= n <= |d| + zeros
    ensures var t := (d + Repeat('0', zeros))[..n]; AllDigits(t, base) && Value(t, base) == Value(d, base)
  {
    RepeatPrefix('0', zeros, n - |d|);
    assert (d + Repeat('0', zeros))[..n] == d + Repeat('0', n - |d|);
    assert IsDigitOf('0', base);
    ZerosOnTop(d, n - |d|, base);
  }

  lemma FitsRoom(v: Word, base: int, room: nat)
    requires room == DIGITS && base in {2, 8, 10, 16} && (base != 2 || v < UINT)
    ensures v < Pow(base, room)
  {
    PowValues();
    if base != 2 {
      PowGrows(8, base, 32);
    }
  }

  /** The highest digit of v, where none is lost, is not zero. */
  lemma HighestNotZero(v: Word, base: int, upper: bool, room: nat)
    requires room == DIGITS && base in {2, 8, 10, 16} && v > 0 && (base != 2 || v < UINT)
    ensures var d := Digits(v, base, upper, room); DigitValue(d[|d| - 1]) != 0
  {
    FitsRoom(v, base, room);
    HighestOf(v, base, upper, room);
  }

  lemma HighestOf(v: nat, base: int, upper: bool, room: nat)
    requires room >= 1 && base in {2, 8, 10, 16} && 0 < v < Pow(base, room)
    ensures var d := Digits(v, base, upper, room); DigitValue(d[|d| - 1]) != 0
  {
    var d := Digits(v, base, upper, room);
    NoLeadingZero(v, base, upper, room);
    DigitsAreDigits(v, base, upper, room);
    LastNotZero(d, |d| - 1, base);
  }

  lemma LastNotZero(d: string, k: nat, base: int)
    requires AllDigits(d, base) && base <= 16 && k < |d| && d[k] != '0'
    ensures DigitValue(d[k]) != 0
  {
    LowDigits(d, k, base);
    NonZeroDigit(d[k]);
  }

  lemma Remains(v: nat, m: nat)
    requires 0 < m <= v
    ensures v % m < v
  {
  }

  /** With base 2 only the low 32 bits are shown. */
  lemma LowBits(v: Word, upper: bool, room: nat)
    requires room == DIGITS && v >= UINT
    ensures Value(Digits(v, 2, upper, room), 2) < v
  {
    DigitsDecode(v, 2, upper, room);
    PowValues();
    Remains(v, Pow(2, 32));
  }

  /** The digits d stand for at most v, and for less or with a highest digit that
      counts. */
  predicate AtMost(d: string, v: int, base: int) {
    Value(d, base) <= v && (Value(d, base) < v || d == "" || DigitValue(d[|d| - 1]) != 0)
  }

  lemma LowerOf(d: string, v: int, n: nat, base: int)
    requires base >= 1 && AllDigits(d, base) && n < |d| && AtMost(d, v, base)
    ensures Value(d[..n], base) < v
  {
    FewerDigits(d, n, base);
  }

  lemma DigitsAtMost(v: Word, base: int, upper: bool, room: nat)
    requires room == DIGITS && base in {2, 8, 10, 16} && v > 0
    ensures AtMost(Digits(v, base, upper, room), v, base)
  {
    if base == 2 && v >= UINT {
      LowBits(v, upper, room);
    } else {
      HighestNotZero(v, base, upper, room);
      DigitsExactIn(v, base, upper, room);
    }
  }

  lemma KeptValue(d: string, v: int, b: string, m: int, n: nat, base: int)
    requires base in {2, 8, 10, 16} && AllDigits(d, base) && PaddedTo(b, d, m) && n <= |b| && AtMost(d, v, base)
    ensures AllDigits(b[..n], base) && (Value(b[..n], base) == v <==> n >= |d| && Value(d, base) == v)
  {
    if n >= |d| {
      AllKept(d, m - |d|, n, base);
    } else {
      assert b[..n] == d[..n];
      LowerOf(d, v, n, base);
    }
  }

  /** Of the digits of v, padded with zeros, the lowest n are v exactly when all the
      digits of v are among them, and they are all there are. */
  lemma KeptExact(v: Word, base: int, upper: bool, room: nat, b: string, m: int, n: nat)
    requires room == DIGITS && base in {2, 8, 10, 16} && v > 0 && n <= |b|
    requires PaddedTo(b, Digits(v, base, upper, room), m)
    ensures var d := Digits(v, base, upper, room);
            AllDigits(b[..n], base) && (Value(b[..n], base) == v <==> n >= |d| && (base != 2 || v < UINT))
  {
    DigitsAreDigits(v, base, upper, room);
    DigitsAtMost(v, base, upper, room);
    DigitsExactIn(v, base, upper, room);
    KeptValue(Digits(v, base, upper, room), v, b, m, n, base);
  }

  lemma NonZeroDigit(c: char)
    requires IsDigitOf(c, 16) && c != '0'
    ensures DigitValue(c) != 0
  {
  }

  // --------------------------------------------------------------- padding and sign

  lemma {:induction false} RepeatConcat(c: char, a: nat, b: nat)
    ensures Repeat(c, a) + Repeat(c, b) == Repeat(c, a + b)
  {
  }

  /** The length of n characters once they are padded to p, in the buffer. */
  function Grow(n: nat, p: int): (m: nat)
    ensures m >= n && (m <= DIGITS || m == n)
  {
    Max(n, Min(p, DIGITS))
  }

  /** How long a number of n digits is once it is padded with zeros. */
  function PaddedLength(n: nat, prec: int, width: int, fl: Flags): (m: nat)
    ensures m >= n && (m <= DIGITS || m == n)
  {
    if fl.left then n else if fl.zeropad then Grow(Grow(n, prec), width) else Grow(n, prec)
  }

  lemma RepeatNone(c: char, n: int)
    requires n <= 0
    ensures Repeat(c, n) == ""
  {
  }

  /** s is d padded with zeros to m characters. */
  predicate PaddedTo(s: string, d: string, m: int) {
    m >= |d| && s == d + Repeat('0', m - |d|)
  }

  lemma PadOnce(d: string, n: int)
    ensures PaddedTo(ZeroPad(d, n), d, Grow(|d|, n))
  {
    if Min(n, DIGITS) <= |d| {
      RepeatNone('0', Min(n, DIGITS) - |d|);
      RepeatNone('0', 0);
    }
  }

  lemma PadOn(e: string, d: string, m: int, f: string, k: int)
    requires PaddedTo(e, d, m) && PaddedTo(f, e, k)
    ensures |e| == m && |f| == k && PaddedTo(f, d, k)
  {
    RepeatConcat('0', m - |d|, k - m);
    ConcatAssociates(d, Repeat('0', m - |d|), Repeat('0', k - m));
  }

  lemma ZeroedIs(d: string, prec: int, width: int, fl: Flags)
    ensures PaddedTo(Zeroed(d, prec, width, fl), d, PaddedLength(|d|, prec, width, fl))
  {
    if fl.left {
      RepeatNone('0', 0);
      assert d + "" == d;
    } else {
      var e, m := ZeroPad(d, prec), Grow(|d|, prec);
      PadOnce(d, prec);
      if fl.zeropad {
        assert |e| == m;
        PadOnce(e, width);
        PadOn(e, d, m, ZeroPad(e, width), Grow(m, width));
      }
    }
  }

  /** The sign that goes in front. */
  function SignOf(len: int, negative: bool, fl: Flags): (s: string)
    ensures |s| <= 1
  {
    if len >= DIGITS then "" else if negative then "-" else if fl.plus then "+" else if fl.space then " " else ""
  }

  lemma SignedIs(buf: string, negative: bool, fl: Flags)
    ensures Reverse(Signed(buf, negative, fl)) == SignOf(|buf|, negative, fl) + Reverse(buf)
  {
    var s := SignOf(|buf|, negative, fl);
    if s == "" {
      assert s + Reverse(buf) == Reverse(buf);
    } else {
      assert Signed(buf, negative, fl) == buf + [s[0]] && s == [s[0]];
      ReverseHighest(buf, s[0]);
    }
  }

  lemma {:induction false} SkipPadding(n: int, s: string)
    ensures SkipSpaces(Repeat(' ', n) + s) == SkipSpaces(s)
    decreases n
  {
    if n <= 0 {
      assert Repeat(' ', n) + s == s;
    } else {
      assert Repeat(' ', n) + s == Repeat(' ', n - 1) + ([' '] + s);
      SkipPadding(n - 1, [' '] + s);
      assert ([' '] + s)[1..] == s;
    }
  }

  lemma {:induction false} SkipBlank(s: string)
    requires Blank(s)
    ensures SkipSpaces(s) == ""
    decreases |s|
  {
    if s != "" {
      assert Blank(s[1..]) by { assert forall i | 0 <= i < |s[1..]| :: s[1..][i] == s[i + 1]; }
      SkipBlank(s[1..]);
    }
  }

  lemma BlankReads(s: string, base: int)
    requires Blank(s)
    ensures ReadNumber(s, base) == 0 && ReadNumber("", base) == 0
  {
  }

  /** A number starts with what is neither a space nor a sign. */
  predicate Begins(r: string) {
    r == "" || r[0] !in " +-"
  }

  lemma ReadUnsigned(r: string, tail: string, base: int)
    requires Begins(r) && Blank(tail)
    ensures Reading(r + tail, base) == ReadNumber(r + tail, base)
  {
    if r == "" {
      assert r + tail == tail;
      SkipBlank(tail);
      BlankReads(tail, base);
    } else {
      assert (r + tail)[0] == r[0];
    }
  }

  lemma ReadSigned(sign: string, r: string, tail: string, base: int)
    requires sign in {"", "-", "+", " "} && Begins(r) && Blank(tail)
    ensures Reading(sign + r + tail, base) ==
            if sign == "-" then -ReadNumber(r + tail, base) else ReadNumber(r + tail, base)
  {
    var s := sign + r + tail;
    assert s == sign + (r + tail);
    if sign == "-" || sign == "+" {
      assert s[0] == sign[0] && s[1..] == r + tail;
    } else {
      ReadUnsigned(r, tail, base);
      if sign == "" {
        assert s == r + tail;
      } else {
        assert s[0] == ' ' && s[1..] == r + tail;
        ReadFromSame(s, r + tail, base);
      }
    }
  }

  /** What is in front of the text and behind it, and the text between. */
  lemma PaddedIs(buf: string, width: int, fl: Flags)
    returns (lead: int, tail: string)
    ensures Blank(tail) && Padded(buf, width, fl) == Repeat(' ', lead) + (Reverse(buf) + tail)
  {
    var n := width - |buf|;
    tail := if fl.left then Repeat(' ', n) else "";
    lead := if !fl.left && !fl.zeropad then n else 0;
    RepeatNone(' ', 0);
  }

  /** The text of a number is read past its padding. */
  lemma ReadPadded(body: string, negative: bool, width: int, fl: Flags, base: int)
    returns (tail: string)
    requires Begins(Reverse(body))
    ensures Blank(tail)
    ensures Reading(Padded(Signed(body, negative, fl), width, fl), base) ==
              if negative && |body| < DIGITS then -ReadNumber(Reverse(body) + tail, base)
              else ReadNumber(Reverse(body) + tail, base)
  {
    var buf, sign, r := Signed(body, negative, fl), SignOf(|body|, negative, fl), Reverse(body);
    var lead;
    lead, tail := PaddedIs(buf, width, fl);
    SignedIs(body, negative, fl);
    ReadSigned(sign, r, tail, base);
    SkipPadding(lead, sign + r + tail);
    ReadFromSame(Repeat(' ', lead) + (sign + r + tail), sign + r + tail, base);
  }

  lemma ReadFromSame(a: string, b: string, base: int)
    requires SkipSpaces(a) == SkipSpaces(b)
    ensures Reading(a, base) == Reading(b, base)
  {
  }

  lemma DigitsBegin(t: string, base: int)
    requires AllDigits(t, base)
    ensures Begins(Reverse(t))
  {
    if t != "" {
      ReverseAt(t, 0);
      assert IsDigitOf(t[|t| - 1], base);
    }
  }

  lemma EndsBegin(t: string, m: string)
    requires m != "" && m[|m| - 1] !in " +-"
    ensures Begins(Reverse(t + m))
  {
    ReverseAt(t + m, 0);
  }

  lemma MarkEnds(len: int, base: int, fl: Flags)
    requires base in {2, 8, 16}
    ensures var m := Mark(len, base, fl); m == "" || m[|m| - 1] !in " +-"
  {
  }

  lemma MarkBegins(t: string, base: int, fl: Flags)
    requires base in {2, 8, 16} && AllDigits(t, base)
    ensures Begins(Reverse(t + Mark(|t|, base, fl)))
  {
    var m := Mark(|t|, base, fl);
    MarkEnds(|t|, base, fl);
    if m == "" {
      assert t + m == t;
      DigitsBegin(t, base);
    } else {
      EndsBegin(t, m);
    }
  }

  // ------------------------------------------------------------- the exact condition

  /** When the alternative form spares a number of n digits, padded to m: it does not
      write over one of them, nor is it cut short. */
  predicate MarkSpares(n: int, m: nat, base: int, prec: int, width: int, fl: Flags) {
    var k := Dropped(m, base, prec, width, fl);
    m - k >= n && (base != 8 ==> m - k != DIGITS - 1)
  }

  /** They are the number exactly when none of its digits is written over. */
  lemma KeptIs(v: Word, base: int, upper: bool, room: nat, b: string, prec: int, width: int, fl: Flags)
    requires room == DIGITS && base in {2, 8, 16} && v > 0
    requires b == Zeroed(Digits(v, base, upper, room), prec, width, fl)
    ensures var t := Kept(b, base, prec, width, fl);
            |b| <= DIGITS && AllDigits(t, base) &&
            (Value(t, base) == v <==> |t| >= |Digits(v, base, upper, room)| && (base != 2 || v < UINT))
  {
    var d := Digits(v, base, upper, room);
    var m := PaddedLength(|d|, prec, width, fl);
    ZeroedIs(d, prec, width, fl);
    var n := |b| - Dropped(|b|, base, prec, width, fl);
    assert |b| == m && Kept(b, base, prec, width, fl) == b[..n];
    KeptExact(v, base, upper, room, b, m, n);
  }

  /** The text r, lowest character first, is read as v exactly if ok. */
  predicate ReadsIff(r: string, tail: string, base: int, v: int, ok: bool) {
    Begins(Reverse(r)) && ReadNumber(Reverse(r) + tail, base) >= 0 && (ReadNumber(Reverse(r) + tail, base) == v <==> ok)
  }

  lemma ReadKept(t: string, v: int, base: int, fl: Flags, tail: string)
    requires base in {2, 8, 16} && AllDigits(t, base) && |t| <= DIGITS && Blank(tail) && v > 0
    ensures ReadsIff(t + Mark(|t|, base, fl), tail, base, v, Value(t, base) == v && (base != 8 ==> |t| != DIGITS - 1))
  {
    ValueNotNegative(t, base);
    MarkBegins(t, base, fl);
    ReadMarked(t, base, fl, tail);
  }

  /** What a number in the buffer, with its mark, is read as. */
  lemma ReadBody(v: Word, base: int, upper: bool, room: nat, b: string, prec: int, width: int, fl: Flags, tail: string)
    requires room == DIGITS && base in {2, 8, 16} && v > 0 && Blank(tail)
    requires b == Zeroed(Digits(v, base, upper, room), prec, width, fl)
    ensures ReadsIff(Hashed(b, base, prec, width, fl), tail, base, v,
                     (base != 2 || v < UINT) && MarkSpares(|Digits(v, base, upper, room)|, |b|, base, prec, width, fl))
  {
    KeptIs(v, base, upper, room, b, prec, width, fl);
    HashedIs(b, base, prec, width, fl);
    ReadKept(Kept(b, base, prec, width, fl), v, base, fl, tail);
  }

  lemma ReadPlainBody(v: Word, base: int, upper: bool, room: nat, b: string, prec: int, width: int, fl: Flags,
                      tail: string)
    requires room == DIGITS && base in {2, 8, 10, 16} && v > 0 && Blank(tail)
    requires b == Zeroed(Digits(v, base, upper, room), prec, width, fl)
    ensures ReadsIff(b, tail, base, v, base != 2 || v < UINT)
  {
    var d := Digits(v, base, upper, room);
    ZeroedIs(d, prec, width, fl);
    KeptExact(v, base, upper, room, b, PaddedLength(|d|, prec, width, fl), |b|);
    assert b[..|b|] == b;
    ValueNotNegative(b, base);
    DigitsBegin(b, base);
    ReadPlain(b, tail, base);
  }

  /** What of a number goes between padding and sign. */
  function Body(b: string, base: int, prec: int, width: int, fl: Flags): (r: string) {
    if fl.hash then Hashed(b, base, prec, width, fl) else b
  }

  /** When a number above zero, of n digits and m once padded, is shown in full: with
      its low bits only for %b, with its sign, and with all its digits. */
  predicate Exact(v: int, negative: bool, base: int, n: int, m: nat, prec: int, width: int, fl: Flags) {
    (base != 2 || v < UINT) && (negative ==> m < DIGITS) && (fl.hash ==> MarkSpares(n, m, base, prec, width, fl))
  }

  lemma BodyReads(v: Word, base: int, upper: bool, room: nat, b: string, prec: int, width: int, fl: Flags, tail: string)
    requires room == DIGITS && base in {2, 8, 10, 16} && v > 0 && (fl.hash ==> base != 10) && Blank(tail)
    requires b == Zeroed(Digits(v, base, upper, room), prec, width, fl)
    ensures ReadsIff(Body(b, base, prec, width, fl), tail, base, v,
                     Exact(v, false, base, |Digits(v, base, upper, room)|, |b|, prec, width, fl))
  {
    if fl.hash {
      ReadBody(v, base, upper, room, b, prec, width, fl, tail);
    } else {
      ReadPlainBody(v, base, upper, room, b, prec, width, fl, tail);
    }
  }

  /** A body that is read as v, with its sign. */
  lemma SignReads(body: string, negative: bool, width: int, fl: Flags, base: int, v: int, ok: bool, tail: string,
                  text: string)
    requires v > 0 && ReadsIff(body, tail, base, v, ok)
    requires Reading(text, base) ==
             if negative && |body| < DIGITS then -ReadNumber(Reverse(body) + tail, base)
             else ReadNumber(Reverse(body) + tail, base)
    ensures Reading(text, base) == (if negative then -v else v) <==> ok && (negative ==> |body| < DIGITS)
  {
  }

  lemma NtoaReads(v: int, negative: bool, base: int, upper: bool, room: nat, d: string, prec: int, width: int,
                  fl: Flags)
    requires room == DIGITS && base in {2, 8, 10, 16} && 0 < v < ULONG
    requires (fl.hash ==> base != 10) && (negative ==> base == 10) && d == Digits(v, base, upper, room)
    ensures var w := SignRoom(width, negative, fl);
            Reading(NtoaFormat(d, negative, base, prec, width, fl), base) == (if negative then -v else v) <==>
            Exact(v, negative, base, |d|, PaddedLength(|d|, prec, w, fl), prec, w, fl)
  {
    var w := SignRoom(width, negative, fl);
    var b := Zeroed(d, prec, w, fl);
    var body := Body(b, base, prec, w, fl);
    ZeroedIs(d, prec, w, fl);
    assert |b| == PaddedLength(|d|, prec, w, fl);
    BodyReads(v, base, upper, room, b, prec, w, fl, "");
    var tail := ReadPadded(body, negative, w, fl, base);
    BodyReads(v, base, upper, room, b, prec, w, fl, tail);
    SignReads(body, negative, w, fl, base, v, Exact(v, false, base, |d|, |b|, prec, w, fl), tail,
              NtoaFormat(d, negative, base, prec, width, fl));
  }

  lemma ZeroBody(b: string, d: string, m: int, base: int)
    requires base in {2, 8, 10, 16} && d in {"", "0"} && PaddedTo(b, d, m)
    ensures AllDigits(b, base) && Value(b, base) == 0
  {
    ZeroDigit(d, base);
    AllKept(d, m - |d|, |b|, base);
    assert b[..|b|] == b;
  }

  lemma ZeroDigit(d: string, base: int)
    requires base in {2, 8, 10, 16} && d in {"", "0"}
    ensures AllDigits(d, base) && Value(d, base) == 0
  {
    assert "0"[1..] == "";
  }

  lemma NtoaReadsZero(base: int, d: string, prec: int, width: int, fl: Flags)
    requires base in {2, 8, 10, 16} && !fl.hash && d in {"", "0"}
    ensures Reading(NtoaFormat(d, false, base, prec, width, fl), base) == 0
  {
    var w := SignRoom(width, false, fl);
    var b := Zeroed(d, prec, w, fl);
    ZeroedIs(d, prec, w, fl);
    ZeroBody(b, d, PaddedLength(|d|, prec, w, fl), base);
    DigitsBegin(b, base);
    var tail := ReadPadded(b, false, w, fl, base);
    ReadPlain(b, tail, base);
  }

  /** The argument as the directive takes it. */
  function Argument(c: char, w: Word, fl: Flags): (v: int) {
    if IsSigned(c) then SignedArg(fl, w) else UnsignedArg(fl, w)
  }

  /** When an integer directive shows its argument in full. */
  predicate ShowsArgument(c: char, w: Word, prec: nat, width: nat, fl: Flags) {
    var v, g, base := Magnitude(c, w, fl), IntFlags(fl, c), Base(c);
    var n, room := |Digits(v, base, g.upper, DIGITS)|, SignRoom(width, IsNegative(c, w, fl), g);
    v == 0 || Exact(v, IsNegative(c, w, fl), base, n, PaddedLength(n, prec, room, g), prec, room, g)
  }

  lemma NtoaIs(v: nat, negative: bool, base: int, prec: int, width: int, fl: Flags, d: string)
    requires 2 <= base <= 16 && v > 0 && d == Digits(v, base, fl.upper, DIGITS)
    ensures Ntoa(v, negative, base, prec, width, fl) == NtoaFormat(d, negative, base, prec, width, fl)
  {
  }

  lemma NtoaIsZero(base: int, prec: int, width: int, fl: Flags)
    returns (d: string)
    requires 2 <= base <= 16
    ensures d in {"", "0"}
    ensures Ntoa(0, false, base, prec, width, fl) == NtoaFormat(d, false, base, prec, width, fl.(hash := false))
  {
    d := if fl.precision then "" else "0";
  }

  lemma MagnitudeIs(c: char, w: Word, fl: Flags)
    requires IsInteger(c)
    ensures Magnitude(c, w, fl) < ULONG
    ensures Argument(c, w, fl) == (if IsNegative(c, w, fl) then -1 else 1) * Magnitude(c, w, fl)
    ensures IsNegative(c, w, fl) ==> Base(c) == 10 && Magnitude(c, w, fl) > 0
    ensures IntFlags(fl, c).hash ==> Base(c) != 10
  {
  }

  lemma IntTextZero(c: char, w: Word, prec: nat, width: nat, fl: Flags)
    requires IsInteger(c) && Magnitude(c, w, fl) == 0
    ensures Reading(IntText(c, w, prec, width, fl), Base(c)) == 0
  {
    var g := IntFlags(fl, c);
    MagnitudeIs(c, w, fl);
    var d := NtoaIsZero(Base(c), prec, width, g);
    NtoaReadsZero(Base(c), d, prec, width, g.(hash := false));
  }

  lemma IntTextReads(c: char, w: Word, prec: nat, width: nat, fl: Flags, v: int, negative: bool, g: Flags, d: string,
                     room: nat)
    requires IsInteger(c) && v == Magnitude(c, w, fl) > 0 && negative == IsNegative(c, w, fl) && g == IntFlags(fl, c)
    requires room == DIGITS && d == Digits(v, Base(c), g.upper, room)
    ensures var rest := SignRoom(width, negative, g);
            Reading(IntText(c, w, prec, width, fl), Base(c)) == (if negative then -v else v) <==>
            Exact(v, negative, Base(c), |d|, PaddedLength(|d|, prec, rest, g), prec, rest, g)
  {
    MagnitudeIs(c, w, fl);
    NtoaIs(v, negative, Base(c), prec, width, g, d);
    NtoaReads(v, negative, Base(c), g.upper, room, d, prec, width, g);
  }

  /** Over all flags, widths and precisions: the text of an integer directive is read as
      its argument exactly when it is shown in full. */
  lemma IntTextExact(c: char, w: Word, prec: nat, width: nat, fl: Flags)
    requires IsInteger(c)
    ensures Reading(IntText(c, w, prec, width, fl), Base(c)) == Argument(c, w, fl) <==>
            ShowsArgument(c, w, prec, width, fl)
  {
    var v, g := Magnitude(c, w, fl), IntFlags(fl, c);
    MagnitudeIs(c, w, fl);
    if v == 0 {
      IntTextZero(c, w, prec, width, fl);
    } else {
      IntTextReads(c, w, prec, width, fl, v, IsNegative(c, w, fl), g, Digits(v, Base(c), g.upper, DIGITS), DIGITS);
    }
  }

  // --------------------------------------------------------------------- field width

  /** The mark makes a number that fills its field no shorter. */
  lemma BodyFills(b: string, base: int, prec: int, width: int, fl: Flags)
    requires base in {2, 8, 10, 16} && (fl.hash ==> base != 10) && |b| <= DIGITS
    ensures var r := Body(b, base, prec, width, fl); |r| <= DIGITS && (|b| >= width ==> |r| >= width)
  {
    if fl.hash {
      HashedIs(b, base, prec, width, fl);
    }
  }

  lemma SignedLength(r: string, negative: bool, fl: Flags)
    requires |r| <= DIGITS
    ensures |Signed(r, negative, fl)| <= DIGITS
    ensures |r| < DIGITS && (negative || fl.plus || fl.space) ==> |Signed(r, negative, fl)| == |r| + 1
    ensures |Signed(r, negative, fl)| >= |r|
  {
  }

  lemma ZeroPaddedLength(d: string, prec: int, width: int, fl: Flags)
    requires |d| <= DIGITS && fl.zeropad && !fl.left
    ensures |d| <= |Zeroed(d, prec, width, fl)| <= DIGITS && |Zeroed(d, prec, width, fl)| >= Min(width, DIGITS)
  {
    ZeroedIs(d, prec, width, fl);
  }

  lemma ZeroPaddedShort(d: string, negative: bool, base: int, prec: int, width: nat, fl: Flags)
    requires base in {2, 8, 10, 16} && (fl.hash ==> base != 10) && |d| <= DIGITS && fl.zeropad && !fl.left
    ensures |NtoaFormat(d, negative, base, prec, width, fl)| < width <==> width > DIGITS
  {
    var w := SignRoom(width, negative, fl);
    var b := Zeroed(d, prec, w, fl);
    var r := Body(b, base, prec, w, fl);
    ZeroPaddedLength(d, prec, w, fl);
    BodyFills(b, base, prec, w, fl);
    SignedLength(r, negative, fl);
    assert |NtoaFormat(d, negative, base, prec, width, fl)| == |Signed(r, negative, fl)|;
  }

  lemma SpacedFills(d: string, negative: bool, base: int, prec: int, width: nat, fl: Flags)
    requires fl.left || !fl.zeropad
    ensures |NtoaFormat(d, negative, base, prec, width, fl)| >= width
  {
    var w := SignRoom(width, negative, fl);
    var r := Signed(Body(Zeroed(d, prec, w, fl), base, prec, w, fl), negative, fl);
    FieldWidth(r, w, fl);
  }

  lemma ShortIff(v: nat, negative: bool, base: int, prec: int, width: nat, fl: Flags)
    requires base in {2, 8, 10, 16} && (fl.hash ==> base != 10)
    ensures |Ntoa(v, negative, base, prec, width, fl)| < width <==> fl.zeropad && !fl.left && width > DIGITS
  {
    var g := if v == 0 then fl.(hash := false) else fl;
    var d := if !fl.precision || v != 0 then Digits(v, base, fl.upper, DIGITS) else "";
    assert Ntoa(v, negative, base, prec, width, fl) == NtoaFormat(d, negative, base, prec, width, g);
    if fl.zeropad && !fl.left {
      ZeroPaddedShort(d, negative, base, prec, width, g);
    } else {
      SpacedFills(d, negative, base, prec, width, g);
    }
  }

  lemma PaddingFlags(c: char, fl: Flags)
    requires IsInteger(c)
    ensures var g := IntFlags(fl, c);
            g.left == fl.left && (g.zeropad <==> fl.zeropad && !fl.precision) && (g.hash ==> Base(c) != 10)
  {
  }

  /** The text of an integer directive is shorter than its field exactly when it pads
      with zeros to more than the 32 characters of the buffer. */
  lemma FieldShortIff(c: char, w: Word, prec: nat, width: nat, fl: Flags)
    requires IsInteger(c)
    ensures |IntText(c, w, prec, width, fl)| < width <==> fl.zeropad && !fl.left && !fl.precision && width > DIGITS
  {
    var g := IntFlags(fl, c);
    PaddingFlags(c, fl);
    ShortIff(Magnitude(c, w, fl), IsNegative(c, w, fl), Base(c), prec, width, g);
  }

  // ----------------------------------------------------------------------- an example

  const ALT := NONE.(hash := true)

  lemma ExampleDigits()
    ensures Digits(0x1234, 16, false, DIGITS) == "4321"
  {
  }

  lemma ExampleReverse()
    ensures Reverse("43x0") == "0x34"
  {
    ReverseTwo("43", 'x');
    ReverseHighest("4", '3');
    ReverseHighest("", '4');
    assert "4" + ['3'] == "43" && "" + ['4'] == "4" && "43" + ['x', '0'] == "43x0";
  }

  lemma ExampleFormat()
    ensures NtoaFormat("4321", false, 16, 0, 4, ALT) == Reverse("43x0")
  {
    RepeatNone('0', -4);
    RepeatNone(' ', 0);
    assert Zeroed("4321", 0, 4, ALT) == "4321";
    assert Hashed("4321", 16, 0, 4, ALT) == "43x0";
    assert Padded("43x0", 4, ALT) == Reverse("43x0");
  }

  /** %#4x of 0x1234 loses two digits to its mark. */
  lemma LostDigits()
    ensures IntText('x', 0x1234, 0, 4, ALT) == "0x34" && !ShowsArgument('x', 0x1234, 0, 4, ALT)
  {
    ExampleDigits();
    NtoaIs(0x1234, false, 16, 0, 4, ALT, "4321");
    ExampleFormat();
    ExampleReverse();
    assert IntFlags(ALT, 'x') == ALT;
    assert Dropped(4, 16, 0, 4, ALT) == 2 && !MarkSpares(4, 4, 16, 0, 4, ALT);
  }
}
