/** The format engine writes what its directives stand for: over all flags, widths,
    precisions, lengths and arguments. */
module DirectiveProofs {
  import opened Common
  import opened Sequences
  import opened Format
  import opened FormatProofs
  import opened FormatReading
  import opened Directives

  // ----------------------------------------------------------- digits and numerals

  lemma SymbolIs(d: int, upper: bool)
    requires 0 <= d < 16
    ensures DigitChar(d, upper) == Symbol(d, upper)
  {
  }

  lemma LowestStep(s: string, c: char, n: nat)
    ensures Lowest(s + [c], n + 1) == Lowest(s, n) + [c]
  {
  }

  lemma {:induction false} ReverseFirst(c: char, s: string)
    ensures Reverse([c] + s) == Reverse(s) + [c]
  {
    assert [c][..0] == "";
    assert Reverse([c]) == [c];
    ReverseConcat([c], s);
  }

  lemma NumeralStep(v: nat, base: int, upper: bool, q: nat, d: nat)
    requires 2 <= base <= 16 && v == base * q + d && d < base
    ensures Numeral(v, base, upper) == (if q == 0 then "" else Numeral(q, base, upper)) + [Symbol(d, upper)]
  {
    if q == 0 {
      assert v == d;
    } else {
      DivIs(v, base, q, d);
      Monotone(base, 1, q);
    }
  }

  lemma DivIs(v: nat, base: int, q: nat, d: nat)
    requires base >= 2 && v == base * q + d && d < base
    ensures v / base == q && v % base == d
  {
    ModUnique(v, base, q, d);
    var k := v / base - q;
    assert base * k == 0 by {
      assert v == base * (v / base) + v % base;
      Distribute(base, q, k);
    }
  }

  lemma OneMoreDigit(low: string, c: char, high: string, n: nat)
    requires n >= 1 && Reverse(low) == Lowest(high, n - 1)
    ensures Reverse([c] + low) == Lowest(high + [c], n)
  {
    ReverseFirst(c, low);
    LowestStep(high, c, n - 1);
  }

  /** The digit loop gives the lowest digits of the numeral, backwards. */
  lemma {:induction false} DigitsAre(v: nat, base: int, upper: bool, room: nat)
    requires 2 <= base <= 16 && room >= 1
    ensures Reverse(Digits(v, base, upper, room)) == Lowest(Numeral(v, base, upper), room)
    decreases room
  {
    var q, d := DigitsParts(v, base, upper, room);
    var s := Digits(v, base, upper, room);
    var high := if q == 0 then "" else Numeral(q, base, upper);
    SymbolIs(d, upper);
    NumeralStep(v, base, upper, q, d);
    if q != 0 && room > 1 {
      DigitsAre(q, base, upper, room - 1);
    }
    assert s == [s[0]] + s[1..];
    OneMoreDigit(s[1..], s[0], high, room);
  }

  // -------------------------------------------------------------------- the layout

  lemma RepeatIs(c: char, n: int)
    ensures Repeat(c, n) == Chars(c, n)
  {
  }

  lemma {:induction false} ReverseRepeat(c: char, n: nat)
    ensures Reverse(Repeat(c, n)) == Repeat(c, n)
  {
    if n > 0 {
      ReverseRepeat(c, n - 1);
      ReverseHighest(Repeat(c, n - 1), c);
      RepeatConcat(c, 1, n - 1);
      assert Repeat(c, 1) == [c];
    }
  }

  lemma ReversePadded(b: string, d: string, m: int)
    requires PaddedTo(b, d, m)
    ensures Reverse(b) == Chars('0', m - |d|) + Reverse(d)
  {
    ReverseConcat(d, Repeat('0', m - |d|));
    ReverseRepeat('0', m - |d|);
    RepeatIs('0', m - |d|);
  }

  lemma ReversePrefix(b: string, k: nat)
    requires k <= |b|
    ensures Reverse(b[..|b| - k]) == Reverse(b)[k..]
  {
    var low, high := b[..|b| - k], b[|b| - k..];
    assert b == low + high;
    ReverseConcat(low, high);
  }

  /** The flags of the engine say what the layout says. */
  predicate Matches(fl: Flags, upper: bool, prec: int, width: int, l: Layout) {
    fl.left == l.left && fl.plus == l.plus && fl.space == l.space && fl.zeropad == l.zero && fl.hash == l.alt &&
    fl.upper == upper && fl.precision == l.given && prec == l.places && width == l.width
  }

  lemma ReverseShort(m: string)
    requires |m| <= 2
    ensures Reverse(m) == if |m| == 2 then [m[1], m[0]] else m
  {
    if |m| == 2 {
      assert m[..1] == [m[0]] && [m[0]][..0] == "";
      assert Reverse([m[0]]) == [m[0]];
    } else if |m| == 1 {
      assert m == [m[0]] && m[..0] == "";
    }
  }

  lemma ReverseMark(n: nat, base: int, fl: Flags)
    requires base in {2, 8, 10, 16}
    ensures Reverse(Mark(n, base, fl)) == MarkText(n, base, fl.upper)
  {
    ReverseShort(Mark(n, base, fl));
  }

  lemma MarkedIs(b: string, base: int, prec: int, room: int, fl: Flags, upper: bool, width: int, l: Layout)
    requires base in {2, 8, 10, 16} && Matches(fl, upper, prec, width, l)
    ensures Reverse(Hashed(b, base, prec, room, fl)) == Marked(Reverse(b), base, upper, room, l)
  {
    var k := Dropped(|b|, base, prec, room, fl);
    HashedIs(b, base, prec, room, fl);
    MarkInFront(b[..|b| - k], base, fl);
    ReversePrefix(b, k);
    MarkedWith(Reverse(b), base, prec, room, fl, upper, width, l);
  }

  lemma MarkInFront(t: string, base: int, fl: Flags)
    requires base in {2, 8, 10, 16}
    ensures Reverse(t + Mark(|t|, base, fl)) == MarkText(|t|, base, fl.upper) + Reverse(t)
  {
    ReverseConcat(t, Mark(|t|, base, fl));
    ReverseMark(|t|, base, fl);
  }

  lemma MarkedWith(number: string, base: int, prec: int, room: int, fl: Flags, upper: bool, width: int, l: Layout)
    requires Matches(fl, upper, prec, width, l)
    ensures var k := Dropped(|number|, base, prec, room, fl);
            Marked(number, base, upper, room, l) == MarkText(|number| - k, base, fl.upper) + number[k..]
  {
  }

  lemma CharsSame(c: char, m: int, n: int)
    requires Max(m, 0) == Max(n, 0)
    ensures Chars(c, m) == Chars(c, n)
  {
  }

  lemma ZerosAre(r: string, prec: int, room: int, fl: Flags, upper: bool, width: int, l: Layout)
    requires Matches(fl, upper, prec, width, l) && |r| <= DIGITS
    ensures WithZeros(r, room, l) == Chars('0', PaddedLength(|r|, prec, room, fl) - |r|) + r
  {
    var places := if l.left then 0 else Min(32, Max(l.places, if l.zero then room else 0));
    CharsSame('0', PaddedLength(|r|, prec, room, fl) - |r|, places - |r|);
  }

  /** The zeros in front of a number. */
  lemma ZeroedText(d: string, prec: int, room: int, fl: Flags, upper: bool, width: int, l: Layout)
    requires Matches(fl, upper, prec, width, l) && |d| <= DIGITS
    ensures Reverse(Zeroed(d, prec, room, fl)) == WithZeros(Reverse(d), room, l)
  {
    ZeroedIs(d, prec, room, fl);
    ZerosReversed(Zeroed(d, prec, room, fl), d, PaddedLength(|d|, prec, room, fl), prec, room, fl, upper, width, l);
  }

  lemma ZerosReversed(b: string, d: string, m: nat, prec: int, room: int, fl: Flags, upper: bool, width: int, l: Layout)
    requires Matches(fl, upper, prec, width, l) && |d| <= DIGITS
    requires PaddedTo(b, d, m) && m == PaddedLength(|d|, prec, room, fl)
    ensures Reverse(b) == WithZeros(Reverse(d), room, l)
  {
    ReversePadded(b, d, m);
    ZerosAre(Reverse(d), prec, room, fl, upper, width, l);
  }

  lemma SignIs(body: string, negative: bool, fl: Flags, upper: bool, prec: int, width: int, l: Layout)
    requires Matches(fl, upper, prec, width, l)
    ensures Reverse(Signed(body, negative, fl)) ==
            if |body| < 32 then SignText(negative, l) + Reverse(body) else Reverse(body)
  {
    SignedIs(body, negative, fl);
    assert "" + Reverse(body) == Reverse(body);
  }

  lemma Around(a: string)
    ensures "" + a + "" == a && a + "" == a && "" + a == a
  {
  }

  lemma PaddedText(buf: string, room: int, fl: Flags, upper: bool, prec: int, width: int, l: Layout)
    requires Matches(fl, upper, prec, width, l) && (room == width || (l.zero && !l.left))
    ensures Padded(buf, room, fl) == if l.zero && !l.left then Reverse(buf) else Fill(Reverse(buf), l.left, l.width)
  {
    var t := Reverse(buf);
    RepeatIs(' ', room - |buf|);
    Around(t);
    Around(Chars(' ', room - |buf|) + t);
    Around(t + Chars(' ', room - |buf|));
  }

  /** Sign and spaces. */
  lemma FinishedText(body: string, negative: bool, room: int, fl: Flags, upper: bool, prec: int, width: int, l: Layout)
    requires Matches(fl, upper, prec, width, l) && (room == width || (l.zero && !l.left))
    ensures Padded(Signed(body, negative, fl), room, fl) == Finished(Reverse(body), SignText(negative, l), l)
  {
    SignIs(body, negative, fl, upper, prec, width, l);
    PaddedText(Signed(body, negative, fl), room, fl, upper, prec, width, l);
  }

  lemma RoomIs(negative: bool, fl: Flags, upper: bool, prec: int, width: int, l: Layout)
    requires Matches(fl, upper, prec, width, l)
    ensures var room := SignRoom(width, negative, fl);
            room == RoomFor(SignText(negative, l), l) && (room == width || (l.zero && !l.left))
  {
  }

  lemma FormatText(d: string, negative: bool, base: int, upper: bool, prec: nat, width: nat, fl: Flags, l: Layout)
    requires base in {2, 8, 10, 16} && Matches(fl, upper, prec, width, l) && |d| <= DIGITS
    ensures var sign := SignText(negative, l); var room := RoomFor(sign, l);
            var number := WithZeros(Reverse(d), room, l);
            NtoaFormat(d, negative, base, prec, width, fl) ==
            Finished(if l.alt then Marked(number, base, upper, room, l) else number, sign, l)
  {
    var room := SignRoom(width, negative, fl);
    var b := Zeroed(d, prec, room, fl);
    RoomIs(negative, fl, upper, prec, width, l);
    ZeroedText(d, prec, room, fl, upper, width, l);
    if fl.hash {
      MarkedIs(b, base, prec, room, fl, upper, width, l);
    }
    FinishedText(if fl.hash then Hashed(b, base, prec, room, fl) else b, negative, room, fl, upper, prec, width, l);
  }

  lemma NtoaIsFormat(v: nat, negative: bool, base: int, prec: int, width: int, fl: Flags, room: nat)
    requires 2 <= base <= 16 && room == DIGITS
    ensures Ntoa(v, negative, base, prec, width, fl) ==
            NtoaFormat(if v == 0 && fl.precision then "" else Digits(v, base, fl.upper, room),
                       negative, base, prec, width, if v == 0 then fl.(hash := false) else fl)
  {
  }

  lemma DigitsText(v: nat, base: int, upper: bool, given: bool, room: nat)
    requires 2 <= base <= 16 && room == DIGITS
    ensures var d := if v == 0 && given then "" else Digits(v, base, upper, room);
            |d| <= DIGITS && Reverse(d) == if v == 0 && given then "" else Lowest(Numeral(v, base, upper), 32)
  {
    DigitsAre(v, base, upper, room);
  }

  /** The engine's conversion of a number, whatever its flags, width and precision. */
  lemma NtoaText(v: nat, negative: bool, base: int, upper: bool, prec: nat, width: nat, fl: Flags, l: Layout, room: nat)
    requires base in {2, 8, 10, 16} && Matches(fl, upper, prec, width, l) && room == DIGITS
    ensures Ntoa(v, negative, base, prec, width, fl) == NumberText(negative, v, base, upper, l)
  {
    var d := if v == 0 && fl.precision then "" else Digits(v, base, fl.upper, room);
    NtoaIsFormat(v, negative, base, prec, width, fl, room);
    DigitsText(v, base, upper, l.given, room);
    TextOf(d, v, negative, base, upper, prec, width, fl, l);
  }

  lemma TextOf(d: string, v: nat, negative: bool, base: int, upper: bool, prec: nat, width: nat, fl: Flags, l: Layout)
    requires base in {2, 8, 10, 16} && Matches(fl, upper, prec, width, l) && |d| <= DIGITS
    requires Reverse(d) == if v == 0 && l.given then "" else Lowest(Numeral(v, base, upper), 32)
    ensures NtoaFormat(d, negative, base, prec, width, if v == 0 then fl.(hash := false) else fl) ==
            NumberText(negative, v, base, upper, l)
  {
    var h := if v == 0 then l.(alt := false) else l;
    FormatText(d, negative, base, upper, prec, width, if v == 0 then fl.(hash := false) else fl, h);
    SameButAlt(Reverse(d), negative, base, upper, l, h);
    NumberTextIs(v, negative, base, upper, l, Reverse(d), h);
  }

  lemma NumberTextIs(v: nat, negative: bool, base: int, upper: bool, l: Layout, digits: string, h: Layout)
    requires 2 <= base <= 16 && h == (if v == 0 then l.(alt := false) else l)
    requires digits == if v == 0 && l.given then "" else Lowest(Numeral(v, base, upper), 32)
    ensures var sign := SignText(negative, l); var room := RoomFor(sign, l); var number := WithZeros(digits, room, l);
            NumberText(negative, v, base, upper, l) ==
            Finished(if h.alt then Marked(number, base, upper, room, l) else number, sign, l)
  {
  }

  /** The alternative form changes nothing else. */
  lemma SameButAlt(digits: string, negative: bool, base: int, upper: bool, l: Layout, h: Layout)
    requires h == l || h == l.(alt := false)
    ensures SignText(negative, h) == SignText(negative, l)
    ensures var sign := SignText(negative, l); RoomFor(sign, h) == RoomFor(sign, l) && var room := RoomFor(sign, l);
            WithZeros(digits, room, h) == WithZeros(digits, room, l) && var number := WithZeros(digits, room, l);
            (h.alt ==> h == l) &&
            forall n :: Finished(n, sign, h) == Finished(n, sign, l)
  {
  }

  // ------------------------------------------------------- arguments and conversions

  /** The flags that reading a directive leads to. */
  function FlagsRecord(d: Directive): (fl: Flags) {
    var l := LayoutOf(d);
    Flags(l.zero, l.left, l.plus, l.space, l.alt, false, d.length == "hh", d.length in ["h", "hh"],
          d.length in ["l", "ll", "t", "j", "z"], l.given)
  }

  lemma IntIs(w: Word)
    ensures AsInt(w) == Within(w, 0x1_0000_0000)
  {
  }

  lemma ShortIs(w: Word)
    ensures AsShort(w) == Within(w, 0x1_0000)
  {
  }

  lemma LongIs(w: Word)
    ensures AsLong(w) == Within(w, 0x1_0000_0000_0000_0000)
  {
  }

  lemma SignedIsWithin(d: Directive, w: Word, fl: Flags)
    requires WellFormed(d) && fl == FlagsRecord(d)
    ensures SignedArg(fl, w) == if d.length != "hh" then Within(w, Modulus(d.length)) else w % 0x100
  {
    IntIs(w);
    ShortIs(w);
    LongIs(w);
  }

  lemma UnsignedIsModulo(d: Directive, w: Word, fl: Flags)
    requires WellFormed(d) && fl == FlagsRecord(d)
    ensures UnsignedArg(fl, w) == w % Modulus(d.length)
  {
  }

  lemma ValueIs(d: Directive, w: Word, fl: Flags)
    requires WellFormed(d) && fl == FlagsRecord(d) && d.conversion in "diuxXob"
    ensures var c, n := d.conversion, ValueOf(d, w);
            IsNegative(c, w, fl) == (n < 0) && Magnitude(c, w, fl) == Amount(n)
  {
    if d.conversion in "di" {
      SignedIsWithin(d, w, fl);
    } else {
      UnsignedIsModulo(d, w, fl);
    }
  }

  lemma IntFlagsIs(fl: Flags, c: char, g: Flags)
    requires g == IntFlags(fl, c)
    ensures g.left == fl.left && g.precision == fl.precision && g.upper == (fl.upper || c == 'X')
    ensures g.hash == (fl.hash && Base(c) != 10) && g.zeropad == (fl.zeropad && !fl.precision)
    ensures g.plus == (fl.plus && IsSigned(c)) && g.space == (fl.space && IsSigned(c))
  {
  }

  lemma IntFlagsAre(d: Directive, fl: Flags)
    requires fl == FlagsRecord(d) && d.conversion in "diuxXob"
    ensures var c, l := d.conversion, LayoutOf(d);
            Base(c) == Radix(c) && Matches(IntFlags(fl, c), c == 'X', l.places, l.width, IntegerLayout(c, l))
  {
    IntFlagsIs(fl, d.conversion, IntFlags(fl, d.conversion));
  }

  lemma IntegerIs(d: Directive, w: Word, fl: Flags, room: nat)
    requires WellFormed(d) && fl == FlagsRecord(d) && d.conversion in "diuxXob" && room == DIGITS
    ensures IntText(d.conversion, w, LayoutOf(d).places, LayoutOf(d).width, fl) == IntegerText(d, w)
  {
    var c, l, n := d.conversion, LayoutOf(d), ValueOf(d, w);
    ValueIs(d, w, fl);
    IntFlagsAre(d, fl);
    var v := Amount(n);
    NtoaText(v, n < 0, Base(c), c == 'X', l.places, l.width, IntFlags(fl, c), IntegerLayout(c, l), room);
    IntTextIs(c, w, l.places, l.width, fl, v, n < 0, Base(c), IntFlags(fl, c));
  }

  lemma IntTextIs(c: char, w: Word, prec: nat, width: nat, fl: Flags, v: nat, negative: bool, base: int, g: Flags)
    requires Magnitude(c, w, fl) == v && IsNegative(c, w, fl) == negative && Base(c) == base && IntFlags(fl, c) == g
    ensures IntText(c, w, prec, width, fl) == Ntoa(v, negative, base, prec, width, g)
  {
  }

  lemma PointerIs(d: Directive, w: Word, fl: Flags, room: nat)
    requires fl == FlagsRecord(d) && room == DIGITS
    ensures PointerText(w, LayoutOf(d).places, fl) == PointerMeaning(d, w)
  {
    var l := LayoutOf(d);
    NtoaText(w, false, 16, true, l.places, 16, fl.(zeropad := true, upper := true), l.(zero := true, width := 16),
             room);
  }

  lemma SpacedIs(text: string, width: nat, left: bool)
    ensures Spaced(text, width, left) == Fill(text, left, width)
  {
    RepeatIs(' ', width - |text|);
  }

  // ----------------------------------------------------------------------- reading

  lemma PeekOf(c: char, s: string)
    ensures Peek([c] + s) == c && ([c] + s)[1..] == s
  {
  }

  /** fl with some flags more. */
  function WithFlags(fl: Flags, flags: string): (g: Flags) {
    fl.(left := fl.left || '-' in flags, plus := fl.plus || '+' in flags, space := fl.space || ' ' in flags,
        zeropad := fl.zeropad || '0' in flags, hash := fl.hash || '#' in flags)
  }

  lemma OneFlag(fl: Flags, c: char)
    requires c in "-+ #0"
    ensures FlagOf(fl, c) ==
            fl.(left := fl.left || c == '-', plus := fl.plus || c == '+', space := fl.space || c == ' ',
                zeropad := fl.zeropad || c == '0', hash := fl.hash || c == '#')
  {
  }

  lemma InCons(x: char, c: char, more: string)
    ensures x in [c] + more <==> c == x || x in more
  {
  }

  lemma FlagStep(fl: Flags, c: char, more: string)
    requires c in "-+ #0"
    ensures WithFlags(FlagOf(fl, c), more) == WithFlags(fl, [c] + more)
  {
    OneFlag(fl, c);
    InCons('-', c, more);
    InCons('+', c, more);
    InCons(' ', c, more);
    InCons('0', c, more);
    InCons('#', c, more);
  }

  /** The flags, in any order and as often as they come. */
  lemma {:induction false} FlagsRead(flags: string, rest: string, fl: Flags)
    requires (forall c | c in flags :: c in "-+ #0") && Peek(rest) !in "-+ #0"
    ensures AfterFlags(flags + rest) == rest && FlagsOf(flags + rest, fl) == WithFlags(fl, flags)
    decreases |flags|
  {
    if flags == "" {
      assert flags + rest == rest;
    } else {
      var c, more := flags[0], flags[1..];
      assert flags == [c] + more;
      assert flags + rest == [c] + (more + rest);
      PeekOf(c, more + rest);
      FlagStep(fl, c, more);
      FlagsRead(more, rest, FlagOf(fl, c));
    }
  }

  predicate Decimal(s: string) {
    forall c | c in s :: IsDigit(c)
  }

  lemma {:induction false} DecimalNumeral(n: nat)
    ensures Decimal(Numeral(n, 10, false))
    decreases n
  {
    if n >= 10 {
      QuotientSmaller(n, 10);
      DecimalNumeral(n / 10);
    }
  }

  /** Reading digits on from a value. */
  lemma {:induction false} NumberOn(s: string, rest: string, v: nat)
    requires Decimal(s)
    ensures NumberOf(s + rest, v) == NumberOf(rest, NumberOf(s, v))
    ensures !IsDigit(Peek(rest)) ==> AfterDigits(s + rest) == rest
    decreases |s|
  {
    if s == "" {
      assert s + rest == rest;
    } else {
      assert s == [s[0]] + s[1..];
      assert s + rest == [s[0]] + (s[1..] + rest);
      PeekOf(s[0], s[1..] + rest);
      PeekOf(s[0], s[1..]);
      NumberOn(s[1..], rest, (v * 10 + (s[0] as int - '0' as int)) % UINT);
    }
  }

  lemma NumberOfOne(c: char, v: nat)
    requires IsDigit(c)
    ensures NumberOf([c], v) == (v * 10 + (c as int - '0' as int)) % UINT
  {
    assert [c][1..] == "";
  }

  lemma OneDigitMore(s: string, q: nat, d: nat)
    requires Decimal(s) && d < 10 && NumberOf(s, 0) == q % UINT
    ensures NumberOf(s + [Symbol(d, false)], 0) == (q * 10 + d) % UINT
  {
    var c := Symbol(d, false);
    NumberOn(s, [c], 0);
    NumberOfOne(c, q % UINT);
    ModOn(q, d, UINT);
  }

  /** A numeral is read as its number, in 32 bits. */
  lemma {:induction false} NumeralRead(n: nat)
    ensures NumberOf(Numeral(n, 10, false), 0) == n % UINT
    decreases n
  {
    if n < 10 {
      NumberOfOne(Symbol(n, false), 0);
    } else {
      var q := n / 10;
      QuotientSmaller(n, 10);
      NumeralRead(q);
      DecimalNumeral(q);
      OneDigitMore(Numeral(q, 10, false), q, n % 10);
    }
  }

  lemma ModOn(q: nat, d: nat, m: nat)
    requires m >= 1
    ensures ((q % m) * 10 + d) % m == (q * 10 + d) % m
  {
    var h, r := q / m, q % m;
    var k, l := (r * 10 + d) / m, (r * 10 + d) % m;
    assert q * 10 + d == (m * h) * 10 + (m * k + l);
    Associate(m, h, 10);
    Distribute(m, h * 10, k);
    ModUnique(q * 10 + d, m, h * 10 + k, l);
  }

  /** What follows a width or a precision does not go on with it. */
  predicate Ends(s: Size, rest: string) {
    !IsDigit(Peek(rest)) && (s.Absent? ==> Peek(rest) != '*')
  }

  lemma SizeRead(s: Size, rest: string, args: seq<Arg>)
    requires Ends(s, rest)
    ensures var n := SizeOf(s);
            FieldOf(SizeText(s) + rest, SizeArgs(s) + args) == Field(if n < 0 then -n else n, n < 0, rest, args)
  {
    var f := SizeText(s) + rest;
    match s
    case Absent =>
      assert f == rest && SizeArgs(s) + args == args;
    case Number(n) =>
      var t := Numeral(n, 10, false);
      DecimalNumeral(n);
      NumeralRead(n);
      NumberOn(t, rest, 0);
      assert f[0] == t[0] && t[0] in t;
      assert SizeArgs(s) + args == args;
    case Star(w) =>
      PeekOf('*', rest);
      IntIs(w);
      assert f == ['*'] + rest;
      assert (SizeArgs(s) + args)[0] == Num(w) && (SizeArgs(s) + args)[1..] == args;
  }

  lemma LengthRead(length: string, rest: string, fl: Flags)
    requires length in ["", "h", "hh", "l", "ll", "t", "j", "z"] && Peek(rest) !in "hltjz"
    requires !fl.byte && !fl.half && !fl.long
    ensures AfterLength(length + rest) == rest
    ensures LengthOf(length + rest, fl) ==
            fl.(byte := length == "hh", half := length in ["h", "hh"], long := length in ["l", "ll", "t", "j", "z"])
  {
    var f := length + rest;
    if length == "" {
      assert f == rest;
    } else if |length| == 1 {
      assert f == [length[0]] + rest;
      PeekOf(length[0], rest);
    } else {
      assert f == [length[0]] + ([length[1]] + rest);
      PeekOf(length[0], [length[1]] + rest);
      PeekOf(length[1], rest);
      assert f[2..] == rest;
    }
  }

  lemma LengthBegins(length: string, rest: string)
    requires length in ["", "h", "hh", "l", "ll", "t", "j", "z"] && Peek(rest) !in "-+ #0123456789*.hltjz"
    ensures Peek(length + rest) !in "-+ #0123456789*."
  {
    if length == "" {
      assert length + rest == rest;
    } else {
      assert (length + rest)[0] == length[0];
    }
  }

  lemma PrecisionRead(p: Precision, length: string, rest: string, fl: Flags, width: nat, args: seq<Arg>)
    requires length in ["", "h", "hh", "l", "ll", "t", "j", "z"] && Peek(rest) !in "-+ #0123456789*.hltjz"
    requires !fl.byte && !fl.half && !fl.long && !fl.precision
    ensures SpecAfterWidth(PrecisionText(p) + (length + rest), fl, width, PrecisionArgs(p) + args) ==
            Spec(fl.(precision := p.Point?, byte := length == "hh", half := length in ["h", "hh"],
                     long := length in ["l", "ll", "t", "j", "z"]),
                 width, if p.Point? && SizeOf(p.size) > 0 then SizeOf(p.size) else 0, rest, args)
  {
    LengthBegins(length, rest);
    match p
    case NoPrecision =>
      assert PrecisionText(p) + (length + rest) == length + rest && PrecisionArgs(p) + args == args;
      LengthRead(length, rest, fl);
    case Point(size) =>
      assert PrecisionText(p) + (length + rest) == ['.'] + (SizeText(size) + (length + rest));
      PeekOf('.', SizeText(size) + (length + rest));
      SizeRead(size, length + rest, args);
      LengthRead(length, rest, fl.(precision := true));
  }

  lemma PrecisionBegins(p: Precision, length: string, rest: string)
    requires length in ["", "h", "hh", "l", "ll", "t", "j", "z"] && Peek(rest) !in "-+ #0123456789*.hltjz"
    ensures Peek(PrecisionText(p) + (length + rest)) !in "-+ #0123456789*"
  {
    LengthBegins(length, rest);
    if p.Point? {
      assert (PrecisionText(p) + (length + rest))[0] == '.';
    } else {
      assert PrecisionText(p) + (length + rest) == length + rest;
    }
  }

  lemma SizeBegins(s: Size, rest: string)
    requires (s.Number? ==> s.n >= 1) && Peek(rest) !in "-+ #0"
    ensures Peek(SizeText(s) + rest) !in "-+ #0"
  {
    match s
    case Absent => assert SizeText(s) + rest == rest;
    case Star(_) => assert (SizeText(s) + rest)[0] == '*';
    case Number(n) =>
      NumeralBegins(n);
      assert (SizeText(s) + rest)[0] == SizeText(s)[0];
  }

  lemma {:induction false} NumeralBegins(n: nat)
    requires n >= 1
    ensures Numeral(n, 10, false)[0] in "123456789"
    decreases n
  {
    if n >= 10 {
      QuotientSmaller(n, 10);
      NumeralBegins(n / 10);
    }
  }

  lemma WidthRead(flags: string, width: Size, behind: string, args: seq<Arg>)
    requires (forall c | c in flags :: c in "-+ #0") && (width.Number? ==> width.n >= 1)
    requires Peek(behind) !in "-+ #0123456789*"
    ensures var n, fl := SizeOf(width), WithFlags(NONE, flags);
            SpecOf(flags + (SizeText(width) + behind), SizeArgs(width) + args) ==
            SpecAfterWidth(behind, if n < 0 then fl.(left := true) else fl, if n < 0 then -n else n, args)
  {
    SizeBegins(width, behind);
    FlagsRead(flags, SizeText(width) + behind, NONE);
    SizeRead(width, behind, args);
  }

  lemma RecordIs(d: Directive)
    ensures var n, fl := SizeOf(d.width), WithFlags(NONE, d.flags);
            FlagsRecord(d) ==
            (if n < 0 then fl.(left := true) else fl).
              (precision := d.precision.Point?, byte := d.length == "hh", half := d.length in ["h", "hh"],
               long := d.length in ["l", "ll", "t", "j", "z"])
  {
  }

  /** Reading inverts writing: the flags, the width, the precision and the length of a
      directive are what it was written with. */
  lemma DirectiveRead(d: Directive, rest: string, args: seq<Arg>)
    requires WellFormed(d)
    ensures SpecOf(Behind(d) + rest, Arguments(d) + args) ==
            Spec(FlagsRecord(d), LayoutOf(d).width, LayoutOf(d).places, [d.conversion] + rest, args)
  {
    var last := [d.conversion] + rest;
    PeekOf(d.conversion, rest);
    var behind := PrecisionText(d.precision) + (d.length + last);
    PrecisionBegins(d.precision, d.length, last);
    WidthRead(d.flags, d.width, behind, PrecisionArgs(d.precision) + args);
    var n, fl := SizeOf(d.width), WithFlags(NONE, d.flags);
    PrecisionRead(d.precision, d.length, last, if n < 0 then fl.(left := true) else fl, if n < 0 then -n else n, args);
    RecordIs(d);
    BehindIs(d, rest);
    ArgumentsAre(d, args);
  }

  lemma BehindIs(d: Directive, rest: string)
    ensures Behind(d) + rest ==
            d.flags + (SizeText(d.width) + (PrecisionText(d.precision) + (d.length + ([d.conversion] + rest))))
  {
  }

  lemma ArgumentsAre(d: Directive, args: seq<Arg>)
    ensures Arguments(d) + args == SizeArgs(d.width) + (PrecisionArgs(d.precision) + args)
  {
  }

  // ------------------------------------------------------------------ main results

  /** What converting the argument gives is written, and the format read on. */
  lemma RenderOne(d: Directive, fl: Flags, rest: string, args: seq<Arg>, text: string, more: seq<Arg>)
    requires WellFormed(d) && fl == FlagsRecord(d)
    requires Convert(d.conversion, fl, LayoutOf(d).width, LayoutOf(d).places, args) == Text(text, more)
    ensures Render(Written(d) + rest, Arguments(d) + args) == Prepend(text, Render(rest, more))
  {
    DirectiveRead(d, rest, args);
    WrittenIs(d, rest);
    RenderStep(Written(d) + rest, Behind(d) + rest, Arguments(d) + args, d.conversion, fl, LayoutOf(d).width,
               LayoutOf(d).places, rest, args, text, more);
  }

  lemma WrittenIs(d: Directive, rest: string)
    ensures Written(d) + rest == ['%'] + (Behind(d) + rest)
  {
  }

  lemma RenderStep(f: string, b: string, args: seq<Arg>, c: char, fl: Flags, width: nat, prec: nat, rest: string,
                   left: seq<Arg>, text: string, more: seq<Arg>)
    requires f == ['%'] + b && SpecOf(b, args) == Spec(fl, width, prec, [c] + rest, left)
    requires Convert(c, fl, width, prec, left) == Text(text, more)
    ensures Render(f, args) == Prepend(text, Render(rest, more))
  {
    PeekOf('%', b);
    PeekOf(c, rest);
  }

  lemma FirstArg(a: Arg, args: seq<Arg>)
    ensures var all := [a] + args; all != [] && all[0] == a && all[1..] == args
  {
  }

  lemma ConvertInteger(c: char, w: Word, fl: Flags, width: nat, prec: nat, all: seq<Arg>)
    requires c in "diuxXob" && all != [] && all[0] == Num(w)
    ensures Convert(c, fl, width, prec, all) == Text(IntText(c, w, prec, width, fl), all[1..])
  {
  }

  lemma ConvertPointer(w: Word, fl: Flags, width: nat, prec: nat, all: seq<Arg>)
    requires all != [] && all[0] == Num(w)
    ensures Convert('p', fl, width, prec, all) == Text(PointerText(w, prec, fl), all[1..])
  {
  }

  lemma ConvertChar(w: Word, fl: Flags, width: nat, prec: nat, all: seq<Arg>)
    requires all != [] && all[0] == Num(w)
    ensures Convert('c', fl, width, prec, all) == Text(Fill([(w % 0x100) as char], fl.left, width), all[1..])
  {
    SpacedIs([(w % 0x100) as char], width, fl.left);
  }

  lemma ConvertString(s: string, fl: Flags, width: nat, prec: nat, all: seq<Arg>)
    requires all != [] && all[0] == Str(s)
    ensures Convert('s', fl, width, prec, all) ==
            Text(Fill(if fl.precision && prec < |s| then s[..prec] else s, fl.left, width), all[1..])
  {
    var t := if fl.precision && prec < |s| then s[..prec] else s;
    assert Shown(s, prec, fl) == t;
    SpacedIs(t, width, fl.left);
  }

  /** An integer directive writes the text of the value that it makes of its argument,
      whatever its flags, width, precision and length. */
  lemma IntegerWritten(d: Directive, w: Word, rest: string, args: seq<Arg>)
    requires WellFormed(d) && d.conversion in "diuxXob"
    ensures Render(Written(d) + rest, Arguments(d) + ([Num(w)] + args)) ==
            Prepend(IntegerText(d, w), Render(rest, args))
  {
    FirstArg(Num(w), args);
    ConvertInteger(d.conversion, w, FlagsRecord(d), LayoutOf(d).width, LayoutOf(d).places, [Num(w)] + args);
    IntegerIs(d, w, FlagsRecord(d), DIGITS);
    RenderOne(d, FlagsRecord(d), rest, [Num(w)] + args, IntegerText(d, w), args);
  }

  lemma PointerWritten(d: Directive, w: Word, rest: string, args: seq<Arg>)
    requires WellFormed(d) && d.conversion == 'p'
    ensures Render(Written(d) + rest, Arguments(d) + ([Num(w)] + args)) ==
            Prepend(PointerMeaning(d, w), Render(rest, args))
  {
    FirstArg(Num(w), args);
    ConvertPointer(w, FlagsRecord(d), LayoutOf(d).width, LayoutOf(d).places, [Num(w)] + args);
    PointerIs(d, w, FlagsRecord(d), DIGITS);
    RenderOne(d, FlagsRecord(d), rest, [Num(w)] + args, PointerMeaning(d, w), args);
  }

  lemma CharWritten(d: Directive, w: Word, rest: string, args: seq<Arg>)
    requires WellFormed(d) && d.conversion == 'c'
    ensures Render(Written(d) + rest, Arguments(d) + ([Num(w)] + args)) ==
            Prepend(CharMeaning(d, w), Render(rest, args))
  {
    FirstArg(Num(w), args);
    ConvertChar(w, FlagsRecord(d), LayoutOf(d).width, LayoutOf(d).places, [Num(w)] + args);
    RenderOne(d, FlagsRecord(d), rest, [Num(w)] + args, CharMeaning(d, w), args);
  }

  /** A string directive writes the whole string, or as much of it as its precision
      says, between spaces up to its width. */
  lemma StringWritten(d: Directive, s: string, rest: string, args: seq<Arg>)
    requires WellFormed(d) && d.conversion == 's'
    ensures Render(Written(d) + rest, Arguments(d) + ([Str(s)] + args)) ==
            Prepend(StringMeaning(d, s), Render(rest, args))
  {
    FirstArg(Str(s), args);
    ConvertString(s, FlagsRecord(d), LayoutOf(d).width, LayoutOf(d).places, [Str(s)] + args);
    RenderOne(d, FlagsRecord(d), rest, [Str(s)] + args, StringMeaning(d, s), args);
  }

  /** Any other character, a second percent sign for one, is written itself, and takes
      no argument. */
  lemma OtherWritten(d: Directive, rest: string, args: seq<Arg>)
    requires WellFormed(d) && d.conversion !in "diuxXobcspfFeEgG"
    ensures Render(Written(d) + rest, Arguments(d) + args) == Prepend([d.conversion], Render(rest, args))
  {
    RenderOne(d, FlagsRecord(d), rest, args, [d.conversion], args);
  }
}
