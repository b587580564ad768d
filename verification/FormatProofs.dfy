/** What the output of the format engine means. */
module FormatProofs {
  import opened Common
  import opened Format

  // ------------------------------------------------------------------ integers

  function Pow(b: int, n: nat): (p: int)
    requires b >= 1
    ensures p >= 1
  {
    if n == 0 then 1 else b * Pow(b, n - 1)
  }

  /** The value of a digit character. */
  function DigitValue(c: char): int {
    if '0' <= c <= '9' then c as int - '0' as int
    else if 'a' <= c <= 'f' then c as int - 'a' as int + 10
    else if 'A' <= c <= 'F' then c as int - 'A' as int + 10 else 0
  }

  /** The number that digits stand for, lowest first. */
  function Value(s: string, base: int): int {
    if s == "" then 0 else DigitValue(s[0]) + base * Value(s[1..], base)
  }

  lemma DigitDecodes(d: int, upper: bool)
    requires 0 <= d < 16
    ensures DigitValue(DigitChar(d, upper)) == d
  {
  }

  lemma ModStep(v: nat, base: int, p: int)
    requires base >= 1 && p >= 1
    ensures v % (base * p) == v % base + base * ((v / base) % p)
  {
    var q, r := v / base, v % base;
    var h, l := q / p, q % p;
    assert v == base * q + r && q == p * h + l;
    assert base * q == base * (p * h) + base * l by { Distribute(base, p * h, l); }
    assert base * (p * h) == (base * p) * h by { Associate(base, p, h); }
    assert 0 <= r + base * l < base * p by {
      assert l <= p - 1;
      Monotone(base, l, p - 1);
      Distribute(base, p - 1, 1);
    }
    ModUnique(v, base * p, h, r + base * l);
  }

  lemma Distribute(a: int, b: int, c: int)
    ensures a * (b + c) == a * b + a * c
  {
  }

  lemma Associate(a: int, b: int, c: int)
    ensures a * (b * c) == (a * b) * c
  {
  }

  lemma Monotone(a: int, b: int, c: int)
    requires a >= 0 && b <= c
    ensures a * b <= a * c
  {
  }

  lemma ModUnique(v: int, m: int, h: int, l: int)
    requires m >= 1 && v == m * h + l && 0 <= l < m
    ensures v % m == l
  {
    var k := v / m;
    assert v == m * k + v % m;
    if k < h {
      Monotone(m, k + 1, h);
      Distribute(m, k, 1);
    } else if k > h {
      Monotone(m, h + 1, k);
      Distribute(m, h, 1);
    }
  }

  /** The lowest digit and the others. */
  lemma DecodeStep(v: nat, base: int, room: nat, rest: int)
    requires base >= 2 && room >= 1 && rest == (v / base) % Pow(base, room - 1)
    ensures v % Pow(base, room) == v % base + base * rest
  {
    ModStep(v, base, Pow(base, room - 1));
  }

  lemma DigitsParts(v: nat, base: int, upper: bool, room: nat) returns (q: nat, d: nat)
    requires 2 <= base <= 16 && room >= 1
    ensures q == v / base && d == v % base && v == base * q + d
    ensures var s := Digits(v, base, upper, room);
            s[0] == DigitChar(d, upper) && s[1..] == if q != 0 && room > 1 then Digits(q, base, upper, room - 1) else ""
  {
    q, d := v / base, v % base;
  }

  /** The digits of v are its lowest one and those of the quotient q. */
  lemma DigitsTail(v: nat, base: int, upper: bool, room: nat, n: nat) returns (q: nat)
    requires 2 <= base <= 16 && room >= 1 && n >= 1 && v < Pow(base, n)
    ensures q < Pow(base, n - 1) && (q == 0 ==> v < base) && (q > 0 ==> v > 0 && n > 1)
    ensures var s := Digits(v, base, upper, room);
            (q == 0 ==> s[0] == DigitChar(v, upper)) &&
            s[1..] == if q != 0 && room > 1 then Digits(q, base, upper, room - 1) else ""
  {
    var d;
    q, d := DigitsParts(v, base, upper, room);
    if q >= Pow(base, n - 1) {
      Monotone(base, Pow(base, n - 1), q);
    }
    Monotone(base, 0, q);
  }

  lemma LastOf(s: string)
    requires s != ""
    ensures s[|s| - 1] == if s[1..] == "" then s[0] else s[1..][|s[1..]| - 1]
  {
  }

  lemma ModOfNone(q: nat, base: int, room: nat)
    requires base >= 2 && room >= 1 && (q == 0 || room == 1)
    ensures q % Pow(base, room - 1) == 0
  {
  }

  /** The digits decode to the value, or to what of it fits in the buffer. */
  lemma {:induction false} DigitsDecode(v: nat, base: int, upper: bool, room: nat)
    requires 2 <= base <= 16 && room >= 1
    ensures Value(Digits(v, base, upper, room), base) == v % Pow(base, room)
    decreases room
  {
    var s := Digits(v, base, upper, room);
    var q, d := DigitsParts(v, base, upper, room);
    DigitDecodes(d, upper);
    if q != 0 && room > 1 {
      DigitsDecode(q, base, upper, room - 1);
    } else {
      ModOfNone(q, base, room);
    }
    DecodeStep(v, base, room, Value(s[1..], base));
  }

  lemma {:induction false} PowGrows(a: int, b: int, n: nat)
    requires 1 <= a <= b
    ensures Pow(a, n) <= Pow(b, n)
  {
    if n > 0 {
      PowGrows(a, b, n - 1);
      Monotone(a, Pow(a, n - 1), Pow(b, n - 1));
      Monotone(Pow(b, n - 1), a, b);
    }
  }

  lemma PowValues()
    ensures Pow(2, 32) == UINT && Pow(8, 32) >= ULONG
  {
    assert Pow(2, 4) == 16;
    PowSplit(2, 4, 4);
    PowSplit(2, 8, 8);
    PowSplit(2, 16, 16);
    assert Pow(8, 2) == 64;
    PowSplit(8, 2, 2);
    PowSplit(8, 4, 4);
    PowSplit(8, 8, 8);
    PowSplit(8, 16, 16);
  }

  lemma {:induction false} PowSplit(b: int, m: nat, n: nat)
    requires b >= 1
    ensures Pow(b, m + n) == Pow(b, m) * Pow(b, n)
  {
    if m > 0 {
      PowSplit(b, m - 1, n);
      Associate(b, Pow(b, m - 1), Pow(b, n));
    }
  }

  /** The digit loop converts every 64-bit value in full, but for %b, where that holds
      exactly of the values below 2^32. */
  lemma DigitsExact(v: Word, base: int, upper: bool)
    requires base in {2, 8, 10, 16}
    ensures Value(Digits(v, base, upper, DIGITS), base) == v <==> base != 2 || v < UINT
  {
    DigitsExactIn(v, base, upper, DIGITS);
  }

  lemma DigitsExactIn(v: Word, base: int, upper: bool, room: nat)
    requires base in {2, 8, 10, 16} && room == DIGITS
    ensures Value(Digits(v, base, upper, room), base) == v <==> base != 2 || v < UINT
  {
    DigitsDecode(v, base, upper, room);
    PowValues();
    if base != 2 {
      PowGrows(8, base, 32);
      ModUnique(v, Pow(base, 32), 0, v);
    } else if v < UINT {
      ModUnique(v, Pow(base, 32), 0, v);
    }
  }

  /** A number has no leading zero, but for zero itself. */
  lemma {:induction false} NoLeadingZero(v: nat, base: int, upper: bool, room: nat)
    requires 2 <= base <= 16 && room >= 1 && v < Pow(base, room)
    ensures var s := Digits(v, base, upper, room); s[|s| - 1] == '0' <==> v == 0
    decreases room
  {
    var s := Digits(v, base, upper, room);
    var q := DigitsTail(v, base, upper, room, room);
    LastOf(s);
    if q != 0 {
      NoLeadingZero(q, base, upper, room - 1);
    }
  }

  // --------------------------------------------------------------- field width

  /** Unless it pads with zeros, a conversion is exactly as wide as the field, or as
      the number where that is wider. */
  lemma FieldWidth(buf: string, width: int, fl: Flags)
    requires width >= 0 && (fl.left || !fl.zeropad)
    ensures |Padded(buf, width, fl)| == Max(width, |buf|)
  {
  }

  lemma SpacedWidth(text: string, width: int, left: bool)
    requires width >= 0
    ensures |Spaced(text, width, left)| == Max(width, |text|)
  {
  }

  /** No conversion of a number fills more than its buffer. */
  lemma NumberFits(digits: string, negative: bool, base: int, prec: int, width: int, fl: Flags)
    requires |digits| <= DIGITS
    ensures var w := SignRoom(width, negative, fl); var b := Zeroed(digits, prec, w, fl);
            |b| <= DIGITS && |if fl.hash then Hashed(b, base, prec, w, fl) else b| <= DIGITS &&
            |Signed(if fl.hash then Hashed(b, base, prec, w, fl) else b, negative, fl)| <= DIGITS
  {
  }

  lemma PlainNtoa(d: string, negative: bool)
    requires |d| < DIGITS
    ensures NtoaFormat(d, negative, 10, 0, 0, NONE) == (if negative then "-" else "") + Reverse(d)
  {
    assert ZeroPad(d, 0) == d;
    var b := Signed(d, negative, NONE);
    assert Padded(b, 0, NONE) == Reverse(b);
    if negative {
      assert b == d + ['-'] && b[..|d|] == d;
    } else {
      assert "" + Reverse(d) == Reverse(d);
    }
  }

  /** A plain %d shows the sign and the decimal digits of the int n that it is given, in
      whatever word. */
  lemma PlainDecimal(w: Word, n: int)
    requires -0x8000_0000 <= n < 0x8000_0000 && w % 0x1_0000_0000 == n % 0x1_0000_0000
    ensures IntText('d', w, 0, 0, NONE) == (if n < 0 then "-" else "") + Reverse(Digits(Abs(n), 10, false, DIGITS)) &&
            Value(Digits(Abs(n), 10, false, DIGITS), 10) == if n < 0 then -n else n
  {
    IntOf(w, n);
    DecimalText(w, n);
  }

  lemma IntOf(w: Word, n: int)
    requires -0x8000_0000 <= n < 0x8000_0000 && w % 0x1_0000_0000 == n % 0x1_0000_0000
    ensures AsInt(w) == n
  {
  }

  lemma DecimalText(w: Word, n: int)
    requires AsInt(w) == n && -0x8000_0000 <= n < 0x8000_0000
    ensures IntText('d', w, 0, 0, NONE) == (if n < 0 then "-" else "") + Reverse(Digits(Abs(n), 10, false, DIGITS)) &&
            Value(Digits(Abs(n), 10, false, DIGITS), 10) == Abs(n)
  {
    DigitsExact(Abs(n), 10, false);
    TenDigits(Abs(n));
    assert IntFlags(NONE, 'd') == NONE;
    PlainNtoa(Digits(Abs(n), 10, false, DIGITS), n < 0);
  }

  lemma TenDigits(v: nat)
    requires v <= 0x8000_0000
    ensures |Digits(v, 10, false, DIGITS)| <= 10
  {
    assert Pow(10, 5) == 100000;
    PowSplit(10, 5, 5);
    DigitsShort(v, 10, false, DIGITS, 10);
  }

  /** Few digits are enough for a small number. */
  lemma {:induction false} DigitsShort(v: nat, base: int, upper: bool, room: nat, n: nat)
    requires 2 <= base <= 16 && room >= 1 && n >= 1 && v < Pow(base, n)
    ensures |Digits(v, base, upper, room)| <= n
    decreases room
  {
    var q := DigitsTail(v, base, upper, room, n);
    if q != 0 && room > 1 {
      DigitsShort(q, base, upper, room - 1, n - 1);
    }
  }

  // ------------------------------------------------------- dangling directives

  /** The last directive of the format has no conversion character. */
  predicate Dangles(f: string)
    decreases |f|
  {
    f != "" &&
    if f[0] != '%' then Dangles(f[1..])
    else AfterSpec(f[1..]) == "" || Dangles(AfterSpec(f[1..])[1..])
  }

  /** With arguments that fit, the engine reads past the end of its format exactly
      when the last directive dangles, whatever the arguments are. */
  lemma {:induction false} OverrunIff(f: string, args: seq<Arg>)
    requires !Render(f, args).Stuck?
    ensures Render(f, args).Overrun? <==> Dangles(f)
    decreases |f|
  {
    if f != "" {
      if f[0] != '%' {
        OverrunIff(f[1..], args);
      } else {
        var d := SpecOf(f[1..], args);
        if d.rest != "" {
          OverrunIff(d.rest[1..], Convert(d.rest[0], d.flags, d.width, d.prec, d.args).args);
        }
      }
    }
  }

  /** "%" alone is read past its end. */
  lemma OverrunSample(args: seq<Arg>)
    ensures Render("%", args).Overrun?
  {
    assert "%"[1..] == "";
    assert AfterSpec("") == "";
    OverrunIff("%", args);
  }

  lemma RenderPlain(c: char, f: string, args: seq<Arg>)
    requires c != '%'
    ensures Render([c] + f, args) == Prepend([c], Render(f, args))
  {
    assert ([c] + f)[1..] == f;
  }

  lemma PrependTwice(s: string, t: string, o: Outcome)
    ensures Prepend(s, Prepend(t, o)) == Prepend(s + t, o)
  {
    if o.Done? {
      assert s + (t + o.text) == (s + t) + o.text;
    }
  }

  /** Plain text in front of a format is written as it stands. */
  lemma {:induction false} PlainText(s: string, f: string, args: seq<Arg>)
    requires '%' !in s
    ensures Render(s + f, args) == Prepend(s, Render(f, args))
    decreases |s|
  {
    var o := Render(f, args);
    if s == "" {
      assert s + f == f;
      assert o.Done? ==> s + o.text == o.text;
    } else {
      assert s + f == [s[0]] + (s[1..] + f);
      RenderPlain(s[0], s[1..] + f, args);
      PlainText(s[1..], f, args);
      PrependTwice([s[0]], s[1..], o);
      assert [s[0]] + s[1..] == s;
    }
  }
}
