/** What the directives that a program writes most often print: plain ones, and the
    effect of each flag, of a width and of a precision. */
module PlainDirectives {
  import opened Common
  import opened Sequences
  import opened Format
  import opened FormatProofs
  import opened FormatReading
  import opened Directives
  import opened DirectiveProofs

  // ------------------------------------------------------------- numerals are read

  lemma {:induction false} NumeralDigits(v: nat, base: int, upper: bool)
    requires base in {2, 8, 10, 16}
    ensures AllDigits(Numeral(v, base, upper), base)
    decreases v
  {
    if v < base {
      SymbolDigit(v, base, upper);
    } else {
      QuotientSmaller(v, base);
      NumeralDigits(v / base, base, upper);
      SymbolDigit(v % base, base, upper);
    }
  }

  lemma SymbolDigit(d: int, base: int, upper: bool)
    requires 0 <= d < base <= 16
    ensures IsDigitOf(Symbol(d, upper), base) && DigitValue(Symbol(d, upper)) == d
  {
  }

  lemma {:induction false} ReadSnoc(s: string, c: char, base: int, v: int)
    requires AllDigits(s, base) && IsDigitOf(c, base)
    ensures ReadDigits(s + [c], base, v) == ReadDigits(s, base, v) * base + DigitValue(c)
    decreases |s|
  {
    if s == "" {
      assert s + [c] == [c] && [c][1..] == "";
    } else {
      assert (s + [c])[1..] == s[1..] + [c];
      assert IsDigitOf(s[0], base);
      TailDigits(s, base);
      ReadSnoc(s[1..], c, base, v * base + DigitValue(s[0]));
    }
  }

  lemma TailDigits(s: string, base: int)
    requires AllDigits(s, base) && s != ""
    ensures AllDigits(s[1..], base)
  {
    forall i | 0 <= i < |s[1..]| ensures IsDigitOf(s[1..][i], base) {
      assert s[1..][i] == s[i + 1];
    }
  }

  lemma Parts(v: nat, base: int) returns (q: nat, d: nat)
    requires base >= 2
    ensures q == v / base && d == v % base && v == base * q + d && d < base
  {
    q, d := v / base, v % base;
  }

  lemma {:induction false} NumeralValue(v: nat, base: int, upper: bool)
    requires base in {2, 8, 10, 16}
    ensures ReadDigits(Numeral(v, base, upper), base, 0) == v
    decreases v
  {
    if v < base {
      SymbolDigit(v, base, upper);
      ReadSingle(Symbol(v, upper), base);
    } else {
      var q, d := Parts(v, base);
      QuotientSmaller(v, base);
      NumeralValue(q, base, upper);
      NumeralDigits(q, base, upper);
      NumeralStep(v, base, upper, q, d);
      OneMoreRead(Numeral(q, base, upper), v, base, upper, q, d);
    }
  }

  lemma ReadSingle(c: char, base: int)
    requires IsDigitOf(c, base)
    ensures ReadDigits([c], base, 0) == DigitValue(c)
  {
    assert [c][1..] == "";
  }

  lemma OneMoreRead(s: string, v: nat, base: int, upper: bool, q: nat, d: nat)
    requires 2 <= base <= 16 && v == base * q + d && d < base && AllDigits(s, base) && ReadDigits(s, base, 0) == q
    ensures ReadDigits(s + [Symbol(d, upper)], base, 0) == v
  {
    SymbolDigit(d, base, upper);
    ReadSnoc(s, Symbol(d, upper), base, 0);
  }

  lemma DigitsNoMark(s: string, base: int)
    requires base in {2, 8, 10, 16} && AllDigits(s, base)
    ensures !HasMark(s, base) && Begins(s)
  {
    if |s| >= 2 {
      assert IsDigitOf(s[1], base);
    }
    if s != "" {
      assert IsDigitOf(s[0], base);
    }
  }

  /** A numeral with its sign reads as its number. */
  lemma NumeralReads(v: nat, base: int, upper: bool, sign: string)
    requires base in {2, 8, 10, 16} && sign in {"", "-", "+", " "}
    ensures Reading(sign + Numeral(v, base, upper), base) == (if sign == "-" then 0 - v else v)
  {
    var s := Numeral(v, base, upper);
    NumeralDigits(v, base, upper);
    NumeralValue(v, base, upper);
    DigitsNoMark(s, base);
    ReadSigned(sign, s, "", base);
    assert s + "" == s && sign + s + "" == sign + s;
  }

  /** A number below base^n has at most n digits. */
  lemma {:induction false} NumeralShort(v: nat, base: int, upper: bool, n: nat)
    requires 2 <= base <= 16 && n >= 1 && v < Pow(base, n)
    ensures |Numeral(v, base, upper)| <= n
    decreases n
  {
    if v >= base && n > 1 {
      QuotientSmaller(v, base);
      if v / base >= Pow(base, n - 1) {
        Monotone(base, Pow(base, n - 1), v / base);
      }
      NumeralShort(v / base, base, upper, n - 1);
    }
  }

  lemma PowsOf16()
    ensures Pow(16, 16) == ULONG && Pow(8, 22) >= ULONG && Pow(10, 20) >= ULONG && Pow(2, 32) == UINT
  {
    PowValues();
    assert Pow(16, 2) == 0x100;
    PowSplit(16, 2, 2);
    PowSplit(16, 4, 4);
    PowSplit(16, 8, 8);
    assert Pow(8, 2) == 64;
    PowSplit(8, 2, 2);
    PowSplit(8, 4, 4);
    PowSplit(8, 8, 8);
    PowSplit(8, 16, 4);
    PowSplit(8, 20, 2);
    assert Pow(10, 5) == 100000;
    PowSplit(10, 5, 5);
    PowSplit(10, 10, 10);
  }

  /** But for base 2, no 64-bit value has more than 22 digits. */
  lemma WordShort(v: Word, base: int, upper: bool)
    requires base in {2, 8, 10, 16} && (base == 2 ==> v < UINT)
    ensures |Numeral(v, base, upper)| <= if base == 2 then 32 else 22
    ensures base == 16 ==> |Numeral(v, base, upper)| <= 16
  {
    PowsOf16();
    if base == 16 {
      NumeralShort(v, 16, upper, 16);
    } else if base == 8 {
      NumeralShort(v, 8, upper, 22);
    } else if base == 10 {
      NumeralShort(v, 10, upper, 20);
    } else {
      NumeralShort(v, 2, upper, 32);
    }
  }

  // -------------------------------------------------------------- one directive alone

  predicate NoStar(d: Directive) {
    !d.width.Star? && !(d.precision.Point? && d.precision.size.Star?)
  }

  lemma Alone(d: Directive, a: Arg, text: string)
    requires WellFormed(d) && NoStar(d)
    requires Render(Written(d) + "", Arguments(d) + ([a] + [])) == Prepend(text, Render("", []))
    ensures Render(Written(d), [a]) == Done(text)
  {
    assert Written(d) + "" == Written(d) && Arguments(d) + ([a] + []) == [a];
    assert text + "" == text;
  }

  lemma IntegerAlone(d: Directive, w: Word)
    requires WellFormed(d) && NoStar(d) && d.conversion in "diuxXob"
    ensures Render(Written(d), [Num(w)]) == Done(IntegerText(d, w))
  {
    IntegerWritten(d, w, "", []);
    Alone(d, Num(w), IntegerText(d, w));
  }

  /** The int that the word of an argument stands for. */
  lemma WithinIs(n: int, w: int, m: int)
    requires m > 0 && m % 2 == 0 && -(m / 2) <= n < m / 2 && w % m == n % m
    ensures Within(w, m) == n
  {
    var h := m / 2;
    var k := w / m - n / m;
    Distribute(m, n / m, k);
    assert w + h == m * k + (n + h);
    ModUnique(w + h, m, k, n + h);
  }

  // ------------------------------------------------------------ text of a short number

  function Sign(n: int): string { if n < 0 then "-" else "" }

  lemma EmptyChars(c: char, n: int)
    requires n <= 0
    ensures Chars(c, n) == ""
  {
  }

  lemma WholeDigits(negative: bool, v: nat, base: int, upper: bool, l: Layout, t: string, room: int)
    requires 2 <= base <= 16 && !l.given && (v == 0 || !l.alt) && t == Numeral(v, base, upper) && |t| <= 32
    requires room == RoomFor(SignText(negative, l), l)
    ensures NumberText(negative, v, base, upper, l) == Finished(WithZeros(t, room, l), SignText(negative, l), l)
  {
    NumberTextIs(v, negative, base, upper, l, t, if v == 0 then l.(alt := false) else l);
  }

  lemma SpacedText(t: string, sign: string, l: Layout)
    requires |t| <= 31 && l.places == 0 && (!l.zero || l.left)
    ensures Finished(WithZeros(t, RoomFor(sign, l), l), sign, l) == Fill(sign + t, l.left, l.width)
  {
    NoZeros(t, RoomFor(sign, l), l);
  }

  lemma ZeroedNumber(t: string, sign: string, l: Layout)
    requires |t| <= 31 && |sign| <= 1 && l.places == 0 && l.zero && !l.left && l.width <= 32
    ensures Finished(WithZeros(t, RoomFor(sign, l), l), sign, l) == sign + Chars('0', l.width - |sign + t|) + t
  {
    var room := RoomFor(sign, l);
    CharsSame('0', Min(32, Max(0, room)) - |t|, l.width - |sign + t|);
    ConcatAssociates(sign, Chars('0', l.width - |sign + t|), t);
  }

  /** A number that fits in the buffer with its sign, without precision and mark. */
  lemma ShortText(negative: bool, v: nat, base: int, upper: bool, l: Layout)
    requires 2 <= base <= 16 && !l.given && l.places == 0 && !l.alt && |Numeral(v, base, upper)| <= 31
    requires l.zero && !l.left ==> l.width <= 32
    ensures var sign, t := SignText(negative, l), Numeral(v, base, upper);
            NumberText(negative, v, base, upper, l) ==
            if l.zero && !l.left then sign + Chars('0', l.width - |sign + t|) + t
            else Fill(sign + t, l.left, l.width)
  {
    var sign, t := SignText(negative, l), Numeral(v, base, upper);
    WholeDigits(negative, v, base, upper, l, t, RoomFor(sign, l));
    if l.zero && !l.left {
      ZeroedNumber(t, sign, l);
    } else {
      SpacedText(t, sign, l);
    }
  }

  lemma NoZeros(t: string, room: int, l: Layout)
    requires l.places == 0 && (!l.zero || l.left)
    ensures WithZeros(t, room, l) == t
  {
    EmptyChars('0', 0 - |t|);
    assert "" + t == t;
  }

  // ---------------------------------------------------------------- plain directives

  const PLAIN := Layout(false, false, false, false, false, 0, false, 0)

  lemma PlainText(negative: bool, v: nat, base: int, upper: bool)
    requires 2 <= base <= 16 && |Numeral(v, base, upper)| <= 31
    ensures NumberText(negative, v, base, upper, PLAIN) == (if negative then "-" else "") + Numeral(v, base, upper)
  {
    var s := (if negative then "-" else "") + Numeral(v, base, upper);
    ShortText(negative, v, base, upper, PLAIN);
    NoFill(s);
  }

  lemma PlainDirective(length: string, c: char) returns (d: Directive)
    requires length in ["", "h", "hh", "l", "ll", "t", "j", "z"] && c !in "-+ #0123456789*.hltjz"
    ensures WellFormed(d) && NoStar(d) && Written(d) == "%" + length + [c] && LayoutOf(d) == PLAIN
    ensures d.conversion == c && d.length == length
  {
    d := Directive("", Absent, NoPrecision, length, c);
    assert Written(d) == "%" + ("" + ("" + ("" + (length + [c]))));
  }

  lemma NoFill(t: string)
    ensures Fill(t, false, 0) == t
  {
    EmptyChars(' ', 0 - |t|);
    assert "" + t == t;
  }

  /** %s writes the whole string. */
  lemma StringShown(s: string)
    ensures Render("%s", [Str(s)]) == Done(s)
  {
    var d := PlainDirective("", 's');
    StringAlone(d, s);
    NoFill(s);
    assert "%" + "" + ['s'] == "%s";
  }

  /** %c writes the character of the argument's lowest byte. */
  lemma CharShown(w: Word)
    ensures Render("%c", [Num(w)]) == Done([(w % 0x100) as char])
  {
    var d := PlainDirective("", 'c');
    CharWritten(d, w, "", []);
    NoFill([(w % 0x100) as char]);
    Alone(d, Num(w), [(w % 0x100) as char]);
    assert "%" + "" + ['c'] == "%c";
  }

  lemma AddressText(w: Word, l: Layout)
    requires l == PLAIN.(zero := true, width := 16)
    ensures var t := Numeral(w, 16, true); |t| <= 16 && NumberText(false, w, 16, true, l) == Chars('0', 16 - |t|) + t
  {
    var t := Numeral(w, 16, true);
    WordShort(w, 16, true);
    ShortText(false, w, 16, true, l);
    assert "" + t == t && "" + Chars('0', 16 - |t|) == Chars('0', 16 - |t|);
  }

  lemma PointerAlone(d: Directive, w: Word, l: Layout)
    requires WellFormed(d) && NoStar(d) && d.conversion == 'p' && l == LayoutOf(d).(zero := true, width := 16)
    ensures Render(Written(d), [Num(w)]) == Done(NumberText(false, w, 16, true, l))
  {
    PointerWritten(d, w, "", []);
    Alone(d, Num(w), PointerMeaning(d, w));
  }

  /** %p writes the address in 16 hexadecimal digits. */
  lemma PointerShown(w: Word)
    ensures var t := Numeral(w, 16, true);
            |t| <= 16 && Render("%p", [Num(w)]) == Done(Chars('0', 16 - |t|) + t)
  {
    var d := PlainDirective("", 'p');
    var l := PLAIN.(zero := true, width := 16);
    PointerAlone(d, w, l);
    AddressText(w, l);
    assert "%" + "" + ['p'] == "%p";
  }

  /** The range of the numbers of a length. */
  predicate InRange(n: int, length: string, signed: bool) {
    length in ["", "h", "hh", "l", "ll", "t", "j", "z"] &&
    if signed then length != "hh" && -(Modulus(length) / 2) <= n < Modulus(length) / 2 else 0 <= n < Modulus(length)
  }

  /** The argument n of a length, as a word whose higher bits may be anything. */
  predicate Passes(w: Word, n: int, length: string) {
    w % Modulus(length) == n % Modulus(length)
  }

  lemma SignedValue(d: Directive, n: int, w: Word)
    requires d.conversion in "di" && InRange(n, d.length, true) && Passes(w, n, d.length)
    ensures ValueOf(d, w) == n && Amount(n) < ULONG
  {
    WithinIs(n, w, Modulus(d.length));
  }

  lemma UnsignedValue(d: Directive, n: int, w: Word)
    requires d.conversion !in "di" && InRange(n, d.length, false) && Passes(w, n, d.length)
    ensures ValueOf(d, w) == n && Amount(n) == n && n < ULONG
  {
  }

  lemma PlainInteger(d: Directive, w: Word, n: int)
    requires WellFormed(d) && NoStar(d) && d.conversion in "diuxXob" && LayoutOf(d) == PLAIN && ValueOf(d, w) == n
    ensures Render(Written(d), [Num(w)]) ==
            Done(NumberText(n < 0, Amount(n), Radix(d.conversion), d.conversion == 'X', PLAIN))
  {
    IntegerAlone(d, w);
    PlainLayout(d.conversion);
  }

  lemma PlainLayout(c: char)
    ensures IntegerLayout(c, PLAIN) == PLAIN
  {
  }

  /** %d and %i write the number in base 10, with a minus sign if it is negative. */
  lemma SignedShown(c: char, length: string, n: int, w: Word)
    requires c in "di" && InRange(n, length, true) && Passes(w, n, length)
    ensures var t := (if n < 0 then "-" else "") + Numeral(Amount(n), 10, false);
            Render("%" + length + [c], [Num(w)]) == Done(t) && Reading(t, 10) == n
  {
    var d := PlainDirective(length, c);
    SignedValue(d, n, w);
    WordShort(Amount(n), 10, false);
    PlainInteger(d, w, n);
    PlainText(n < 0, Amount(n), 10, false);
    NumeralReads(Amount(n), 10, false, if n < 0 then "-" else "");
  }

  /** %u, %x, %X, %o and %b write it in base 10, 16, 16, 8 and 2; %b only the 32 lowest
      digits. */
  lemma UnsignedShown(c: char, length: string, n: nat, w: Word)
    requires c in "uxXob" && InRange(n, length, false) && Passes(w, n, length)
    ensures var base := if c == 'u' then 10 else if c == 'o' then 8 else if c == 'b' then 2 else 16;
            var t := Numeral(n, base, c == 'X');
            Render("%" + length + [c], [Num(w)]) == Done(Lowest(t, 32)) && Reading(t, base) == n &&
            (|t| <= 32 <==> c != 'b' || n < 0x1_0000_0000)
  {
    var d := PlainDirective(length, c);
    UnsignedValue(d, n, w);
    PlainInteger(d, w, n);
    var base := if c == 'u' then 10 else if c == 'o' then 8 else if c == 'b' then 2 else 16;
    UnsignedText(n, base, c == 'X', Numeral(n, base, c == 'X'));
  }

  lemma UnsignedText(n: nat, base: int, upper: bool, t: string)
    requires n < ULONG && base in {2, 8, 10, 16} && t == Numeral(n, base, upper)
    ensures NumberText(false, n, base, upper, PLAIN) == Lowest(t, 32) && Reading(t, base) == n
    ensures |t| <= 32 <==> base != 2 || n < UINT
  {
    LongText(n, base, upper);
    UnsignedReads(n, base, upper);
    WordLength(n, base, upper);
  }

  lemma UnsignedReads(n: nat, base: int, upper: bool)
    requires base in {2, 8, 10, 16}
    ensures Reading(Numeral(n, base, upper), base) == n
  {
    NumeralReads(n, base, upper, "");
    assert "" + Numeral(n, base, upper) == Numeral(n, base, upper);
  }

  lemma WordLength(n: Word, base: int, upper: bool)
    requires base in {2, 8, 10, 16}
    ensures |Numeral(n, base, upper)| <= 32 <==> base != 2 || n < UINT
  {
    if base != 2 || n < UINT {
      WordShort(n, base, upper);
    } else {
      PowsOf16();
      NumeralLong(n, 2, upper, 32);
    }
  }

  lemma LongText(v: nat, base: int, upper: bool)
    requires 2 <= base <= 16
    ensures NumberText(false, v, base, upper, PLAIN) == Lowest(Numeral(v, base, upper), 32)
  {
    var t := Lowest(Numeral(v, base, upper), 32);
    NoZeros(t, 0, PLAIN);
    NoFill(t);
    assert "" + t == t;
  }

  lemma QuotientAtLeast(v: nat, base: int, q: nat, d: nat, p: nat)
    requires base >= 2 && v == base * q + d && d < base && v >= base * p
    ensures q >= p
  {
    if q < p {
      Monotone(base, q + 1, p);
      Distribute(base, q, 1);
    }
  }

  /** A number from base^n on has more than n digits. */
  lemma {:induction false} NumeralLong(v: nat, base: int, upper: bool, n: nat)
    requires 2 <= base <= 16 && v >= Pow(base, n)
    ensures |Numeral(v, base, upper)| > n
    decreases n
  {
    if n > 0 {
      var q, d := Parts(v, base);
      QuotientAtLeast(v, base, q, d, Pow(base, n - 1));
      NumeralLong(q, base, upper, n - 1);
      NumeralStep(v, base, upper, q, d);
    }
  }

  // ----------------------------------------------------- flags, width and precision

  function WidthText(k: nat): string {
    if k == 0 then "" else Numeral(k, 10, false)
  }

  lemma FieldWritten(flag: string, size: Size, c: char, d: Directive)
    requires d == Directive(flag, size, NoPrecision, "", c)
    ensures Written(d) == "%" + flag + SizeText(size) + [c]
  {
    assert Written(d) == "%" + (flag + (SizeText(size) + ("" + ("" + [c]))));
  }

  lemma FieldLayout(flag: string, size: Size, c: char, d: Directive)
    requires flag in ["", "-", "+", " ", "0", "#"] && !size.Star? && d == Directive(flag, size, NoPrecision, "", c)
    ensures LayoutOf(d) ==
            Layout(flag == "-", flag == "+", flag == " ", flag == "0", flag == "#", SizeOf(size), false, 0)
  {
  }

  lemma FieldDirective(flag: string, k: nat, c: char) returns (d: Directive)
    requires flag in ["", "-", "+", " ", "0", "#"] && k < 0x1_0000_0000 && c in "diuxXobcsp"
    ensures WellFormed(d) && NoStar(d) && d.conversion == c && d.length == ""
    ensures Written(d) == "%" + flag + WidthText(k) + [c]
    ensures LayoutOf(d) == Layout(flag == "-", flag == "+", flag == " ", flag == "0", flag == "#", k, false, 0)
  {
    var size := if k == 0 then Absent else Number(k);
    d := Directive(flag, size, NoPrecision, "", c);
    FieldWritten(flag, size, c, d);
    FieldLayout(flag, size, c, d);
  }

  lemma FieldInteger(d: Directive, w: Word, n: int, l: Layout)
    requires WellFormed(d) && NoStar(d) && d.conversion == 'd' && ValueOf(d, w) == n
    requires l == LayoutOf(d).(zero := LayoutOf(d).zero && !LayoutOf(d).given, alt := false)
    ensures Render(Written(d), [Num(w)]) == Done(NumberText(n < 0, Amount(n), 10, false, l))
  {
    IntegerAlone(d, w);
  }

  /** The sign of a number: '+' and ' ' show in front of one that is not negative. */
  function SignFor(flag: string, n: int): string {
    if n < 0 then "-" else if flag == "+" then "+" else if flag == " " then " " else ""
  }

  /** A field of k characters: with '-' the number is in front of the spaces, with '0'
      there are zeros between the sign and the digits, and else spaces in front. */
  function Field(flag: string, k: nat, sign: string, digits: string): string {
    var room := k - |sign + digits|;
    if flag == "-" then sign + digits + Chars(' ', room)
    else if flag == "0" then sign + Chars('0', room) + digits else Chars(' ', room) + (sign + digits)
  }

  /** A width written in digits makes a field of that many characters, and each flag has
      its effect. */
  lemma FieldShown(flag: string, k: nat, n: int, w: Word)
    requires flag in ["", "-", "+", " ", "0", "#"] && k < 0x1_0000_0000 && (flag == "0" ==> k <= 32)
    requires InRange(n, "", true) && Passes(w, n, "")
    ensures Render("%" + flag + WidthText(k) + "d", [Num(w)]) ==
            Done(Field(flag, k, SignFor(flag, n), Numeral(Amount(n), 10, false)))
  {
    var d := FieldDirective(flag, k, 'd');
    SignedValue(d, n, w);
    WordShort(Amount(n), 10, false);
    assert ['d'] == "d";
    FieldAlone(d, flag, k, n, w, Numeral(Amount(n), 10, false));
  }

  lemma FieldAlone(d: Directive, flag: string, k: nat, n: int, w: Word, t: string)
    requires WellFormed(d) && NoStar(d) && d.conversion == 'd' && ValueOf(d, w) == n && (flag == "0" ==> k <= 32)
    requires LayoutOf(d) == Layout(flag == "-", flag == "+", flag == " ", flag == "0", flag == "#", k, false, 0)
    requires t == Numeral(Amount(n), 10, false) && |t| <= 22
    ensures Render(Written(d), [Num(w)]) == Done(Field(flag, k, SignFor(flag, n), t))
  {
    var l := LayoutOf(d).(alt := false);
    FieldInteger(d, w, n, l);
    FieldText(flag, k, n, l, t);
  }

  lemma FieldText(flag: string, k: nat, n: int, l: Layout, t: string)
    requires l == Layout(flag == "-", flag == "+", flag == " ", flag == "0", false, k, false, 0)
    requires flag == "0" ==> k <= 32
    requires t == Numeral(Amount(n), 10, false) && |t| <= 22
    ensures NumberText(n < 0, Amount(n), 10, false, l) == Field(flag, k, SignFor(flag, n), t)
  {
    ShortText(n < 0, Amount(n), 10, false, l);
    SignIsFor(flag, n, l);
    FillIsField(flag, k, SignFor(flag, n), t, l);
  }

  lemma SignIsFor(flag: string, n: int, l: Layout)
    requires l.plus == (flag == "+") && l.space == (flag == " ")
    ensures SignText(n < 0, l) == SignFor(flag, n)
  {
  }

  lemma FillIsField(flag: string, k: nat, sign: string, t: string, l: Layout)
    requires l.left == (flag == "-") && l.zero == (flag == "0") && l.width == k
    ensures Field(flag, k, sign, t) ==
            if l.zero && !l.left then sign + Chars('0', l.width - |sign + t|) + t else Fill(sign + t, l.left, l.width)
  {
  }

  /** A precision written in digits puts zeros in front of the digits up to as many. */
  lemma PrecisionShown(p: nat, n: int, w: Word)
    requires p < 32 && InRange(n, "", true) && Passes(w, n, "")
    ensures var t := if n == 0 then "" else Numeral(Amount(n), 10, false);
            Render("%." + Numeral(p, 10, false) + "d", [Num(w)]) ==
            Done((if n < 0 then "-" else "") + (Chars('0', p - |t|) + t))
  {
    var d := PreciseDirective(p, 'd');
    var l := LayoutOf(d);
    SignedValue(d, n, w);
    WordShort(Amount(n), 10, false);
    FieldInteger(d, w, n, l);
    PreciseText(p, n, l);
  }

  lemma PreciseWritten(p: nat, c: char, d: Directive)
    requires d == Directive("", Absent, Point(Number(p)), "", c)
    ensures Written(d) == "%." + Numeral(p, 10, false) + [c]
  {
    var n := Numeral(p, 10, false);
    assert Written(d) == "%" + ("" + ("" + (("." + n) + ("" + [c]))));
    assert "%" + ("." + n) == "%." + n;
  }

  lemma PreciseDirective(p: nat, c: char) returns (d: Directive)
    requires p < 0x1_0000_0000 && c in "diuxXobcsp"
    ensures WellFormed(d) && NoStar(d) && d.conversion == c && d.length == ""
    ensures Written(d) == "%." + Numeral(p, 10, false) + [c]
    ensures LayoutOf(d) == Layout(false, false, false, false, false, 0, true, p)
  {
    d := Directive("", Absent, Point(Number(p)), "", c);
    PreciseWritten(p, c, d);
  }

  lemma PreciseText(p: nat, n: int, l: Layout)
    requires p < 32 && l == Layout(false, false, false, false, false, 0, true, p)
    requires |Numeral(Amount(n), 10, false)| <= 22
    ensures var t := if n == 0 then "" else Numeral(Amount(n), 10, false);
            NumberText(n < 0, Amount(n), 10, false, l) == (if n < 0 then "-" else "") + (Chars('0', p - |t|) + t)
  {
    var t := if n == 0 then "" else Numeral(Amount(n), 10, false);
    var sign := SignText(n < 0, l);
    NumberTextIs(Amount(n), n < 0, 10, false, l, t, l);
    PreciseFinished(t, sign, p, l);
  }

  lemma PreciseFinished(t: string, sign: string, p: nat, l: Layout)
    requires p < 32 && l == Layout(false, false, false, false, false, 0, true, p) && |t| <= 22
    ensures Finished(WithZeros(t, RoomFor(sign, l), l), sign, l) == sign + (Chars('0', p - |t|) + t)
  {
    CharsSame('0', Min(32, Max(p, 0)) - |t|, p - |t|);
    NoFill(sign + (Chars('0', p - |t|) + t));
  }

  /** '#' puts 0x, 0X, 0 or 0b in front of a number that is not zero. */
  lemma MarkShown(c: char, n: nat, w: Word)
    requires c in "xXob" && 0 < n && InRange(n, "", false) && Passes(w, n, "") && (c == 'b' ==> n < 0x4000_0000)
    ensures var base := if c == 'o' then 8 else if c == 'b' then 2 else 16;
            var t := (if c == 'x' then "0x" else if c == 'X' then "0X" else if c == 'o' then "0" else "0b") +
                     Numeral(n, base, c == 'X');
            Render("%#" + [c], [Num(w)]) == Done(t) && Reading(t, base) == n
  {
    var base := if c == 'o' then 8 else if c == 'b' then 2 else 16;
    var d := FieldDirective("#", 0, c);
    assert "%" + "#" + "" + [c] == "%#" + [c];
    UnsignedValue(d, n, w);
    MarkedInteger(d, w, n, base, LayoutOf(d));
    MarkedReads(n, base, c == 'X');
    MarkIs(c, base);
  }

  lemma MarkIs(c: char, base: int)
    requires c in "xXob" && base == if c == 'o' then 8 else if c == 'b' then 2 else 16
    ensures MarkText(0, base, c == 'X') ==
            (if c == 'x' then "0x" else if c == 'X' then "0X" else if c == 'o' then "0" else "0b")
  {
  }

  lemma MarkedInteger(d: Directive, w: Word, n: nat, base: int, l: Layout)
    requires WellFormed(d) && NoStar(d) && d.conversion in "xXob" && ValueOf(d, w) == n && base == Radix(d.conversion)
    requires 0 < n < ULONG && (base == 2 ==> n < 0x4000_0000)
    requires l == LayoutOf(d) == Layout(false, false, false, false, true, 0, false, 0)
    ensures Render(Written(d), [Num(w)]) ==
            Done(MarkText(0, base, d.conversion == 'X') + Numeral(n, base, d.conversion == 'X'))
  {
    IntegerAlone(d, w);
    MarkedText(n, base, d.conversion == 'X', l);
  }

  lemma MarkInFull(t: string, base: int, upper: bool, l: Layout)
    requires base in {2, 8, 16} && 0 < |t| <= 30 && !l.given && l.places == 0
    ensures Marked(t, base, upper, 0, l) == MarkText(0, base, upper) + t
  {
    assert t[0..] == t;
  }

  lemma MarkedText(n: nat, base: int, upper: bool, l: Layout)
    requires base in {2, 8, 16} && 0 < n < ULONG && (base == 2 ==> n < 0x4000_0000)
    requires l == Layout(false, false, false, false, true, 0, false, 0)
    ensures NumberText(false, n, base, upper, l) == MarkText(0, base, upper) + Numeral(n, base, upper)
  {
    var t := Numeral(n, base, upper);
    NumeralAtMost30(n, base, upper);
    NumberTextIs(n, false, base, upper, l, t, l);
    NoZeros(t, 0, l);
    MarkInFull(t, base, upper, l);
    PlainFinished(MarkText(0, base, upper) + t, l);
  }

  lemma PlainFinished(s: string, l: Layout)
    requires !l.zero && !l.left && l.width == 0
    ensures Finished(s, "", l) == s
  {
    assert "" + s == s;
    NoFill(s);
  }

  lemma NumeralAtMost30(n: nat, base: int, upper: bool)
    requires base in {2, 8, 16} && n < ULONG && (base == 2 ==> n < 0x4000_0000)
    ensures |Numeral(n, base, upper)| <= 30
  {
    if base == 2 {
      PowsOf16();
      assert Pow(2, 2) == 4;
      PowSplit(2, 30, 2);
      NumeralShort(n, 2, upper, 30);
    } else {
      WordShort(n, base, upper);
    }
  }

  lemma MarkedReads(n: nat, base: int, upper: bool)
    requires base in {2, 8, 16}
    ensures Reading(MarkText(0, base, upper) + Numeral(n, base, upper), base) == n
  {
    var t := Numeral(n, base, upper);
    var m := MarkText(0, base, upper);
    NumeralDigits(n, base, upper);
    NumeralValue(n, base, upper);
    if base == 8 {
      assert (m + t)[1..] == t;
      ReadOne('0', t, base, 0);
      assert AllDigits(m + t, base);
      DigitsNoMark(m + t, base);
    } else {
      assert (m + t)[2..] == t;
    }
  }

  lemma StringAlone(d: Directive, s: string)
    requires WellFormed(d) && NoStar(d) && d.conversion == 's'
    ensures Render(Written(d), [Str(s)]) == Done(StringMeaning(d, s))
  {
    StringWritten(d, s, "", []);
    Alone(d, Str(s), StringMeaning(d, s));
  }

  lemma StringFieldIs(d: Directive, s: string, flag: string, k: nat)
    requires !LayoutOf(d).given && LayoutOf(d).left == (flag == "-") && LayoutOf(d).width == k && flag != "0"
    ensures StringMeaning(d, s) == Field(flag, k, "", s)
  {
    assert "" + s == s;
  }

  /** A string in a field, and cut to a precision. */
  lemma StringField(flag: string, k: nat, s: string)
    requires flag in ["", "-"] && k < 0x1_0000_0000
    ensures Render("%" + flag + WidthText(k) + "s", [Str(s)]) == Done(Field(flag, k, "", s))
  {
    var d := FieldDirective(flag, k, 's');
    StringAlone(d, s);
    StringFieldIs(d, s, flag, k);
    assert ['s'] == "s";
  }

  lemma StringCut(p: nat, s: string)
    requires p < 0x1_0000_0000
    ensures Render("%." + Numeral(p, 10, false) + "s", [Str(s)]) == Done(if p < |s| then s[..p] else s)
  {
    var d := PreciseDirective(p, 's');
    StringAlone(d, s);
    NoFill(if p < |s| then s[..p] else s);
    assert ['s'] == "s";
  }

  /** A percent sign is written as two. */
  lemma PercentShown()
    ensures Render("%%", []) == Done("%")
  {
    var d := PlainDirective("", '%');
    OtherWritten(d, "", []);
    assert Written(d) + "" == "%%" && Arguments(d) + [] == [];
    assert "%" + "" == "%";
  }
}
