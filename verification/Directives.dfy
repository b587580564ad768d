/** The directives of a printf format as they are written, and the text each stands
    for, highest digit first; apart from how the engine of lib/printf.c reads them
    and converts. */
module Directives {
  import opened Common
  import opened Format

  // ------------------------------------------------------------------- numerals

  /** v written in a base. */
  function Numeral(v: nat, base: int, upper: bool): (s: string)
    requires 2 <= base <= 16
    ensures |s| >= 1
  {
    if v < base then [Symbol(v, upper)]
    else
      QuotientSmaller(v, base);
      Numeral(v / base, base, upper) + [Symbol(v % base, upper)]
  }

  function Symbol(d: int, upper: bool): (c: char)
    requires 0 <= d < 16
  {
    if upper then "0123456789ABCDEF"[d] else "0123456789abcdef"[d]
  }

  lemma QuotientSmaller(v: nat, base: int)
    requires 2 <= base <= v
    ensures 0 < v / base < v
  {
    assert v == base * (v / base) + v % base;
    TwiceAtLeast(base, v / base);
  }

  lemma TwiceAtLeast(base: int, q: int)
    requires base >= 2
    ensures if q > 0 then base * q >= 2 * q else base * q <= 0
  {
  }

  /** The n lowest digits of a numeral. */
  function Lowest(s: string, n: nat): (t: string) {
    if |s| <= n then s else s[|s| - n..]
  }

  function Chars(c: char, n: int): (s: string) {
    seq(if n < 0 then 0 else n, _ => c)
  }

  /** The number in [-m/2, m/2) that is w modulo m. */
  function Within(w: int, m: int): (n: int)
    requires m > 0 && m % 2 == 0
  {
    (w + m / 2) % m - m / 2
  }

  // ---------------------------------------------------- directives as they are written

  /** A width or a precision: not there, in digits, or taken from an argument. */
  datatype Size = Absent | Number(n: nat) | Star(w: Word)
  datatype Precision = NoPrecision | Point(size: Size)

  datatype Directive =
    Directive(flags: string, width: Size, precision: Precision, length: string, conversion: char)

  /** A width in digits does not start with 0, which is a flag; and the conversion
      character is none that could belong to what is in front of it. */
  predicate WellFormed(d: Directive) {
    (forall c | c in d.flags :: c in "-+ #0") && (d.width.Number? ==> d.width.n >= 1) &&
    d.length in ["", "h", "hh", "l", "ll", "t", "j", "z"] && d.conversion !in "-+ #0123456789*.hltjz"
  }

  function SizeText(s: Size): string {
    match s
    case Absent => ""
    case Number(n) => Numeral(n, 10, false)
    case Star(_) => "*"
  }

  function SizeArgs(s: Size): seq<Arg> {
    if s.Star? then [Num(s.w)] else []
  }

  function PrecisionText(p: Precision): string {
    if p.Point? then "." + SizeText(p.size) else ""
  }

  function PrecisionArgs(p: Precision): seq<Arg> {
    if p.Point? then SizeArgs(p.size) else []
  }

  /** Behind the percent sign, */
  function Behind(d: Directive): string {
    d.flags + (SizeText(d.width) + (PrecisionText(d.precision) + (d.length + [d.conversion])))
  }

  function Written(d: Directive): string { "%" + Behind(d) }

  /** and the arguments it takes before the one that it converts. */
  function Arguments(d: Directive): seq<Arg> {
    SizeArgs(d.width) + PrecisionArgs(d.precision)
  }

  // -------------------------------------------------------------- what they stand for

  /** A number in digits is read in 32 bits, one from an argument as an int. */
  function SizeOf(s: Size): (n: int) {
    match s
    case Absent => 0
    case Number(n) => n % 0x1_0000_0000
    case Star(w) => Within(w, 0x1_0000_0000)
  }

  /** How a directive lays its text out. `places` is the precision, if it is given. */
  datatype Layout = Layout(left: bool, plus: bool, space: bool, zero: bool, alt: bool,
                           width: nat, given: bool, places: nat)

  function LayoutOf(d: Directive): Layout {
    var width := SizeOf(d.width);
    Layout('-' in d.flags || width < 0, '+' in d.flags, ' ' in d.flags, '0' in d.flags, '#' in d.flags,
           if width < 0 then -width else width,
           d.precision.Point?,
           if d.precision.Point? && SizeOf(d.precision.size) > 0 then SizeOf(d.precision.size) else 0)
  }

  /** A text between spaces. */
  function Fill(text: string, left: bool, width: nat): string {
    if left then text + Chars(' ', width - |text|) else Chars(' ', width - |text|) + text
  }

  function SignText(negative: bool, l: Layout): (sign: string) {
    if negative then "-" else if l.plus then "+" else if l.space then " " else ""
  }

  /** The room for zeros, of which a sign takes one place. */
  function RoomFor(sign: string, l: Layout): (room: int) {
    if l.zero && !l.left && l.width > 0 && sign != "" then l.width - 1 else l.width
  }

  /** Digits with zeros in front up to the precision or the room, but to no more than
      32 characters. */
  function WithZeros(digits: string, room: int, l: Layout): (number: string) {
    var places := if l.left then 0 else Min(32, Max(l.places, if l.zero then room else 0));
    Chars('0', places - |digits|) + digits
  }

  /** The mark of the alternative form in front of n characters; at 32 it is cut off. */
  function MarkText(n: nat, base: int, upper: bool): (mark: string) {
    var letter := if n >= 32 then "" else if base == 16 then (if upper then "X" else "x")
                  else if base == 2 then "b" else "";
    (if n + |letter| >= 32 then "" else "0") + letter
  }

  /** A number with its mark in front. Where the number is just as long as its precision
      or its room, the mark takes the place of its highest digits. */
  function Marked(number: string, base: int, upper: bool, room: int, l: Layout): string {
    var over := if l.given || number == "" || (|number| != l.places && |number| != room) then 0
                else if |number| > 1 && base == 16 then 2 else 1;
    MarkText(|number| - over, base, upper) + number[over..]
  }

  /** A sign, where the 32 characters leave room for it, and spaces. */
  function Finished(number: string, sign: string, l: Layout): string {
    var text := if |number| < 32 then sign + number else number;
    if l.zero && !l.left then text else Fill(text, l.left, l.width)
  }

  /** The text of a number of magnitude v: of its digits at most the 32 lowest, zeros,
      mark, sign and spaces. */
  function NumberText(negative: bool, v: nat, base: int, upper: bool, l: Layout): string
    requires 2 <= base <= 16
  {
    var digits := if v == 0 && l.given then "" else Lowest(Numeral(v, base, upper), 32);
    var sign := SignText(negative, l);
    var number := WithZeros(digits, RoomFor(sign, l), l);
    Finished(if l.alt && v != 0 then Marked(number, base, upper, RoomFor(sign, l), l) else number, sign, l)
  }

  /** The values that a length stands for, apart modulo this. */
  function Modulus(length: string): (m: int)
    ensures m > 0 && m % 2 == 0
  {
    if length == "" then 0x1_0000_0000 else if length == "h" then 0x1_0000 else if length == "hh" then 0x100
    else 0x1_0000_0000_0000_0000
  }

  function Radix(c: char): (base: int)
    ensures 2 <= base <= 16
  {
    if c == 'd' || c == 'i' || c == 'u' then 10 else if c == 'o' then 8 else if c == 'b' then 2 else 16
  }

  /** What an integer directive makes of the word w. Plain chars are unsigned on this
      machine. */
  function ValueOf(d: Directive, w: Word): (n: int) {
    if d.conversion in "di" && d.length != "hh" then Within(w, Modulus(d.length)) else w % Modulus(d.length)
  }

  /** Only signed conversions show a sign, only those in a base other than 10 a mark, and
      with a precision there are no zeros up to the width. */
  function IntegerLayout(c: char, l: Layout): (r: Layout) {
    var signed := c in "di";
    l.(plus := l.plus && signed, space := l.space && signed, zero := l.zero && !l.given, alt := l.alt && Radix(c) != 10)
  }

  function Amount(n: int): (v: nat) {
    if n < 0 then -n else n
  }

  function IntegerText(d: Directive, w: Word): string {
    NumberText(ValueOf(d, w) < 0, Amount(ValueOf(d, w)), Radix(d.conversion), d.conversion == 'X',
               IntegerLayout(d.conversion, LayoutOf(d)))
  }

  /** A pointer is 16 hexadecimal digits. */
  function PointerMeaning(d: Directive, w: Word): string {
    NumberText(false, w, 16, true, LayoutOf(d).(zero := true, width := 16))
  }

  function StringMeaning(d: Directive, s: string): string {
    var l := LayoutOf(d);
    Fill(if l.given && l.places < |s| then s[..l.places] else s, l.left, l.width)
  }

  function CharMeaning(d: Directive, w: Word): string {
    Fill([(w % 0x100) as char], LayoutOf(d).left, LayoutOf(d).width)
  }
}
