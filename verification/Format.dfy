/** What the format engine of lib/printf.c writes, as a function of the format and
    its arguments (integers, characters, strings and pointers). */
module Format {
  import opened Common

  /** Size of the buffer that numbers are converted in. */
  const DIGITS := 32
  const UINT := 0x1_0000_0000
  const ULONG := 0x1_0000_0000_0000_0000

  datatype Flags = Flags(zeropad: bool, left: bool, plus: bool, space: bool, hash: bool, upper: bool,
                         byte: bool, half: bool, long: bool, precision: bool)

  const NONE := Flags(false, false, false, false, false, false, false, false, false, false)

  /** What an argument slot holds: a 64-bit word, or a pointer to a string. */
  type Word = w: int | 0 <= w < ULONG
  datatype Arg = Num(w: Word) | Str(s: string)

  /** The whole output; or the reading runs past the end of the format; or the
      arguments do not fit the format, or it asks for a floating-point number. */
  datatype Outcome = Done(text: string) | Overrun | Stuck

  function Repeat(c: char, n: int): (s: string)
    ensures |s| == Max(n, 0) && forall i | 0 <= i < |s| :: s[i] == c
    decreases Max(n, 0)
  {
    if n <= 0 then "" else Repeat(c, n - 1) + [c]
  }

  function Reverse(s: string): (r: string)
    ensures |r| == |s|
  {
    if s == "" then "" else [s[|s| - 1]] + Reverse(s[..|s| - 1])
  }

  // ------------------------------------------------------------------ integers

  function AsInt(w: Word): int { var v := w % UINT; if v >= 0x8000_0000 then v - UINT else v }
  function AsShort(w: Word): int { var v := w % 0x1_0000; if v >= 0x8000 then v - 0x1_0000 else v }
  function AsLong(w: Word): int { if w >= 0x8000_0000_0000_0000 then w - ULONG else w }

  /** The argument of %d and %i. A plain char is unsigned on this machine. */
  function SignedArg(fl: Flags, w: Word): int {
    if fl.long then AsLong(w) else if fl.byte then w % 256 else if fl.half then AsShort(w) else AsInt(w)
  }

  function UnsignedArg(fl: Flags, w: Word): (v: int)
    ensures 0 <= v < ULONG
  {
    if fl.long then w else if fl.byte then w % 256 else if fl.half then w % 0x1_0000 else w % UINT
  }

  function DigitChar(d: int, upper: bool): char
    requires 0 <= d < 16
  {
    if d < 10 then ('0' as int + d) as char else ((if upper then 'A' else 'a') as int + d - 10) as char
  }

  /** The digits of v, lowest first, as far as there is room. */
  function Digits(v: nat, base: int, upper: bool, room: nat): (s: string)
    requires 2 <= base <= 16 && room >= 1
    ensures 1 <= |s| <= room
    decreases room
  {
    var first := [DigitChar(v % base, upper)];
    if v / base != 0 && room > 1 then first + Digits(v / base, base, upper, room - 1) else first
  }

  function ZeroPad(buf: string, n: int): string {
    buf + Repeat('0', Min(n, DIGITS) - |buf|)
  }

  /** The mark of an alternative form, over zeros that were put there for it. */
  function Hashed(buf: string, base: int, prec: int, width: int, fl: Flags): string {
    var t := if !fl.precision && buf != "" && (|buf| == prec || |buf| == width)
             then (if |buf| > 1 && base == 16 then buf[..|buf| - 2] else buf[..|buf| - 1]) else buf;
    var u := if base == 16 && |t| < DIGITS then t + [if fl.upper then 'X' else 'x']
             else if base == 2 && |t| < DIGITS then t + ['b'] else t;
    if |u| < DIGITS then u + ['0'] else u
  }

  function Signed(buf: string, negative: bool, fl: Flags): string {
    if |buf| >= DIGITS then buf
    else if negative then buf + ['-'] else if fl.plus then buf + ['+'] else if fl.space then buf + [' '] else buf
  }

  /** `_out_rev`. */
  function Padded(buf: string, width: int, fl: Flags): string {
    (if !fl.left && !fl.zeropad then Repeat(' ', width - |buf|) else "") + Reverse(buf) +
    (if fl.left then Repeat(' ', width - |buf|) else "")
  }

  /** The width that is left for padding with zeros, when a sign needs room. */
  function SignRoom(width: int, negative: bool, fl: Flags): int {
    if !fl.left && width > 0 && fl.zeropad && (negative || fl.plus || fl.space) then width - 1 else width
  }

  function Zeroed(digits: string, prec: int, width: int, fl: Flags): string {
    if fl.left then digits
    else if fl.zeropad then ZeroPad(ZeroPad(digits, prec), width) else ZeroPad(digits, prec)
  }

  /** `_ntoa_format`. */
  function NtoaFormat(digits: string, negative: bool, base: int, prec: int, width: int, fl: Flags): string {
    var w := SignRoom(width, negative, fl);
    var b := Zeroed(digits, prec, w, fl);
    Padded(Signed(if fl.hash then Hashed(b, base, prec, w, fl) else b, negative, fl), w, fl)
  }

  /** `_ntoa_long`, and `_ntoa_long_long`, which is the same for 64-bit longs. */
  function Ntoa(value: nat, negative: bool, base: int, prec: int, width: int, fl: Flags): string
    requires 2 <= base <= 16
  {
    NtoaFormat(if !fl.precision || value != 0 then Digits(value, base, fl.upper, DIGITS) else "",
               negative, base, prec, width, if value == 0 then fl.(hash := false) else fl)
  }

  // ---------------------------------------------------------------- directives

  function Base(c: char): (b: int)
    ensures b in {2, 8, 10, 16}
  {
    if c == 'x' || c == 'X' then 16 else if c == 'o' then 8 else if c == 'b' then 2 else 10
  }

  predicate IsSigned(c: char) { c == 'd' || c == 'i' }

  predicate IsInteger(c: char) { c in "diuxXob" }

  /** No mark in base 10, no sign but for signed conversions, and no zeros up to the
      width when there is a precision. */
  function IntFlags(fl: Flags, c: char): Flags {
    fl.(hash := fl.hash && Base(c) != 10, upper := fl.upper || c == 'X', plus := fl.plus && IsSigned(c),
        space := fl.space && IsSigned(c), zeropad := fl.zeropad && !fl.precision)
  }

  function Abs(v: int): nat { if v < 0 then -v else v }

  /** The number that an integer directive shows the digits of, */
  function Magnitude(c: char, w: Word, fl: Flags): nat {
    if IsSigned(c) then Abs(SignedArg(fl, w)) else UnsignedArg(fl, w)
  }

  predicate IsNegative(c: char, w: Word, fl: Flags) {
    IsSigned(c) && SignedArg(fl, w) < 0
  }

  /** and how. */
  function IntText(c: char, w: Word, prec: int, width: int, fl: Flags): string {
    Ntoa(Magnitude(c, w, fl), IsNegative(c, w, fl), Base(c), prec, width, IntFlags(fl, c))
  }

  /** Text between spaces, as %c and %s lay it out. */
  function Spaced(text: string, width: int, left: bool): string {
    if left then text + Repeat(' ', width - |text|) else Repeat(' ', width - |text|) + text
  }

  function Shown(s: string, prec: nat, fl: Flags): string {
    if fl.precision then s[..Min(|s|, prec)] else s
  }

  function PointerText(w: Word, prec: int, fl: Flags): string {
    Ntoa(w, false, 16, prec, 16, fl.(zeropad := true, upper := true))
  }

  datatype Converted = Text(text: string, args: seq<Arg>) | NoText

  /** The conversion that character c asks for. */
  function Convert(c: char, fl: Flags, width: nat, prec: nat, args: seq<Arg>): Converted {
    if IsInteger(c) then
      if args != [] && args[0].Num? then Text(IntText(c, args[0].w, prec, width, fl), args[1..]) else NoText
    else if c in "fFeEgG" then NoText
    else if c == 'c' then
      if args != [] && args[0].Num? then Text(Spaced([(args[0].w % 256) as char], width, fl.left), args[1..])
      else NoText
    else if c == 's' then
      if args != [] && args[0].Str? then Text(Spaced(Shown(args[0].s, prec, fl), width, fl.left), args[1..]) else NoText
    else if c == 'p' then
      if args != [] && args[0].Num? then Text(PointerText(args[0].w, prec, fl), args[1..]) else NoText
    else Text([c], args)
  }

  // ------------------------------------------------------------------- parsing

  predicate IsDigit(c: char) { '0' <= c <= '9' }

  /** The character at the format pointer. */
  function Peek(f: string): char { if f == "" then NUL else f[0] }

  function FlagOf(fl: Flags, c: char): Flags {
    match c
    case '0' => fl.(zeropad := true)
    case '-' => fl.(left := true)
    case '+' => fl.(plus := true)
    case ' ' => fl.(space := true)
    case '#' => fl.(hash := true)
    case _ => fl
  }

  function AfterFlags(f: string): (r: string)
    ensures |r| <= |f| && Peek(r) !in "0-+ #"
  {
    if Peek(f) in "0-+ #" then AfterFlags(f[1..]) else f
  }

  function FlagsOf(f: string, fl: Flags): (r: Flags)
    decreases |f|
  {
    if Peek(f) in "0-+ #" then FlagsOf(f[1..], FlagOf(fl, f[0])) else fl
  }

  function AfterDigits(f: string): (r: string)
    ensures |r| <= |f| && !IsDigit(Peek(r))
  {
    if IsDigit(Peek(f)) then AfterDigits(f[1..]) else f
  }

  /** `_atoi`, in 32-bit arithmetic. */
  function NumberOf(f: string, v: nat): (r: nat)
    decreases |f|
  {
    if IsDigit(Peek(f)) then NumberOf(f[1..], (v * 10 + (f[0] as int - '0' as int)) % UINT) else v
  }

  /** A field that is given in the format, by an argument, or not at all. */
  datatype Field = Field(value: nat, negative: bool, rest: string, args: seq<Arg>) | NoField

  function FieldOf(f: string, args: seq<Arg>): (r: Field)
    ensures r.Field? ==> r.rest == AfterField(f)
  {
    if IsDigit(Peek(f)) then Field(NumberOf(f, 0), false, AfterDigits(f), args)
    else if Peek(f) == '*' then
      if args != [] && args[0].Num? then Field(Abs(AsInt(args[0].w)), AsInt(args[0].w) < 0, f[1..], args[1..])
      else NoField
    else Field(0, false, f, args)
  }

  function AfterField(f: string): (r: string)
    ensures |r| <= |f|
  {
    if IsDigit(Peek(f)) then AfterDigits(f) else if Peek(f) == '*' then f[1..] else f
  }

  function AfterLength(f: string): (r: string)
    ensures |r| <= |f|
  {
    var c := Peek(f);
    if c == 'l' || c == 'h' then (if Peek(f[1..]) == c then f[2..] else f[1..])
    else if c == 't' || c == 'j' || c == 'z' then f[1..] else f
  }

  /** All of l, ll, t, j and z make the argument a 64-bit long. */
  function LengthOf(f: string, fl: Flags): (r: Flags)
    ensures r.precision == fl.precision
  {
    var c := Peek(f);
    if c == 'h' then (if Peek(f[1..]) == 'h' then fl.(half := true, byte := true) else fl.(half := true))
    else if c == 'l' || c == 't' || c == 'j' || c == 'z' then fl.(long := true) else fl
  }

  /** A directive up to its conversion character. */
  datatype Spec = Spec(flags: Flags, width: nat, prec: nat, rest: string, args: seq<Arg>) | NoSpec

  /** The precision field, and what comes after. */
  function SpecAfterWidth(f: string, fl: Flags, width: nat, args: seq<Arg>): (r: Spec)
    ensures r.Spec? ==> r.rest == AfterLength(AfterPrecision(f)) && (!r.flags.precision ==> r.prec == 0)
  {
    if Peek(f) == '.' then
      match FieldOf(f[1..], args)
      case NoField => NoSpec
      case Field(value, negative, rest, left) =>
        Spec(LengthOf(rest, fl.(precision := true)), width, if negative then 0 else value, AfterLength(rest), left)
    else Spec(LengthOf(f, fl), width, 0, AfterLength(f), args)
  }

  function AfterPrecision(f: string): (r: string)
    ensures |r| <= |f|
  {
    if Peek(f) == '.' then AfterField(f[1..]) else f
  }

  function SpecOf(f: string, args: seq<Arg>): (r: Spec)
    ensures r.Spec? ==> r.rest == AfterSpec(f) && (!r.flags.precision ==> r.prec == 0)
  {
    match FieldOf(AfterFlags(f), args)
    case NoField => NoSpec
    case Field(width, negative, rest, left) =>
      var fl := FlagsOf(f, NONE);
      SpecAfterWidth(rest, if negative then fl.(left := true) else fl, width, left)
  }

  /** Where the conversion character of a directive is. */
  function AfterSpec(f: string): (r: string)
    ensures |r| <= |f|
  {
    AfterLength(AfterPrecision(AfterField(AfterFlags(f))))
  }

  function Prepend(s: string, o: Outcome): Outcome {
    if o.Done? then Done(s + o.text) else o
  }

  /** The output of `_vsnprintf`, whatever buffer it goes to. */
  function Render(f: string, args: seq<Arg>): (o: Outcome)
    decreases |f|
  {
    if f == "" then Done("")
    else if f[0] != '%' then Prepend([f[0]], Render(f[1..], args))
    else
      match SpecOf(f[1..], args)
      case NoSpec => Stuck
      case Spec(fl, width, prec, rest, left) =>
        if rest == "" then Overrun
        else
          match Convert(rest[0], fl, width, prec, left)
          case NoText => Stuck
          case Text(text, more) => Prepend(text, Render(rest[1..], more))
  }
}
