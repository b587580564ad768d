/** The format engine of lib/printf.c writing into a buffer of limited size. */
module Printf {
  import opened Common
  import opened Format

  /** The output so far is o; the buffer holds as much of it as there is room for,
      and is otherwise as it was. */
  predicate Emitted(b: seq<char>, b0: seq<char>, o: string, idx: int, maxlen: nat) {
    |b| == |b0| && maxlen <= |b| && idx == |o| &&
    forall k | 0 <= k < |b| :: b[k] == if k < maxlen && k < |o| then o[k] else b0[k]
  }

  /** `_out_buffer`. */
  method OutBuffer(c: char, buffer: array<char>, idx: int, maxlen: nat)
    requires maxlen <= buffer.Length && idx >= 0
    modifies buffer
    ensures buffer[..] == if idx < maxlen then old(buffer[..])[idx := c] else old(buffer[..])
  {
    if idx < maxlen {
      buffer[idx] := c;
    }
  }

  /** `out(c, buffer, idx++, maxlen)`. */
  method Put(c: char, buffer: array<char>, idx: int, maxlen: nat, ghost b0: seq<char>, ghost o: string)
    returns (next: int)
    requires Emitted(buffer[..], b0, o, idx, maxlen)
    modifies buffer
    ensures Emitted(buffer[..], b0, o + [c], next, maxlen)
  {
    OutBuffer(c, buffer, idx, maxlen);
    next := idx + 1;
  }

  /** The padding loops: n spaces, or none. */
  method PutSpaces(n: int, buffer: array<char>, idx: int, maxlen: nat, ghost b0: seq<char>, ghost o: string)
    returns (next: int)
    requires Emitted(buffer[..], b0, o, idx, maxlen)
    modifies buffer
    ensures Emitted(buffer[..], b0, o + Repeat(' ', n), next, maxlen)
  {
    next := idx;
    var i := 0;
    assert o + "" == o;
    while i < n
      invariant 0 <= i <= Max(n, 0)
      invariant Emitted(buffer[..], b0, o + Repeat(' ', i), next, maxlen)
    {
      next := Put(' ', buffer, next, maxlen, b0, o + Repeat(' ', i));
      Joined(o, Repeat(' ', i), [' ']);
      i := i + 1;
    }
  }

  lemma Joined(a: string, b: string, c: string)
    ensures (a + b) + c == a + (b + c)
  {
  }

  /** `_out_rev`: the buffer backwards, between spaces. */
  method OutRev(buffer: array<char>, idx: int, maxlen: nat, buf: array<char>, length: nat, width: nat, fl: Flags,
                ghost b0: seq<char>, ghost o: string) returns (next: int)
    requires Emitted(buffer[..], b0, o, idx, maxlen) && buf != buffer && length <= buf.Length
    modifies buffer
    ensures Emitted(buffer[..], b0, o + Padded(buf[..length], width, fl), next, maxlen)
  {
    ghost var text := buf[..length];
    ghost var before := if !fl.left && !fl.zeropad then Repeat(' ', width - length) else "";
    next := idx;
    if !fl.left && !fl.zeropad {
      next := PutSpaces(width - length, buffer, next, maxlen, b0, o);
    } else {
      assert o + "" == o;
    }
    next := PutReversed(buffer, next, maxlen, buf, length, b0, o + before);
    ghost var shown := before + Reverse(text);
    Joined(o, before, Reverse(text));
    if fl.left {
      next := PutSpaces(width - length, buffer, next, maxlen, b0, o + shown);
      Joined(o, shown, Repeat(' ', width - length));
    } else {
      assert shown + "" == shown;
    }
  }

  method PutReversed(buffer: array<char>, idx: int, maxlen: nat, buf: array<char>, length: nat, ghost b0: seq<char>,
                     ghost o: string)
    returns (next: int)
    requires Emitted(buffer[..], b0, o, idx, maxlen) && buf != buffer && length <= buf.Length
    modifies buffer
    ensures Emitted(buffer[..], b0, o + Reverse(buf[..length]), next, maxlen)
  {
    next := idx;
    var n := length;
    ghost var done := "";
    assert o + "" == o && "" + Reverse(buf[..length]) == Reverse(buf[..length]);
    while n > 0
      invariant 0 <= n <= length
      invariant Emitted(buffer[..], b0, o + done, next, maxlen)
      invariant done + Reverse(buf[..n]) == Reverse(buf[..length])
    {
      n := n - 1;
      next := Put(buf[n], buffer, next, maxlen, b0, o + done);
      Joined(o, done, [buf[n]]);
      assert buf[..n + 1][..n] == buf[..n];
      Joined(done, [buf[n]], Reverse(buf[..n]));
      done := done + [buf[n]];
    }
    assert done + "" == done;
  }

  /** Zeros up to n characters, as far as the buffer goes. */
  method PadZeros(buf: array<char>, length: nat, n: nat) returns (len: nat)
    requires buf.Length == DIGITS && length <= DIGITS
    modifies buf
    ensures len <= DIGITS && buf[..len] == ZeroPad(old(buf[..length]), n)
  {
    len := length;
    ghost var digits := buf[..length];
    assert digits + "" == digits;
    while len < n && len < DIGITS
      invariant length <= len <= DIGITS && (len > length ==> len <= n)
      invariant buf[..len] == digits + Repeat('0', len - length)
    {
      ghost var so := buf[..len];
      buf[len] := '0';
      assert buf[..len + 1] == so + ['0'];
      Joined(digits, Repeat('0', len - length), ['0']);
      len := len + 1;
    }
  }

  /** `buf[len++] = c`, where there is room. */
  method Push(buf: array<char>, length: nat, c: char) returns (len: nat)
    requires buf.Length == DIGITS && length < DIGITS
    modifies buf
    ensures len == length + 1 && buf[..len] == old(buf[..length]) + [c]
  {
    buf[length] := c;
    len := length + 1;
  }

  /** The handling of '#'. */
  method Hash(buf: array<char>, length: nat, base: int, prec: nat, width: nat, fl: Flags) returns (len: nat)
    requires buf.Length == DIGITS && length <= DIGITS
    modifies buf
    ensures len <= DIGITS && buf[..len] == Hashed(old(buf[..length]), base, prec, width, fl)
  {
    len := length;
    ghost var digits := buf[..length];
    if !fl.precision && len > 0 && (len == prec || len == width) {
      len := len - 1;
      if len > 0 && base == 16 {
        len := len - 1;
      }
    }
    assert buf[..len] == digits[..len];
    assert digits[..length] == digits;
    if base == 16 && !fl.upper && len < DIGITS {
      len := Push(buf, len, 'x');
    } else if base == 16 && fl.upper && len < DIGITS {
      len := Push(buf, len, 'X');
    } else if base == 2 && len < DIGITS {
      len := Push(buf, len, 'b');
    }
    if len < DIGITS {
      len := Push(buf, len, '0');
    }
  }

  method Sign(buf: array<char>, length: nat, negative: bool, fl: Flags) returns (len: nat)
    requires buf.Length == DIGITS && length <= DIGITS
    modifies buf
    ensures len <= DIGITS && buf[..len] == Signed(old(buf[..length]), negative, fl)
  {
    len := length;
    if len < DIGITS {
      if negative {
        len := Push(buf, len, '-');
      } else if fl.plus {
        len := Push(buf, len, '+');
      } else if fl.space {
        len := Push(buf, len, ' ');
      }
    }
  }

  /** `_ntoa_format`. */
  method NtoaFormatTo(buffer: array<char>, idx: int, maxlen: nat, buf: array<char>, length: nat, negative: bool,
                      base: int,
                      prec: nat, width: nat, fl: Flags, ghost b0: seq<char>, ghost o: string) returns (next: int)
    requires Emitted(buffer[..], b0, o, idx, maxlen) && buf != buffer && buf.Length == DIGITS && length <= DIGITS
    modifies buffer, buf
    ensures Emitted(buffer[..], b0, o + NtoaFormat(old(buf[..length]), negative, base, prec, width, fl), next, maxlen)
  {
    var w := width;
    var len := length;
    if !fl.left {
      if w != 0 && fl.zeropad && (negative || fl.plus || fl.space) {
        w := w - 1;
      }
      len := PadZeros(buf, len, prec);
      if fl.zeropad {
        len := PadZeros(buf, len, w);
      }
    }
    if fl.hash {
      len := Hash(buf, len, base, prec, w, fl);
    }
    len := Sign(buf, len, negative, fl);
    next := OutRev(buffer, idx, maxlen, buf, len, w, fl, b0, o);
  }

  lemma DigitsMore(v: nat, base: int, upper: bool, room: nat)
    requires 2 <= base <= 16 && room >= 1
    ensures v / base >= 0 && 0 <= v % base < base
    ensures Digits(v, base, upper, room) ==
              [DigitChar(v % base, upper)] +
              (if v / base != 0 && room > 1 then Digits(v / base, base, upper, room - 1) else "")
  {
    if !(v / base != 0 && room > 1) {
      assert [DigitChar(v % base, upper)] + "" == [DigitChar(v % base, upper)];
    }
  }

  /** The lowest digit of a number, and what is left of it. */
  method TakeDigit(number: nat, base: int, upper: bool, ghost room: nat) returns (c: char, value: nat)
    requires 2 <= base <= 16 && room >= 1
    ensures Digits(number, base, upper, room) ==
            [c] + (if value != 0 && room > 1 then Digits(value, base, upper, room - 1) else "")
  {
    DigitsMore(number, base, upper, room);
    var digit := number % base;
    c := if digit < 10 then ('0' as int + digit) as char
      else ((if upper then 'A' else 'a') as int + digit - 10) as char;
    value := number / base;
  }

  /** The loop that takes a number apart, from the lowest digit on. */
  method DigitLoop(buf: array<char>, number: nat, base: int, upper: bool) returns (len: nat)
    requires buf.Length == DIGITS && 2 <= base <= 16
    modifies buf
    ensures len <= DIGITS && buf[..len] == Digits(number, base, upper, DIGITS)
  {
    ghost var all := Digits(number, base, upper, DIGITS);
    var value := number;
    len := 0;
    ghost var more := all;
    while true
      invariant 0 <= len < DIGITS && more == Digits(value, base, upper, DIGITS - len) && buf[..len] + more == all
      decreases DIGITS - len
    {
      var c;
      ghost var so, room := buf[..len], DIGITS - len;
      c, value := TakeDigit(value, base, upper, room);
      buf[len] := c;
      assert buf[..len + 1] == so + [c];
      len := len + 1;
      ghost var rest := if value != 0 && room > 1 then Digits(value, base, upper, room - 1) else "";
      Joined(so, [c], rest);
      more := rest;
      if value == 0 || len >= DIGITS {
        assert buf[..len] + "" == buf[..len];
        return;
      }
    }
  }

  /** `_ntoa_long`, with its 32-byte buffer. */
  method NtoaTo(buffer: array<char>, idx: int, maxlen: nat, value: nat, negative: bool, base: int, prec: nat,
                width: nat, flags: Flags,
                ghost b0: seq<char>, ghost o: string) returns (next: int)
    requires Emitted(buffer[..], b0, o, idx, maxlen) && 2 <= base <= 16
    modifies buffer
    ensures Emitted(buffer[..], b0, o + Ntoa(value, negative, base, prec, width, flags), next, maxlen)
  {
    var buf := new char[DIGITS];
    var len := 0;
    var fl := flags;
    if value == 0 {
      fl := fl.(hash := false);
    }
    assert buf[..0] == "";
    if !fl.precision || value != 0 {
      len := DigitLoop(buf, value, base, fl.upper);
    }
    next := NtoaFormatTo(buffer, idx, maxlen, buf, len, negative, base, prec, width, fl, b0, o);
  }

  /** The integer directives. */
  method PutInteger(c: char, w: Word, buffer: array<char>, idx: int, maxlen: nat, prec: nat, width: nat, flags: Flags,
                    ghost b0: seq<char>, ghost o: string) returns (next: int)
    requires Emitted(buffer[..], b0, o, idx, maxlen) && IsInteger(c)
    modifies buffer
    ensures Emitted(buffer[..], b0, o + IntText(c, w, prec, width, flags), next, maxlen)
  {
    var base := BaseFor(c);
    var fl := FlagsFor(c, base, flags);
    var magnitude, negative := TakeArgument(c, w, fl);
    SameArgument(flags, c, w);
    next := NtoaTo(buffer, idx, maxlen, magnitude, negative, base, prec, width, fl, b0, o);
  }

  /** The magnitude and sign that are converted. */
  method TakeArgument(c: char, w: Word, fl: Flags) returns (magnitude: nat, negative: bool)
    ensures magnitude == Magnitude(c, w, fl) && negative == IsNegative(c, w, fl)
  {
    if c == 'i' || c == 'd' {
      var value := SignedArg(fl, w);
      magnitude, negative := if value > 0 then value else 0 - value, value < 0;
    } else {
      magnitude, negative := UnsignedArg(fl, w), false;
    }
  }

  lemma SameArgument(flags: Flags, c: char, w: Word)
    ensures Magnitude(c, w, IntFlags(flags, c)) == Magnitude(c, w, flags)
    ensures IsNegative(c, w, IntFlags(flags, c)) == IsNegative(c, w, flags)
  {
  }

  method BaseFor(c: char) returns (base: int)
    ensures base == Base(c)
  {
    if c == 'x' || c == 'X' {
      base := 16;
    } else if c == 'o' {
      base := 8;
    } else if c == 'b' {
      base := 2;
    } else {
      base := 10;
    }
  }

  /** What the conversion character changes in the flags. */
  method FlagsFor(c: char, base: int, flags: Flags) returns (fl: Flags)
    requires base == Base(c)
    ensures fl == IntFlags(flags, c)
  {
    fl := MarkFlags(c, base, flags);
    if c != 'i' && c != 'd' {
      fl := fl.(plus := false, space := false);
    }
    if fl.precision {
      fl := fl.(zeropad := false);
    }
  }

  method MarkFlags(c: char, base: int, flags: Flags) returns (fl: Flags)
    ensures fl == flags.(hash := flags.hash && base != 10, upper := flags.upper || c == 'X')
  {
    fl := flags;
    if base == 10 {
      fl := fl.(hash := false);
    }
    if c == 'X' {
      fl := fl.(upper := true);
    }
  }

  /** The string directive: padding, the characters one by one, padding. */
  method PutString(s: string, buffer: array<char>, idx: int, maxlen: nat, prec: nat, width: nat, fl: Flags,
                   ghost b0: seq<char>, ghost o: string) returns (next: int)
    requires Emitted(buffer[..], b0, o, idx, maxlen) && (!fl.precision ==> prec == 0)
    modifies buffer
    ensures Emitted(buffer[..], b0, o + Spaced(Shown(s, prec, fl), width, fl.left), next, maxlen)
  {
    ghost var shown := Shown(s, prec, fl);
    var l := Strnlen(s, if prec != 0 then prec else |s|);
    if fl.precision {
      l := if l < prec then l else prec;
    }
    next := idx;
    ghost var before := if fl.left then "" else Repeat(' ', width - |shown|);
    if !fl.left {
      next := PutSpaces(width - l, buffer, next, maxlen, b0, o);
    } else {
      assert o + "" == o;
    }
    next := PutChars(s, buffer, next, maxlen, prec, fl, b0, o + before);
    Joined(o, before, shown);
    assert "" + shown == shown;
    if fl.left {
      next := PutSpaces(width - l, buffer, next, maxlen, b0, o + shown);
      Joined(o, shown, Repeat(' ', width - |shown|));
    }
  }

  /** `_strnlen_s`. */
  method Strnlen(s: string, maxsize: nat) returns (n: nat)
    ensures n == Min(|s|, maxsize)
  {
    n := 0;
    var left := maxsize;
    while n < |s| && left > 0
      invariant n + left == maxsize && n <= |s|
    {
      left := left - 1;
      n := n + 1;
    }
  }

  method PutChars(s: string, buffer: array<char>, idx: int, maxlen: nat, prec: nat, fl: Flags, ghost b0: seq<char>,
                  ghost o: string)
    returns (next: int)
    requires Emitted(buffer[..], b0, o, idx, maxlen)
    modifies buffer
    ensures Emitted(buffer[..], b0, o + Shown(s, prec, fl), next, maxlen)
  {
    next := idx;
    var p, precision := 0, prec;
    assert o + s[..0] == o;
    while p < |s| && (!fl.precision || precision > 0)
      invariant 0 <= p <= |s| && (fl.precision ==> p + precision == prec)
      invariant Emitted(buffer[..], b0, o + s[..p], next, maxlen)
      decreases |s| - p
    {
      next := Put(s[p], buffer, next, maxlen, b0, o + s[..p]);
      assert s[..p + 1] == s[..p] + [s[p]];
      Joined(o, s[..p], [s[p]]);
      if fl.precision {
        precision := precision - 1;
      }
      p := p + 1;
    }
    assert s[..p] == Shown(s, prec, fl);
  }

  /** The character directive. */
  method PutChar(c: char, buffer: array<char>, idx: int, maxlen: nat, width: nat, left: bool, ghost b0: seq<char>,
                 ghost o: string)
    returns (next: int)
    requires Emitted(buffer[..], b0, o, idx, maxlen)
    modifies buffer
    ensures Emitted(buffer[..], b0, o + Spaced([c], width, left), next, maxlen)
  {
    next := idx;
    if !left {
      next := PutSpaces(width - 1, buffer, next, maxlen, b0, o);
      next := Put(c, buffer, next, maxlen, b0, o + Repeat(' ', width - 1));
      Joined(o, Repeat(' ', width - 1), [c]);
    } else {
      next := Put(c, buffer, next, maxlen, b0, o);
      next := PutSpaces(width - 1, buffer, next, maxlen, b0, o + [c]);
      Joined(o, [c], Repeat(' ', width - 1));
    }
  }

  // ------------------------------------------------------------------- parsing

  /** `_atoi`. */
  method Atoi(format: string) returns (i: nat, f: string)
    ensures i == NumberOf(format, 0) && f == AfterDigits(format)
  {
    i, f := 0, format;
    while IsDigit(Peek(f))
      invariant NumberOf(f, i) == NumberOf(format, 0) && AfterDigits(f) == AfterDigits(format)
      decreases |f|
    {
      i := (i * 10 + (f[0] as int - '0' as int)) % UINT;
      f := f[1..];
    }
  }

  /** The flag loop. */
  method ParseFlags(format: string) returns (fl: Flags, f: string)
    ensures fl == FlagsOf(format, NONE) && f == AfterFlags(format)
  {
    fl, f := NONE, format;
    while true
      invariant FlagsOf(f, fl) == FlagsOf(format, NONE) && AfterFlags(f) == AfterFlags(format)
      decreases |f|
    {
      match Peek(f) {
        case '0' => fl := fl.(zeropad := true);
        case '-' => fl := fl.(left := true);
        case '+' => fl := fl.(plus := true);
        case ' ' => fl := fl.(space := true);
        case '#' => fl := fl.(hash := true);
        case _ => return;
      }
      f := f[1..];
    }
  }

  /** A width or precision field. */
  method ParseField(format: string, va: seq<Arg>) returns (value: nat, negative: bool, f: string, args: seq<Arg>)
    requires FieldOf(format, va).Field?
    ensures FieldOf(format, va) == Field(value, negative, f, args)
  {
    value, negative, f, args := 0, false, format, va;
    if IsDigit(Peek(f)) {
      value, f := Atoi(f);
    } else if Peek(f) == '*' {
      var w := AsInt(args[0].w);
      negative := w < 0;
      value := if w < 0 then -w else w;
      args := args[1..];
      f := f[1..];
    }
  }

  method ParseLength(format: string, flags: Flags) returns (fl: Flags, f: string)
    ensures fl == LengthOf(format, flags) && f == AfterLength(format)
  {
    fl, f := flags, format;
    match Peek(f)
    case 'l' =>
      fl := fl.(long := true);
      f := f[1..];
      if Peek(f) == 'l' {
        f := f[1..];
      }
    case 'h' =>
      fl := fl.(half := true);
      f := f[1..];
      if Peek(f) == 'h' {
        fl := fl.(byte := true);
        f := f[1..];
      }
    case 't' => fl, f := fl.(long := true), f[1..];
    case 'j' => fl, f := fl.(long := true), f[1..];
    case 'z' => fl, f := fl.(long := true), f[1..];
    case _ =>
  }

  /** A directive up to its conversion character. */
  method ParseSpec(format: string, va: seq<Arg>)
    returns (fl: Flags, width: nat, precision: nat, f: string, args: seq<Arg>)
    requires SpecOf(format, va).Spec?
    ensures SpecOf(format, va) == Spec(fl, width, precision, f, args)
  {
    var negative;
    fl, f := ParseFlags(format);
    width, negative, f, args := ParseField(f, va);
    if negative {
      fl := fl.(left := true);
    }
    precision := 0;
    if Peek(f) == '.' {
      fl := fl.(precision := true);
      precision, negative, f, args := ParseField(f[1..], args);
      if negative {
        precision := 0;
      }
    }
    fl, f := ParseLength(f, fl);
  }

  // -------------------------------------------------------------------- engine

  /** The conversion switch. */
  method PutConversion(c: char, fl: Flags, width: nat, precision: nat, va: seq<Arg>, buffer: array<char>, idx: int,
                       maxlen: nat,
                       ghost b0: seq<char>, ghost o: string) returns (next: int, args: seq<Arg>)
    requires Emitted(buffer[..], b0, o, idx, maxlen) && Convert(c, fl, width, precision, va).Text?
    requires !fl.precision ==> precision == 0
    modifies buffer
    ensures Emitted(buffer[..], b0, o + Convert(c, fl, width, precision, va).text, next, maxlen)
    ensures args == Convert(c, fl, width, precision, va).args
  {
    args := va;
    if c in "diuxXob" {
      next := PutInteger(c, va[0].w, buffer, idx, maxlen, precision, width, fl, b0, o);
      args := va[1..];
    } else if c == 'c' {
      next := PutChar((va[0].w % 256) as char, buffer, idx, maxlen, width, fl.left, b0, o);
      args := va[1..];
    } else if c == 's' {
      next := PutString(va[0].s, buffer, idx, maxlen, precision, width, fl, b0, o);
      args := va[1..];
    } else if c == 'p' {
      var flags := fl.(zeropad := true, upper := true);
      next := NtoaTo(buffer, idx, maxlen, va[0].w, false, 16, precision, 16, flags, b0, o);
      args := va[1..];
    } else {
      next := Put(c, buffer, idx, maxlen, b0, o);
    }
  }

  /** What is still to be written, behind what was. */
  lemma StillToWrite(o: string, s: string, rest: Outcome, whole: Outcome)
    requires Prepend(o, Prepend(s, rest)) == whole
    ensures Prepend(o + s, rest) == whole
  {
    if rest.Done? {
      Joined(o, s, rest.text);
    }
  }

  /** The loop of `_vsnprintf`. It stops short where a conversion character is
      missing, as the code goes on behind the end of the format there. */
  method WriteAll(buffer: array<char>, maxlen: nat, format: string, va: seq<Arg>) returns (idx: int, overrun: bool)
    requires maxlen <= buffer.Length && !Render(format, va).Stuck?
    modifies buffer
    ensures overrun <==> Render(format, va).Overrun?
    ensures !overrun ==> Emitted(buffer[..], old(buffer[..]), Render(format, va).text, idx, maxlen)
  {
    ghost var b0, o, whole := buffer[..], "", Render(format, va);
    assert whole.Done? ==> "" + whole.text == whole.text;
    idx, overrun := 0, false;
    var f, args := format, va;
    while f != ""
      invariant Emitted(buffer[..], b0, o, idx, maxlen) && Prepend(o, Render(f, args)) == whole
      decreases |f|
    {
      if f[0] != '%' {
        idx := Put(f[0], buffer, idx, maxlen, b0, o);
        StillToWrite(o, [f[0]], Render(f[1..], args), whole);
        o := o + [f[0]];
        f := f[1..];
      } else {
        var fl, width, precision, rest, left := ParseSpec(f[1..], args);
        if rest == "" {
          return idx, true;
        }
        ghost var converted := Convert(rest[0], fl, width, precision, left);
        idx, args := PutConversion(rest[0], fl, width, precision, left, buffer, idx, maxlen, b0, o);
        StillToWrite(o, converted.text, Render(rest[1..], converted.args), whole);
        o := o + converted.text;
        f := rest[1..];
      }
    }
    assert o + "" == o;
  }

  /** `snprintf_`: the buffer gets as much of the output as fits before a NUL, and the
      length returned is that of the whole output, whatever `count` is. */
  method Snprintf(buffer: array<char>, count: nat, format: string, va: seq<Arg>) returns (n: int, overrun: bool)
    requires count <= buffer.Length && !Render(format, va).Stuck?
    modifies buffer
    ensures overrun <==> Render(format, va).Overrun?
    ensures !overrun ==>
              var text := Render(format, va).text;
              n == |text| &&
              (count == 0 ==> buffer[..] == old(buffer[..])) &&
              (count > 0 ==> var k := Min(n, count - 1);
                             buffer[..k] == text[..k] && buffer[k] == NUL && buffer[k + 1..] == old(buffer[k + 1..]))
  {
    n, overrun := WriteAll(buffer, count, format, va);
    if !overrun && count > 0 {
      ghost var text := Render(format, va).text;
      OutBuffer(NUL, buffer, if n < count then n else count - 1, count);
    }
  }
}
