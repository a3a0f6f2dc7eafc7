/** kernel/vsprintf.c: formatted output into a bounded buffer.  Positions are offsets into the
    format and into the buffer; an argument is the 64-bit word va_arg finds, together with the
    string that lies at that address. */
module Printf {
  import opened Common
  import opened Words

  const INT_MAX := 0x7fff_ffff
  const WORD := 0x1_0000_0000_0000_0000

  datatype Flags = Flags(zero: bool, sign: bool, plus: bool, space: bool, left: bool, special: bool, large: bool)

  datatype Arg = Arg(word: nat, text: string)

  // ----- numbers -----

  const SMALL_DIGITS := "0123456789abcdefghijklmnopqrstuvwxyz"
  const LARGE_DIGITS := "0123456789ABCDEFGHIJKLMNOPQRSTUVWXYZ"

  function DigitChar(d: nat, large: bool): char
    requires d < 36
  {
    if large then LARGE_DIGITS[d] else SMALL_DIGITS[d]
  }

  /** digits[n % base] */
  function LowDigit(n: nat, base: nat, large: bool): char
    requires 2 <= base <= 36
  {
    DigitChar(n % base, large)
  }

  /** num / base */
  function Rest(n: nat, base: nat): nat
    requires base > 0
  {
    n / base
  }

  /** A number in positional notation, most significant digit first. */
  function Digits(n: nat, base: nat, large: bool): string
    requires 2 <= base <= 36
    decreases n
  {
    Quotient(n, base);
    if n < base then [DigitChar(n, large)] else Digits(Rest(n, base), base, large) + [LowDigit(n, base, large)]
  }

  function Repeat(c: char, n: int): (s: string)
    ensures |s| == Max(n, 0)
  {
    if n <= 0 then "" else [c] + Repeat(c, n - 1)
  }

  /** num as _number sees it once the SIGN flag has been looked at. */
  function Magnitude(num: nat, flags: Flags): nat
    requires num < WORD
  {
    if flags.sign && num >= WORD / 2 then WORD - num else num
  }

  function Sign(num: nat, flags: Flags): string {
    if !flags.sign then ""
    else if num >= WORD / 2 then "-"
    else if flags.plus then "+"
    else if flags.space then " "
    else ""
  }

  function Prefix(base: nat, flags: Flags): string {
    if !flags.special then ""
    else if base == 16 then ['0', DigitChar(33, flags.large)]
    else if base == 8 then "0"
    else ""
  }

  /** The digits, filled up with zeros to the precision. */
  function Body(num: nat, base: nat, precision: int, flags: Flags): string
    requires num < WORD && 2 <= base <= 36
  {
    var digits := Digits(Magnitude(num, flags), base, flags.large);
    Repeat('0', precision - |digits|) + digits
  }

  /** What _number prints. */
  function Number(num: nat, base: nat, size: int, precision: int, flags: Flags): string
    requires num < WORD && 2 <= base <= 36
  {
    var front, body := Sign(num, flags) + Prefix(base, flags), Body(num, base, precision, flags);
    var pad := size - |front| - |body|;
    if flags.left then front + body + Repeat(' ', pad)
    else if flags.zero then front + Repeat('0', pad) + body
    else Repeat(' ', pad) + front + body
  }

  // ----- directives -----

  /** *fmt; the format ends at its first NUL. */
  function At(fmt: string, i: nat): char {
    if i < |fmt| then fmt[i] else '\0'
  }

  predicate IsDigit(c: char) {
    '0' <= c <= '9'
  }

  /** _skip_atoi: the value of a run of digits and where the run stops. */
  function Atoi(s: string, i: nat, value: nat): (r: (nat, nat))
    ensures i <= r.1 && (i <= |s| ==> r.1 <= |s|)
    decreases |s| - i
  {
    if i < |s| && IsDigit(At(s, i)) then Atoi(s, i + 1, value * 10 + (At(s, i) - '0') as nat) else (value, i)
  }

  function WithFlag(f: Flags, c: char): Option<Flags> {
    if c == '+' then Some(f.(plus := true))
    else if c == '-' then Some(f.(left := true))
    else if c == '#' then Some(f.(special := true))
    else if c == ' ' then Some(f.(space := true))
    else if c == '0' then Some(f.(zero := true))
    else None
  }

  const NO_FLAGS := Flags(false, false, false, false, false, false, false)

  function FlagsAt(fmt: string, i: nat, f: Flags): (r: (Flags, nat))
    ensures i <= r.1 && (i <= |fmt| ==> r.1 <= |fmt|)
    decreases |fmt| - i
  {
    if i < |fmt| && WithFlag(f, At(fmt, i)).Some? then FlagsAt(fmt, i + 1, WithFlag(f, At(fmt, i)).value) else (f, i)
  }

  /** va_arg(ap, int) */
  function AsInt(w: nat): int {
    var low := w % 0x1_0000_0000;
    if low <= INT_MAX then low else low - 0x1_0000_0000
  }

  /** Where a scan of the directive stands: the value read, the next character, the next argument. */
  datatype Scan = Scan(value: int, at: nat, arg: nat)

  /** A number or `*` in the format; None where C leaves the value undefined or no argument is
      left. */
  function NumberAt(fmt: string, i: nat, args: seq<Arg>, k: nat): (r: Option<Scan>)
    ensures r.Some? ==> i <= r.value.at && (i <= |fmt| ==> r.value.at <= |fmt|)
  {
    if IsDigit(At(fmt, i)) then
      var (value, at) := Atoi(fmt, i, 0);
      if value <= INT_MAX then Some(Scan(value, at, k)) else None
    else if At(fmt, i) == '*' then
      if k < |args| then Some(Scan(AsInt(args[k].word), i + 1, k + 1)) else None
    else Some(Scan(-1, i, k))
  }

  /** Whether a width was written as a negative argument. */
  predicate Negated(fmt: string, i: nat, width: int) {
    At(fmt, i) == '*' && width < 0
  }

  /** The precision after a dot: absent is -1, negative or missing is 0. */
  function PrecisionAt(fmt: string, i: nat, args: seq<Arg>, k: nat): (r: Option<Scan>)
    ensures r.Some? ==> i <= r.value.at && (i <= |fmt| ==> r.value.at <= |fmt|)
  {
    if At(fmt, i) != '.' then Some(Scan(-1, i, k))
    else
      match NumberAt(fmt, i + 1, args, k)
      case None => None
      case Some(s) => Some(s.(value := Max(s.value, 0)))
  }

  predicate IsQualifier(c: char) {
    c == 'h' || c == 'l' || c == 'L' || c == 'Z' || c == 'z'
  }

  /** The qualifier, where `ll` means `L` and NUL stands for none. */
  function QualifierAt(fmt: string, i: nat): (r: (char, nat))
    ensures i <= r.1 && (i <= |fmt| ==> r.1 <= |fmt|)
  {
    if !IsQualifier(At(fmt, i)) then ('\0', i)
    else if At(fmt, i) == 'l' && At(fmt, i + 1) == 'l' then ('L', i + 2)
    else (At(fmt, i), i + 1)
  }

  /** A directive up to its conversion character. */
  datatype Directive = Directive(flags: Flags, width: int, precision: int, qualifier: char, at: nat, arg: nat)

  /** The directive behind a '%' at i - 1. */
  function Parse(fmt: string, i: nat, args: seq<Arg>, k: nat): (r: Option<Directive>)
    ensures r.Some? ==> i <= r.value.at && (i <= |fmt| ==> r.value.at <= |fmt|)
  {
    var (flags, i1) := FlagsAt(fmt, i, NO_FLAGS);
    match NumberAt(fmt, i1, args, k)
    case None => None
    case Some(w) =>
      match PrecisionAt(fmt, w.at, args, w.arg)
      case None => None
      case Some(p) =>
        if w.value < -INT_MAX then None  // cannot be negated
        else
          var (qualifier, at) := QualifierAt(fmt, p.at);
          var negated := Negated(fmt, i1, w.value);
          Some(Directive(if negated then flags.(left := true) else flags, if negated then -w.value else w.value,
                         p.value, qualifier, at, p.arg))
  }

  /** The argument as the qualifier reads it, sign-extended to 64 bits for a signed conversion. */
  function Value(qualifier: char, sign: bool, w: nat): (r: nat)
    requires w < WORD
    ensures r < WORD
  {
    if qualifier == 'L' || qualifier == 'l' || qualifier == 'Z' || qualifier == 'z' then w
    else if qualifier == 'h' then Extend(w % 0x1_0000, 0x1_0000, sign)
    else Extend(w % 0x1_0000_0000, 0x1_0000_0000, sign)
  }

  function Extend(v: nat, limit: nat, sign: bool): (r: nat)
    requires v < limit <= WORD
    ensures r < WORD
  {
    if sign && v >= limit / 2 then v + WORD - limit else v
  }

  predicate Integral(c: char) {
    c == 'o' || c == 'X' || c == 'x' || c == 'd' || c == 'i' || c == 'u'
  }

  predicate Known(c: char) {
    c == 'c' || c == 's' || c == 'p' || c == '%' || Integral(c)
  }

  /** The conversion is known, and _number's counters, which go down to six below the negated
      precision, stay in range. */
  predicate Defined(d: Directive, c: char) {
    Known(c) && (c == 'p' || Integral(c) ==> d.precision <= INT_MAX - 6)
  }

  function Base(c: char): nat {
    if c == 'o' then 8 else if c == 'x' || c == 'X' then 16 else 10
  }

  function ConversionFlags(c: char, f: Flags): Flags {
    if c == 'X' then f.(large := true) else if c == 'd' || c == 'i' then f.(sign := true) else f
  }

  /** %s; the precision is not looked at, and nothing is put behind the string. */
  function Text(s: string, width: int, left: bool): string {
    if left then s else Repeat(' ', width - |s|) + s
  }

  /** What one conversion prints. */
  function Converted(d: Directive, c: char, a: Arg): string
    requires Known(c) && c != '%' && a.word < WORD
  {
    if c == 'c' then
      var pad, ch := Repeat(' ', d.width - 1), [(a.word % 256) as char];
      if d.flags.left then ch + pad else pad + ch
    else if c == 's' then
      Text(if a.word < PAGE_SIZE then "(null)" else a.text, d.width, d.flags.left)
    else if c == 'p' then
      if d.width == -1 then Number(a.word, 16, 16, d.precision, d.flags.(zero := true))
      else Number(a.word, 16, d.width, d.precision, d.flags)
    else
      var flags := ConversionFlags(c, d.flags);
      Number(Value(d.qualifier, flags.sign, a.word), Base(c), d.width, d.precision, flags)
  }

  /** Arguments are words, and the strings behind them end at their first NUL. */
  ghost predicate WordArgs(args: seq<Arg>) {
    forall k :: 0 <= k < |args| ==> args[k].word < WORD && '\0' !in args[k].text
  }

  /** Everything the format prints from i on; None where it has an unknown conversion, asks for a
      missing argument, or C leaves its meaning open. */
  ghost function Format(fmt: string, i: nat, args: seq<Arg>, k: nat): Option<string>
    requires WordArgs(args) && i <= |fmt|
    decreases |fmt| - i
  {
    if At(fmt, i) == '\0' then Some("")
    else if fmt[i] != '%' then Prepended([fmt[i]], Format(fmt, i + 1, args, k))
    else
      match Parse(fmt, i + 1, args, k)
      case None => None
      case Some(d) =>
        var c := At(fmt, d.at);
        if !Defined(d, c) then None
        else if c == '%' then Prepended("%", Format(fmt, d.at + 1, args, d.arg))
        else if d.arg < |args| then Prepended(Converted(d, c, args[d.arg]), Format(fmt, d.at + 1, args, d.arg + 1))
        else None
  }

  function Prepended(s: string, rest: Option<string>): Option<string> {
    match rest
    case None => None
    case Some(t) => Some(s + t)
  }

  // ----- the buffer -----

  /** A buffer that held b0 after `out` was printed from its start: what fits is there, the rest
      is as it was. */
  ghost function Overlay(b0: string, size: nat, out: string): (b: string)
    requires size <= |b0|
  {
    out[..Min(|out|, size)] + b0[Min(|out|, size)..]
  }

  /** The same with vsnprintf's terminator. */
  ghost function Terminated(b0: string, size: nat, out: string): (b: string)
    requires size <= |b0|
  {
    if size == 0 then b0
    else
      var m := Min(|out|, size - 1);
      out[..m] + ['\0'] + b0[if |out| < size then m + 1 else size..]
  }

  ghost predicate Printed(buf: array<char>, size: nat, b0: string, out: string, str: nat)
    reads buf
  {
    size <= |b0| && buf[..] == Overlay(b0, size, out) && str == |out|
  }

  lemma OverlayNext(b0: string, size: nat, out: string, c: char)
    requires size <= |b0|
    ensures Overlay(b0, size, out + [c])
        == if |out| < size then Overlay(b0, size, out)[|out| := c] else Overlay(b0, size, out)
  {
  }

  /** if (buf <= end) *buf = c; buf++; */
  method Put(buf: array<char>, size: nat, str: nat, c: char, ghost b0: string, ghost out: string) returns (next: nat)
    requires Printed(buf, size, b0, out, str)
    modifies buf
    ensures Printed(buf, size, b0, out + [c], next)
  {
    OverlayNext(b0, size, out, c);
    if str < size {
      buf[str] := c;
    }
    next := str + 1;
  }

  lemma RepeatNext(c: char, n: nat)
    ensures Repeat(c, n + 1) == Repeat(c, n) + [c]
  {
    if n > 0 {
      RepeatNext(c, n - 1);
    }
  }

  /** while (n-- > 0) put c */
  method Pad(buf: array<char>, size: nat, str: nat, c: char, n: int, ghost b0: string, ghost out: string)
    returns (next: nat, left: int)
    requires Printed(buf, size, b0, out, str)
    modifies buf
    ensures Printed(buf, size, b0, out + Repeat(c, n), next)
    ensures left == Min(n, 0) - 1
  {
    next, left := str, n;
    assert out + Repeat(c, 0) == out;
    while left > 0
      invariant left <= n && (n >= 0 ==> left >= 0) && (n < 0 ==> left == n)
      invariant Printed(buf, size, b0, out + Repeat(c, n - left), next)
    {
      next := Put(buf, size, next, c, b0, out + Repeat(c, n - left));
      RepeatNext(c, n - left);
      assert out + Repeat(c, n - left) + [c] == out + Repeat(c, n - left + 1);
      left := left - 1;
    }
    assert n <= 0 ==> Repeat(c, n) == Repeat(c, n - left);
    left := left - 1;
  }

  method PutAll(buf: array<char>, size: nat, str: nat, s: string, ghost b0: string, ghost out: string)
    returns (next: nat)
    requires Printed(buf, size, b0, out, str)
    modifies buf
    ensures Printed(buf, size, b0, out + s, next)
  {
    next := str;
    assert out + s[..0] == out;
    for i := 0 to |s|
      invariant Printed(buf, size, b0, out + s[..i], next)
    {
      next := Put(buf, size, next, s[i], b0, out + s[..i]);
      assert out + s[..i] + [s[i]] == out + s[..i + 1];
    }
    assert s[..|s|] == s;
  }

  /** Digits as _number collects them, least significant first. */
  function Reversed(s: seq<char>): string {
    if s == [] then "" else [s[|s| - 1]] + Reversed(s[..|s| - 1])
  }

  /** The digits still to be found: none once the number is used up. */
  function Leading(n: nat, base: nat, large: bool): string
    requires 2 <= base <= 36
  {
    if n == 0 then "" else Digits(n, base, large)
  }

  lemma Quotient(n: nat, base: nat)
    requires base >= 2
    ensures Rest(n, base) == 0 <==> n < base
    ensures n < base ==> n % base == n
    ensures n > 0 ==> Rest(n, base) < n
  {
    var q, r := n / base, n % base;
    assert n == q * base + r;
    if q >= 1 {
      MulMono(1, q, base);
    }
    MulMono(2, base, q);
  }

  lemma ZeroDigit(large: bool)
    ensures DigitChar(0, large) == '0'
  {
  }

  lemma NextDigit(n: nat, base: nat, large: bool, s: string)
    requires 2 <= base <= 36 && n > 0
    ensures Leading(n, base, large) + s == Leading(Rest(n, base), base, large) + ([LowDigit(n, base, large)] + s)
  {
    hide DigitChar;
    Quotient(n, base);
  }

  lemma ShrinksByHalf(n: nat, base: nat, bound: nat)
    requires base >= 2 && n < 2 * bound
    ensures Rest(n, base) < bound
  {
    var q, r := n / base, n % base;
    assert n == q * base + r;
    MulMono(2, base, q);
    assert q * base == base * q;
  }

  lemma StillRoom(n: nat, i: nat)
    requires i <= 64 && 0 < n < Pow2(64 - i)
    ensures i < 64 && n < 2 * Pow2(63 - i)
  {
  }

  /** The digits collected and those still to come make up the number, and there is room left. */
  ghost predicate Collecting(num: nat, base: nat, large: bool, n: nat, tmp: string)
    requires 2 <= base <= 36
  {
    |tmp| <= 64 && n < Pow2(64 - |tmp|) && Leading(n, base, large) + Reversed(tmp) == Leading(num, base, large)
  }

  lemma CollectNext(num: nat, base: nat, large: bool, n: nat, tmp: string)
    requires 2 <= base <= 36 && n > 0 && Collecting(num, base, large, n, tmp)
    ensures Rest(n, base) < n && |tmp| < 64
    ensures Collecting(num, base, large, Rest(n, base), tmp + [LowDigit(n, base, large)])
  {
    hide LowDigit, Digits, Rest;
    Quotient(n, base);
    StillRoom(n, |tmp|);
    ShrinksByHalf(n, base, Pow2(63 - |tmp|));
    NextDigit(n, base, large, Reversed(tmp));
    assert (tmp + [LowDigit(n, base, large)])[..|tmp|] == tmp;
  }

  lemma CollectStart(num: nat, base: nat, large: bool)
    requires 2 <= base <= 36 && num < WORD
    ensures Collecting(num, base, large, num, "")
  {
    PowersOfTwo();
  }

  lemma CollectZero(base: nat, large: bool)
    requires 2 <= base <= 36
    ensures Reversed("0") == Digits(0, base, large)
  {
    ZeroDigit(large);
  }

  lemma CollectEnd(num: nat, base: nat, large: bool, tmp: string)
    requires 2 <= base <= 36 && num > 0 && Collecting(num, base, large, 0, tmp)
    ensures Reversed(tmp) == Digits(num, base, large)
  {
  }

  /** Lines 64 to 71: the digits into tmp, which 66 places always hold. */
  method CollectDigits(tmp: array<char>, num: nat, base: nat, large: bool) returns (i: nat)
    requires tmp.Length == 66 && num < WORD && 2 <= base <= 36
    modifies tmp
    ensures i <= 66 && Reversed(tmp[..i]) == Digits(num, base, large)
  {
    hide Collecting, LowDigit, Digits, Reversed, Rest;
    i := 0;
    var n: nat := num;
    if n == 0 {
      tmp[0] := '0';
      i := 1;
      assert tmp[..1] == "0";
      CollectZero(base, large);
    } else {
      CollectStart(num, base, large);
      assert tmp[..0] == "";
      while n > 0
        invariant i <= 64 && Collecting(num, base, large, n, tmp[..i])
      {
        CollectNext(num, base, large, n, tmp[..i]);
        ghost var before := tmp[..i];
        tmp[i] := LowDigit(n, base, large);
        i := i + 1;
        assert tmp[..i] == before + [LowDigit(n, base, large)];
        n := Rest(n, base);
      }
      CollectEnd(num, base, large, tmp[..i]);
    }
  }

  lemma PowersOfTwo()
    ensures Pow2(64) == WORD
  {
    Pow2Plus16(0);
    Pow2Plus16(16);
    Pow2Plus16(32);
    Pow2Plus16(48);
  }

  lemma ReversedLength(s: string)
    ensures |Reversed(s)| == |s|
  {
    if s != "" {
      ReversedLength(s[..|s| - 1]);
    }
  }

  /** while (i-- > 0) put tmp[i] */
  method PutReversed(buf: array<char>, size: nat, str: nat, tmp: array<char>, count: nat, ghost b0: string,
                     ghost out: string)
    returns (next: nat)
    requires Printed(buf, size, b0, out, str) && tmp != buf && count <= tmp.Length
    modifies buf
    ensures Printed(buf, size, b0, out + Reversed(tmp[..count]), next)
  {
    next := str;
    var i: nat := count;
    ghost var done := out;
    while i > 0
      invariant i <= count && Printed(buf, size, b0, done, next)
      invariant done + Reversed(tmp[..i]) == out + Reversed(tmp[..count])
    {
      i := i - 1;
      assert tmp[..i + 1][..i] == tmp[..i];
      next := Put(buf, size, next, tmp[i], b0, done);
      done := done + [tmp[i]];
    }
  }

  /** Lines 43 to 63 and 84 to 106: the characters before the digits, and the width they take. */
  method PutFront(buf: array<char>, size: nat, str: nat, sign: string, base: nat, flags: Flags, ghost b0: string,
                  ghost out: string)
    returns (next: nat)
    requires Printed(buf, size, b0, out, str)
    modifies buf
    ensures Printed(buf, size, b0, out + (sign + Prefix(base, flags)), next)
  {
    next := PutAll(buf, size, str, sign, b0, out);
    ghost var done := out + sign;
    if flags.special {
      if base == 8 {
        next := Put(buf, size, next, '0', b0, done);
      } else if base == 16 {
        next := Put(buf, size, next, '0', b0, done);
        next := Put(buf, size, next, DigitChar(33, flags.large), b0, done + "0");
        assert done + "0" + [DigitChar(33, flags.large)] == done + Prefix(base, flags);
      }
    }
    assert done + "" == done;
    assert out + sign + Prefix(base, flags) == out + (sign + Prefix(base, flags));
  }

  /** The pieces of a number in the order in which _number prints them. */
  ghost function Pieces(front: string, digits: string, prec: int, field: int, zero: bool, left: bool): string {
    (if zero || left then "" else Repeat(' ', field)) + front + (if zero && !left then Repeat('0', field) else "")
    + Repeat('0', prec - |digits|) + digits + (if left then Repeat(' ', field) else "")
  }

  lemma Assembled(num: nat, base: nat, width: int, precision: int, flags: Flags)
    requires num < WORD && 2 <= base <= 36
    ensures var front := Sign(num, flags) + Prefix(base, flags);
            var digits := Digits(Magnitude(num, flags), base, flags.large);
            var prec := Max(precision, |digits|);
            Pieces(front, digits, prec, width - |front| - prec, flags.zero && !flags.left, flags.left)
            == Number(num, base, width, precision, flags)
  {
    hide Digits, Repeat, Sign, Prefix, Magnitude;
    var digits := Digits(Magnitude(num, flags), base, flags.large);
    SameRepeat('0', precision - |digits|, Max(precision, |digits|) - |digits|);
    assert Body(num, base, precision, flags) == Repeat('0', precision - |digits|) + digits;
  }

  lemma SameRepeat(c: char, m: int, n: int)
    requires Max(m, 0) == Max(n, 0)
    ensures Repeat(c, m) == Repeat(c, n)
  {
  }

  lemma NothingRepeated(s: string, c: char, n: int)
    requires n <= 0
    ensures s + Repeat(c, n) == s
  {
  }

  /** Lines 43 to 63: the sign, the number without it, and the width left for the rest. */
  method TakeSign(num: nat, base: nat, width: int, flags: Flags) returns (sign: string, n: nat, field: int)
    requires num < WORD
    ensures sign == Sign(num, flags) && n == Magnitude(num, flags) && n < WORD
    ensures field == width - |sign| - |Prefix(base, flags)|
  {
    field, n, sign := width, num, "";
    if flags.sign {
      if num >= WORD / 2 {
        sign, n, field := "-", WORD - num, field - 1;
      } else if flags.plus {
        sign, field := "+", field - 1;
      } else if flags.space {
        sign, field := " ", field - 1;
      }
    }
    if flags.special {
      if base == 16 {
        field := field - 2;
      } else if base == 8 {
        field := field - 1;
      }
    }
  }

  /** Lines 76 to 132. */
  method PutPieces(buf: array<char>, size: nat, str: nat, sign: string, tmp: array<char>, i: nat, base: nat,
                   width: int, prec: int, zero: bool, flags: Flags, ghost b0: string, ghost out: string)
    returns (next: nat)
    requires Printed(buf, size, b0, out, str) && tmp != buf && i <= tmp.Length && (zero ==> !flags.left)
    modifies buf
    ensures Printed(buf, size, b0,
                    out + Pieces(sign + Prefix(base, flags), Reversed(tmp[..i]), prec, width, zero, flags.left), next)
  {
    hide Repeat, Printed, Reversed, Prefix;
    ghost var digits, front := Reversed(tmp[..i]), sign + Prefix(base, flags);
    ReversedLength(tmp[..i]);
    var field := width;
    ghost var lead, mid, trail := "", "", "";
    assert out + "" == out;
    next := str;
    if !(zero || flags.left) {
      next, field := Pad(buf, size, next, ' ', field, b0, out);
      lead := Repeat(' ', width);
    }
    next := PutFront(buf, size, next, sign, base, flags, b0, out + lead);
    ghost var done := out + lead + front;
    assert done + "" == done;
    if !flags.left {
      if !zero {
        NothingRepeated(done, ' ', field);
      }
      next, field := Pad(buf, size, next, if zero then '0' else ' ', field, b0, done);
      mid := if zero then Repeat('0', width) else "";
    }
    done := done + mid;
    var unused: int;
    next, unused := Pad(buf, size, next, '0', prec - i, b0, done);
    done := done + Repeat('0', prec - i);
    next := PutReversed(buf, size, next, tmp, i, b0, done);
    done := done + digits;
    assert done + "" == done;
    if flags.left {
      trail := Repeat(' ', width);
    } else {
      NothingRepeated(done, ' ', field);
    }
    next, field := Pad(buf, size, next, ' ', field, b0, done);
    Associate(out, lead, front, mid, Repeat('0', prec - i), digits, trail);
  }

  lemma Associate(a: string, b: string, c: string, d: string, e: string, f: string, g: string)
    ensures a + b + c + d + e + f + g == a + (b + c + d + e + f + g)
  {
  }

  /** _number */
  method PutNumber(buf: array<char>, size: nat, str: nat, num: nat, base: nat, width: int, precision: int, flags: Flags,
                   ghost b0: string, ghost out: string)
    returns (next: nat)
    requires Printed(buf, size, b0, out, str) && num < WORD && 2 <= base <= 36
    modifies buf
    ensures Printed(buf, size, b0, out + Number(num, base, width, precision, flags), next)
  {
    hide Printed, Digits, Number, Reversed, Sign, Prefix, Magnitude, Pieces;
    var sign, n, field := TakeSign(num, base, width, flags);
    var tmp := new char[66];
    var i := CollectDigits(tmp, n, base, flags.large);
    ReversedLength(tmp[..i]);
    var prec := precision;
    if i > prec {
      prec := i;
    }
    field := field - prec;
    Assembled(num, base, width, precision, flags);
    next := PutPieces(buf, size, str, sign, tmp, i, base, field, prec, flags.zero && !flags.left, flags, b0, out);
  }

  // ----- vsnprintf -----

  /** _skip_atoi */
  method SkipAtoi(s: string, i: nat) returns (ret: nat, at: nat)
    requires i <= |s|
    ensures (ret, at) == Atoi(s, i, 0)
  {
    ret, at := 0, i;
    while at < |s| && IsDigit(At(s, at))
      invariant at <= |s| && Atoi(s, at, ret) == Atoi(s, i, 0)
    {
      ret := ret * 10 + (At(s, at) - '0') as nat;
      at := at + 1;
    }
  }

  /** A width or precision at i. */
  method ReadNumber(fmt: string, i: nat, args: seq<Arg>, k: nat) returns (r: Option<Scan>)
    requires i <= |fmt|
    ensures r == NumberAt(fmt, i, args, k)
  {
    if IsDigit(At(fmt, i)) {
      var value, at := SkipAtoi(fmt, i);
      if value > INT_MAX {
        return None;
      }
      return Some(Scan(value, at, k));
    }
    if At(fmt, i) == '*' {
      if k >= |args| {
        return None;
      }
      return Some(Scan(AsInt(args[k].word), i + 1, k + 1));
    }
    return Some(Scan(-1, i, k));
  }

  /** Lines 157 to 217. */
  method ReadDirective(fmt: string, i: nat, args: seq<Arg>, k: nat) returns (r: Option<Directive>)
    requires i <= |fmt|
    ensures r == Parse(fmt, i, args, k)
  {
    var flags, at := NO_FLAGS, i;
    while at < |fmt| && WithFlag(flags, At(fmt, at)).Some?
      invariant at <= |fmt| && FlagsAt(fmt, at, flags) == FlagsAt(fmt, i, NO_FLAGS)
      decreases |fmt| - at
    {
      flags := WithFlag(flags, At(fmt, at)).value;
      at := at + 1;
    }
    var width := ReadNumber(fmt, at, args, k);
    if width == None {
      return None;
    }
    var field, star := width.value.value, At(fmt, at) == '*';
    at := width.value.at;
    var precision, arg := -1, width.value.arg;
    if At(fmt, at) == '.' {
      var p := ReadNumber(fmt, at + 1, args, arg);
      if p == None {
        return None;
      }
      precision, at, arg := Max(p.value.value, 0), p.value.at, p.value.arg;
    }
    if star && field < 0 {
      if field < -INT_MAX {
        return None;
      }
      field := -field;
      flags := flags.(left := true);
    }
    var qualifier := '\0';
    if IsQualifier(At(fmt, at)) {
      qualifier := At(fmt, at);
      at := at + 1;
      if qualifier == 'l' && At(fmt, at) == 'l' {
        qualifier := 'L';
        at := at + 1;
      }
    }
    return Some(Directive(flags, field, precision, qualifier, at, arg));
  }

  /** Lines 220 to 329 for the conversions that print an argument. */
  method PutConverted(buf: array<char>, size: nat, str: nat, d: Directive, c: char, a: Arg, ghost b0: string,
                      ghost out: string)
    returns (next: nat)
    requires Printed(buf, size, b0, out, str) && Known(c) && c != '%' && a.word < WORD
    modifies buf
    ensures Printed(buf, size, b0, out + Converted(d, c, a), next)
  {
    hide Printed, Number, Repeat, Value;
    if c == 'c' {
      next := PutChar(buf, size, str, d, a, b0, out);
    } else if c == 's' {
      next := PutString(buf, size, str, d, a, b0, out);
    } else if c == 'p' {
      var width, flags := d.width, d.flags;
      if width == -1 {
        width, flags := 16, flags.(zero := true);
      }
      next := PutNumber(buf, size, str, a.word, 16, width, d.precision, flags, b0, out);
    } else {
      var flags := ConversionFlags(c, d.flags);
      next := PutNumber(buf, size, str, Value(d.qualifier, flags.sign, a.word), Base(c), d.width, d.precision, flags,
          b0, out);
    }
  }

  /** Lines 221 to 240. */
  method PutChar(buf: array<char>, size: nat, str: nat, d: Directive, a: Arg, ghost b0: string, ghost out: string)
    returns (next: nat)
    requires Printed(buf, size, b0, out, str)  && a.word < WORD
    modifies buf
    ensures Printed(buf, size, b0, out + Converted(d, 'c', a), next)
  {
    hide Printed, Repeat;
    var width, ch := d.width, (a.word % 256) as char;
    ghost var done := out;
    next := str;
    if !d.flags.left {
      // while (--field_width > 0) tests the width it has just lowered
      next, width := Pad(buf, size, next, ' ', width - 1, b0, done);
      done := done + Repeat(' ', d.width - 1);
    }
    next := Put(buf, size, next, ch, b0, done);
    done := done + [ch];
    if !d.flags.left {
      NothingRepeated(done, ' ', width - 1);
    }
    next, width := Pad(buf, size, next, ' ', width - 1, b0, done);
    if d.flags.left {
      assert out + [ch] + Repeat(' ', d.width - 1) == out + ([ch] + Repeat(' ', d.width - 1));
    } else {
      assert out + Repeat(' ', d.width - 1) + [ch] == out + (Repeat(' ', d.width - 1) + [ch]);
    }
  }

  /** Lines 242 to 262. */
  method PutString(buf: array<char>, size: nat, str: nat, d: Directive, a: Arg, ghost b0: string, ghost out: string)
    returns (next: nat)
    requires Printed(buf, size, b0, out, str) && a.word < WORD
    modifies buf
    ensures Printed(buf, size, b0, out + Converted(d, 's', a), next)
  {
    hide Printed, Repeat;
    var s := if a.word < PAGE_SIZE then "(null)" else a.text;
    ghost var done := out;
    next := str;
    if !d.flags.left {
      var unused: int;
      next, unused := Pad(buf, size, next, ' ', d.width - |s|, b0, done);
      done := done + Repeat(' ', d.width - |s|);
      assert done + s == out + (Repeat(' ', d.width - |s|) + s);
    }
    next := PutAll(buf, size, next, s, b0, done);
  }

  /** The conversion of the character count to int. */
  function AsReturned(length: nat): int {
    AsInt(length)
  }

  lemma PrependedPrepended(out: string, s: string, rest: Option<string>)
    ensures Prepended(out + s, rest) == Prepended(out, Prepended(s, rest))
  {
    if rest.Some? {
      assert out + s + rest.value == out + (s + rest.value);
    }
  }

  /** One turn of the loop over the format. */
  lemma FormatStep(fmt: string, i: nat, args: seq<Arg>, k: nat, out: string)
    requires WordArgs(args) && i < |fmt| && At(fmt, i) != '\0'
    ensures At(fmt, i) != '%' ==>
              Prepended(out, Format(fmt, i, args, k)) == Prepended(out + [At(fmt, i)], Format(fmt, i + 1, args, k))
    ensures At(fmt, i) == '%' && Parse(fmt, i + 1, args, k) == None ==> Prepended(out, Format(fmt, i, args, k)) == None
    ensures At(fmt, i) == '%' && Parse(fmt, i + 1, args, k).Some? ==>
              var d := Parse(fmt, i + 1, args, k).value;
              var c := At(fmt, d.at);
              && (!Defined(d, c) || (c != '%' && d.arg >= |args|) ==> Prepended(out, Format(fmt, i, args, k)) == None)
              && (Defined(d, c) ==> d.at < |fmt|)
              && (Defined(d, c) && c == '%' ==>
                    Prepended(out, Format(fmt, i, args, k)) == Prepended(out + "%", Format(fmt, d.at + 1, args, d.arg)))
              && (Defined(d, c) && c != '%' && d.arg < |args| ==>
                    Prepended(out, Format(fmt, i, args, k))
                    == Prepended(out + Converted(d, c, args[d.arg]), Format(fmt, d.at + 1, args, d.arg + 1)))
  {
    hide Parse, Converted, Prepended;
    Nothing(out);
    if At(fmt, i) != '%' {
      PrependedPrepended(out, [At(fmt, i)], Format(fmt, i + 1, args, k));
    } else if Parse(fmt, i + 1, args, k).Some? {
      var d := Parse(fmt, i + 1, args, k).value;
      var c := At(fmt, d.at);
      if Defined(d, c) {
        if c == '%' {
          PrependedPrepended(out, "%", Format(fmt, d.at + 1, args, d.arg));
        } else if d.arg < |args| {
          PrependedPrepended(out, Converted(d, c, args[d.arg]), Format(fmt, d.at + 1, args, d.arg + 1));
        }
      }
    }
  }

  lemma Nothing(out: string)
    ensures Prepended(out, None) == None
  {
  }

  lemma NothingPrepended(rest: Option<string>)
    ensures Prepended("", rest) == rest
  {
    if rest.Some? {
      assert "" + rest.value == rest.value;
    }
  }

  lemma FormatEnds(fmt: string, i: nat, args: seq<Arg>, k: nat, out: string)
    requires WordArgs(args) && i <= |fmt| && At(fmt, i) == '\0'
    ensures Prepended(out, Format(fmt, i, args, k)) == Some(out)
  {
    assert out + "" == out;
  }

  lemma Untouched(buf: array<char>, size: nat)
    requires size <= buf.Length
    ensures Printed(buf, size, buf[..], "", 0)
  {
  }

  lemma TailKept(buf: array<char>, size: nat, b0: string, out: string, str: nat)
    requires Printed(buf, size, b0, out, str) && |b0| == buf.Length
    ensures buf[size..] == b0[size..]
  {
    assert buf[..][size..] == buf[size..];
  }

  lemma TerminatorFits(buf: array<char>, size: nat, b0: string, out: string, str: nat)
    requires Printed(buf, size, b0, out, str) && |b0| == buf.Length
    ensures str == |out| && size <= |b0| == |buf[..]|
    ensures str < size ==> buf[..][str := '\0'] == Terminated(b0, size, out)
    ensures str >= size > 0 ==> buf[..][size - 1 := '\0'] == Terminated(b0, size, out)
    ensures size == 0 ==> buf[..] == Terminated(b0, size, out)
  {
  }

  lemma TerminatedTail(b0: string, size: nat, out: string)
    requires size <= |b0|
    ensures |Terminated(b0, size, out)| == |b0| && Terminated(b0, size, out)[size..] == b0[size..]
  {
  }

  /** The answer is the length as an int: the number of that range that differs from it by a multiple of
      2^32. */
  lemma ReturnedIs(length: nat)
    ensures -0x8000_0000 <= AsReturned(length) < 0x8000_0000 && (length - AsReturned(length)) % 0x1_0000_0000 == 0
    ensures length <= INT_MAX ==> AsReturned(length) == length
  {
  }

  /** vsnprintf: the buffer holds what fits of the output and a terminator, nothing else changes,
      and the answer is the length of the whole output. */
  method Vsnprintf(buf: array<char>, size: nat, fmt: string, args: seq<Arg>) returns (ret: Option<int>)
    requires size <= buf.Length && WordArgs(args)
    modifies buf
    ensures buf[size..] == old(buf[size..])
    ensures match Format(fmt, 0, args, 0)
            case None => ret == None
            case Some(out) => ret == Some(AsReturned(|out|)) && buf[..] == Terminated(old(buf[..]), size, out)
    ensures Format(fmt, 0, args, 0).Some? ==>
              var len := |Format(fmt, 0, args, 0).value|;
              && ret.Some? && -0x8000_0000 <= ret.value < 0x8000_0000 && (len - ret.value) % 0x1_0000_0000 == 0
  {
    hide Printed, Format, Parse, Converted, Prepended, AsReturned, AsInt;
    ghost var b0 := buf[..];
    ghost var out := "";
    var i: nat, k: nat, str: nat := 0, 0, 0;
    Untouched(buf, size);
    NothingPrepended(Format(fmt, 0, args, 0));
    while At(fmt, i) != '\0'
      invariant i <= |fmt| && Printed(buf, size, b0, out, str)
      invariant Prepended(out, Format(fmt, i, args, k)) == Format(fmt, 0, args, 0)
      decreases |fmt| - i
    {
      FormatStep(fmt, i, args, k, out);
      if At(fmt, i) != '%' {
        str := Put(buf, size, str, At(fmt, i), b0, out);
        out := out + [At(fmt, i)];
        i := i + 1;
      } else {
        var r := ReadDirective(fmt, i + 1, args, k);
        if r == None {
          TailKept(buf, size, b0, out, str);
          return None;
        }
        var d := r.value;
        var c := At(fmt, d.at);
        if !Defined(d, c) || (c != '%' && d.arg >= |args|) {
          TailKept(buf, size, b0, out, str);
          return None;
        }
        i := d.at + 1;
        if c == '%' {
          str := Put(buf, size, str, '%', b0, out);
          out := out + "%";
          k := d.arg;
        } else {
          str := PutConverted(buf, size, str, d, c, args[d.arg], b0, out);
          out := out + Converted(d, c, args[d.arg]);
          k := d.arg + 1;
        }
      }
    }
    FormatEnds(fmt, i, args, k, out);
    TerminatorFits(buf, size, b0, out, str);
    TerminatedTail(b0, size, out);
    ghost var before := buf[..];
    if str < size {
      buf[str] := '\0';
      assert buf[..] == before[str := '\0'];
    } else if size > 0 {
      buf[size - 1] := '\0';
      assert buf[..] == before[size - 1 := '\0'];
    }
    assert buf[size..] == buf[..][size..];
    assert b0[size..] == old(buf[size..]);
    ReturnedIs(str);
    ret := Some(AsReturned(str));
  }

  // ----- what the output means -----

  /** The digit a character stands for, in either case. */
  function DigitValue(c: char): nat {
    if '0' <= c <= '9' then (c - '0') as nat
    else if 'a' <= c <= 'z' then (c - 'a') as nat + 10
    else if 'A' <= c <= 'Z' then (c - 'A') as nat + 10
    else 36
  }

  /** The number a string of digits denotes. */
  function ValueOf(s: string, base: nat): nat {
    if s == "" then 0 else ValueOf(s[..|s| - 1], base) * base + DigitValue(s[|s| - 1])
  }

  /** num as the conversion means it. */
  function Meant(num: nat, flags: Flags): int {
    if flags.sign && num >= WORD / 2 then num - WORD else num
  }

  lemma DigitCharValue(d: nat, large: bool)
    requires d < 36
    ensures DigitValue(DigitChar(d, large)) == d
    ensures DigitChar(d, large) == '0' <==> d == 0
  {
    if d < 12 {
      LowDigitChar(d, large);
    } else if d < 24 {
      MiddleDigitChar(d, large);
    } else {
      HighDigitChar(d, large);
    }
  }

  lemma LowDigitChar(d: nat, large: bool)
    requires d < 12
    ensures DigitValue(DigitChar(d, large)) == d && (DigitChar(d, large) == '0' <==> d == 0)
  {
    assert DigitChar(d, large) == (if large then "0123456789AB" else "0123456789ab")[d];
  }

  lemma MiddleDigitChar(d: nat, large: bool)
    requires 12 <= d < 24
    ensures DigitValue(DigitChar(d, large)) == d && DigitChar(d, large) != '0'
  {
    assert DigitChar(d, large) == (if large then "CDEFGHIJKLMN" else "cdefghijklmn")[d - 12];
  }

  lemma HighDigitChar(d: nat, large: bool)
    requires 24 <= d < 36
    ensures DigitValue(DigitChar(d, large)) == d && DigitChar(d, large) != '0'
  {
    assert DigitChar(d, large) == (if large then "OPQRSTUVWXYZ" else "opqrstuvwxyz")[d - 24];
  }

  /** Digits is positional notation: it denotes the number, in digits of the base, without leading
      zeros. */
  lemma {:induction false} DigitsDenote(n: nat, base: nat, large: bool)
    requires 2 <= base <= 36
    ensures ValueOf(Digits(n, base, large), base) == n
    ensures forall k :: 0 <= k < |Digits(n, base, large)| ==> DigitValue(Digits(n, base, large)[k]) < base
    ensures |Digits(n, base, large)| >= 1 && (n > 0 ==> Digits(n, base, large)[0] != '0')
    decreases n
  {
    hide DigitChar, DigitValue;
    var s := Digits(n, base, large);
    Quotient(n, base);
    LowDigitIs(n, base, large);
    if n < base {
      DigitCharValue(n, large);
      assert s[..0] == "";
    } else {
      DigitsDenote(Rest(n, base), base, large);
      assert s[..|s| - 1] == Digits(Rest(n, base), base, large);
    }
  }

  lemma LowDigitIs(n: nat, base: nat, large: bool)
    requires 2 <= base <= 36
    ensures DigitValue(LowDigit(n, base, large)) < base
    ensures n == Rest(n, base) * base + DigitValue(LowDigit(n, base, large))
  {
    DigitCharValue(n % base, large);
  }

  lemma {:induction false} ZerosInFront(k: int, s: string, base: nat)
    ensures ValueOf(Repeat('0', k) + s, base) == ValueOf(s, base)
    decreases |s|, k
  {
    var t := Repeat('0', k) + s;
    if s != "" {
      assert t[..|t| - 1] == Repeat('0', k) + s[..|s| - 1];
      ZerosInFront(k, s[..|s| - 1], base);
    } else if k > 0 {
      RepeatNext('0', k - 1);
      assert t[..|t| - 1] == Repeat('0', k - 1) + "";
      ZerosInFront(k - 1, "", base);
    }
  }

  lemma RepeatIs(c: char, n: int)
    ensures forall k :: 0 <= k < |Repeat(c, n)| ==> Repeat(c, n)[k] == c
  {
  }

  /** _number fills exactly the width, or more if sign, prefix and digits need it. */
  lemma NumberLength(num: nat, base: nat, width: int, precision: int, flags: Flags)
    requires num < WORD && 2 <= base <= 36
    ensures |Number(num, base, width, precision, flags)|
            == Max(width, |Sign(num, flags)| + |Prefix(base, flags)|
                          + Max(|Digits(Magnitude(num, flags), base, flags.large)|, precision))
  {
    hide Digits, Sign, Prefix, Repeat;
  }

  /** Between blanks _number prints the sign, the prefix and digits that denote the number, under
      every combination of flags. */
  lemma NumberDenotes(num: nat, base: nat, width: int, precision: int, flags: Flags)
    returns (lead: nat, core: string, trail: nat)
    requires num < WORD && 2 <= base <= 36
    ensures Number(num, base, width, precision, flags)
            == Repeat(' ', lead) + Sign(num, flags) + Prefix(base, flags) + core + Repeat(' ', trail)
    ensures |core| >= Max(1, precision) && forall k :: 0 <= k < |core| ==> DigitValue(core[k]) < base
    ensures Meant(num, flags) == if Sign(num, flags) == "-" then -(ValueOf(core, base) as int) else ValueOf(core, base)
    ensures (lead > 0 ==> !flags.left && !flags.zero) && (trail > 0 ==> flags.left)
  {
    hide Body, Number, Sign, Magnitude, Meant, Repeat, ValueOf, DigitValue;
    var body := Body(num, base, precision, flags);
    BodyDenotes(num, base, precision, flags);
    var pad := width - |Sign(num, flags) + Prefix(base, flags)| - |body|;
    ZerosInFront(pad, body, base);
    AllDigits(pad, body, base);
    NumberShape(num, base, width, precision, flags);
    SignAndMagnitude(num, flags);
    lead := if flags.left || flags.zero then 0 else Max(pad, 0);
    trail := if flags.left then Max(pad, 0) else 0;
    core := if flags.zero && !flags.left then Repeat('0', pad) + body else body;
  }

  lemma BodyDenotes(num: nat, base: nat, precision: int, flags: Flags)
    requires num < WORD && 2 <= base <= 36
    ensures var body := Body(num, base, precision, flags);
            && ValueOf(body, base) == Magnitude(num, flags) && |body| >= Max(1, precision)
            && forall k :: 0 <= k < |body| ==> DigitValue(body[k]) < base
  {
    hide Repeat, Digits, ValueOf, DigitValue, Magnitude;
    var digits := Digits(Magnitude(num, flags), base, flags.large);
    DigitsDenote(Magnitude(num, flags), base, flags.large);
    ZerosInFront(precision - |digits|, digits, base);
    AllDigits(precision - |digits|, digits, base);
  }

  lemma SignAndMagnitude(num: nat, flags: Flags)
    requires num < WORD
    ensures Meant(num, flags) ==
      if Sign(num, flags) == "-" then -(Magnitude(num, flags) as int) else Magnitude(num, flags)
  {
  }

  lemma AllDigits(k: int, s: string, base: nat)
    requires base > 0 && forall i :: 0 <= i < |s| ==> DigitValue(s[i]) < base
    ensures forall i :: 0 <= i < |Repeat('0', k) + s| ==> DigitValue((Repeat('0', k) + s)[i]) < base
  {
    RepeatIs('0', k);
  }

  lemma NumberShape(num: nat, base: nat, width: int, precision: int, flags: Flags)
    requires num < WORD && 2 <= base <= 36
    ensures var sign, prefix, body := Sign(num, flags), Prefix(base, flags), Body(num, base, precision, flags);
            var pad := width - |sign + prefix| - |body|;
            Number(num, base, width, precision, flags)
            == Repeat(' ', if flags.left || flags.zero then 0 else Max(pad, 0)) + sign + prefix
               + (if flags.zero && !flags.left then Repeat('0', pad) + body else body)
               + Repeat(' ', if flags.left then Max(pad, 0) else 0)
  {
    hide Body, Sign, Prefix, Repeat;
    var sign, prefix, body := Sign(num, flags), Prefix(base, flags), Body(num, base, precision, flags);
    var pad := width - |sign + prefix| - |body|;
    SameRepeat(' ', pad, Max(pad, 0));
    assert Repeat(' ', 0) == "";
  }

  /** _skip_atoi reads digits back: behind any text and in front of anything but a digit, it finds
      the value of a string of decimal digits and stops at its end. */
  lemma {:induction false} AtoiReadsDigits(front: string, s: string, back: string, k: nat, value: nat)
    requires forall i :: 0 <= i < |s| ==> IsDigit(s[i])
    requires back == "" || !IsDigit(back[0])
    requires k <= |s| && value == ValueOf(s[..k], 10)
    ensures Atoi(front + s + back, |front| + k, value) == (ValueOf(s, 10), |front| + |s|)
    decreases |s| - k
  {
    var t := front + s + back;
    if k < |s| {
      assert t[|front| + k] == s[k];
      assert s[..k + 1][..k] == s[..k];
      AtoiReadsDigits(front, s, back, k + 1, value * 10 + (s[k] - '0') as nat);
    } else {
      assert s[..k] == s;
      assert back != "" ==> t[|front| + k] == back[0];
    }
  }

  lemma NoDigits(base: nat)
    ensures ValueOf("", base) == 0
  {
  }

  /** Any int that is not negative survives being printed with %d and read with _skip_atoi. */
  lemma PrintedIntReadsBack(n: nat, text: string)
    requires n <= INT_MAX && '\0' !in text
    ensures Format("%d", 0, [Arg(n, text)], 0).Some?
    ensures var s := Format("%d", 0, [Arg(n, text)], 0).value; Atoi(s, 0, 0) == (n, |s|)
  {
    hide Format, Digits, Atoi, ValueOf, DigitValue;
    var s := Digits(n, 10, false);
    PlainDecimal(n, text);
    DigitsDenote(n, 10, false);
    DecimalDigits(n);
    assert "" + s + "" == s && s[..0] == "";
    NoDigits(10);
    AtoiReadsDigits("", s, "", 0, 0);
  }

  lemma PlainDecimal(n: nat, text: string)
    requires n <= INT_MAX && '\0' !in text
    ensures Format("%d", 0, [Arg(n, text)], 0) == Some(Digits(n, 10, false))
  {
    hide Digits;
    var args := [Arg(n, text)];
    var digits := Digits(n, 10, false);
    assert Parse("%d", 1, args, 0) == Some(Directive(NO_FLAGS, -1, -1, '\0', 1, 0));
    assert Format("%d", 2, args, 1) == Some("");
    var flags := NO_FLAGS.(sign := true);
    assert Value('\0', true, n) == n;
    assert Body(n, 10, -1, flags) == digits;
    assert Number(n, 10, -1, -1, flags) == digits;
    assert digits + "" == digits;
  }

  lemma {:induction false} DecimalDigits(n: nat)
    ensures forall k :: 0 <= k < |Digits(n, 10, false)| ==> IsDigit(Digits(n, 10, false)[k])
    decreases n
  {
    Quotient(n, 10);
    if n >= 10 {
      DecimalDigits(Rest(n, 10));
    }
  }

  /** A smaller buffer holds a prefix of what a larger one holds, and what either holds before its
      terminator is the output, cut where the buffer ends. */
  lemma TruncationIsPrefix(b0: string, size0: nat, b1: string, size1: nat, out: string)
    requires 0 < size0 <= size1 && size0 <= |b0| && size1 <= |b1|
    ensures var m := Min(|out|, size0 - 1);
            && Terminated(b0, size0, out)[..m] == out[..m] == Terminated(b1, size1, out)[..m]
            && Terminated(b0, size0, out)[m] == '\0'
            && Terminated(b0, size0, out)[size0..] == b0[size0..]
            && (size0 > |out| ==> Terminated(b0, size0, out)[m + 1..] == b0[m + 1..])
  {
  }
}
