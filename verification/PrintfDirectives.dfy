/** What a directive means, from its text to the characters it prints: section 7.21.6.1 of C11, with the
    qualifiers that kernel/vsprintf.c knows. */
module PrintfDirectives {
  import opened Common
  import opened Printf

  // ----- directives as they are written -----

  /** A width or precision: left out, a decimal number, or the next argument. */
  datatype Field = Nothing | Numeral(s: string) | Star

  /** The text between '%' and the conversion; the precision with its dot. */
  datatype Spec = Spec(flags: string, width: Field, precision: Option<Field>, qualifier: string)

  predicate IsFlag(c: char) {
    c == '+' || c == '-' || c == '#' || c == ' ' || c == '0'
  }

  predicate IsNumeral(s: string) {
    s != "" && forall i :: 0 <= i < |s| ==> '0' <= s[i] <= '9'
  }

  predicate IsInteger(c: char) {
    c == 'd' || c == 'i' || c == 'o' || c == 'u' || c == 'x' || c == 'X'
  }

  predicate IsConversion(c: char) {
    IsInteger(c) || c == 'c' || c == 's' || c == 'p' || c == '%'
  }

  /** Any flags in any order; a width does not begin with 0, which would be a flag. */
  predicate WellFormed(x: Spec) {
    && (forall i :: 0 <= i < |x.flags| ==> IsFlag(x.flags[i]))
    && (x.width.Numeral? ==> IsNumeral(x.width.s) && x.width.s[0] != '0')
    && (x.precision.Some? && x.precision.value.Numeral? ==> IsNumeral(x.precision.value.s))
    && (x.qualifier == "" || x.qualifier == "h" || x.qualifier == "l" || x.qualifier == "ll" || x.qualifier == "L"
        || x.qualifier == "z" || x.qualifier == "Z")
  }

  function FieldText(f: Field): string {
    match f
    case Nothing => ""
    case Numeral(s) => s
    case Star => "*"
  }

  function PrecisionText(p: Option<Field>): string {
    if p.Some? then "." + FieldText(p.value) else ""
  }

  function Spelled(x: Spec): string {
    x.flags + (FieldText(x.width) + (PrecisionText(x.precision) + x.qualifier))
  }

  // ----- what they say -----

  /** The lowest bits of a word, as a signed or unsigned number. */
  function Cut(w: nat, limit: int, signed: bool): int
    requires limit > 0
  {
    if signed then (w + limit / 2) % limit - limit / 2 else w % limit
  }

  /** It is the one number of its range that differs from the word by a multiple of the limit. */
  lemma CutIs(w: nat, limit: int, signed: bool, v: int)
    requires limit == 0x1_0000 || limit == 0x1_0000_0000 || limit == 0x1_0000_0000_0000_0000
    ensures v == Cut(w, limit, signed)
       <==> (w - v) % limit == 0 && if signed then -limit <= 2 * v < limit else 0 <= v < limit
  {
    Congruent(w, limit, if signed then limit / 2 else 0, v);
  }

  lemma Congruent(w: int, limit: int, half: int, v: int)
    requires limit > 0
    ensures v == (w + half) % limit - half <==> (w - v) % limit == 0 && -half <= v < limit - half
  {
    if v == (w + half) % limit - half {
      DivMod(w - v, limit, (w + half) / limit, 0);
    }
    if (w - v) % limit == 0 && -half <= v < limit - half {
      DivMod(w + half, limit, (w - v) / limit, v + half);
    }
  }

  function FieldValue(f: Field, args: seq<Arg>, k: nat): Option<int> {
    match f
    case Nothing => Some(-1)
    case Numeral(s) => if ValueOf(s, 10) <= INT_MAX then Some(ValueOf(s, 10)) else None
    case Star => if k < |args| then Some(Cut(args[k].word, 0x1_0000_0000, true)) else None
  }

  function Stars(f: Field): nat {
    if f.Star? then 1 else 0
  }

  function QualifierChar(q: string): char {
    if q == "" then '\0' else if q == "ll" then 'L' else q[0]
  }

  /** Flags added to others. */
  function Added(f: Flags, s: string): Flags {
    Flags(f.zero || '0' in s, f.sign, f.plus || '+' in s, f.space || ' ' in s, f.left || '-' in s,
          f.special || '#' in s, f.large)
  }

  /** The directive meant: a negative width is a left-justified one, a negative or missing precision
      behind a dot is 0; None where C leaves a number undefined or an argument is missing. */
  function Said(x: Spec, args: seq<Arg>, k: nat, at: nat): Option<Directive> {
    var width, k1 := FieldValue(x.width, args, k), k + Stars(x.width);
    var precision := if x.precision.Some? then FieldValue(x.precision.value, args, k1) else Some(-1);
    if width.None? || precision.None? || width.value == -0x8000_0000 then None
    else
      var negative := x.width.Star? && width.value < 0;
      var flags := Added(Flags(false, false, false, false, negative, false, false), x.flags);
      Some(Directive(
        flags, if negative then -width.value else width.value,
        if x.precision.Some? then Max(precision.value, 0) else -1,
        QualifierChar(x.qualifier), at, k1 + if x.precision.Some? then Stars(x.precision.value) else 0))
  }

  // ----- reading them -----

  predicate Stopping(c: char) {
    !IsFlag(c) && !('0' <= c <= '9') && c != '*'
  }

  lemma {:induction false} FlagsRead(front: string, flags: string, back: string, n: nat, f: Flags)
    requires n <= |flags| && forall i :: 0 <= i < |flags| ==> IsFlag(flags[i])
    requires back != "" && !IsFlag(back[0])
    ensures FlagsAt(front + flags + back, |front| + n, f)
            == (Added(f, flags[n..]), |front| + |flags|)
    decreases |flags| - n
  {
    hide Added, WithFlag, IsFlag;
    var fmt := front + flags + back;
    FlagOrNot(f, At(fmt, |front| + n));
    if n < |flags| {
      assert fmt[|front| + n] == flags[n];
      assert flags[n..] == [flags[n]] + flags[n + 1..];
      AddedStep(f, flags[n], flags[n + 1..]);
      FlagsRead(front, flags, back, n + 1, WithFlag(f, flags[n]).value);
    } else {
      assert fmt[|front| + n] == back[0];
      assert flags[n..] == "";
      AddedNone(f);
    }
  }

  lemma FlagOrNot(f: Flags, c: char)
    ensures WithFlag(f, c).Some? <==> IsFlag(c)
  {
  }

  lemma AddedStep(f: Flags, c: char, s: string)
    requires IsFlag(c)
    ensures WithFlag(f, c).Some? && Added(f, [c] + s) == Added(WithFlag(f, c).value, s)
  {
    InFront(c, s, '0');
    InFront(c, s, '+');
    InFront(c, s, ' ');
    InFront(c, s, '-');
    InFront(c, s, '#');
  }

  lemma InFront(c: char, s: string, x: char)
    ensures x in [c] + s <==> x == c || x in s
  {
  }

  lemma AddedNone(f: Flags)
    ensures Added(f, "") == f
  {
  }

  lemma NumberRead(front: string, f: Field, back: string, args: seq<Arg>, k: nat)
    requires f.Numeral? ==> IsNumeral(f.s)
    requires back != "" && !('0' <= back[0] <= '9') && back[0] != '*'
    ensures NumberAt(front + FieldText(f) + back, |front|, args, k)
            == match FieldValue(f, args, k)
               case None => None
               case Some(v) => Some(Scan(v, |front| + |FieldText(f)|, k + Stars(f)))
    ensures At(front + FieldText(f) + back, |front|) == '*' <==> f.Star?
    ensures FieldValue(f, args, k).Some? ==> FieldValue(f, args, k).value >= -0x8000_0000
  {
    hide Atoi, ValueOf;
    var fmt := front + FieldText(f) + back;
    match f
    case Nothing =>
      assert fmt[|front|] == back[0];
    case Numeral(s) =>
      assert fmt[|front|] == s[0];
      assert s[..0] == "";
      NoDigits(10);
      AtoiReadsDigits(front, s, back, 0, 0);
    case Star =>
      assert fmt[|front|] == '*';
      if k < |args| {
        IntIsCut(args[k].word);
      }
  }

  lemma IntIsCut(w: nat)
    ensures AsInt(w) == Cut(w, 0x1_0000_0000, true)
  {
    assert (w - AsInt(w)) % 0x1_0000_0000 == 0;
    CutIs(w, 0x1_0000_0000, true, AsInt(w));
  }

  lemma PrecisionRead(front: string, p: Option<Field>, back: string, args: seq<Arg>, k: nat)
    requires p.Some? && p.value.Numeral? ==> IsNumeral(p.value.s)
    requires back != "" && Stopping(back[0]) && back[0] != '.'
    ensures PrecisionAt(front + PrecisionText(p) + back, |front|, args, k)
            == match if p.Some? then FieldValue(p.value, args, k) else Some(-1)
               case None => None
               case Some(v) => Some(Scan(if p.Some? then Max(v, 0) else -1, |front| + |PrecisionText(p)|,
                                         k + if p.Some? then Stars(p.value) else 0))
  {
    hide FieldValue, NumberAt, FieldText, IsNumeral, IsFlag;
    var fmt := front + PrecisionText(p) + back;
    if p.Some? {
      var text := FieldText(p.value);
      assert fmt == front + ("." + text) + back == (front + ".") + text + back;
      assert fmt[|front|] == '.';
      NumberRead(front + ".", p.value, back, args, k);
    } else {
      assert fmt[|front|] == back[0];
    }
  }

  lemma QualifierRead(front: string, q: string, c: char, back: string)
    requires q == "" || q == "h" || q == "l" || q == "ll" || q == "L" || q == "z" || q == "Z"
    requires IsConversion(c)
    ensures QualifierAt(front + q + ([c] + back), |front|) == (QualifierChar(q), |front| + |q|)
  {
    var fmt := front + q + ([c] + back);
    assert fmt[|front| + |q|] == c;
    if q != "" {
      assert fmt[|front|] == q[0];
    }
    if |q| == 2 {
      assert fmt[|front| + 1] == q[1];
    }
  }

  /** The character behind each part does not belong to it. */
  lemma PartsEnd(x: Spec, c: char, back: string)
    requires WellFormed(x) && IsConversion(c)
    ensures var rest := x.qualifier + ([c] + back);
            && rest != "" && Stopping(rest[0]) && rest[0] != '.'
            && var rest1 := PrecisionText(x.precision) + rest;
               && rest1 != "" && Stopping(rest1[0])
               && var rest2 := FieldText(x.width) + rest1; rest2 != "" && !IsFlag(rest2[0])
  {
  }

  lemma LeftAdded(s: string)
    ensures Added(NO_FLAGS.(left := true), s) == Added(NO_FLAGS, s).(left := true)
  {
  }

  /** A directive written out in any way is read as what it says. */
  lemma ParseReads(front: string, x: Spec, c: char, back: string, args: seq<Arg>, k: nat)
    requires WellFormed(x) && IsConversion(c)
    ensures Parse(front + Spelled(x) + ([c] + back), |front|, args, k)
            == Said(x, args, k, |front| + |Spelled(x)|)
  {
    hide FlagsAt, NumberAt, PrecisionAt, QualifierAt, FieldValue, IsFlag, IsConversion, IsNumeral, PrecisionText,
         FieldText, QualifierChar, Added;
    var fmt := front + Spelled(x) + ([c] + back);
    var width, precision := FieldText(x.width), PrecisionText(x.precision);
    var rest := x.qualifier + ([c] + back);
    var front1 := front + x.flags;
    var front2 := front1 + width;
    var front3 := front2 + precision;
    PartsEnd(x, c, back);
    assert fmt == front + x.flags + (width + (precision + rest));
    assert fmt == front1 + width + (precision + rest);
    assert fmt == front2 + precision + rest;
    assert fmt == front3 + x.qualifier + ([c] + back);
    FlagsRead(front, x.flags, width + (precision + rest), 0, NO_FLAGS);
    assert x.flags[0..] == x.flags;
    NumberRead(front1, x.width, precision + rest, args, k);
    PrecisionRead(front2, x.precision, rest, args, k + Stars(x.width));
    QualifierRead(front3, x.qualifier, c, back);
    LeftAdded(x.flags);
  }

  /** At its '%' a directive prints what its conversion makes of the next argument, and the format goes on
      behind it with the arguments that are left. */
  lemma DirectivePrints(front: string, x: Spec, c: char, back: string, args: seq<Arg>, k: nat)
    requires WellFormed(x) && IsConversion(c) && WordArgs(args)
    ensures var at := |front| + 1 + |Spelled(x)|;
            var fmt, said := front + "%" + Spelled(x) + ([c] + back), Said(x, args, k, at);
            && at < |fmt|
            && Format(fmt, |front|, args, k)
               == if said.None? then None
                  else if c == '%' then Prepended("%", Format(fmt, at + 1, args, said.value.arg))
                  else if said.value.arg >= |args| || ((IsInteger(c) || c == 'p') && said.value.precision > INT_MAX - 6)
                  then None
                  else Prepended(Converted(said.value, c, args[said.value.arg]),
                                 Format(fmt, at + 1, args, said.value.arg + 1))
  {
    hide Parse, Said, Spelled, WellFormed, Converted, Prepended;
    var fmt := front + "%" + Spelled(x) + ([c] + back);
    assert fmt[|front|] == '%' && fmt[|front| + 1 + |Spelled(x)|] == c;
    SaidAt(x, args, k, |front| + 1 + |Spelled(x)|);
    ParseReads(front + "%", x, c, back, args, k);
  }

  /** Nothing is promised where another character stands for the conversion. */
  lemma OnlyConversions(fmt: string, i: nat, args: seq<Arg>, k: nat)
    requires WordArgs(args) && i < |fmt| && fmt[i] == '%' && Parse(fmt, i + 1, args, k).Some?
    requires !IsConversion(At(fmt, Parse(fmt, i + 1, args, k).value.at))
    ensures Format(fmt, i, args, k) == None
  {
    hide Parse, Converted;
  }

  lemma SaidAt(x: Spec, args: seq<Arg>, k: nat, at: nat)
    ensures Said(x, args, k, at).Some? ==>
              var d := Said(x, args, k, at).value; d.at == at && !d.flags.sign && !d.flags.large
  {
  }

  /** Characters outside directives are copied. */
  lemma {:induction false} PlainText(front: string, s: string, back: string, args: seq<Arg>, k: nat)
    requires WordArgs(args) && forall i :: 0 <= i < |s| ==> s[i] != '%' && s[i] != '\0'
    ensures Format(front + s + back, |front|, args, k)
            == Prepended(s, Format(front + s + back, |front| + |s|, args, k))
    decreases |s|
  {
    var fmt := front + s + back;
    if s == "" {
      NothingPrepended(Format(fmt, |front|, args, k));
    } else {
      assert fmt[|front|] == s[0];
      assert front + [s[0]] + s[1..] + back == fmt;
      PlainText(front + [s[0]], s[1..], back, args, k);
      PrependedPrepended([s[0]], s[1..], Format(fmt, |front| + |s|, args, k));
      assert [s[0]] + s[1..] == s;
    }
  }

  // ----- what conversions print -----

  /** A field: blanks on the side that the text does not stand on, or zeros behind its front. */
  function Justified(front: string, body: string, width: int, left: bool, zero: bool): string {
    var pad := width - |front| - |body|;
    if left then front + body + Repeat(' ', pad)
    else if zero then front + Repeat('0', pad) + body
    else Repeat(' ', pad) + front + body
  }

  /** Only signed conversions have a sign. */
  function SignFor(c: char, f: Flags, v: int): string {
    if c != 'd' && c != 'i' then ""
    else if v < 0 then "-"
    else if f.plus then "+"
    else if f.space then " "
    else ""
  }

  /** What `#` puts in front of the digits. */
  function PrefixFor(c: char, f: Flags): string {
    if !f.special then ""
    else if c == 'o' then "0"
    else if c == 'x' then "0x"
    else if c == 'X' then "0X"
    else ""
  }

  /** The digits of a conversion: octal, decimal, or hexadecimal in the case of its letter. */
  predicate IsDigitOf(c: char, x: char) {
    if c == 'o' then '0' <= x <= '7'
    else if c == 'x' || c == 'p' then '0' <= x <= '9' || 'a' <= x <= 'f'
    else if c == 'X' then '0' <= x <= '9' || 'A' <= x <= 'F'
    else '0' <= x <= '9'
  }

  lemma DigitInCase(d: nat, large: bool)
    requires d < 16
    ensures var x := DigitChar(d, large);
            if d < 8 then '0' <= x <= '7'
            else if d < 10 then '8' <= x <= '9'
            else if large then 'A' <= x <= 'F' else 'a' <= x <= 'f'
  {
    if d < 12 {
      assert DigitChar(d, large) == (if large then "0123456789AB" else "0123456789ab")[d];
    } else {
      assert DigitChar(d, large) == (if large then "CDEF" else "cdef")[d - 12];
    }
  }

  lemma {:induction false} DigitsInCase(c: char, n: nat, base: nat, large: bool)
    requires IsInteger(c) || c == 'p'
    requires base == if c == 'o' then 8 else if c == 'x' || c == 'X' || c == 'p' then 16 else 10
    requires large <==> c == 'X'
    ensures forall i :: 0 <= i < |Digits(n, base, large)| ==> IsDigitOf(c, Digits(n, base, large)[i])
    decreases n
  {
    hide DigitChar;
    Quotient(n, base);
    DigitInCase(n % base, large);
    if n >= base {
      DigitsInCase(c, Rest(n, base), base, large);
    }
  }

  /** %d, %i, %o, %u, %x and %X print the argument, cut to the 16, 32 or 64 bits of the qualifier, signed for
      the first two: its sign, the prefix of `#`, zeros up to the precision and its digits, justified in the
      width. */
  lemma IntegerPrinted(d: Directive, c: char, a: Arg) returns (v: int, digits: string)
    requires IsInteger(c) && a.word < WORD && !d.flags.sign && !d.flags.large
    ensures var limit := if d.qualifier == 'h' then 0x1_0000
                         else if d.qualifier in {'l', 'L', 'z', 'Z'} then 0x1_0000_0000_0000_0000 else 0x1_0000_0000;
            (a.word - v) % limit == 0 && if c == 'd' || c == 'i' then -limit <= 2 * v < limit else 0 <= v < limit
    ensures ValueOf(digits, if c == 'o' then 8 else if c == 'x' || c == 'X' then 16 else 10) == if v < 0 then -v else v
    ensures digits != "" && (v != 0 ==> digits[0] != '0') && forall i :: 0 <= i < |digits| ==> IsDigitOf(c, digits[i])
    ensures Converted(d, c, a)
            == Justified(SignFor(c, d.flags, v) + PrefixFor(c, d.flags), Repeat('0', d.precision - |digits|) + digits,
                         d.width, d.flags.left, d.flags.zero)
  {
    hide Digits, ValueOf, Repeat, IsDigitOf, Value, DigitChar, Cut, Number, Sign, Prefix, Magnitude, Justified,
         SignFor, PrefixFor, Text;
    var limit := if d.qualifier == 'h' then 0x1_0000
                 else if d.qualifier in {'l', 'L', 'z', 'Z'} then 0x1_0000_0000_0000_0000 else 0x1_0000_0000;
    var signed := c == 'd' || c == 'i';
    var base := if c == 'o' then 8 else if c == 'x' || c == 'X' then 16 else 10;
    v := Cut(a.word, limit, signed);
    CutIs(a.word, limit, signed, v);
    ValueIsCut(d.qualifier, signed, a.word, limit);
    var size: nat := if v < 0 then -v else v;
    digits := Digits(size, base, c == 'X');
    DigitsDenote(size, base, c == 'X');
    DigitsInCase(c, size, base, c == 'X');
    var flags := ConversionFlags(c, d.flags);
    var num := Value(d.qualifier, signed, a.word);
    FrontIs(c, d.flags, num, v);
    NumberJustified(num, base, d.width, d.precision, flags);
  }

  lemma NumberJustified(num: nat, base: nat, width: int, precision: int, flags: Flags)
    requires num < WORD && 2 <= base <= 36
    ensures var digits := Digits(Magnitude(num, flags), base, flags.large);
            Number(num, base, width, precision, flags)
            == Justified(Sign(num, flags) + Prefix(base, flags), Repeat('0', precision - |digits|) + digits, width,
                         flags.left, flags.zero)
  {
    hide Digits, Magnitude, Sign, Prefix, Repeat;
  }

  lemma SignOf(num: nat, flags: Flags, v: int)
    requires num < WORD && num == (if v < 0 then v + WORD else v) && (v < 0 ==> flags.sign)
    requires flags.sign ==> (v < 0 <==> num >= WORD / 2)
    ensures Magnitude(num, flags) == if v < 0 then -v else v
    ensures Sign(num, flags)
            == if !flags.sign then "" else if v < 0 then "-" else if flags.plus then "+" else if flags.space then " "
               else ""
  {
  }

  lemma FrontIs(c: char, f: Flags, num: nat, v: int)
    requires IsInteger(c) && num < WORD && !f.sign && !f.large
    requires num == (if v < 0 then v + WORD else v) && (v < 0 ==> c == 'd' || c == 'i')
    requires c == 'd' || c == 'i' ==> (v < 0 <==> num >= WORD / 2)
    ensures var flags := ConversionFlags(c, f);
            && Magnitude(num, flags) == (if v < 0 then -v else v)
            && Sign(num, flags) == SignFor(c, f, v)
            && Prefix(if c == 'o' then 8 else if c == 'x' || c == 'X' then 16 else 10, flags) == PrefixFor(c, f)
  {
    hide Sign, Prefix, Magnitude;
    SignOf(num, ConversionFlags(c, f), v);
    PrefixIs(if c == 'o' then 8 else if c == 'x' || c == 'X' then 16 else 10, ConversionFlags(c, f));
  }

  lemma PrefixIs(base: nat, flags: Flags)
    ensures Prefix(base, flags)
            == if !flags.special then "" else if base == 8 then "0"
               else if base == 16 then (if flags.large then "0X" else "0x") else ""
  {
    LetterX();
  }

  lemma LetterX()
    ensures DigitChar(33, false) == 'x' && DigitChar(33, true) == 'X'
  {
    assert SMALL_DIGITS[33] == "uvwxyz"[3] && LARGE_DIGITS[33] == "UVWXYZ"[3];
  }

  /** The 64-bit word that _number gets is the number again, modulo 2^64. */
  lemma ValueIsCut(q: char, signed: bool, w: nat, limit: int)
    requires w < WORD
    requires limit == if q == 'h' then 0x1_0000
                      else if q in {'l', 'L', 'z', 'Z'} then 0x1_0000_0000_0000_0000 else 0x1_0000_0000
    ensures var v := Cut(w, limit, signed); Value(q, signed, w) == if v < 0 then v + WORD else v
    ensures signed ==> (Cut(w, limit, signed) < 0 <==> Value(q, signed, w) >= WORD / 2)
  {
    hide Cut;
    CutOf(w, limit, signed);
  }

  lemma CutOf(w: nat, limit: int, signed: bool)
    requires limit > 0 && limit % 2 == 0
    ensures Cut(w, limit, signed) == if signed && w % limit >= limit / 2 then w % limit - limit else w % limit
  {
    var q, low, half := w / limit, w % limit, limit / 2;
    assert w == limit * q + low;
    if low >= half {
      assert limit * (q + 1) == limit * q + limit;
      DivMod(w + half, limit, q + 1, low - half);
    } else {
      DivMod(w + half, limit, q, low + half);
    }
  }

  /** %p prints the whole word in hexadecimal; without a width, in 16 places filled up with zeros. */
  lemma PointerPrinted(d: Directive, a: Arg) returns (digits: string)
    requires a.word < WORD && !d.flags.sign && !d.flags.large
    ensures ValueOf(digits, 16) == a.word
    ensures digits != "" && (a.word != 0 ==> digits[0] != '0')
    ensures forall i :: 0 <= i < |digits| ==> '0' <= digits[i] <= '9' || 'a' <= digits[i] <= 'f'
    ensures Converted(d, 'p', a)
            == Justified(if d.flags.special then "0x" else "", Repeat('0', d.precision - |digits|) + digits,
                         if d.width == -1 then 16 else d.width, d.flags.left, d.flags.zero || d.width == -1)
  {
    hide Digits, ValueOf, Repeat, DigitChar, Number, Sign, Prefix, Magnitude, Justified;
    digits := Digits(a.word, 16, false);
    DigitsDenote(a.word, 16, false);
    DigitsInCase('p', a.word, 16, false);
    var flags := if d.width == -1 then d.flags.(zero := true) else d.flags;
    SignOf(a.word, flags, a.word);
    PrefixIs(16, flags);
    assert "" + Prefix(16, flags) == Prefix(16, flags);
    NumberJustified(a.word, 16, if d.width == -1 then 16 else d.width, d.precision, flags);
  }

  /** %c prints the low byte as a character, in the width. */
  lemma CharPrinted(d: Directive, a: Arg) returns (x: char)
    requires a.word < WORD
    ensures x as int == a.word % 256
    ensures Converted(d, 'c', a) == Justified("", [x], d.width, d.flags.left, false)
  {
    hide Repeat;
    x := (a.word % 256) as char;
  }

  /** %s prints "(null)" for an address in the first page and the string at any other; it ends the field, or
      nothing stands behind it. */
  lemma TextPrinted(d: Directive, a: Arg)
    requires a.word < WORD
    ensures var text := if a.word < 4096 then "(null)" else a.text;
            Converted(d, 's', a) == if d.flags.left then text else Justified("", text, d.width, false, false)
  {
    hide Repeat;
  }
}
