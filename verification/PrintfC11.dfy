/** What C11 asks of %s and of the integer conversions (section 7.21.6.1, paragraphs 4 to 8), and
    exactly when the printer of kernel/vsprintf.c does it.  A negative precision is an omitted one. */
module PrintfC11 {
  import opened Common
  import opened Printf

  // ----- strings -----

  /** %s: no more characters than the precision allows, padded to the width on either side. */
  function C11Text(s: string, width: int, precision: int, left: bool): string {
    var cut := if 0 <= precision < |s| then s[..precision] else s;
    var pad := Repeat(' ', width - |cut|);
    if left then cut + pad else pad + cut
  }

  /** The printer does the same for every string of n characters exactly when the precision cuts
      nothing off and no padding is due on the right. */
  lemma TextIsC11Exactly(n: nat, width: int, precision: int, left: bool)
    ensures (forall s: string :: |s| == n && '\0' !in s ==> Text(s, width, left) == C11Text(s, width, precision, left))
       <==> (precision < 0 || precision >= n) && (!left || width <= n)
  {
    if (precision < 0 || precision >= n) && (!left || width <= n) {
      forall s: string | |s| == n && '\0' !in s
        ensures Text(s, width, left) == C11Text(s, width, precision, left)
      {
      }
    } else {
      TextDeviates(n, width, precision, left);
    }
  }

  lemma TextDeviates(n: nat, width: int, precision: int, left: bool)
    requires !((precision < 0 || precision >= n) && (!left || width <= n))
    ensures var s := Repeat('x', n);
            |s| == n && '\0' !in s && Text(s, width, left) != C11Text(s, width, precision, left)
  {
    var s := Repeat('x', n);
    RepeatIs('x', n);
    var cut := if 0 <= precision < n then s[..precision] else s;
    RepeatIs(' ', width - n);
    RepeatIs(' ', width - |cut|);
    if left {
      if width > n {
        assert |C11Text(s, width, precision, left)| > |Text(s, width, left)|;
      } else if |cut| < n && width == n {
        assert C11Text(s, width, precision, left)[|cut|] == ' ';
      }
    } else if width >= n {
      assert C11Text(s, width, precision, left)[width - |cut| - 1] == ' ';
      assert Text(s, width, left)[width - |cut| - 1] == 'x';
    }
  }

  // ----- numbers -----

  /** A number between its padding. */
  function Padded(front: string, body: string, width: int, left: bool, zeros: bool): string {
    var pad := width - |front| - |body|;
    if left then front + body + Repeat(' ', pad)
    else if zeros then front + Repeat('0', pad) + body
    else Repeat(' ', pad) + front + body
  }

  /** The digits: at least as many as the precision, none for zero with precision zero, and with # a
      leading zero in octal. */
  function C11Body(mag: nat, base: nat, precision: int, flags: Flags): string
    requires 2 <= base <= 36
  {
    var digits := if mag == 0 && precision == 0 then "" else Digits(mag, base, flags.large);
    var filled := Repeat('0', precision - |digits|) + digits;
    if flags.special && base == 8 && (filled == "" || filled[0] != '0') then "0" + filled else filled
  }

  /** The sign, and with # 0x in front of every hexadecimal number but zero. */
  function C11Front(num: nat, base: nat, flags: Flags): string
    requires num < WORD
  {
    Sign(num, flags)
    + if flags.special && base == 16 && Magnitude(num, flags) != 0 then ['0', DigitChar(33, flags.large)] else ""
  }

  /** The flag 0 pads with zeros, unless - is given or a precision. */
  function C11Number(num: nat, base: nat, width: int, precision: int, flags: Flags): string
    requires num < WORD && 2 <= base <= 36
  {
    Padded(C11Front(num, base, flags), C11Body(Magnitude(num, flags), base, precision, flags), width, flags.left,
           flags.zero && precision < 0)
  }

  /** The characters of the sign, the prefix and the digits that _number prints. */
  function Least(num: nat, base: nat, precision: int, flags: Flags): nat
    requires num < WORD && 2 <= base <= 36
  {
    |Sign(num, flags)| + |Prefix(base, flags)| + Max(|Digits(Magnitude(num, flags), base, flags.large)|, precision)
  }

  /** When _number prints what C11 asks for. */
  predicate MeetsC11(num: nat, base: nat, width: int, precision: int, flags: Flags)
    requires num < WORD && 2 <= base <= 36
  {
    var mag := Magnitude(num, flags);
    && !(mag == 0 && precision == 0)
    && !(mag == 0 && flags.special && base == 16)
    && (flags.special && base == 8 ==>
          if mag == 0 then flags.zero && !flags.left && precision < 0 && width >= 2
          else precision <= |Digits(mag, base, flags.large)|)
    && !(flags.zero && !flags.left && precision >= 0 && width > Least(num, base, precision, flags))
  }

  lemma PaddedAt(front: string, body: string, width: int, left: bool, zeros: bool, k: nat)
    requires k < |Padded(front, body, width, left, zeros)|
    ensures var pad := Max(width - |front| - |body|, 0);
            Padded(front, body, width, left, zeros)[k] ==
              if left then (if k < |front| then front[k] else if k < |front| + |body| then body[k - |front|] else ' ')
              else if zeros then
                (if k < |front| then front[k] else if k < |front| + pad then '0' else body[k - |front| - pad])
              else (if k < pad then ' ' else if k < pad + |front| then front[k - pad] else body[k - pad - |front|])
  {
    RepeatIs(' ', width - |front| - |body|);
    RepeatIs('0', width - |front| - |body|);
  }

  lemma PaddedLength(front: string, body: string, width: int, left: bool, zeros: bool)
    ensures |Padded(front, body, width, left, zeros)| == Max(width, |front| + |body|)
  {
  }

  lemma NumberIsPadded(num: nat, base: nat, width: int, precision: int, flags: Flags)
    requires num < WORD && 2 <= base <= 36
    ensures Number(num, base, width, precision, flags)
            == Padded(Sign(num, flags) + Prefix(base, flags), Body(num, base, precision, flags), width,
                      flags.left, flags.zero)
  {
    hide Sign, Prefix, Body, Repeat;
  }

  /** The digits of zero, and of other numbers. */
  lemma DigitsShape(mag: nat, base: nat, large: bool)
    requires 2 <= base <= 36
    ensures mag == 0 ==> Digits(mag, base, large) == "0"
    ensures mag > 0 ==> Digits(mag, base, large) != "" && Digits(mag, base, large)[0] != '0'
  {
    DigitsDenote(mag, base, large);
    ZeroDigit(large);
  }

  // ----- where _number deviates -----

  lemma OccursInPadded(c: char, front: string, body: string, width: int, left: bool, zeros: bool)
    ensures c in front || c in body ==> c in Padded(front, body, width, left, zeros)
    ensures c !in front && c !in body && c != ' ' && c != '0' ==> c !in Padded(front, body, width, left, zeros)
    ensures c !in front && c !in body && c != ' ' && (left || !zeros) ==> c !in Padded(front, body, width, left, zeros)
  {
    RepeatIs(' ', width - |front| - |body|);
    RepeatIs('0', width - |front| - |body|);
  }

  /** Zero with precision zero: C11 wants no digit. */
  lemma ZeroPrecisionDeviates(num: nat, base: nat, width: int, flags: Flags)
    requires num < WORD && (base == 8 || base == 10 || base == 16)
    requires Magnitude(num, flags) == 0 && !(flags.special && base == 8)
    ensures Number(num, base, width, 0, flags) != C11Number(num, base, width, 0, flags)
  {
    DigitsShape(0, base, flags.large);
    var front, body := Sign(num, flags) + Prefix(base, flags), Body(num, base, 0, flags);
    assert body == "0" && C11Body(0, base, 0, flags) == "" && '0' !in C11Front(num, base, flags);
    hide Padded, Repeat, Sign, Prefix, Body, C11Body, C11Front, Digits;
    NumberIsPadded(num, base, width, 0, flags);
    OccursInPadded('0', front, body, width, flags.left, flags.zero);
    OccursInPadded('0', C11Front(num, base, flags), "", width, flags.left, false);
  }

  /** Zero in hexadecimal with #: C11 wants no 0x. */
  lemma HexZeroDeviates(num: nat, width: int, precision: int, flags: Flags)
    requires num < WORD && Magnitude(num, flags) == 0 && !flags.sign && flags.special && precision != 0
    ensures Number(num, 16, width, precision, flags) != C11Number(num, 16, width, precision, flags)
  {
    DigitsShape(0, 16, flags.large);
    DigitCharValue(33, flags.large);
    RepeatIs('0', precision - 1);
    var x, front := DigitChar(33, flags.large), Sign(num, flags) + Prefix(16, flags);
    var body := C11Body(0, 16, precision, flags);
    assert x in front && x !in body && C11Front(num, 16, flags) == "" && x != ' ';
    hide Padded, Repeat, Sign, Prefix, Body, C11Body, C11Front, Digits;
    NumberIsPadded(num, 16, width, precision, flags);
    OccursInPadded(x, front, Body(num, 16, precision, flags), width, flags.left, flags.zero);
    OccursInPadded(x, "", body, width, flags.left, flags.zero && precision < 0);
  }

  /** A zero too many in front of the digits: it shows, unless zeros are padded with zeros anyway. */
  lemma ExtraZero(body: string, width: int, left: bool, zeros: bool, omitted: bool)
    requires body != "" && ' ' !in body && (omitted ==> body == "0")
    ensures Padded("0", body, width, left, zeros) == Padded("", body, width, left, zeros && omitted)
       <==> zeros && !left && omitted && width >= 2
  {
    var n := |body|;
    var out, c11 := Padded("0", body, width, left, zeros), Padded("", body, width, left, zeros && omitted);
    PaddedLength("0", body, width, left, zeros);
    PaddedLength("", body, width, left, zeros && omitted);
    if width > n {
      if zeros && !left && omitted {
        AllZeros(width);
      } else {
        var k: nat := if left then n else if zeros then 0 else width - n - 1;
        PaddedAt("0", body, width, left, zeros, k);
        PaddedAt("", body, width, left, zeros && omitted, k);
      }
    }
  }

  lemma AllZeros(width: int)
    requires width >= 2
    ensures Padded("0", "0", width, false, true) == Padded("", "0", width, false, true)
  {
    var out, c11 := Padded("0", "0", width, false, true), Padded("", "0", width, false, true);
    assert |out| == |c11|;
    forall k: nat | k < width
      ensures out[k] == c11[k]
    {
      PaddedAt("0", "0", width, false, true, k);
      PaddedAt("", "0", width, false, true, k);
    }
  }

  /** Zeros where C11 wants blanks. */
  lemma ZerosForBlanks(front: string, body: string, front1: string, body1: string, width: int)
    requires front + body == front1 + body1 && width > |front| + |body|
    requires front != "" && front[0] == ' ' ==> front1 == front && |front| == 1
    ensures Padded(front, body, width, false, true) != Padded(front1, body1, width, false, false)
  {
    assert |front + body| == |front1 + body1|;
    var k := if front != "" && front[0] == ' ' then 1 else 0;
    PaddedLength(front, body, width, false, true);
    PaddedLength(front1, body1, width, false, false);
    PaddedAt(front, body, width, false, true, k);
    PaddedAt(front1, body1, width, false, false, k);
  }

  /** Otherwise only what stands between the padding matters. */
  lemma SameCore(front: string, body: string, front1: string, body1: string, width: int, left: bool)
    requires front + body == front1 + body1
    ensures Padded(front, body, width, left, false) == Padded(front1, body1, width, left, false)
  {
    hide Repeat;
    assert |front + body| == |front1 + body1|;
    var blanks := Repeat(' ', width - |front| - |body|);
    assert blanks + front + body == blanks + (front + body) && blanks + front1 + body1 == blanks + (front1 + body1);
  }

  /** With nothing to pad, and with -, the flag 0 is of no account. */
  lemma NoZeros(front: string, body: string, front1: string, body1: string, width: int, left: bool, zeros: bool)
    requires front + body == front1 + body1 && (left || width <= |front| + |body|)
    ensures Padded(front, body, width, left, zeros) == Padded(front1, body1, width, left, false)
  {
    assert |front + body| == |front1 + body1|;
    SameCore(front, body, front1, body1, width, left);
    if !left {
      var pad := width - |front| - |body|;
      assert Repeat('0', pad) == "" && Repeat(' ', pad) == "" && front + "" == front && "" + front == front;
    }
  }

  lemma ZerosMove(digits: string, width: int)
    ensures Padded("0", digits, width, false, true) == Padded("", "0" + digits, width, false, true)
  {
    hide Repeat;
    var pad: nat := Max(width - 1 - |digits|, 0);
    SameRepeat('0', width - 1 - |digits|, pad);
    RepeatNext('0', pad);
    assert Repeat('0', pad + 1) == ['0'] + Repeat('0', pad) by { RepeatFirst('0', pad); }
    assert "0" + Repeat('0', pad) + digits == "" + (Repeat('0', pad) + ("0" + digits)) by {
      assert Repeat('0', pad) + ("0" + digits) == Repeat('0', pad) + ['0'] + digits;
    }
    assert "" + Repeat('0', pad) + ("0" + digits) == "" + (Repeat('0', pad) + ("0" + digits));
  }

  lemma RepeatFirst(c: char, n: nat)
    ensures Repeat(c, n + 1) == [c] + Repeat(c, n)
  {
  }

  // ----- exactly when -----

  /** %o with #. */
  lemma OctalIsC11Exactly(num: nat, width: int, precision: int, flags: Flags)
    requires num < WORD && !flags.sign && flags.special
    ensures Number(num, 8, width, precision, flags) == C11Number(num, 8, width, precision, flags)
       <==> MeetsC11(num, 8, width, precision, flags)
  {
    hide Padded, Digits, DigitValue, Repeat, Body, C11Body, ValueOf, Number;
    NumberIsPadded(num, 8, width, precision, flags);
    var digits, body := Digits(num, 8, flags.large), Body(num, 8, precision, flags);
    NoBlank(num, precision, flags);
    assert Sign(num, flags) + Prefix(8, flags) == "0" && C11Front(num, 8, flags) == "";
    if num == 0 || precision > |digits| {
      ZeroInFront(num, precision, flags);
      assert C11Body(num, 8, precision, flags) == body;
      ExtraZero(body, width, flags.left, flags.zero, precision < 0);
    } else {
      OneZeroInFront(num, precision, flags);
      OctalPadding(digits, width, precision, flags);
    }
  }

  lemma NoBlank(num: nat, precision: int, flags: Flags)
    requires num < WORD && !flags.sign
    ensures ' ' !in Body(num, 8, precision, flags) && Digits(num, 8, flags.large) != ""
    ensures Digits(num, 8, flags.large)[0] != ' '
  {
    hide Body, Digits, ValueOf;
    BodyDenotes(num, 8, precision, flags);
    DigitsDenote(num, 8, flags.large);
    assert DigitValue(' ') == 36;
  }

  /** The C11 body is the one of _number already. */
  lemma ZeroInFront(num: nat, precision: int, flags: Flags)
    requires num < WORD && !flags.sign && flags.special
    requires num == 0 || precision > |Digits(num, 8, flags.large)|
    ensures C11Body(num, 8, precision, flags) == Body(num, 8, precision, flags) != ""
    ensures precision < 0 ==> Body(num, 8, precision, flags) == "0"
  {
    DigitsShape(num, 8, flags.large);
    RepeatIs('0', precision - |Digits(num, 8, flags.large)|);
  }

  lemma OneZeroInFront(num: nat, precision: int, flags: Flags)
    requires 0 < num < WORD && !flags.sign && flags.special && precision <= |Digits(num, 8, flags.large)|
    ensures Body(num, 8, precision, flags) == Digits(num, 8, flags.large) != ""
    ensures C11Body(num, 8, precision, flags) == "0" + Digits(num, 8, flags.large)
  {
    DigitsShape(num, 8, flags.large);
  }

  lemma OctalPadding(digits: string, width: int, precision: int, flags: Flags)
    requires digits != "" && digits[0] != ' '
    ensures Padded("0", digits, width, flags.left, flags.zero)
            == Padded("", "0" + digits, width, flags.left, flags.zero && precision < 0)
       <==> !(flags.zero && !flags.left && precision >= 0 && width > 1 + |digits|)
  {
    hide Padded;
    assert "0" + digits == "" + ("0" + digits);
    if !flags.zero {
      SameCore("0", digits, "", "0" + digits, width, flags.left);
    } else if flags.left || (precision >= 0 && width <= 1 + |digits|) {
      NoZeros("0", digits, "", "0" + digits, width, flags.left, true);
      NoZeros("", "0" + digits, "", "0" + digits, width, flags.left, precision < 0);
    } else if precision < 0 {
      ZerosMove(digits, width);
    } else {
      ZerosForBlanks("0", digits, "", "0" + digits, width);
    }
  }

  /** _number prints what C11 asks for under exactly this condition, for every number, width,
      precision and flag; and a negative precision, which the code replaces by 0, makes no difference
      to it. */
  lemma NumberIsC11Exactly(num: nat, base: nat, width: int, precision: int, flags: Flags)
    requires num < WORD && (base == 8 || base == 10 || base == 16) && (flags.sign ==> base == 10)
    ensures Number(num, base, width, precision, flags) == C11Number(num, base, width, precision, flags)
       <==> MeetsC11(num, base, width, precision, flags)
    ensures Number(num, base, width, Max(precision, 0), flags) == Number(num, base, width, precision, flags)
  {
    NegativePrecision(num, base, width, precision, flags);
    hide Padded, Number, C11Number;
    if flags.special && base == 8 {
      OctalIsC11Exactly(num, width, precision, flags);
    } else if Magnitude(num, flags) == 0 && precision == 0 {
      ZeroPrecisionDeviates(num, base, width, flags);
    } else if Magnitude(num, flags) == 0 && flags.special && base == 16 {
      HexZeroDeviates(num, width, precision, flags);
    } else {
      PlainPadding(num, base, width, precision, flags);
    }
  }

  lemma NegativePrecision(num: nat, base: nat, width: int, precision: int, flags: Flags)
    requires num < WORD && 2 <= base <= 36
    ensures Number(num, base, width, Max(precision, 0), flags) == Number(num, base, width, precision, flags)
  {
    DigitsDenote(Magnitude(num, flags), base, flags.large);
  }

  lemma SameFront(num: nat, base: nat, flags: Flags)
    requires num < WORD && (flags.sign ==> base == 10) && !(flags.special && base == 8)
    requires Magnitude(num, flags) == 0 ==> !(flags.special && base == 16)
    ensures var front := Sign(num, flags) + Prefix(base, flags);
            front == C11Front(num, base, flags) && (front != "" && front[0] == ' ' ==> |front| == 1)
  {
  }

  lemma SameBody(num: nat, base: nat, precision: int, flags: Flags)
    requires num < WORD && 2 <= base <= 36 && !(flags.special && base == 8)
    requires Magnitude(num, flags) == 0 ==> precision != 0
    ensures Body(num, base, precision, flags) == C11Body(Magnitude(num, flags), base, precision, flags)
    ensures Least(num, base, precision, flags)
            == |Sign(num, flags) + Prefix(base, flags)| + |Body(num, base, precision, flags)|
  {
    hide Digits, Sign, Prefix, Magnitude;
  }

  lemma PlainPadding(num: nat, base: nat, width: int, precision: int, flags: Flags)
    requires num < WORD && (base == 8 || base == 10 || base == 16) && (flags.sign ==> base == 10)
    requires !(flags.special && base == 8)
    requires Magnitude(num, flags) == 0 ==> precision != 0 && !(flags.special && base == 16)
    ensures Number(num, base, width, precision, flags) == C11Number(num, base, width, precision, flags)
       <==> !(flags.zero && !flags.left && precision >= 0 && width > Least(num, base, precision, flags))
  {
    hide Padded, Sign, Prefix, Body, C11Front, C11Body, Number, Digits, Magnitude, Least;
    NumberIsPadded(num, base, width, precision, flags);
    var front, body := Sign(num, flags) + Prefix(base, flags), Body(num, base, precision, flags);
    SameFront(num, base, flags);
    SameBody(num, base, precision, flags);
    if flags.zero && precision >= 0 {
      if flags.left || width <= |front| + |body| {
        NoZeros(front, body, front, body, width, flags.left, true);
      } else {
        ZerosForBlanks(front, body, front, body, width);
      }
    }
  }

  // ----- inputs -----

  /** %#x of 0. */
  lemma HashHexZero()
    ensures var hash := NO_FLAGS.(special := true);
            Number(0, 16, -1, -1, hash) == "0x0" && C11Number(0, 16, -1, -1, hash) == "0"
  {
    DigitsShape(0, 16, false);
    hide Digits;
  }

  /** %#o of 0. */
  lemma HashOctalZero()
    ensures var hash := NO_FLAGS.(special := true);
            Number(0, 8, -1, -1, hash) == "00" && C11Number(0, 8, -1, -1, hash) == "0"
  {
    DigitsShape(0, 8, false);
    hide Digits;
  }

  /** %.0d of 0. */
  lemma ZeroPrecisionZero()
    ensures Number(0, 10, -1, 0, NO_FLAGS) == "0" && C11Number(0, 10, -1, 0, NO_FLAGS) == ""
  {
    DigitsShape(0, 10, false);
    hide Digits;
  }

  /** %05.3d of 7. */
  lemma ZeroFlagWithPrecision()
    ensures var zero := NO_FLAGS.(zero := true, sign := true);
            Number(7, 10, 5, 3, zero) == "00007" && C11Number(7, 10, 5, 3, zero) == "  007"
  {
    assert Digits(7, 10, false) == "7";
    hide Digits;
    assert Repeat('0', 2) == "00" && Repeat(' ', 2) == "  ";
    assert Body(7, 10, 3, NO_FLAGS.(zero := true, sign := true)) == "007";
  }
}
