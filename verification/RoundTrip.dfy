/** Printing a number and reading it back with `strtol` (lib/printfmt.c, lib/string.c). */
module RoundTrip {
  import opened Machine
  import opened Numerals
  import opened PrintFormat

  const SPACE := 0x20
  const ZERO := 0x30
  const MINUS := 0x2d

  /** Printed digits are read back as those digits, up to the first character that is none. */
  lemma {:induction false} DigitsRead(ds: seq<int>, base: int, tail: seq<int>)
    requires base <= 16 && AreDigits(ds, base)
    requires tail != [] && !IsDigit(tail[0], base)
    ensures DigitRun(DigitChars(ds) + tail, base) == ds
    decreases |ds|
  {
    var text := DigitChars(ds) + tail;
    if ds == [] {
      assert text == tail;
    } else {
      assert text[0] == DigitChar(ds[0]) && DigitOf(text[0]) == ds[0];
      assert text[1..] == DigitChars(ds[1..]) + tail;
      DigitsRead(ds[1..], base, tail);
    }
  }

  lemma {:induction false} BlanksSkipped(n: nat, tail: seq<int>)
    requires tail != [] && !IsBlank(tail[0])
    ensures SkipBlanks(Repeat(SPACE, n) + tail) == n
  {
    var text := Repeat(SPACE, n) + tail;
    if n == 0 {
      assert text == tail;
    } else {
      assert text[1..] == Repeat(SPACE, n - 1) + tail;
      BlanksSkipped(n - 1, tail);
    }
  }

  /** The parts that `strtol` finds one after the other. */
  lemma StrtolParts(s: seq<int>, base: int, neg: bool, ds: seq<int>)
    requires var i := SkipBlanks(s);
             && i < |s| && (if neg then s[i] == MINUS else s[i] != MINUS && s[i] != '+' as int)
             && var rest := if neg then s[i + 1..] else s[i..];
                Prefix(rest, base) == (base, 0) && DigitRun(rest, base) == ds
    ensures StrtolSpec(s, base)
            == (ToInt32(if neg then -Value(ds, base) else Value(ds, base)),
                SkipBlanks(s) + (if neg then 1 else 0) + |ds|)
  {
    hide SkipBlanks, Prefix, DigitRun, Value, ToInt32;
    var j := if neg then SkipBlanks(s) + 1 else SkipBlanks(s);
    assert s[j + 0..] == s[j..];
  }

  /** Printed digits never look like a prefix. */
  lemma DigitsNoPrefix(ds: seq<int>, base: int)
    requires 2 <= base <= 16 && |ds| > 0 && AreDigits(ds, base)
    ensures Prefix(DigitChars(ds) + [0], base) == (base, 0)
    ensures var c := (DigitChars(ds) + [0])[0]; c != MINUS && c != '+' as int && !IsBlank(c)
  {
    assert |ds| > 1 ==> (DigitChars(ds) + [0])[1] == DigitChar(ds[1]) != 0x78;
    assert (DigitChars(ds) + [0])[0] == DigitChar(ds[0]);
  }

  /** What `strtol` makes of blanks, an optional minus sign and digits in the expected base. */
  lemma NumeralRead(blanks: nat, neg: bool, ds: seq<int>, base: int)
    requires 2 <= base <= 16 && |ds| > 0 && AreDigits(ds, base)
    ensures var text := Repeat(SPACE, blanks) + (if neg then [MINUS] else []) + DigitChars(ds);
            StrtolSpec(text + [0], base)
            == (ToInt32(if neg then -Value(ds, base) else Value(ds, base)), |text|)
  {
    hide Value, ToInt32, DigitRun, SkipBlanks, Prefix, StrtolSpec, DigitChars, IsDigit;
    var digits := DigitChars(ds) + [0];
    var tail := (if neg then [MINUS] else []) + digits;
    var text := Repeat(SPACE, blanks) + (if neg then [MINUS] else []) + DigitChars(ds) + [0];
    DigitsNoPrefix(ds, base);
    assert tail[0] == if neg then MINUS else digits[0];
    BlanksSkipped(blanks, tail);
    assert text == Repeat(SPACE, blanks) + tail;
    assert text[blanks] == tail[0] && text[blanks..] == tail && text[blanks + 1..] == tail[1..];
    assert tail == if neg then [MINUS] + digits else digits;
    NulIsNoDigit(base);
    DigitsRead(ds, base, [0]);
    StrtolParts(text, base, neg, ds);
  }

  lemma NulIsNoDigit(base: int)
    ensures !IsDigit(0, base)
  {
  }

  /** Digits with zeros in front of them. */
  function Extended(ds: seq<int>, width: int): seq<int> {
    Repeat(0, Gap(width, |ds|)) + ds
  }

  lemma ExtendedDigits(ds: seq<int>, base: int, width: int)
    requires 2 <= base <= 16 && AreDigits(ds, base) && |ds| > 0
    ensures AreDigits(Extended(ds, width), base) && |Extended(ds, width)| > 0
    ensures DigitChars(Extended(ds, width)) == Repeat(ZERO, Gap(width, |ds|)) + DigitChars(ds)
  {
    hide Gap;
  }

  lemma ExtendedValue(ds: seq<int>, base: int, width: int)
    ensures Value(Extended(ds, width), base) == Value(ds, base)
  {
    hide Gap;
    var gap := Gap(width, |ds|);
    var n := if gap < 0 then 0 else gap;
    assert Repeat(0, gap) == Repeat(0, n);
    LeadingZeros(n, ds, base);
  }

  /** Zero padding is more digits of the same value. */
  lemma ZeroPadding(num: nat, base: int, width: int)
    requires 2 <= base <= 16
    ensures var all := Extended(Digits(num, base), width);
            && |all| > 0 && AreDigits(all, base)
            && NumberText(num, base, width, ZERO) == DigitChars(all) && Value(all, base) == num
  {
    hide Digits, Value, Extended, Repeat;
    ExtendedDigits(Digits(num, base), base, width);
    ExtendedValue(Digits(num, base), base, width);
    DigitsValue(num, base);
  }

  lemma SmallIsItself(v: int)
    requires -0x8000_0000 <= v < 0x8000_0000
    ensures ToInt32(v) == v
  {
  }

  /** The pad characters a directive can ask for. */
  predicate IsPad(c: int) {
    c == SPACE || c == ZERO || c == MINUS
  }

  /** No directive pads with anything else. */
  lemma {:induction false} DirectivePads(fmt: seq<Byte>, i: nat, va: VaList, arg: nat, f: Flags)
    requires IsFormat(fmt) && i < |fmt| && IsPad(f.padc)
    ensures IsPad(Modifiers(fmt, i, va, arg, f).flags.padc)
    decreases |fmt| - i
  {
    hide ToInt32, Decimal, NumberEnd, IsModifier, VaList.Int;
    var c := fmt[i];
    if c == MINUS || c == ZERO {
      DirectivePads(fmt, i + 1, va, arg, f.(padc := c));
    } else if IsDecimal(c) {
      var j := NumberEnd(fmt, i + 1);
      DirectivePads(fmt, j, va, arg, f.Number(ToInt32(Decimal(fmt[i..j]))));
    } else if c == '*' as int {
      DirectivePads(fmt, i + 1, va, arg + 1, f.Number(va.Int(arg)));
    } else if c == '.' as int {
      DirectivePads(fmt, i + 1, va, arg, if f.width < 0 then f.(width := 0) else f);
    } else if c == '#' as int {
      DirectivePads(fmt, i + 1, va, arg, f.(alt := true));
    } else if c == 'l' as int {
      DirectivePads(fmt, i + 1, va, arg, f.(lflag := f.lflag + 1));
    }
  }

  /** A blank or a second dash after a minus sign ends the number before it began. */
  lemma SignStops(text: seq<int>, base: int)
    requires 2 <= base <= 16 && |text| >= 2
    requires text[0] == MINUS && (text[1] == SPACE || text[1] == MINUS)
    ensures StrtolSpec(text + [0], base).1 == 1
  {
    var s := text + [0];
    var c := s[1];
    assert s[0] == MINUS && s[1..][0] == c && !IsDigit(c, base);
    assert SkipBlanks(s) == 0;
    assert Prefix(s[1..], base) == (base, 0);
    assert s[1 + 0..] == s[1..];
    assert DigitRun(s[1..], base) == [];
  }

  function Abs(v: int): nat {
    if v < 0 then -v else v
  }

  /** The padding is made of digits, or of blanks before the number, or there is none. */
  predicate PadsHarmlessly(neg: bool, padc: int, gap: int) {
    padc == ZERO || gap <= 0 || (padc == SPACE && !neg)
  }

  lemma HarmlessPadding(neg: bool, num: int, base: int, width: int, padc: int)
    requires num >= 0 && 2 <= base <= 16 && IsPad(padc)
    requires PadsHarmlessly(neg, padc, Gap(width, |Digits(num, base)|))
    ensures var text := (if neg then [MINUS] else []) + NumberText(num, base, width, padc);
            StrtolSpec(text + [0], base) == (ToInt32(if neg then -num else num), |text|)
  {
    hide Digits, StrtolSpec, ToInt32, Value, Gap, Extended, DigitChars;
    var ds := Digits(num, base);
    var gap := Gap(width, |ds|);
    var sign := if neg then [MINUS] else [];
    DigitsValue(num, base);
    if padc == ZERO {
      var all := Extended(ds, width);
      ZeroPadding(num, base, width);
      NumeralRead(0, neg, all, base);
      assert sign + DigitChars(all) == Repeat(SPACE, 0) + sign + DigitChars(all);
    } else if gap <= 0 {
      NumeralRead(0, neg, ds, base);
      assert sign + NumberText(num, base, width, padc) == Repeat(SPACE, 0) + sign + DigitChars(ds);
    } else {
      NumeralRead(gap, false, ds, base);
      assert sign + NumberText(num, base, width, padc) == Repeat(SPACE, gap) + [] + DigitChars(ds);
    }
  }

  /** Otherwise a single dash reads as a sign, and everything else after a sign ends the number. */
  lemma HarmfulPadding(neg: bool, num: int, base: int, width: int, padc: int)
    requires num >= 0 && 2 <= base <= 16 && IsPad(padc)
    requires !PadsHarmlessly(neg, padc, Gap(width, |Digits(num, base)|))
    ensures var text := (if neg then [MINUS] else []) + NumberText(num, base, width, padc);
            if !neg && Gap(width, |Digits(num, base)|) == 1
            then StrtolSpec(text + [0], base) == (ToInt32(-num), |text|)
            else StrtolSpec(text + [0], base).1 == 1 < |text|
  {
    hide Digits, StrtolSpec, ToInt32, Value, Gap, DigitChars;
    var ds := Digits(num, base);
    var gap := Gap(width, |ds|);
    var text := (if neg then [MINUS] else []) + NumberText(num, base, width, padc);
    if !neg && gap == 1 {
      DigitsValue(num, base);
      NumeralRead(0, true, ds, base);
      assert text == Repeat(SPACE, 0) + [MINUS] + DigitChars(ds);
    } else {
      assert text[1] == padc;
      SignStops(text, base);
    }
  }

  /**
   * `%d` then `strtol` in base 10 gives a number that fits into a `long` back
   * and reads all of it, for every pad character and every width, except when
   * there is padding between the minus sign and the digits that is not zeros, or
   * when the padding looks like a sign (a lone dash before a zero does no harm).
   */
  lemma IntRoundTrip(v: int, width: int, padc: int)
    requires IsPad(padc)
    ensures var text, gap := IntText(v, width, padc), Gap(width, |Digits(Abs(v), 10)|);
            StrtolSpec(text + [0], 10) == (v, |text|)
            <==> -0x8000_0000 <= v < 0x8000_0000
                 && (padc == ZERO || gap <= 0 || (padc == SPACE && v >= 0) || (padc == MINUS && v == 0 && gap == 1))
  {
    hide Digits, NumberText, StrtolSpec, Gap;
    var neg, num := v < 0, Abs(v);
    var text := (if neg then [MINUS] else []) + NumberText(num, 10, width, padc);
    assert text == IntText(v, width, padc);
    if PadsHarmlessly(neg, padc, Gap(width, |Digits(num, 10)|)) {
      HarmlessPadding(neg, num, 10, width, padc);
    } else {
      HarmfulPadding(neg, num, 10, width, padc);
    }
  }

  /** "%-2d" */
  const DASH_FORMAT: seq<Byte> := [PERCENT, MINUS, '2' as int, 'd' as int, 0]

  lemma DashDirective(va: VaList)
    ensures IsFormat(DASH_FORMAT)
    ensures Modifiers(DASH_FORMAT, 1, va, 0, PLAIN) == Directive(3, 0, PLAIN.(padc := MINUS, width := 2))
  {
    var fmt := DASH_FORMAT;
    assert fmt[2..3] == [fmt[2]] && fmt[2..3][..0] == [];
    assert Decimal(fmt[2..3]) == 2;
    assert NumberEnd(fmt, 3) == 3;
    var f := PLAIN.(padc := MINUS);
    assert Modifiers(fmt, 3, va, 0, f.(width := 2)) == Directive(3, 0, f.(width := 2));
    assert Modifiers(fmt, 2, va, 0, f) == Directive(3, 0, f.(width := 2));
  }

  /** `%-2d` prints 5 as "-5", which is read back as another number. */
  lemma DashExample(va: VaList)
    requires va.Int(0) == 5
    ensures IsFormat(DASH_FORMAT) && Format(DASH_FORMAT, 0, va, 0) == [MINUS, '5' as int]
    ensures StrtolSpec([MINUS, '5' as int, 0], 10) == (-5, 2)
  {
    hide Modifiers, StrtolSpec, IntText;
    DashDirective(va);
    FormatStep(DASH_FORMAT, 0, va, 0);
    FormatStep(DASH_FORMAT, 4, va, 1);
    DashText();
  }

  lemma DashText()
    ensures IntText(5, 2, MINUS) == [MINUS, '5' as int]
    ensures StrtolSpec([MINUS, '5' as int, 0], 10) == (-5, 2)
  {
    hide StrtolSpec;
    assert Digits(5, 10) == [5];
    HarmfulPadding(false, 5, 10, 2, MINUS);
    assert [] + NumberText(5, 10, 2, MINUS) + [0] == [MINUS, '5' as int, 0];
  }

  /**
   * `%u`, `%x` and `%o` then `strtol` in the same base: the number comes back
   * and all of it is read exactly if it fits into a `long` and the padding does
   * not look like a sign.  A larger one comes back modulo 2^32.
   */
  lemma UnsignedRoundTrip(v: nat, base: int, width: int, padc: int)
    requires (base == 8 || base == 10 || base == 16) && IsPad(padc)
    ensures var text, gap := NumberText(v, base, width, padc), Gap(width, |Digits(v, base)|);
            && (StrtolSpec(text + [0], base) == (v, |text|)
                <==> v < 0x8000_0000 && (padc != MINUS || gap <= 0 || (v == 0 && gap == 1)))
            && (padc != MINUS || gap <= 0 ==> StrtolSpec(text + [0], base) == (ToInt32(v), |text|))
  {
    hide Digits, NumberText, StrtolSpec, Gap;
    assert [] + NumberText(v, base, width, padc) == NumberText(v, base, width, padc);
    if PadsHarmlessly(false, padc, Gap(width, |Digits(v, base)|)) {
      HarmlessPadding(false, v, base, width, padc);
    } else {
      HarmfulPadding(false, v, base, width, padc);
    }
  }

  lemma HexRead(ds: seq<int>, base: int)
    requires (base == 0 || base == 16) && |ds| > 0 && AreDigits(ds, 16)
    ensures var text := [ZERO, 0x78] + DigitChars(ds);
            StrtolSpec(text + [0], base) == (ToInt32(Value(ds, 16)), |text|)
  {
    hide Value, ToInt32, DigitRun;
    var s := [ZERO, 0x78] + DigitChars(ds) + [0];
    assert SkipBlanks(s) == 0;
    assert s[0..] == s;
    assert Prefix(s, base) == (16, 2);
    assert s[0 + 2..] == DigitChars(ds) + [0];
    DigitsRead(ds, 16, [0]);
  }

  /** Anything but a digit after the prefix ends the number there. */
  lemma PrefixStops(text: seq<int>, base: int)
    requires (base == 0 || base == 16) && |text| >= 3
    requires text[0] == ZERO && text[1] == 0x78 && (text[2] == SPACE || text[2] == MINUS)
    ensures StrtolSpec(text + [0], base).1 == 2
  {
    var s := text + [0];
    assert SkipBlanks(s) == 0 && s[0..] == s;
    assert Prefix(s, base) == (16, 2);
    assert s[0 + 2..][0] == text[2];
    assert DigitRun(s[0 + 2..], 16) == [];
  }

  /**
   * `%p` then `strtol` with the base given as 16 or left open: the pointer comes
   * back and all of it is read exactly if it fits into a `long` and nothing but
   * zeros stands between the prefix and the digits.
   */
  lemma PointerRoundTrip(v: nat, base: int, width: int, padc: int)
    requires (base == 0 || base == 16) && IsPad(padc)
    ensures var text := [ZERO, 0x78] + NumberText(v, 16, width, padc);
            && (StrtolSpec(text + [0], base) == (v, |text|)
                <==> v < 0x8000_0000 && (padc == ZERO || Gap(width, |Digits(v, 16)|) <= 0))
            && (padc == ZERO || Gap(width, |Digits(v, 16)|) <= 0
                ==> StrtolSpec(text + [0], base) == (ToInt32(v), |text|))
  {
    hide Digits, Value, StrtolSpec, DigitChars, AreDigits, Gap, Extended;
    var ds := Digits(v, 16);
    var text := [ZERO, 0x78] + NumberText(v, 16, width, padc);
    if padc == ZERO {
      ZeroPadding(v, 16, width);
      HexRead(Extended(ds, width), base);
    } else if Gap(width, |ds|) <= 0 {
      DigitsValue(v, 16);
      HexRead(ds, base);
      assert NumberText(v, 16, width, padc) == DigitChars(ds);
    } else {
      assert text[2] == padc;
      PrefixStops(text, base);
    }
  }

  // ---------- What strtol reads ----------

  /** The character of a digit, by its code: a decimal digit or a letter of either case. */
  predicate CharOfDigit(c: int, d: int) {
    (0 <= d < 10 && c == 0x30 + d) || (10 <= d < 36 && (c == 0x61 + d - 10 || c == 0x41 + d - 10))
  }

  predicate CharsOfDigits(cs: seq<int>, ds: seq<int>, base: int) {
    |cs| == |ds| && forall i :: 0 <= i < |cs| ==> CharOfDigit(cs[i], ds[i]) && 0 <= ds[i] < base
  }

  /** A prefix and the base it stands for, in front of `rest`. */
  predicate IsPrefix(base: int, prefix: seq<int>, b: int, rest: seq<int>) {
    || ((base == 0 || base == 16) && prefix == ['0' as int, 'x' as int] && b == 16)
    || (base == 0 && prefix == ['0' as int] && b == 8 && rest != [] && rest[0] != 'x' as int)
    || (base == 0 && prefix == [] && b == 10 && rest != [] && rest[0] != '0' as int)
    || (2 <= base <= 36 && prefix == [] && b == base && !(b == 16 && |rest| > 1 && rest[1] == 'x' as int))
  }

  lemma {:induction false} CharsRead(cs: seq<int>, ds: seq<int>, base: int, tail: seq<int>)
    requires CharsOfDigits(cs, ds, base) && tail != []
    requires forall d :: 0 <= d < base ==> !CharOfDigit(tail[0], d)
    requires base <= 36
    ensures DigitRun(cs + tail, base) == ds
    decreases |cs|
  {
    var s := cs + tail;
    if cs == [] {
      assert s == tail;
      assert IsDigit(tail[0], base) ==> CharOfDigit(tail[0], DigitOf(tail[0]));
    } else {
      assert s[0] == cs[0] && s[1..] == cs[1..] + tail;
      assert CharOfDigit(cs[0], ds[0]) && DigitOf(cs[0]) == ds[0];
      CharsRead(cs[1..], ds[1..], base, tail);
    }
  }

  lemma {:induction false} BlanksRead(blanks: seq<int>, tail: seq<int>)
    requires forall i :: 0 <= i < |blanks| ==> blanks[i] == 0x20 || blanks[i] == 9
    requires tail != [] && tail[0] != 0x20 && tail[0] != 9
    ensures SkipBlanks(blanks + tail) == |blanks|
  {
    if blanks == [] {
      assert blanks + tail == tail;
    } else {
      assert (blanks + tail)[1..] == blanks[1..] + tail;
      BlanksRead(blanks[1..], tail);
    }
  }

  lemma PrefixRead(base: int, prefix: seq<int>, b: int, rest: seq<int>)
    requires IsPrefix(base, prefix, b, rest)
    ensures Prefix(prefix + rest, base) == (b, |prefix|)
  {
    var s := prefix + rest;
    assert prefix == [] ==> s == rest;
  }

  /**
   * `strtol` on blanks, a sign, a prefix and digits with anything else behind
   * them: the value in the base that was given or that the prefix stands for,
   * and all of it is read but what is behind.
   */
  lemma StrtolReads(
    blanks: seq<int>, sign: seq<int>, prefix: seq<int>, cs: seq<int>, ds: seq<int>, tail: seq<int>, base: int, b: int)
    requires forall i :: 0 <= i < |blanks| ==> blanks[i] == 0x20 || blanks[i] == 9
    requires sign == [] || sign == ['+' as int] || sign == ['-' as int]
    requires IsPrefix(base, prefix, b, cs + tail)
    requires CharsOfDigits(cs, ds, b) && |prefix| + |cs| > 0
    requires tail != [] && forall d :: 0 <= d < b ==> !CharOfDigit(tail[0], d)
    ensures StrtolSpec(blanks + sign + prefix + cs + tail, base)
            == (ToInt32(if sign == ['-' as int] then -Value(ds, b) else Value(ds, b)),
                |blanks| + |sign| + |prefix| + |cs|)
  {
    hide Value, ToInt32, DigitRun, SkipBlanks, Prefix, CharOfDigit, CharsOfDigits, IsPrefix, StrtolSpec;
    NumberStarts(prefix, cs, ds, tail, base, b);
    PrefixRead(base, prefix, b, cs + tail);
    CharsRead(cs, ds, b, tail);
    StrtolShaped(blanks, sign, prefix, cs + tail, ds, base, b);
    Regrouped(blanks, sign, prefix, cs, tail);
  }

  lemma StrtolShaped(
    blanks: seq<int>, sign: seq<int>, prefix: seq<int>, digits: seq<int>, ds: seq<int>, base: int, b: int)
    requires forall i :: 0 <= i < |blanks| ==> blanks[i] == 0x20 || blanks[i] == 9
    requires sign == [] || sign == ['+' as int] || sign == ['-' as int]
    requires prefix + digits != []
    requires var c := (prefix + digits)[0]; c != 0x20 && c != 9 && c != '+' as int && c != '-' as int
    requires Prefix(prefix + digits, base) == (b, |prefix|) && DigitRun(digits, b) == ds
    ensures StrtolSpec(blanks + (sign + (prefix + digits)), base)
            == (ToInt32(if sign == ['-' as int] then -Value(ds, b) else Value(ds, b)),
                |blanks| + |sign| + |prefix| + |ds|)
  {
    hide Value, ToInt32, DigitRun, SkipBlanks, Prefix, StrtolSpec;
    var number := prefix + digits;
    var signed := sign + number;
    BlanksRead(blanks, signed);
    Pieces(blanks, sign, prefix, digits);
    StrtolPieces(blanks + signed, |blanks|, sign, |prefix|, base, b, ds);
  }

  lemma Regrouped(a: seq<int>, b: seq<int>, c: seq<int>, d: seq<int>, e: seq<int>)
    ensures a + b + c + d + e == a + (b + (c + (d + e)))
  {
  }

  lemma Pieces(a: seq<int>, b: seq<int>, c: seq<int>, d: seq<int>)
    ensures var s := a + (b + (c + d));
            s[|a|..] == b + (c + d) && s[|a| + |b|..] == c + d && s[|a| + |b| + |c|..] == d
    ensures var s := a + (b + (c + d)); b + (c + d) != [] ==> s[|a|] == (b + (c + d))[0]
  {
  }

  lemma StrtolPieces(s: seq<int>, i: nat, sign: seq<int>, n: nat, base: int, b: int, ds: seq<int>)
    requires i < |s| && SkipBlanks(s) == i
    requires sign == if s[i] == '+' as int || s[i] == '-' as int then [s[i]] else []
    requires i + |sign| + n <= |s|
    requires Prefix(s[i + |sign|..], base) == (b, n) && DigitRun(s[i + |sign| + n..], b) == ds
    ensures StrtolSpec(s, base)
            == (ToInt32(if sign == ['-' as int] then -Value(ds, b) else Value(ds, b)), i + |sign| + n + |ds|)
  {
    hide Value, ToInt32, DigitRun, SkipBlanks, Prefix;
  }

  lemma NumberStarts(prefix: seq<int>, cs: seq<int>, ds: seq<int>, tail: seq<int>, base: int, b: int)
    requires IsPrefix(base, prefix, b, cs + tail) && CharsOfDigits(cs, ds, b) && |prefix| + |cs| > 0
    ensures var c := (prefix + (cs + tail))[0];
            c != 0x20 && c != 9 && c != '+' as int && c != '-' as int && b <= 36 && |cs| == |ds|
  {
    if prefix == [] {
      assert (prefix + (cs + tail))[0] == cs[0] && CharOfDigit(cs[0], ds[0]);
    }
  }

  // ---------- Through a directive ----------

  /** The number that a numeric conversion prints. */
  function NumberOf(va: VaList, c: Byte, k: nat, f: Flags): int {
    if c == 'd' as int then va.SignedArg(k, f.lflag)
    else if c == 'p' as int then va.word(k)
    else va.UnsignedArg(k, f.lflag)
  }

  function BaseOf(c: Byte): int {
    if c == 'o' as int then 8 else if c == 'x' as int || c == 'p' as int then 16 else 10
  }

  /** Whether the padding of a numeric conversion lets `strtol` read the number back. */
  predicate Readable(v: int, c: Byte, f: Flags) {
    var gap := Gap(f.width, |Digits(Abs(v), BaseOf(c))|);
    || f.padc == ZERO || gap <= 0
    || (c != 'p' as int && f.padc == SPACE && v >= 0)
    || (c != 'p' as int && f.padc == MINUS && v == 0 && gap == 1)
  }

  /**
   * Any numeric directive of any format: what it prints comes back through
   * `strtol` exactly if the number fits into a `long` and its padding allows it.
   */
  lemma DirectiveRoundTrip(fmt: seq<Byte>, i: nat, va: VaList, arg: nat)
    requires IsFormat(fmt) && i < |fmt|
    requires var c := fmt[Modifiers(fmt, i, va, arg, PLAIN).at]; IsNumeric(c) || c == 'p' as int
    ensures var d := Modifiers(fmt, i, va, arg, PLAIN);
            var c := fmt[d.at];
            var v, text := NumberOf(va, c, d.arg, d.flags), Render(va, c, d.arg, d.flags);
            StrtolSpec(text + [0], BaseOf(c)) == (v, |text|)
            <==> -0x8000_0000 <= v < 0x8000_0000 && Readable(v, c, d.flags)
  {
    hide Digits, NumberText, StrtolSpec, Modifiers, IntText, Gap;
    DirectivePads(fmt, i, va, arg, PLAIN);
    var d := Modifiers(fmt, i, va, arg, PLAIN);
    var c, f := fmt[d.at], d.flags;
    var v := NumberOf(va, c, d.arg, f);
    if c == 'd' as int {
      IntRoundTrip(v, f.width, f.padc);
    } else if c == 'p' as int {
      PointerRoundTrip(v, 16, f.width, f.padc);
      assert Ascii("0x") == [ZERO, 0x78];
    } else {
      UnsignedRoundTrip(v, BaseOf(c), f.width, f.padc);
    }
  }

  // ---------- Through a whole format ----------

  lemma {:induction false} DecimalOfDigits(ds: seq<int>)
    requires AreDigits(ds, 10)
    ensures Decimal(DigitChars(ds)) == Value(ds, 10)
    decreases |ds|
  {
    if ds != [] {
      var n := |ds| - 1;
      assert DigitChars(ds)[..n] == DigitChars(ds[..n]);
      DecimalOfDigits(ds[..n]);
    }
  }

  lemma {:induction false} LeadingDigit(num: nat)
    requires num > 0
    ensures Digits(num, 10)[0] > 0
    decreases num
  {
    if num >= 10 {
      LeadingDigit(num / 10);
    }
  }

  /** "%0", the digits of `w`, "d". */
  function ZeroPaddedFormat(w: nat): seq<Byte> {
    [PERCENT, ZERO] + DigitChars(Digits(w, 10)) + ['d' as int, 0]
  }

  lemma ZeroPaddedShape(w: nat)
    requires 0 < w
    ensures var fmt, end := ZeroPaddedFormat(w), 2 + |Digits(w, 10)|;
            && IsFormat(fmt)
            && fmt[1] == ZERO && fmt[2] != ZERO && fmt[end] == 'd' as int && |fmt| == end + 2
            && IsDecimal(fmt[2]) && NumberEnd(fmt, 3) == end
            && fmt[2..end] == DigitChars(Digits(w, 10))
  {
    var ds := Digits(w, 10);
    var fmt, end := ZeroPaddedFormat(w), 2 + |ds|;
    hide Digits;
    forall i | 2 <= i < end
      ensures fmt[i] == DigitChar(ds[i - 2]) && IsDecimal(fmt[i])
    {
    }
    assert !IsDecimal(fmt[end]);
    LeadingDigit(w);
  }

  lemma ZeroPaddedDirective(w: nat, va: VaList)
    requires 0 < w < 0x8000_0000
    ensures var fmt := ZeroPaddedFormat(w);
            && IsFormat(fmt)
            && Modifiers(fmt, 1, va, 0, PLAIN) == Directive(|fmt| - 2, 0, PLAIN.(padc := ZERO, width := w))
  {
    hide Digits, Decimal, ZeroPaddedFormat, DigitChars, Value, NumberEnd;
    var ds := Digits(w, 10);
    var fmt, end := ZeroPaddedFormat(w), 2 + |ds|;
    ZeroPaddedShape(w);
    DecimalOfDigits(ds);
    DigitsValue(w, 10);
    SmallIsItself(w);
    var f := PLAIN.(padc := ZERO);
    assert Modifiers(fmt, end, va, 0, f.(width := w)) == Directive(end, 0, f.(width := w));
    assert Modifiers(fmt, 2, va, 0, f) == Modifiers(fmt, end, va, 0, f.(width := w));
  }

  /**
   * Every 32-bit integer printed with `%0<w>d` comes back from `strtol`, for
   * every width that can be written into the format.
   */
  lemma ZeroPaddedFormatRoundTrip(w: nat, va: VaList)
    requires 0 < w < 0x8000_0000
    ensures IsFormat(ZeroPaddedFormat(w))
    ensures var text := Format(ZeroPaddedFormat(w), 0, va, 0);
            |text| >= w && StrtolSpec(text + [0], 10) == (va.Int(0), |text|)
  {
    hide Digits, IntText, Modifiers, StrtolSpec;
    var fmt, v := ZeroPaddedFormat(w), va.Int(0);
    var f := PLAIN.(padc := ZERO, width := w);
    ZeroPaddedDirective(w, va);
    FormatStep(fmt, 0, va, 0);
    FormatStep(fmt, |fmt| - 1, va, 1);
    assert Format(fmt, 0, va, 0) == IntText(v, w, ZERO);
    IntRoundTrip(v, w, ZERO);
    IntWidth(v, w);
  }

  /** Every digit but the first at least doubles a number. */
  lemma {:induction false} FewDigits(num: nat, base: int)
    requires base >= 2
    ensures |Digits(num, base)| <= num / 2 + 1
    decreases num
  {
    if num >= base {
      DivisionShrinks(num, base);
      FewDigits(num / base, base);
      AtLeastOnce(num / base, base - 1);
      assert num / base * (base - 1) == num / base * base - num / base;
    }
  }

  lemma IntWidth(v: int, w: int)
    requires -0x8000_0000 <= v < 0x8000_0000 && 0 < w < 0x8000_0000
    ensures |IntText(v, w, ZERO)| >= w
  {
    hide Digits;
    var num := if v < 0 then -v else v;
    FewDigits(num, 10);
    NumberWidth(num, 10, w, ZERO);
  }
}
