/**
 * Directives as they are written in a format (lib/printfmt.c): what every
 * combination of a pad character, a width, a precision and long flags means,
 * and what the conversions make of it.
 */
module Directives {
  import opened Machine
  import opened Numerals
  import opened PrintFormat
  import opened RoundTrip

  /** A width or a precision: absent, an asterisk, or a number. */
  datatype Given = Absent | Star | Written(n: nat)
  {
    predicate Valid() {
      Written? ==> 0 < n < 0x8000_0000
    }

    function Bytes(): seq<int> {
      match this
      case Absent => []
      case Star => ['*' as int]
      case Written(n) => DigitChars(Digits(n, 10))
    }

    function Amount(va: VaList, k: nat): int
      requires !Absent?
    {
      if Star? then va.Int(k) else n
    }

    /** The argument after those it takes. */
    function After(k: nat): nat {
      if Star? then k + 1 else k
    }
  }

  /** What is written between the percent sign and the conversion. */
  datatype Asked = Asked(padc: int, alt: bool, width: Given, precision: Given, longs: nat)
  {
    predicate Valid() {
      IsPad(padc) && width.Valid() && precision.Valid()
    }

    function Pad(): seq<int> {
      if padc == ' ' as int then [] else [padc]
    }

    function Alt(): seq<int> {
      if alt then ['#' as int] else []
    }

    function Precision(): seq<int> {
      if precision.Absent? then [] else ['.' as int] + precision.Bytes()
    }

    function Bytes(): seq<int> {
      Pad() + (Alt() + (width.Bytes() + (Precision() + Repeat('l' as int, longs))))
    }

    /** The flags it stands for: a width below zero counts as none, or as 0 in front of a precision. */
    function FlagsOf(va: VaList, k: nat): Flags
      requires Valid()
    {
      var w := if width.Absent? then -1 else width.Amount(va, k);
      Flags(
        padc,
        if !precision.Absent? && w < 0 then 0 else w,
        if precision.Absent? then -1 else precision.Amount(va, width.After(k)),
        longs,
        alt)
    }

    function After(k: nat): nat {
      precision.After(width.After(k))
    }
  }

  /** The letters that end a directive, and the percent sign. */
  predicate EndsDirective(c: int) {
    c == 'c' as int || c == 'e' as int || c == 's' as int || c == 'd' as int || c == 'u' as int || c == 'o' as int
    || c == 'x' as int || c == 'p' as int || c == '%' as int
  }

  /** Anything that is no modifier, the NUL included, ends the modifiers. */
  predicate Stops(c: int) {
    !(0x30 <= c <= 0x39) && c != '-' as int && c != '*' as int && c != '.' as int && c != '#' as int && c != 'l' as int
  }

  // ---------- Pieces of a format ----------

  predicate HasAt(fmt: seq<Byte>, i: nat, piece: seq<int>) {
    i + |piece| <= |fmt| && fmt[i..i + |piece|] == piece
  }

  lemma HasParts(fmt: seq<Byte>, i: nat, a: seq<int>, b: seq<int>)
    requires HasAt(fmt, i, a + b)
    ensures HasAt(fmt, i, a) && HasAt(fmt, i + |a|, b)
  {
    var s := fmt[i..i + |a + b|];
    assert s[..|a|] == a && s[|a|..] == b;
    assert fmt[i..i + |a|] == s[..|a|] && fmt[i + |a|..i + |a| + |b|] == s[|a|..];
  }

  lemma HasFirst(fmt: seq<Byte>, i: nat, piece: seq<int>)
    requires HasAt(fmt, i, piece) && piece != []
    ensures i < |fmt| && fmt[i] == piece[0]
  {
    assert fmt[i] == fmt[i..i + |piece|][0];
  }

  // ---------- One modifier after the other ----------

  lemma {:induction false} LongSteps(fmt: seq<Byte>, i: nat, n: nat, va: VaList, k: nat, f: Flags)
    requires IsFormat(fmt) && i + n < |fmt|
    requires forall m :: i <= m < i + n ==> fmt[m] == 'l' as int
    ensures Modifiers(fmt, i, va, k, f) == Modifiers(fmt, i + n, va, k, f.(lflag := f.lflag + n))
    decreases n
  {
    if n > 0 {
      LongStep(fmt, i, va, k, f);
      hide Modifiers;
      LongSteps(fmt, i + 1, n - 1, va, k, f.(lflag := f.lflag + 1));
    }
  }

  lemma HasRepeated(fmt: seq<Byte>, i: nat, c: int, n: nat)
    requires HasAt(fmt, i, Repeat(c, n))
    ensures forall m :: i <= m < i + n ==> fmt[m] == c
  {
    assert forall m :: i <= m < i + n ==> fmt[m] == fmt[i..i + n][m - i];
  }

  lemma LongStep(fmt: seq<Byte>, i: nat, va: VaList, k: nat, f: Flags)
    requires IsFormat(fmt) && i < |fmt| && fmt[i] == 'l' as int
    ensures i + 1 < |fmt| && Modifiers(fmt, i, va, k, f) == Modifiers(fmt, i + 1, va, k, f.(lflag := f.lflag + 1))
  {
  }

  lemma NumberStep(fmt: seq<Byte>, i: nat, n: nat, va: VaList, k: nat, f: Flags)
    requires IsFormat(fmt) && 0 < n < 0x8000_0000 && HasAt(fmt, i, DigitChars(Digits(n, 10)))
    requires var j := i + |Digits(n, 10)|; j < |fmt| && !IsDecimal(fmt[j])
    ensures Modifiers(fmt, i, va, k, f) == Modifiers(fmt, i + |Digits(n, 10)|, va, k, f.Number(n))
  {
    hide Digits, Decimal, Value, NumberEnd, Flags.Number;
    var ds := Digits(n, 10);
    var j := i + |ds|;
    assert forall m :: i <= m < j ==> fmt[m] == fmt[i..j][m - i] == DigitChar(ds[m - i]);
    LeadingDigit(n);
    assert fmt[i] == DigitChar(ds[0]) != '0' as int;
    assert NumberEnd(fmt, i + 1) == j;
    DecimalOfDigits(ds);
    DigitsValue(n, 10);
    SmallIsItself(n);
    assert fmt[i..j] == DigitChars(ds);
  }

  lemma StarStep(fmt: seq<Byte>, i: nat, va: VaList, k: nat, f: Flags)
    requires IsFormat(fmt) && i < |fmt| && fmt[i] == '*' as int
    ensures i + 1 < |fmt| && Modifiers(fmt, i, va, k, f) == Modifiers(fmt, i + 1, va, k + 1, f.Number(va.Int(k)))
  {
  }

  lemma DotStep(fmt: seq<Byte>, i: nat, va: VaList, k: nat, f: Flags)
    requires IsFormat(fmt) && i < |fmt| && fmt[i] == '.' as int
    ensures i + 1 < |fmt|
    ensures Modifiers(fmt, i, va, k, f)
            == Modifiers(fmt, i + 1, va, k, f.(width := if f.width < 0 then 0 else f.width))
  {
  }

  lemma GivenStep(fmt: seq<Byte>, i: nat, g: Given, va: VaList, k: nat, f: Flags)
    requires IsFormat(fmt) && g.Valid() && HasAt(fmt, i, g.Bytes())
    requires i + |g.Bytes()| < |fmt| && !IsDecimal(fmt[i + |g.Bytes()|])
    ensures Modifiers(fmt, i, va, k, f)
            == Modifiers(fmt, i + |g.Bytes()|, va, g.After(k), if g.Absent? then f else f.Number(g.Amount(va, k)))
  {
    hide Digits, Flags.Number, Modifiers, HasAt, IsDecimal;
    match g
    case Absent =>
    case Star =>
      HasFirst(fmt, i, g.Bytes());
      StarStep(fmt, i, va, k, f);
    case Written(n) => NumberStep(fmt, i, n, va, k, f);
  }

  lemma PadAndAltStep(fmt: seq<Byte>, i: nat, a: Asked, va: VaList, k: nat)
    requires IsFormat(fmt) && a.Valid() && HasAt(fmt, i, a.Pad() + a.Alt())
    requires i + |a.Pad() + a.Alt()| < |fmt|
    ensures Modifiers(fmt, i, va, k, PLAIN)
            == Modifiers(fmt, i + |a.Pad() + a.Alt()|, va, k, PLAIN.(padc := a.padc, alt := a.alt))
  {
    HasParts(fmt, i, a.Pad(), a.Alt());
    if a.padc != ' ' as int {
      HasFirst(fmt, i, a.Pad());
    }
    if a.alt {
      HasFirst(fmt, i + |a.Pad()|, a.Alt());
    }
  }

  lemma PrecisionStep(fmt: seq<Byte>, i: nat, a: Asked, va: VaList, k: nat, f: Flags)
    requires IsFormat(fmt) && a.Valid() && HasAt(fmt, i, a.Precision())
    requires i + |a.Precision()| < |fmt| && !IsDecimal(fmt[i + |a.Precision()|])
    requires f.precision == -1
    ensures Modifiers(fmt, i, va, k, f)
            == Modifiers(
                 fmt, i + |a.Precision()|, va, a.precision.After(k),
                 if a.precision.Absent? then f
                 else f.(width := if f.width < 0 then 0 else f.width, precision := a.precision.Amount(va, k)))
  {
    hide Modifiers, HasAt, IsDecimal, Given.Bytes;
    if !a.precision.Absent? {
      HasParts(fmt, i, ['.' as int], a.precision.Bytes());
      HasFirst(fmt, i, ['.' as int]);
      DotStep(fmt, i, va, k, f);
      GivenStep(fmt, i + 1, a.precision, va, k, f.(width := if f.width < 0 then 0 else f.width));
    }
  }

  /**
   * The modifiers read from a format are those that were written into it: the
   * jumps of the code undo the writing, for every combination.
   */
  lemma ModifiersDecode(fmt: seq<Byte>, i: nat, a: Asked, c: Byte, va: VaList, k: nat)
    requires IsFormat(fmt) && a.Valid() && Stops(c) && HasAt(fmt, i, a.Bytes() + [c])
    ensures i + |a.Bytes()| < |fmt|
    ensures Modifiers(fmt, i, va, k, PLAIN) == Directive(i + |a.Bytes()|, a.After(k), a.FlagsOf(va, k))
  {
    hide Modifiers, Asked.Pad, Asked.Alt, Asked.Precision, Given.Bytes, HasAt, IsDecimal;
    var head, wide, precise, longs := a.Pad() + a.Alt(), a.width.Bytes(), a.Precision(), Repeat('l' as int, a.longs);
    var j := i + |head|;
    var m := j + |wide|;
    var n := m + |precise|;
    var e := n + a.longs;
    Regrouped(a, c);
    FiveParts(fmt, i, head, wide, precise, longs, c);
    NoDecimals(a, c);
    PadAndAltStep(fmt, i, a, va, k);
    var f := PLAIN.(padc := a.padc, alt := a.alt);
    GivenStep(fmt, j, a.width, va, k, f);
    var g := if a.width.Absent? then f else f.Number(a.width.Amount(va, k));
    PrecisionStep(fmt, m, a, va, a.width.After(k), g);
    var h := a.FlagsOf(va, k).(lflag := 0);
    HasRepeated(fmt, n, 'l' as int, a.longs);
    LongSteps(fmt, n, a.longs, va, a.After(k), h);
    Conversion(fmt, e, c, va, a.After(k), h.(lflag := a.longs));
  }

  lemma Regrouped(a: Asked, c: Byte)
    ensures a.Bytes() + [c]
            == a.Pad() + a.Alt() + (a.width.Bytes() + (a.Precision() + (Repeat('l' as int, a.longs) + [c])))
    ensures |a.Bytes()| == |a.Pad() + a.Alt()| + |a.width.Bytes()| + |a.Precision()| + a.longs
  {
    hide Asked.Pad, Asked.Alt, Asked.Precision, Given.Bytes;
  }

  lemma FiveParts(fmt: seq<Byte>, i: nat, a: seq<int>, b: seq<int>, c: seq<int>, d: seq<int>, e: Byte)
    requires HasAt(fmt, i, a + (b + (c + (d + [e]))))
    ensures HasAt(fmt, i, a) && HasAt(fmt, i + |a|, b) && HasAt(fmt, i + |a| + |b|, c)
    ensures HasAt(fmt, i + |a| + |b| + |c|, d)
    ensures i + |a| + |b| + |c| + |d| < |fmt| && fmt[i + |a| + |b| + |c| + |d|] == e
    ensures fmt[i + |a| + |b| + |c|] == (d + [e])[0] && fmt[i + |a| + |b|] == (c + (d + [e]))[0]
  {
    hide HasAt;
    HasParts(fmt, i, a, b + (c + (d + [e])));
    HasParts(fmt, i + |a|, b, c + (d + [e]));
    HasParts(fmt, i + |a| + |b|, c, d + [e]);
    HasParts(fmt, i + |a| + |b| + |c|, d, [e]);
    HasFirst(fmt, i + |a| + |b| + |c| + |d|, [e]);
    HasFirst(fmt, i + |a| + |b| + |c|, d + [e]);
    HasFirst(fmt, i + |a| + |b|, c + (d + [e]));
  }

  lemma NoDecimals(a: Asked, c: Byte)
    requires a.Valid() && Stops(c)
    ensures !IsDecimal((Repeat('l' as int, a.longs) + [c])[0])
    ensures !IsDecimal((a.Precision() + (Repeat('l' as int, a.longs) + [c]))[0])
  {
  }

  lemma Conversion(fmt: seq<Byte>, i: nat, c: Byte, va: VaList, k: nat, f: Flags)
    requires IsFormat(fmt) && i < |fmt| && fmt[i] == c && Stops(c)
    ensures Modifiers(fmt, i, va, k, f) == Directive(i, k, f) && (IsConversion(c) <==> EndsDirective(c))
  {
  }

  // ---------- What directives print ----------

  /** The argument after a directive; two long flags make a number take two words. */
  function NextAfter(c: int, longs: nat, k: nat): nat {
    if c == '%' as int then k
    else if longs >= 2 && (c == 'd' as int || c == 'u' as int || c == 'o' as int || c == 'x' as int) then k + 2
    else k + 1
  }

  lemma DirectiveStep(fmt: seq<Byte>, i: nat, a: Asked, c: Byte, va: VaList, k: nat)
    requires IsFormat(fmt) && a.Valid() && EndsDirective(c) && HasAt(fmt, i, ['%' as int] + (a.Bytes() + [c]))
    ensures i + |a.Bytes()| + 2 < |fmt| && IsConversion(c)
    ensures Format(fmt, i, va, k)
            == Render(va, c, a.After(k), a.FlagsOf(va, k))
               + Format(fmt, i + |a.Bytes()| + 2, va, NextAfter(c, a.longs, a.After(k)))
  {
    hide Modifiers, Render, Format, Asked.Bytes, HasAt;
    HasParts(fmt, i, ['%' as int], a.Bytes() + [c]);
    HasFirst(fmt, i, ['%' as int] + (a.Bytes() + [c]));
    ModifiersDecode(fmt, i + 1, a, c, va, k);
    HasParts(fmt, i + 1, a.Bytes(), [c]);
    HasFirst(fmt, i + 1 + |a.Bytes()|, [c]);
    Conversion(fmt, i + 1 + |a.Bytes()|, c, va, a.After(k), a.FlagsOf(va, k));
    FormatStep(fmt, i, va, k);
  }

  /** A directive with any other conversion is printed as it stands, but its asterisks keep their arguments. */
  lemma UnknownDirective(fmt: seq<Byte>, i: nat, a: Asked, c: Byte, va: VaList, k: nat)
    requires IsFormat(fmt) && a.Valid() && Stops(c) && !EndsDirective(c)
    requires HasAt(fmt, i, ['%' as int] + (a.Bytes() + [c]))
    ensures i + |a.Bytes()| + 1 < |fmt|
    ensures Format(fmt, i, va, k) == ['%' as int] + a.Bytes() + Format(fmt, i + |a.Bytes()| + 1, va, a.After(k))
  {
    hide Modifiers, Format, Asked.Bytes, HasAt, Render;
    var piece := ['%' as int] + a.Bytes();
    assert ['%' as int] + (a.Bytes() + [c]) == piece + [c];
    HasParts(fmt, i, ['%' as int], a.Bytes() + [c]);
    HasParts(fmt, i, piece, [c]);
    HasFirst(fmt, i, piece + [c]);
    ModifiersDecode(fmt, i + 1, a, c, va, k);
    HasFirst(fmt, i + |piece|, [c]);
    Conversion(fmt, i + |piece|, c, va, a.After(k), a.FlagsOf(va, k));
    FormatUnknown(fmt, i, va, k);
    PieceIs(fmt, i, piece);
  }

  lemma PieceIs(fmt: seq<Byte>, i: nat, piece: seq<int>)
    requires HasAt(fmt, i, piece)
    ensures i + |piece| <= |fmt| && fmt[i..i + |piece|] == piece
  {
  }

  /** Characters brought to a width: with a dash the blanks come behind, otherwise the pad character comes in front. */
  function Justified(chars: seq<int>, width: int, padc: int): seq<int> {
    if padc == '-' as int then chars + Repeat(' ' as int, width - |chars|) else Repeat(padc, width - |chars|) + chars
  }

  /** What is printed of the first bytes of a string; with the number sign, a question mark for all but ASCII text. */
  predicate PrintedAs(chars: seq<int>, t: seq<Byte>, alt: bool) {
    |chars| <= |t| &&
    forall i :: 0 <= i < |chars| ==>
      chars[i] == if alt && !(0x20 <= t[i] <= 0x7e) then '?' as int
                  else if t[i] < 0x80 then t[i] else (t[i] as int) - 0x100
  }

  /** The string of a `%s`; the null pointer gives "(null)". */
  function StringArg(va: VaList, k: nat): seq<Byte> {
    if va.word(k) == 0 then Ascii("(null)") else va.text(va.word(k))
  }

  /** How many bytes of a string of length `n` a precision admits; a negative one or none admits all. */
  function Admitted(n: nat, precision: int): nat {
    if 0 <= precision < n then precision else n
  }

  lemma RenderedString(va: VaList, k: nat, f: Flags) returns (chars: seq<int>)
    requires -0x4000_0000 <= f.width < 0x8000_0000
    ensures |chars| == Admitted(|StringArg(va, k)|, f.precision) && PrintedAs(chars, StringArg(va, k), f.alt)
    ensures Render(va, 's' as int, k, f) == Justified(chars, f.width, f.padc)
  {
    var t: Text := if va.word(k) == 0 then NULL_TEXT else va.text(va.word(k));
    assert NULL_TEXT == Ascii("(null)");
    chars := ShownText(t, Shown(t, f.precision), f.alt);
    hide PrintedAs, ShownText, Justified, StringText;
    CharsPrinted(t, Shown(t, f.precision), f.alt);
    TextJustified(t, f);
  }

  lemma CharsPrinted(t: Text, n: nat, alt: bool)
    requires n <= |t|
    ensures PrintedAs(ShownText(t, n, alt), t, alt)
  {
  }

  lemma TextJustified(t: Text, f: Flags)
    requires -0x4000_0000 <= f.width < 0x8000_0000
    ensures StringText(t, f) == Justified(ShownText(t, Shown(t, f.precision), f.alt), f.width, f.padc)
  {
    var n := Shown(t, f.precision);
    var chars := ShownText(t, n, f.alt);
    assert |chars| == n;
    hide ShownText;
    NoWrap(f.width, n);
    hide Gap;
    if f.width <= 0 {
      assert Repeat(f.padc, f.width - n) == [] == Repeat(' ' as int, f.width - n);
      assert chars + [] == chars == [] + chars;
    }
  }

  lemma NoWrap(width: int, n: nat)
    requires -0x4000_0000 <= width < 0x8000_0000 && n < 0x4000_0000
    ensures Gap(width, n) == width - n
  {
  }

  /** `%s` with any modifiers, anywhere in a format: the characters printed and the argument read next. */
  lemma StringDirective(fmt: seq<Byte>, i: nat, a: Asked, va: VaList, k: nat) returns (chars: seq<int>)
    requires IsFormat(fmt) && a.Valid() && HasAt(fmt, i, ['%' as int] + (a.Bytes() + ['s' as int]))
    requires -0x4000_0000 <= a.FlagsOf(va, k).width
    ensures i + |a.Bytes()| + 2 < |fmt|
    ensures var t, f := StringArg(va, a.After(k)), a.FlagsOf(va, k);
            |chars| == Admitted(|t|, f.precision) && PrintedAs(chars, t, a.alt)
    ensures Format(fmt, i, va, k)
            == Justified(chars, a.FlagsOf(va, k).width, a.padc)
               + Format(fmt, i + |a.Bytes()| + 2, va, a.After(k) + 1)
  {
    hide Render, Format, Asked.Bytes, HasAt, PrintedAs, Justified;
    DirectiveStep(fmt, i, a, 's' as int, va, k);
    FlagsInRange(a, va, k);
    chars := RenderedString(va, a.After(k), a.FlagsOf(va, k));
  }

  lemma FlagsInRange(a: Asked, va: VaList, k: nat)
    requires a.Valid()
    ensures InRange(a.FlagsOf(va, k)) && a.FlagsOf(va, k).padc == a.padc && a.FlagsOf(va, k).alt == a.alt
  {
  }

  /** "%.*s" prints as many bytes of the string as the argument before it says, at most; a negative one means all. */
  lemma PrecisionArgument(fmt: seq<Byte>, i: nat, va: VaList, k: nat) returns (chars: seq<int>)
    requires IsFormat(fmt) && HasAt(fmt, i, ['%' as int, '.' as int, '*' as int, 's' as int])
    ensures var t, n := StringArg(va, k + 1), va.Int(k);
            |chars| == (if 0 <= n < |t| then n else |t|) && PrintedAs(chars, t, false)
    ensures i + 4 < |fmt| && Format(fmt, i, va, k) == chars + Format(fmt, i + 4, va, k + 2)
  {
    hide Format, PrintedAs;
    var a := Asked(' ' as int, false, Absent, Star, 0);
    PrecisionBytes(a.precision);
    assert ['%' as int, '.' as int] + ['*' as int] + ['s' as int] == ['%' as int, '.' as int, '*' as int, 's' as int];
    chars := StringDirective(fmt, i, a, va, k);
    assert Justified(chars, 0, ' ' as int) == chars;
  }

  /** So does "%.7s", or any other number but 0. */
  lemma PrecisionWritten(fmt: seq<Byte>, i: nat, n: nat, va: VaList, k: nat) returns (chars: seq<int>)
    requires IsFormat(fmt) && 0 < n < 0x8000_0000
    requires HasAt(fmt, i, ['%' as int, '.' as int] + DigitChars(Digits(n, 10)) + ['s' as int])
    ensures var t := StringArg(va, k);
            |chars| == (if n < |t| then n else |t|) && PrintedAs(chars, t, false)
    ensures var end := i + 3 + |Digits(n, 10)|;
            end < |fmt| && Format(fmt, i, va, k) == chars + Format(fmt, end, va, k + 1)
  {
    hide Format, PrintedAs, Digits, HasAt, Asked.Bytes;
    var a := Asked(' ' as int, false, Absent, Written(n), 0);
    PrecisionBytes(a.precision);
    chars := StringDirective(fmt, i, a, va, k);
    assert Justified(chars, 0, ' ' as int) == chars;
  }

  lemma PrecisionBytes(g: Given)
    requires !g.Absent?
    ensures var a := Asked(' ' as int, false, Absent, g, 0);
            && ['%' as int] + (a.Bytes() + ['s' as int]) == ['%' as int, '.' as int] + g.Bytes() + ['s' as int]
            && |a.Bytes()| == 1 + |g.Bytes()|
  {
    var a := Asked(' ' as int, false, Absent, g, 0);
    assert Absent.Bytes() == [] && Repeat('l' as int, 0) == [];
    hide Given.Bytes;
    Empties(a.Precision());
    Shifted('%' as int, '.' as int, g.Bytes(), 's' as int);
  }

  lemma Empties(p: seq<int>)
    ensures [] + ([] + ([] + (p + []))) == p
  {
    assert p + [] == p;
    assert [] + p == p;
  }

  lemma Shifted(a: int, b: int, p: seq<int>, c: int)
    ensures [a] + ([b] + p + [c]) == [a, b] + p + [c]
  {
  }

  /** But "%.0s" prints all of the string, because a zero is never taken for the first digit of a number. */
  lemma PrecisionZero(fmt: seq<Byte>, i: nat, va: VaList, k: nat) returns (chars: seq<int>)
    requires IsFormat(fmt) && HasAt(fmt, i, ['%' as int, '.' as int, '0' as int, 's' as int])
    ensures |chars| == |StringArg(va, k)| && PrintedAs(chars, StringArg(va, k), false)
    ensures i + 4 < |fmt| && Format(fmt, i, va, k) == chars + Format(fmt, i + 4, va, k + 1)
  {
    hide Format, PrintedAs, Render;
    var bytes := ['%' as int, '.' as int, '0' as int, 's' as int];
    assert fmt[i..i + 4] == bytes;
    assert fmt[i] == fmt[i..i + 4][0] && fmt[i + 1] == fmt[i..i + 4][1];
    assert fmt[i + 2] == fmt[i..i + 4][2] && fmt[i + 3] == fmt[i..i + 4][3];
    var f := PLAIN.(padc := '0' as int, width := 0);
    assert Modifiers(fmt, i + 2, va, k, PLAIN.(width := 0)) == Directive(i + 3, k, f);
    FormatStep(fmt, i, va, k);
    chars := RenderedString(va, k, f);
    assert Justified(chars, 0, '0' as int) == chars;
  }

  /** The numeric conversions with any modifiers: the number, its base and the words it takes. */
  lemma NumberDirective(fmt: seq<Byte>, i: nat, a: Asked, c: Byte, va: VaList, k: nat)
    requires IsFormat(fmt) && a.Valid() && HasAt(fmt, i, ['%' as int] + (a.Bytes() + [c]))
    requires c == 'd' as int || c == 'u' as int || c == 'o' as int || c == 'x' as int
    ensures var j, f, end := a.After(k), a.FlagsOf(va, k), i + |a.Bytes()| + 2;
            var base := if c == 'u' as int then 10 else if c == 'o' as int then 8 else 16;
            var v := if a.longs < 2 then va.word(j) else va.word(j) + 0x1_0000_0000 * va.word(j + 1);
            var limit := if a.longs < 2 then 0x8000_0000 else 0x8000_0000_0000_0000;
            && end < |fmt|
            && Format(fmt, i, va, k)
               == (if c == 'd' as int then IntText(if v < limit then v else v - 2 * limit, f.width, f.padc)
                   else NumberText(v, base, f.width, f.padc))
                  + Format(fmt, end, va, if a.longs < 2 then j + 1 else j + 2)
  {
    hide Format, Asked.Bytes, HasAt, IntText, NumberText, Asked.FlagsOf;
    DirectiveStep(fmt, i, a, c, va, k);
    FlagsLong(a, va, k);
  }

  lemma FlagsLong(a: Asked, va: VaList, k: nat)
    requires a.Valid()
    ensures a.FlagsOf(va, k).lflag == a.longs
  {
  }

  /** The other conversions: a pointer, a character, an error code and the percent sign. */
  lemma OtherDirectives(fmt: seq<Byte>, i: nat, a: Asked, c: Byte, va: VaList, k: nat)
    requires IsFormat(fmt) && a.Valid() && HasAt(fmt, i, ['%' as int] + (a.Bytes() + [c]))
    requires c == 'p' as int || c == 'c' as int || c == 'e' as int || c == '%' as int
    ensures var j, f, end := a.After(k), a.FlagsOf(va, k), i + |a.Bytes()| + 2;
            && end < |fmt|
            && Format(fmt, i, va, k)
               == (if c == 'p' as int then ['0' as int, 'x' as int] + NumberText(va.word(j), 16, f.width, f.padc)
                   else if c == 'c' as int then [va.Int(j)]
                   else if c == 'e' as int then ErrorText(va.Int(j))
                   else ['%' as int])
                  + Format(fmt, end, va, if c == '%' as int then j else j + 1)
  {
    hide Format, Asked.Bytes, HasAt, NumberText, Asked.FlagsOf, ErrorText;
    DirectiveStep(fmt, i, a, c, va, k);
    assert Ascii("0x") == ['0' as int, 'x' as int];
  }

  /** The messages of `%e`, for a code or its negative; any other code is printed as a number. */
  lemma ErrorMessages(code: int)
    ensures ErrorText(1) == Ascii("unspecified error") && ErrorText(2) == Ascii("bad environment")
    ensures ErrorText(3) == Ascii("invalid parameter") && ErrorText(4) == Ascii("out of memory")
    ensures ErrorText(5) == Ascii("out of environments") && ErrorText(6) == Ascii("segmentation fault")
    ensures code < 0 ==> ErrorText(code) == ErrorText(-code)
    ensures code == 0 || code > 6 ==> ErrorText(code) == Ascii("error ") + NumberText(code, 10, -1, ' ' as int)
  {
    hide NumberText;
  }

  /** Plain numeric directives come back through `strtol` in the base of their conversion. */
  lemma PlainNumberReads(c: Byte, va: VaList)
    requires c == 'd' as int || c == 'u' as int || c == 'o' as int || c == 'x' as int || c == 'p' as int
    ensures IsFormat(['%' as int, c, 0])
    ensures var text := Format(['%' as int, c, 0], 0, va, 0);
            && (c == 'd' as int ==> StrtolSpec(text + [0], 10) == (va.Int(0), |text|))
            && (c == 'u' as int && va.word(0) < 0x8000_0000 ==> StrtolSpec(text + [0], 10) == (va.word(0), |text|))
            && (c == 'o' as int && va.word(0) < 0x8000_0000 ==> StrtolSpec(text + [0], 8) == (va.word(0), |text|))
            && (c == 'x' as int && va.word(0) < 0x8000_0000 ==> StrtolSpec(text + [0], 16) == (va.word(0), |text|))
            && (c == 'p' as int && va.word(0) < 0x8000_0000 ==> StrtolSpec(text + [0], 0) == (va.word(0), |text|))
  {
    hide Format, StrtolSpec, IntText, NumberText, Digits, Gap;
    PlainNumber(c, va);
    if c == 'd' as int {
      NeverPadded(Abs(va.Int(0)), 10);
      IntRoundTrip(va.Int(0), -1, SPACE);
    } else if va.word(0) < 0x8000_0000 {
      NeverPadded(va.word(0), 16);
      UnsignedRoundTrip(va.word(0), 10, -1, SPACE);
      UnsignedRoundTrip(va.word(0), 8, -1, SPACE);
      UnsignedRoundTrip(va.word(0), 16, -1, SPACE);
      PointerRoundTrip(va.word(0), 0, -1, SPACE);
    }
  }

  lemma PlainNumber(c: Byte, va: VaList)
    requires c == 'd' as int || c == 'u' as int || c == 'o' as int || c == 'x' as int || c == 'p' as int
    ensures IsFormat(['%' as int, c, 0])
    ensures Format(['%' as int, c, 0], 0, va, 0)
            == if c == 'd' as int then IntText(va.Int(0), -1, SPACE)
               else if c == 'p' as int then [ZERO, 0x78] + NumberText(va.word(0), 16, -1, SPACE)
               else NumberText(va.word(0), if c == 'u' as int then 10 else if c == 'o' as int then 8 else 16, -1, SPACE)
  {
    hide IntText, NumberText, HasAt, Format, Asked.Bytes, Asked.FlagsOf;
    var fmt: seq<Byte> := ['%' as int, c, 0];
    var a := Asked(' ' as int, false, Absent, Absent, 0);
    PlainAsked(c, va);
    if c == 'p' as int {
      OtherDirectives(fmt, 0, a, c, va, 0);
    } else {
      NumberDirective(fmt, 0, a, c, va, 0);
      SignedWord(va.word(0));
    }
    FormatStep(fmt, 2, va, 1);
  }

  lemma SignedWord(w: Word)
    ensures ToInt32(w) == if w < 0x8000_0000 then w else w - 0x1_0000_0000
  {
  }

  lemma PlainAsked(c: Byte, va: VaList)
    requires c != 0
    ensures var a := Asked(' ' as int, false, Absent, Absent, 0);
            && a.Valid() && |a.Bytes()| == 0 && a.FlagsOf(va, 0) == PLAIN
            && HasAt(['%' as int, c, 0], 0, ['%' as int] + (a.Bytes() + [c])) && IsFormat(['%' as int, c, 0])
  {
    var a := Asked(' ' as int, false, Absent, Absent, 0);
    assert a.Bytes() == [] && [] + [c] == [c];
    assert ['%' as int, c, 0][0..2] == ['%' as int] + (a.Bytes() + [c]);
  }

  lemma NeverPadded(num: nat, base: int)
    requires num <= 0x8000_0000 && base >= 2
    ensures Gap(-1, |Digits(num, base)|) <= 0
  {
    hide Digits;
    FewDigits(num, base);
  }
}
