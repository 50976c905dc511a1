/**
 * Formatted output (lib/printfmt.c, `vprintfmt` and `vsnprintf`).
 *
 * The calls of `putch` appear as the sequence of characters handed to it.  The
 * specification reads the format directive by directive; the code is one loop
 * that scans forward, jumps among the modifiers of a directive, and on an
 * unknown conversion steps back to just after the directive's percent sign.
 */
module PrintFormat {
  import opened Machine
  import opened Numerals

  /** The bytes of a string argument, without the NUL that ends it in memory. */
  type Text = t: seq<Byte> | 0 !in t && |t| < 0x4000_0000 witness []

  /**
   * A variable argument list on the i386 stack: the words from the first
   * argument on, and the strings in memory that words may point to.
   */
  datatype VaList = VaList(word: nat -> Word, text: Word -> Text)
  {
    function Int(k: nat): int { ToInt32(word(k)) }

    /** `getuint`. */
    function UnsignedArg(k: nat, lflag: int): nat {
      if lflag >= 2 then word(k) + word(k + 1) * WORD_LIMIT else word(k)
    }

    /** `getint`. */
    function SignedArg(k: nat, lflag: int): int {
      if lflag < 2 then Int(k)
      else if word(k + 1) < 0x8000_0000 then UnsignedArg(k, lflag)
      else UnsignedArg(k, lflag) - WORD_LIMIT * WORD_LIMIT
    }

    function Skip(k: nat, lflag: int): nat {
      if lflag >= 2 then k + 2 else k + 1
    }
  }

  const PERCENT: Byte := '%' as int

  /** A format: bytes up to the first NUL, which is the last one. */
  predicate IsFormat(fmt: seq<Byte>) {
    |fmt| > 0 && forall i :: 0 <= i < |fmt| ==> (fmt[i] == 0 <==> i == |fmt| - 1)
  }

  // ---------- Directives ----------

  /** What the modifiers of a directive set. */
  datatype Flags = Flags(padc: Byte, width: int, precision: int, lflag: nat, alt: bool)
  {
    /** A number or an asterisk gives the width first and the precision after that. */
    function Number(n: int): Flags {
      if width < 0 then this.(width := n, precision := -1) else this.(precision := n)
    }
  }

  const PLAIN := Flags(' ' as int, -1, -1, 0, false)

  predicate IsDecimal(c: int) {
    '0' as int <= c <= '9' as int
  }

  predicate IsModifier(c: int) {
    IsDecimal(c) || c == '-' as int || c == '*' as int || c == '.' as int || c == '#' as int || c == 'l' as int
  }

  predicate IsConversion(c: int) {
    c == 'c' as int || c == 'e' as int || c == 's' as int || c == 'd' as int || c == 'u' as int
    || c == 'o' as int || c == 'p' as int || c == 'x' as int || c == PERCENT
  }

  /** The end of the decimal number that continues at `i`. */
  function NumberEnd(fmt: seq<Byte>, i: nat): (j: nat)
    requires IsFormat(fmt) && i < |fmt|
    ensures i <= j < |fmt| && !IsDecimal(fmt[j])
    ensures forall k :: i <= k < j ==> IsDecimal(fmt[k])
    decreases |fmt| - i
  {
    if IsDecimal(fmt[i]) then NumberEnd(fmt, i + 1) else i
  }

  /** The value of decimal digits. */
  function Decimal(s: seq<int>): int {
    if s == [] then 0 else Decimal(s[..|s| - 1]) * 10 + (s[|s| - 1] - '0' as int)
  }

  /** Where a directive's conversion character is, the argument it will take and its flags. */
  datatype Directive = Directive(at: nat, arg: nat, flags: Flags)

  /** The modifiers from `i` on. */
  function Modifiers(fmt: seq<Byte>, i: nat, va: VaList, arg: nat, f: Flags): (d: Directive)
    requires IsFormat(fmt) && i < |fmt|
    ensures i <= d.at < |fmt| && !IsModifier(fmt[d.at])
    ensures forall k :: i <= k < d.at ==> IsModifier(fmt[k])
    decreases |fmt| - i
  {
    var c := fmt[i];
    if c == '-' as int || c == '0' as int then Modifiers(fmt, i + 1, va, arg, f.(padc := c))
    else if IsDecimal(c) then
      var j := NumberEnd(fmt, i + 1);
      Modifiers(fmt, j, va, arg, f.Number(ToInt32(Decimal(fmt[i..j]))))
    else if c == '*' as int then Modifiers(fmt, i + 1, va, arg + 1, f.Number(va.Int(arg)))
    else if c == '.' as int then Modifiers(fmt, i + 1, va, arg, if f.width < 0 then f.(width := 0) else f)
    else if c == '#' as int then Modifiers(fmt, i + 1, va, arg, f.(alt := true))
    else if c == 'l' as int then Modifiers(fmt, i + 1, va, arg, f.(lflag := f.lflag + 1))
    else Directive(i, arg, f)
  }

  // ---------- Conversions ----------

  function Ascii(s: string): (t: seq<int>)
    ensures |t| == |s|
  {
    seq(|s|, i requires 0 <= i < |s| => s[i] as int)
  }

  /** `error_string`; the first code has none, and the last was never given one. */
  function ErrorString(err: int): string {
    match err
    case 1 => "unspecified error"
    case 2 => "bad environment"
    case 3 => "invalid parameter"
    case 4 => "out of memory"
    case 5 => "out of environments"
    case 6 => "segmentation fault"
    case _ => ""
  }

  /** `%e`: an error code or its negative. */
  function ErrorText(code: int): seq<int> {
    var err := if code < 0 then -code else code;
    if ErrorString(err) == "" then Ascii("error ") + IntText(err, -1, ' ' as int) else Ascii(ErrorString(err))
  }

  function Min(a: int, b: int): int { if a < b then a else b }
  function Max(a: int, b: int): int { if a < b then b else a }

  /** How many characters of a string are printed: a negative precision is no limit. */
  function Shown(t: Text, precision: int): nat {
    if precision < 0 then |t| else Min(|t|, precision)
  }

  function ShownChar(b: Byte, alt: bool): int {
    var c := SignedChar(b);
    if alt && (c < ' ' as int || c > '~' as int) then '?' as int else c
  }

  /** The characters a `%s` shows. */
  function ShownText(t: Text, n: nat, alt: bool): seq<int>
    requires n <= |t|
  {
    seq(n, i requires 0 <= i < n => ShownChar(t[i], alt))
  }

  /** `%s`: the string cut to the precision and padded to the width, on the right if asked to. */
  function StringText(t: Text, f: Flags): seq<int> {
    var n := Shown(t, f.precision);
    var chars := ShownText(t, n, f.alt);
    if f.width > 0 && f.padc != '-' as int then Repeat(f.padc, Gap(f.width, n)) + chars
    else chars + Repeat(' ' as int, Gap(f.width, n))
  }

  const NULL_TEXT: Text := [0x28, 0x6e, 0x75, 0x6c, 0x6c, 0x29]

  /** What a directive with a known conversion prints. */
  function Render(va: VaList, c: Byte, k: nat, f: Flags): seq<int>
    requires IsConversion(c)
  {
    if c == 'c' as int then [va.Int(k)]
    else if c == 'e' as int then ErrorText(va.Int(k))
    else if c == 's' as int then StringText(if va.word(k) == 0 then NULL_TEXT else va.text(va.word(k)), f)
    else if c == 'd' as int then IntText(va.SignedArg(k, f.lflag), f.width, f.padc)
    else if c == 'u' as int then NumberText(va.UnsignedArg(k, f.lflag), 10, f.width, f.padc)
    else if c == 'o' as int then NumberText(va.UnsignedArg(k, f.lflag), 8, f.width, f.padc)
    else if c == 'x' as int then NumberText(va.UnsignedArg(k, f.lflag), 16, f.width, f.padc)
    else if c == 'p' as int then Ascii("0x") + NumberText(va.word(k), 16, f.width, f.padc)
    else [PERCENT]
  }

  /** The argument after those a directive takes. */
  function NextArg(c: Byte, k: nat, f: Flags): nat {
    if c == PERCENT then k
    else if c == 'd' as int || c == 'u' as int || c == 'o' as int || c == 'x' as int then
      if f.lflag >= 2 then k + 2 else k + 1
    else k + 1
  }

  /**
   * The output of a format from `i` on.  A directive with an unknown conversion
   * stands for itself up to, and not including, that conversion, but the
   * arguments its asterisks took stay taken.
   */
  function Format(fmt: seq<Byte>, i: nat, va: VaList, arg: nat): seq<int>
    requires IsFormat(fmt) && i < |fmt|
    decreases |fmt| - i
  {
    if fmt[i] == 0 then []
    else if fmt[i] != PERCENT then [fmt[i]] + Format(fmt, i + 1, va, arg)
    else
      var d := Modifiers(fmt, i + 1, va, arg, PLAIN);
      var c := fmt[d.at];
      if IsConversion(c) then Render(va, c, d.arg, d.flags) + Format(fmt, d.at + 1, va, NextArg(c, d.arg, d.flags))
      else fmt[i..d.at] + Format(fmt, d.at, va, d.arg)
  }

  // ---------- The code ----------

  /** `strnlen` on the string's characters; the size is unsigned. */
  method Strnlen(t: Text, size: Word) returns (n: int)
    ensures n == Min(|t|, size)
  {
    n := 0;
    var left := size;
    while left > 0 && n < |t|
      invariant 0 <= n <= |t| && 0 <= left && n + left == size
    {
      n, left := n + 1, left - 1;
    }
  }

  /** A padding loop: it counts the width down while it is positive. */
  method Pad(before: seq<int>, padc: int, width: int) returns (out: seq<int>, left: int)
    ensures out == before + Repeat(padc, width) && left == Min(width, 0)
  {
    out, left := before, width;
    while left > 0
      invariant left <= width && (left < 0 ==> left == width)
      invariant out == before + Repeat(padc, width - left)
    {
      out := out + [padc];
      left := left - 1;
    }
  }

  /** The character loop of `%s`, which looks one byte past the last one it shows. */
  method ShowChars(before: seq<int>, t: Text, limit: int, alt: bool) returns (out: seq<int>, j: int)
    ensures j == Shown(t, limit) && out == before + ShownText(t, j, alt)
  {
    out, j := before, 0;
    var precision := limit;
    while j < |t|
      invariant 0 <= j <= Shown(t, limit)
      invariant precision == if limit < 0 then limit else limit - j
      invariant out == before + ShownText(t, j, alt)
    {
      if precision >= 0 {
        precision := precision - 1;
        if precision < 0 {
          break;
        }
      }
      assert ShownText(t, j + 1, alt) == ShownText(t, j, alt) + [ShownChar(t[j], alt)];
      out := out + [ShownChar(t[j], alt)];
      j := j + 1;
    }
  }

  /** Once a positive width was used up by padding, the characters shown leave nothing of it. */
  lemma WidthUsedUp(t: Text, f: Flags)
    requires InRange(f) && f.width > 0
    ensures var n := Min(|t|, f.precision % WORD_LIMIT);
            n == Shown(t, f.precision) && Gap(f.width, n) == f.width - n && ToInt32(Min(f.width - n, 0) - n) <= 0
  {
  }

  /** The `%s` case of `vprintfmt`. */
  method PrintString(before: seq<int>, t: Text, f: Flags) returns (out: seq<int>)
    requires InRange(f)
    ensures out == before + StringText(t, f)
  {
    hide ToInt32, ShownText, Shown;
    out := before;
    var width, shown := f.width, 0;
    if width > 0 && f.padc != '-' as int {
      var len := Strnlen(t, f.precision % WORD_LIMIT);
      WidthUsedUp(t, f);
      out, width := Pad(out, f.padc, width - len);
    }
    out, shown := ShowChars(out, t, f.precision, f.alt);
    out, width := Pad(out, ' ' as int, ToInt32(width - shown));
  }

  /** A directive's flags stay 32-bit integers. */
  predicate InRange(f: Flags) {
    -0x8000_0000 <= f.width < 0x8000_0000 && -0x8000_0000 <= f.precision < 0x8000_0000
  }

  /** The loop over the digits of a width or precision; like all signed arithmetic it wraps. */
  method ReadNumber(fmt: seq<Byte>, start: nat) returns (n: int, end: nat)
    requires IsFormat(fmt) && start < |fmt| && IsDecimal(fmt[start])
    ensures end == NumberEnd(fmt, start + 1) && n == ToInt32(Decimal(fmt[start..end]))
  {
    end, n := start, 0;
    assert fmt[start..start] == [];
    while true
      invariant start <= end < |fmt| && IsDecimal(fmt[end])
      invariant NumberEnd(fmt, start + 1) == NumberEnd(fmt, end + 1)
      invariant n == ToInt32(Decimal(fmt[start..end]))
      decreases |fmt| - end
    {
      ToInt32Step(Decimal(fmt[start..end]), 10, fmt[end] - '0' as int);
      assert fmt[start..end + 1][..end - start] == fmt[start..end];
      n := ToInt32(n * 10 + (fmt[end] - '0' as int));
      end := end + 1;
      if !IsDecimal(fmt[end]) {
        break;
      }
    }
  }

  /** The `reswitch` jumps: all modifiers of the directive that starts at `start`. */
  method ReadModifiers(fmt: seq<Byte>, start: nat, va: VaList, first: nat) returns (d: Directive)
    requires IsFormat(fmt) && start < |fmt|
    ensures d == Modifiers(fmt, start, va, first, PLAIN) && InRange(d.flags)
  {
    var i, arg, f := start, first, PLAIN;
    while IsModifier(fmt[i])
      invariant start <= i < |fmt| && InRange(f)
      invariant Modifiers(fmt, start, va, first, PLAIN) == Modifiers(fmt, i, va, arg, f)
      decreases |fmt| - i
    {
      var ch := fmt[i];
      if ch == '-' as int || ch == '0' as int {
        f := f.(padc := ch);
        i := i + 1;
      } else if IsDecimal(ch) {
        var n, j := ReadNumber(fmt, i);
        f := f.Number(n);
        i := j;
      } else if ch == '*' as int {
        f := f.Number(va.Int(arg));
        arg, i := arg + 1, i + 1;
      } else if ch == '.' as int {
        f := if f.width < 0 then f.(width := 0) else f;
        i := i + 1;
      } else if ch == '#' as int {
        f := f.(alt := true);
        i := i + 1;
      } else {
        f := f.(lflag := f.lflag + 1);
        i := i + 1;
      }
    }
    d := Directive(i, arg, f);
  }

  predicate IsNumeric(c: Byte) {
    c == 'd' as int || c == 'u' as int || c == 'o' as int || c == 'x' as int
  }

  /** The numeric conversions but `%p`, which meet at the label `number`. */
  method ConvertNumber(before: seq<int>, va: VaList, c: Byte, k: nat, f: Flags) returns (out: seq<int>, next: nat)
    requires IsNumeric(c)
    ensures out == before + Render(va, c, k, f) && next == NextArg(c, k, f)
  {
    hide NumberText, Digits, StringText, ErrorText;
    out, next := before, va.Skip(k, f.lflag);
    var num, base := va.UnsignedArg(k, f.lflag), 16;
    if c == 'd' as int {
      var v := va.SignedArg(k, f.lflag);
      if v < 0 {
        out := out + ['-' as int];
        v := -v;
      }
      num, base := v, 10;
    } else if c == 'u' as int {
      base := 10;
    } else if c == 'o' as int {
      base := 8;
    }
    out := Printnum(out, num, base, f.width, f.padc);
  }

  /** `%e`, with its nested `printfmt` calls written out. */
  method ConvertError(before: seq<int>, code: int) returns (out: seq<int>)
    ensures out == before + ErrorText(code)
  {
    hide NumberText, Digits, ErrorString;
    var err := code;
    if err < 0 {
      err := -err;
    }
    if ErrorString(err) == "" {
      out := Printnum(before + Ascii("error "), err, 10, -1, ' ' as int);
    } else {
      out := before + Ascii(ErrorString(err));
    }
  }

  /** The conversions. */
  method Convert(before: seq<int>, va: VaList, c: Byte, k: nat, f: Flags) returns (out: seq<int>, next: nat)
    requires IsConversion(c) && InRange(f)
    ensures out == before + Render(va, c, k, f) && next == NextArg(c, k, f)
  {
    hide NumberText, Digits, StringText, ErrorText, IntText;
    out, next := before, k + 1;
    if IsNumeric(c) {
      out, next := ConvertNumber(out, va, c, k, f);
    } else if c == 'c' as int {
      out := out + [va.Int(k)];
    } else if c == 'e' as int {
      out := ConvertError(out, va.Int(k));
    } else if c == 's' as int {
      out := PrintString(out, if va.word(k) == 0 then NULL_TEXT else va.text(va.word(k)), f);
    } else if c == 'p' as int {
      out := Printnum(out + Ascii("0x"), va.word(k), 16, f.width, f.padc);
    } else {
      out, next := out + [c], k;
    }
  }

  /** Text without a percent sign stands for itself. */
  lemma {:induction false} FormatLiteral(fmt: seq<Byte>, i: nat, j: nat, va: VaList, arg: nat)
    requires IsFormat(fmt) && i <= j < |fmt|
    requires forall k :: i <= k < j ==> fmt[k] != PERCENT
    ensures Format(fmt, i, va, arg) == fmt[i..j] + Format(fmt, j, va, arg)
    decreases j - i
  {
    hide Modifiers, Render, NextArg;
    if i < j {
      FormatLiteral(fmt, i + 1, j, va, arg);
      assert fmt[i..j] == [fmt[i]] + fmt[i + 1..j];
    } else {
      assert fmt[i..j] == [];
    }
  }

  lemma FormatUnknown(fmt: seq<Byte>, i: nat, va: VaList, arg: nat)
    requires IsFormat(fmt) && i < |fmt| && fmt[i] == PERCENT
    requires var d := Modifiers(fmt, i + 1, va, arg, PLAIN); !IsConversion(fmt[d.at])
    ensures var d := Modifiers(fmt, i + 1, va, arg, PLAIN);
            && Format(fmt, i, va, arg) == fmt[i..d.at] + Format(fmt, d.at, va, d.arg)
            && forall k :: i + 1 <= k < d.at ==> fmt[k] != PERCENT
  {
    hide Modifiers, Render, NextArg;
    var d := Modifiers(fmt, i + 1, va, arg, PLAIN);
    forall k | i + 1 <= k < d.at
      ensures fmt[k] != PERCENT
    {
      assert IsModifier(fmt[k]);
    }
  }

  /**
   * Stepping back to just after the percent sign, and reading on from there
   * with the arguments already taken, prints the unknown directive literally.
   */
  lemma FormatRewound(fmt: seq<Byte>, i: nat, va: VaList, arg: nat)
    requires IsFormat(fmt) && i < |fmt| && fmt[i] == PERCENT
    requires var d := Modifiers(fmt, i + 1, va, arg, PLAIN); !IsConversion(fmt[d.at])
    ensures var d := Modifiers(fmt, i + 1, va, arg, PLAIN);
            Format(fmt, i, va, arg) == [PERCENT] + Format(fmt, i + 1, va, d.arg)
  {
    hide Modifiers, Format;
    var d := Modifiers(fmt, i + 1, va, arg, PLAIN);
    FormatUnknown(fmt, i, va, arg);
    FormatLiteral(fmt, i + 1, d.at, va, d.arg);
    assert fmt[i..d.at] == [PERCENT] + fmt[i + 1..d.at];
  }

  /** A format that ends inside a directive prints that directive as it stands. */
  lemma TruncatedDirective(fmt: seq<Byte>, i: nat, va: VaList, arg: nat)
    requires IsFormat(fmt) && i < |fmt| && fmt[i] == PERCENT
    requires Modifiers(fmt, i + 1, va, arg, PLAIN).at == |fmt| - 1
    ensures Format(fmt, i, va, arg) == fmt[i..|fmt| - 1]
  {
    var d := Modifiers(fmt, i + 1, va, arg, PLAIN);
    FormatUnknown(fmt, i, va, arg);
    FormatStep(fmt, |fmt| - 1, va, d.arg);
  }

  lemma FormatStep(fmt: seq<Byte>, i: nat, va: VaList, arg: nat)
    requires IsFormat(fmt) && i < |fmt|
    ensures fmt[i] == 0 ==> Format(fmt, i, va, arg) == []
    ensures fmt[i] != 0 && fmt[i] != PERCENT ==> Format(fmt, i, va, arg) == [fmt[i]] + Format(fmt, i + 1, va, arg)
    ensures fmt[i] == PERCENT ==>
              var d := Modifiers(fmt, i + 1, va, arg, PLAIN);
              var c := fmt[d.at];
              IsConversion(c) ==>
                Format(fmt, i, va, arg)
                == Render(va, c, d.arg, d.flags) + Format(fmt, d.at + 1, va, NextArg(c, d.arg, d.flags))
  {
    hide Modifiers, Render;
  }

  /**
   * `vprintfmt`: the characters handed to `putch`, in order.  It ends for every
   * format, and it reads no byte after the format's NUL.
   */
  method Vprintfmt(fmt: seq<Byte>, va: VaList) returns (out: seq<int>)
    requires IsFormat(fmt)
    ensures out == Format(fmt, 0, va, 0)
  {
    hide Modifiers, Render, Format, NextArg;
    out := [];
    var i, arg := 0, 0;
    while true
      invariant 0 <= i < |fmt| && 0 <= arg
      invariant Format(fmt, 0, va, 0) == out + Format(fmt, i, va, arg)
      decreases |fmt| - i
    {
      FormatStep(fmt, i, va, arg);
      while fmt[i] != PERCENT
        invariant 0 <= i < |fmt|
        invariant Format(fmt, 0, va, 0) == out + Format(fmt, i, va, arg)
        decreases |fmt| - i
      {
        FormatStep(fmt, i, va, arg);
        if fmt[i] == 0 {
          return;
        }
        out := out + [fmt[i]];
        i := i + 1;
      }
      FormatStep(fmt, i, va, arg);
      ghost var open, start := i, arg;
      i := i + 1;
      var d := ReadModifiers(fmt, i, va, arg);
      i, arg := d.at + 1, d.arg;
      var ch := fmt[i - 1];
      if IsConversion(ch) {
        out, arg := Convert(out, va, ch, arg, d.flags);
      } else {
        out := out + [PERCENT];
        i := i - 1;
        while fmt[i - 1] != PERCENT
          invariant open + 1 <= i <= d.at
          decreases i
        {
          i := i - 1;
        }
        FormatRewound(fmt, open, va, start);
      }
    }
  }

  // ---------- Printing into a buffer ----------

  const E_INVAL := 3

  /** The characters as they are stored: their low bytes. */
  function LowBytes(cs: seq<int>): (bs: seq<Byte>)
    ensures |bs| == |cs| && forall i :: 0 <= i < |cs| ==> bs[i] == cs[i] % 0x100
  {
    seq(|cs|, i requires 0 <= i < |cs| => cs[i] % 0x100)
  }

  /** `struct sprintbuf`: the next free cell, the last one, and the characters seen. */
  class SprintBuf {
    const mem: array<Byte>
    const ebuf: nat
    var buf: nat
    var cnt: int

    constructor (mem: array<Byte>, start: nat, n: nat)
      requires n >= 1 && start + n <= mem.Length
      ensures this.mem == mem && ebuf == start + n - 1 && buf == start && cnt == 0
    {
      this.mem := mem;
      ebuf := start + n - 1;
      buf := start;
      cnt := 0;
    }

    method Sprintputch(ch: int)
      requires buf <= ebuf < mem.Length
      modifies this, mem
      ensures cnt == ToInt32(old(cnt) + 1)
      ensures buf == if old(buf) < ebuf then old(buf) + 1 else old(buf)
      ensures mem[..] == if old(buf) < ebuf then old(mem[..])[old(buf) := ch % 0x100] else old(mem[..])
    {
      cnt := ToInt32(cnt + 1);
      if buf < ebuf {
        mem[buf] := ch % 0x100;
        buf := buf + 1;
      }
    }

    /** The calls `vprintfmt` makes, in order. */
    method PutAll(cs: seq<int>)
      requires buf <= ebuf < mem.Length
      modifies this, mem
      ensures old(cnt) == 0 ==> cnt == ToInt32(|cs|)
      ensures buf == old(buf) + Min(ebuf - old(buf), |cs|)
      ensures mem[..] == old(mem[..buf]) + LowBytes(cs[..Min(ebuf - old(buf), |cs|)]) + old(mem[..])[buf..]
    {
      ghost var start, room := buf, ebuf - buf;
      for i := 0 to |cs|
        invariant (old(cnt) == 0 ==> cnt == ToInt32(i)) && buf == start + Min(room, i) && buf <= ebuf
        invariant mem[..] == old(mem[..buf]) + LowBytes(cs[..Min(room, i)]) + old(mem[..])[buf..]
      {
        ghost var m := Min(room, i);
        assert i < room ==> LowBytes(cs[..m + 1]) == LowBytes(cs[..m]) + [cs[i] % 0x100];
        ToInt32Step(i, 1, 1);
        Sprintputch(cs[i]);
      }
    }
  }

  /**
   * `vsnprintf`: the first n - 1 bytes of the output, or all of it if it is
   * shorter, then a NUL, and no other cell changed.  The result is the length
   * of the full output, counted in a 32-bit integer, whatever n is.
   */
  method Vsnprintf(mem: array?<Byte>, buf: nat, n: int, fmt: seq<Byte>, va: VaList) returns (rc: int)
    requires IsFormat(fmt)
    requires mem != null && n >= 1 ==> buf + n <= mem.Length
    modifies mem
    ensures mem == null || n < 1 ==> rc == -E_INVAL && (mem != null ==> mem[..] == old(mem[..]))
    ensures mem != null && n >= 1 ==>
              var full := Format(fmt, 0, va, 0);
              var m := Min(n - 1, |full|);
              && rc == ToInt32(|full|)
              && mem[..] == old(mem[..buf]) + LowBytes(full[..m]) + [0] + old(mem[buf + m + 1..])
  {
    if mem == null || n < 1 {
      return -E_INVAL;
    }
    var b := new SprintBuf(mem, buf, n);
    var out := Vprintfmt(fmt, va);
    b.PutAll(out);
    mem[b.buf] := 0;
    rc := b.cnt;
  }

  // ---------- What comes out ----------

  /**
   * What padding makes of `n` characters: exactly the width, or `n` if that is
   * more, unless the width is so far below zero that counting it down wraps.
   */
  function Filling(width: int, n: nat): int {
    if width - n < -0x8000_0000 then width + WORD_LIMIT else Max(width, n)
  }

  /** A padded number is exactly as wide as the width asks, or as its digits if they are more. */
  lemma NumberWidth(num: nat, base: int, width: int, padc: int)
    requires 2 <= base <= 16 && -0x8000_0000 <= width < 0x8000_0000 && |Digits(num, base)| <= 0x8000_0000
    ensures |NumberText(num, base, width, padc)| == Filling(width, |Digits(num, base)|)
  {
  }

  /** A string fills the width, or takes its own length cut to the precision if that is more. */
  lemma StringWidth(t: Text, f: Flags)
    requires InRange(f)
    ensures |StringText(t, f)| == Filling(f.width, if f.precision < 0 then |t| else Min(|t|, f.precision))
  {
  }

  /** The output of a format that is literal text and then one plain directive. */
  lemma FormatOneDirective(fmt: seq<Byte>, va: VaList)
    requires IsFormat(fmt) && |fmt| >= 3 && fmt[|fmt| - 3] == PERCENT && IsConversion(fmt[|fmt| - 2])
    requires forall k :: 0 <= k < |fmt| - 3 ==> fmt[k] != PERCENT
    ensures Format(fmt, 0, va, 0) == fmt[..|fmt| - 3] + Render(va, fmt[|fmt| - 2], 0, PLAIN)
  {
    hide Render, IsConversion;
    var i := |fmt| - 3;
    var c := fmt[i + 1];
    FormatLiteral(fmt, 0, i, va, 0);
    ConversionEndsModifiers(c);
    assert Modifiers(fmt, i + 1, va, 0, PLAIN) == Directive(i + 1, 0, PLAIN);
    FormatStep(fmt, i, va, 0);
    FormatStep(fmt, i + 2, va, NextArg(c, 0, PLAIN));
    assert fmt[0..i] == fmt[..i];
  }

  lemma ConversionEndsModifiers(c: int)
    ensures IsConversion(c) ==> !IsModifier(c)
  {
  }

  lemma AsciiErrors(err: int)
    ensures forall i :: 0 <= i < |ErrorString(err)| ==> ErrorString(err)[i] as int < 0x80
  {
  }

  const ERROR_NUMBER_FORMAT := Ascii("error %d") + [0]
  const ERROR_TEXT_FORMAT := Ascii("%s") + [0]

  lemma NestedNumberFormat(va: VaList, err: nat)
    requires va.word(0) == err < 0x8000_0000 && ErrorString(err) == ""
    ensures IsFormat(ERROR_NUMBER_FORMAT) && Format(ERROR_NUMBER_FORMAT, 0, va, 0) == ErrorText(err)
  {
    hide Format, IntText;
    FormatOneDirective(ERROR_NUMBER_FORMAT, va);
    assert ERROR_NUMBER_FORMAT[..6] == Ascii("error ");
  }

  lemma NestedTextFormat(va: VaList, err: nat)
    requires va.word(0) == err && ErrorString(err) != "" && va.text(err) == Ascii(ErrorString(err))
    ensures IsFormat(ERROR_TEXT_FORMAT) && Format(ERROR_TEXT_FORMAT, 0, va, 0) == ErrorText(err)
  {
    AsciiErrors(err);
    var t := va.text(err);
    assert StringText(t, PLAIN) == t;
    hide Format, StringText, ErrorString;
    FormatOneDirective(ERROR_TEXT_FORMAT, va);
    assert ERROR_TEXT_FORMAT[..0] == [];
    assert Render(va, 's' as int, 0, PLAIN) == t;
  }

  /** The two formats that `%e` prints through give what the conversion writes out directly. */
  lemma NestedErrorFormats(va: VaList, err: nat)
    requires va.word(0) == err < 0x8000_0000
    ensures IsFormat(ERROR_NUMBER_FORMAT) && IsFormat(ERROR_TEXT_FORMAT)
    ensures ErrorString(err) == "" ==> Format(ERROR_NUMBER_FORMAT, 0, va, 0) == ErrorText(err)
    ensures ErrorString(err) != "" && va.text(err) == Ascii(ErrorString(err))
            ==> Format(ERROR_TEXT_FORMAT, 0, va, 0) == ErrorText(err)
  {
    hide Format, ErrorText, ErrorString;
    if ErrorString(err) == "" {
      NestedNumberFormat(va, err);
    } else if va.text(err) == Ascii(ErrorString(err)) {
      NestedTextFormat(va, err);
    }
  }
}
