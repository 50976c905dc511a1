/**
 * Numbers as text: the digits `printnum` prints (lib/printfmt.c) and the value
 * `strtol` reads back (lib/string.c).
 */
module Numerals {
  import opened Machine

  // ---------- Digits and values ----------

  predicate AreDigits(ds: seq<int>, base: int) {
    forall i :: 0 <= i < |ds| ==> 0 <= ds[i] < base
  }

  lemma DivisionShrinks(num: nat, base: int)
    requires 2 <= base
    ensures num == num / base * base + num % base
    ensures 0 <= num % base < base && 0 <= num / base
    ensures base <= num ==> 0 < num / base < num
  {
    var q, r := num / base, num % base;
    assert num == base * q + r && 0 <= r < base;
    Distribute(q, base, 1, -1);
    if q <= -1 {
      AtLeastOnce(base, -q);
    } else if q >= 1 {
      AtLeastOnce(q, base - 1);
    }
  }

  /** The digits of `num`, most significant first. */
  function Digits(num: nat, base: int): (ds: seq<int>)
    requires base >= 2
    ensures |ds| > 0 && AreDigits(ds, base)
    decreases num
  {
    DivisionShrinks(num, base);
    if num < base then [num] else Digits(num / base, base) + [num % base]
  }

  function Value(ds: seq<int>, base: int): int {
    if ds == [] then 0 else Value(ds[..|ds| - 1], base) * base + ds[|ds| - 1]
  }

  lemma {:induction false} DigitsValue(num: nat, base: int)
    requires base >= 2
    ensures Value(Digits(num, base), base) == num
    decreases num
  {
    var ds := Digits(num, base);
    DivisionShrinks(num, base);
    if num < base {
      assert ds[..0] == [];
    } else {
      assert ds[..|ds| - 1] == Digits(num / base, base);
      DigitsValue(num / base, base);
    }
  }

  function Power(base: nat, k: nat): nat {
    if k == 0 then 1 else base * Power(base, k - 1)
  }

  lemma {:induction false} PowerPositive(base: nat, k: nat)
    requires base >= 1
    ensures Power(base, k) >= 1
  {
    if k > 0 {
      PowerPositive(base, k - 1);
    }
  }

  lemma QuotientIs(n: int, d: int, q: int, r: int)
    requires n == d * q + r && 0 <= r < d
    ensures n / d == q
  {
    var p := n / d;
    assert n == d * p + n % d;
    var x := p - q;
    assert d * x == d * p - d * q == r - n % d;
    if x >= 1 {
      AtLeastOnce(d, x);
    } else if x <= -1 {
      AtLeastOnce(d, -x);
    }
  }

  lemma {:induction false} AtLeastOnce(d: int, x: int)
    requires d >= 0 && x >= 1
    ensures d * x >= d
  {
    if x > 1 {
      AtLeastOnce(d, x - 1);
      assert d * x == d * (x - 1) + d;
    }
  }

  /** Dividing twice is dividing by the product. */
  lemma DivideTwice(n: nat, b: nat, c: nat)
    requires b >= 1 && c >= 1
    ensures b * c >= 1 && n / b / c == n / (b * c)
  {
    AtLeastOnce(b, c);
    var q := n / b;
    var p, s := q / c, q % c;
    AtLeastOnce(b, c - s);
    Distribute(b, c, p, s);
    QuotientIs(n, b * c, p, b * s + n % b);
  }

  lemma Distribute(b: int, c: int, p: int, s: int)
    ensures b * (c * p + s) == b * c * p + b * s
    ensures b * (c - s) == b * c - b * s
  {
  }

  /**
   * Counted from the right, digit `k` is the number divided by the base's
   * `k`-th power, modulo the base, and no zero leads.
   */
  lemma {:induction false} DigitAt(num: nat, base: nat, k: nat)
    requires base >= 2 && k < |Digits(num, base)|
    ensures Power(base, k) >= 1
    ensures var ds := Digits(num, base); ds[|ds| - 1 - k] == num / Power(base, k) % base
    ensures num > 0 ==> Digits(num, base)[0] > 0
    decreases num
  {
    PowerPositive(base, k);
    DivisionShrinks(num, base);
    if num >= base {
      DigitAt(num / base, base, if k > 0 then k - 1 else 0);
      if k > 0 {
        PowerPositive(base, k - 1);
        DivideTwice(num, base, Power(base, k - 1));
      }
    }
  }

  lemma {:induction false} LeadingZeros(n: nat, ds: seq<int>, base: int)
    ensures Value(Repeat(0, n) + ds, base) == Value(ds, base)
    decreases |ds|
  {
    var all := Repeat(0, n) + ds;
    if ds == [] {
      assert all == Repeat(0, n);
      ZeroValue(n, base);
    } else {
      assert all[..|all| - 1] == Repeat(0, n) + ds[..|ds| - 1];
      LeadingZeros(n, ds[..|ds| - 1], base);
    }
  }

  lemma {:induction false} ZeroValue(n: nat, base: int)
    ensures Value(Repeat(0, n), base) == 0
  {
    if n > 0 {
      assert Repeat(0, n)[..n - 1] == Repeat(0, n - 1);
      ZeroValue(n - 1, base);
    }
  }

  function Repeat(x: int, n: int): (s: seq<int>)
    ensures |s| == (if n < 0 then 0 else n) && forall i :: 0 <= i < |s| ==> s[i] == x
  {
    seq(if n < 0 then 0 else n, _ => x)
  }

  // ---------- printnum ----------

  /** The character of a digit, in lower case. */
  function DigitChar(d: int): Byte
    requires 0 <= d < 16
  {
    if d < 10 then '0' as int + d else 'a' as int + d - 10
  }

  function DigitChars(ds: seq<int>): (s: seq<int>)
    requires AreDigits(ds, 16)
    ensures |s| == |ds| && forall i :: 0 <= i < |ds| ==> s[i] == DigitChar(ds[i])
  {
    seq(|ds|, i requires 0 <= i < |ds| => DigitChar(ds[i]))
  }

  /** What is left of a width when a 32-bit integer was counted down from it `n` times. */
  function Gap(width: int, n: int): int {
    ToInt32(width - n)
  }

  /** A number padded on the left to the width. */
  function NumberText(num: nat, base: int, width: int, padc: int): seq<int>
    requires 2 <= base <= 16
  {
    var ds := Digits(num, base);
    Repeat(padc, Gap(width, |ds|)) + DigitChars(ds)
  }

  lemma GapStep(width: int, n: int)
    ensures Gap(ToInt32(width - 1), n) == Gap(width, n + 1)
  {
    var m := (ToInt32(width - 1) - (width - 1)) / WORD_LIMIT;
    ToInt32Cong(ToInt32(width - 1) - n, width - (n + 1), m);
  }

  lemma NumberTextStep(num: nat, base: int, width: int, padc: int)
    requires 2 <= base <= 16
    ensures 0 <= num % base < base && 0 <= num / base
    ensures num < base ==> NumberText(num, base, width, padc) == Repeat(padc, Gap(width, 1)) + [DigitChar(num % base)]
    ensures base <= num ==> num / base < num
    ensures base <= num ==>
              NumberText(num, base, width, padc)
              == NumberText(num / base, base, ToInt32(width - 1), padc) + [DigitChar(num % base)]
  {
    DivisionShrinks(num, base);
    DigitsStep(num, base);
    hide Digits, DigitChar, DigitChars, AreDigits, Gap;
    if num < base {
      LastDigit(num % base);
    } else {
      var ds := Digits(num / base, base);
      GapStep(width, |ds|);
      OneMoreChar(ds, num % base);
    }
  }

  lemma DigitsStep(num: nat, base: int)
    requires 2 <= base <= 16
    ensures num < base ==> Digits(num, base) == [num] && num % base == num
    ensures base <= num ==> 0 <= num / base && Digits(num, base) == Digits(num / base, base) + [num % base]
  {
    DivisionShrinks(num, base);
  }

  lemma LastDigit(d: int)
    requires 0 <= d < 16
    ensures AreDigits([d], 16) && DigitChars([d]) == [DigitChar(d)]
  {
  }

  lemma OneMoreChar(ds: seq<int>, d: int)
    requires AreDigits(ds, 16) && 0 <= d < 16
    ensures AreDigits(ds + [d], 16) && DigitChars(ds + [d]) == DigitChars(ds) + [DigitChar(d)]
  {
  }

  lemma HexDigit(d: int)
    requires 0 <= d < 16
    ensures DigitChar(d) == "0123456789abcdef"[d] as int
  {
  }

  lemma CountDown(w: int)
    requires 0 < w < 0x8000_0000
    ensures ToInt32(w - 1) == w - 1
  {
  }

  /** `printnum`, which appends to what was printed so far and counts the width down as a 32-bit integer. */
  method Printnum(before: seq<int>, num: nat, base: int, width: int, padc: int) returns (out: seq<int>)
    requires 2 <= base <= 16
    ensures out == before + NumberText(num, base, width, padc)
    decreases num
  {
    hide NumberText, DigitChar, ToInt32;
    NumberTextStep(num, base, width, padc);
    HexDigit(num % base);
    out := before;
    if num >= base {
      out := Printnum(out, num / base, base, ToInt32(width - 1), padc);
    } else {
      var w := ToInt32(width - 1);
      while w > 0
        invariant if Gap(width, 1) <= 0 then w == Gap(width, 1) else 0 <= w <= Gap(width, 1)
        invariant out == before + Repeat(padc, Gap(width, 1) - w)
      {
        CountDown(w);
        out := out + [padc];
        w := ToInt32(w - 1);
      }
      assert out == before + Repeat(padc, Gap(width, 1));
    }
    out := out + ["0123456789abcdef"[num % base] as int];
  }

  /** `%d` of `v`: the sign comes before the padding. */
  function IntText(v: int, width: int, padc: int): seq<int> {
    if v < 0 then ['-' as int] + NumberText(-v, 10, width, padc) else NumberText(v, 10, width, padc)
  }

  // ---------- strtol ----------

  predicate NulTerminated(s: seq<int>) {
    |s| > 0 && s[|s| - 1] == 0
  }

  predicate IsBlank(c: int) {
    c == 0x20 || c == 9
  }

  /** The value of a character as a digit, or -1. */
  function DigitOf(c: int): int {
    if '0' as int <= c <= '9' as int then c - '0' as int
    else if 'a' as int <= c <= 'z' as int then c - 'a' as int + 10
    else if 'A' as int <= c <= 'Z' as int then c - 'A' as int + 10
    else -1
  }

  predicate IsDigit(c: int, base: int) {
    0 <= DigitOf(c) < base
  }

  function SkipBlanks(s: seq<int>): (i: nat)
    ensures i <= |s|
  {
    if s != [] && IsBlank(s[0]) then 1 + SkipBlanks(s[1..]) else 0
  }

  /** The digits of the longest digit string at the start of `s`. */
  function DigitRun(s: seq<int>, base: int): (ds: seq<int>)
    ensures |ds| <= |s|
  {
    if s != [] && IsDigit(s[0], base) then [DigitOf(s[0])] + DigitRun(s[1..], base) else []
  }

  /** The base that counts and how many characters of prefix it takes. */
  function Prefix(s: seq<int>, base: int): (r: (int, nat))
    ensures r.1 <= |s|
  {
    if (base == 0 || base == 16) && |s| >= 2 && s[0] == '0' as int && s[1] == 'x' as int then (16, 2)
    else if base == 0 && |s| >= 1 && s[0] == '0' as int then (8, 1)
    else if base == 0 then (10, 0)
    else (base, 0)
  }

  /** Blanks, a sign, a prefix, digits: the value as a 32-bit `long`, and how much was read. */
  function StrtolSpec(s: seq<int>, base: int): (int, nat) {
    var i := SkipBlanks(s);
    var signed := i < |s| && (s[i] == '+' as int || s[i] == '-' as int);
    var neg := i < |s| && s[i] == '-' as int;
    var j := if signed then i + 1 else i;
    var (b, n) := Prefix(s[j..], base);
    var ds := DigitRun(s[j + n..], b);
    (ToInt32(if neg then -Value(ds, b) else Value(ds, b)), j + n + |ds|)
  }

  lemma ToInt32Cong(x: int, y: int, m: int)
    requires x == y + m * WORD_LIMIT
    ensures ToInt32(x) == ToInt32(y)
  {
    assert x % WORD_LIMIT == y % WORD_LIMIT;
  }

  lemma ToInt32Step(x: int, base: int, d: int)
    ensures ToInt32(ToInt32(x) * base + d) == ToInt32(x * base + d)
    ensures ToInt32(-ToInt32(x)) == ToInt32(-x)
  {
    var m := (ToInt32(x) - x) / WORD_LIMIT;
    assert ToInt32(x) == x + m * WORD_LIMIT;
    assert ToInt32(x) * base + d == x * base + d + m * base * WORD_LIMIT;
    ToInt32Cong(ToInt32(x) * base + d, x * base + d, m * base);
    ToInt32Cong(-ToInt32(x), -x, -m);
  }

  /** The digit loop of `strtol`; the value wraps around as it does on the machine. */
  method ReadDigits(s: seq<int>, start: int, base: int) returns (val: int, end: int)
    requires NulTerminated(s) && 0 <= start < |s|
    ensures end == start + |DigitRun(s[start..], base)|
    ensures val == ToInt32(Value(DigitRun(s[start..], base), base))
  {
    hide ToInt32;
    val, end := 0, start;
    ghost var ds: seq<int> := [];
    while IsDigit(s[end], base)
      invariant start <= end < |s| && |ds| == end - start
      invariant DigitRun(s[start..], base) == ds + DigitRun(s[end..], base)
      invariant val == ToInt32(Value(ds, base))
      decreases |s| - end
    {
      var dig := DigitOf(s[end]);
      NextDigit(s, end, base, ds);
      end, val := end + 1, ToInt32(val * base + dig);
      ds := ds + [dig];
    }
    assert ds + [] == ds;
  }

  /** One more digit, in the run and in the value modulo 2^32. */
  lemma NextDigit(s: seq<int>, i: nat, base: int, ds: seq<int>)
    requires i < |s| && IsDigit(s[i], base)
    ensures var dig := DigitOf(s[i]);
            && ds + DigitRun(s[i..], base) == ds + [dig] + DigitRun(s[i + 1..], base)
            && ToInt32(ToInt32(Value(ds, base)) * base + dig) == ToInt32(Value(ds + [dig], base))
  {
    hide ToInt32, IsDigit, DigitOf;
    var dig := DigitOf(s[i]);
    assert s[i..][1..] == s[i + 1..];
    assert (ds + [dig])[..|ds|] == ds;
    ToInt32Step(Value(ds, base), base, dig);
  }

  /** The first loop of `strtol`. */
  method SkipLeadingBlanks(s: seq<int>) returns (p: int)
    requires NulTerminated(s)
    ensures p == SkipBlanks(s) < |s|
  {
    p := 0;
    while IsBlank(s[p])
      invariant 0 <= p < |s|
      invariant SkipBlanks(s) == p + SkipBlanks(s[p..])
      decreases |s| - p
    {
      assert s[p..][1..] == s[p + 1..];
      p := p + 1;
    }
  }

  /** The prefix of `strtol`, which it reads even when no digit follows. */
  method ReadPrefix(s: seq<int>, p: int, base: int) returns (b: int, n: int)
    requires NulTerminated(s) && 0 <= p < |s|
    ensures (b, n) == Prefix(s[p..], base) && 0 <= n && p + n < |s|
  {
    b, n := base, 0;
    if (b == 0 || b == 16) && s[p] == '0' as int && s[p + 1] == 'x' as int {
      b, n := 16, 2;
    } else if b == 0 && s[p] == '0' as int {
      b, n := 8, 1;
    } else if b == 0 {
      b := 10;
    }
  }

  /** `strtol`. */
  method Strtol(s: seq<int>, base: int) returns (val: int, end: int)
    requires NulTerminated(s)
    ensures (val, end) == StrtolSpec(s, base)
  {
    hide DigitRun, Value, ToInt32, SkipBlanks, IsDigit, Prefix;
    var neg, b := false, base;
    var p := SkipLeadingBlanks(s);
    if s[p] == '+' as int {
      p := p + 1;
    } else if s[p] == '-' as int {
      p, neg := p + 1, true;
    }
    var n;
    b, n := ReadPrefix(s, p, base);
    p := p + n;
    val, end := ReadDigits(s, p, b);
    ToInt32Step(Value(DigitRun(s[p..], b), b), 0, 0);
    if neg {
      val := ToInt32(-val);
    }
  }
}
