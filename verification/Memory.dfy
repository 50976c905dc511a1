/**
 * Moving and filling memory (lib/string.c): the forms built on the processor's
 * string instructions, by bytes or by words of four, and the plain C loops.
 * All of them are specified by the same functions of the memory before.
 */
module Memory {
  import opened Machine

  /** The bytes at `src` also at `dst`, nothing else changed. */
  function Moved(m: seq<Byte>, dst: nat, src: nat, n: nat): (r: seq<Byte>)
    requires dst + n <= |m| && src + n <= |m|
    ensures |r| == |m|
    ensures forall i :: 0 <= i < |m| ==> r[i] == if dst <= i < dst + n then m[src + (i - dst)] else m[i]
  {
    m[..dst] + m[src..src + n] + m[dst + n..]
  }

  /** `n` bytes from `dst` on are the low byte of `c`, nothing else changed. */
  function Filled(m: seq<Byte>, dst: nat, c: int, n: nat): (r: seq<Byte>)
    requires dst + n <= |m|
    ensures |r| == |m|
    ensures forall i :: 0 <= i < |m| ==> r[i] == if dst <= i < dst + n then c % 0x100 else m[i]
  {
    m[..dst] + seq(n, _ => c % 0x100) + m[dst + n..]
  }

  /** Copying upwards, the next bytes to read are still the original ones. */
  lemma MovedUp(m: seq<Byte>, d: nat, s: nat, k: nat, step: nat)
    requires d + k + step <= |m| && s + k + step <= |m|
    requires d <= s || s + k + step <= d
    ensures Moved(Moved(m, d, s, k), d + k, s + k, step) == Moved(m, d, s, k + step)
  {
    var once, all := Moved(Moved(m, d, s, k), d + k, s + k, step), Moved(m, d, s, k + step);
    assert |once| == |all| && forall i :: 0 <= i < |m| ==> once[i] == all[i];
  }

  /** Copying downwards, too, if the destination is above the source. */
  lemma MovedDown(m: seq<Byte>, d: nat, s: nat, k: nat, step: nat)
    requires step <= d && step <= s && d + k <= |m| && s + k <= |m|
    requires s <= d
    ensures Moved(Moved(m, d, s, k), d - step, s - step, step) == Moved(m, d - step, s - step, k + step)
  {
    var once, all := Moved(Moved(m, d, s, k), d - step, s - step, step), Moved(m, d - step, s - step, k + step);
    assert |once| == |all| && forall i :: 0 <= i < |m| ==> once[i] == all[i];
  }

  lemma MovedNothing(m: seq<Byte>, d: nat, s: nat)
    requires d <= |m| && s <= |m|
    ensures Moved(m, d, s, 0) == m
  {
  }

  lemma MovedOne(m: seq<Byte>, d: nat, s: nat)
    requires d < |m| && s < |m|
    ensures Moved(m, d, s, 1) == m[d := m[s]]
  {
  }

  // ---------- The string instructions ----------

  /** One `movsb` or `movsl`: the whole byte or word is read before any of it is written. */
  method Movs(mem: array<Byte>, d: nat, s: nat, wide: bool)
    requires d + (if wide then 4 else 1) <= mem.Length && s + (if wide then 4 else 1) <= mem.Length
    modifies mem
    ensures mem[..] == Moved(old(mem[..]), d, s, if wide then 4 else 1)
  {
    if wide {
      mem[d], mem[d + 1], mem[d + 2], mem[d + 3] := mem[s], mem[s + 1], mem[s + 2], mem[s + 3];
    } else {
      mem[d] := mem[s];
    }
    assert mem[..] == Moved(old(mem[..]), d, s, if wide then 4 else 1);
  }

  /** `cld; rep movs`: upwards, for a destination that does not start inside the source. */
  method RepMovsUp(mem: array<Byte>, d: nat, s: nat, n: nat, wide: bool)
    requires d + n <= mem.Length && s + n <= mem.Length && (wide ==> n % 4 == 0)
    requires d <= s || s + n <= d
    modifies mem
    ensures mem[..] == Moved(old(mem[..]), d, s, n)
  {
    hide Moved;
    MovedNothing(mem[..], d, s);
    var k := 0;
    while k < n
      invariant 0 <= k <= n && (wide ==> k % 4 == 0)
      invariant mem[..] == Moved(old(mem[..]), d, s, k)
    {
      MovedUp(old(mem[..]), d, s, k, if wide then 4 else 1);
      Movs(mem, d + k, s + k, wide);
      k := k + if wide then 4 else 1;
    }
  }

  /** `std; rep movs`: downwards, for a destination above the source. */
  method RepMovsDown(mem: array<Byte>, d: nat, s: nat, n: nat, wide: bool)
    requires d + n <= mem.Length && s + n <= mem.Length && (wide ==> n % 4 == 0)
    requires s <= d
    modifies mem
    ensures mem[..] == Moved(old(mem[..]), d, s, n)
  {
    hide Moved;
    MovedNothing(mem[..], d + n, s + n);
    var k := n;
    while k > 0
      invariant 0 <= k <= n && (wide ==> k % 4 == 0)
      invariant mem[..] == Moved(old(mem[..]), d + k, s + k, n - k)
    {
      MovedDown(old(mem[..]), d + k, s + k, n - k, if wide then 4 else 1);
      k := k - if wide then 4 else 1;
      Movs(mem, d + k, s + k, wide);
    }
  }

  // ---------- memmove ----------

  /** `memmove` on the string instructions. */
  method Memmove(mem: array<Byte>, dst: nat, src: nat, n: nat)
    requires dst + n <= mem.Length && src + n <= mem.Length
    modifies mem
    ensures mem[..] == Moved(old(mem[..]), dst, src, n)
  {
    var s, d := src, dst;
    if s < d && s + n > d {
      s := s + n;
      d := d + n;
      RepMovsDown(mem, d - n, s - n, n, s % 4 == 0 && d % 4 == 0 && n % 4 == 0);
    } else {
      RepMovsUp(mem, d, s, n, s % 4 == 0 && d % 4 == 0 && n % 4 == 0);
    }
  }

  /** `memmove` in plain C, a byte at a time. */
  method MemmoveBytes(mem: array<Byte>, dst: nat, src: nat, n: nat)
    requires dst + n <= mem.Length && src + n <= mem.Length
    modifies mem
    ensures mem[..] == Moved(old(mem[..]), dst, src, n)
  {
    hide Moved;
    var s, d, left := src, dst, n;
    if s < d && s + n > d {
      s := s + n;
      d := d + n;
      MovedNothing(mem[..], d, s);
      while left > 0
        invariant 0 <= left <= n && s == src + left && d == dst + left
        invariant mem[..] == Moved(old(mem[..]), d, s, n - left)
      {
        MovedDown(old(mem[..]), d, s, n - left, 1);
        d, s := d - 1, s - 1;
        MovedOne(mem[..], d, s);
        mem[d] := mem[s];
        left := left - 1;
      }
    } else {
      MovedNothing(mem[..], d, s);
      while left > 0
        invariant 0 <= left <= n && s == src + (n - left) && d == dst + (n - left)
        invariant mem[..] == Moved(old(mem[..]), dst, src, n - left)
      {
        MovedUp(old(mem[..]), dst, src, n - left, 1);
        MovedOne(mem[..], d, s);
        mem[d] := mem[s];
        d, s := d + 1, s + 1;
        left := left - 1;
      }
    }
  }

  // ---------- memset ----------

  /** Byte `k` of a word, the least significant one first. */
  function WordByte(w: Word, k: nat): Byte
    requires k < 4
  {
    match k
    case 0 => w % 0x100
    case 1 => w / 0x100 % 0x100
    case 2 => w / 0x1_0000 % 0x100
    case 3 => w / 0x100_0000
  }

  /** (c << 24) | (c << 16) | (c << 8) | c, by which all four bytes are `c`. */
  function Spread(c: Byte): (w: Word)
    ensures forall k :: 0 <= k < 4 ==> WordByte(w, k) == c
  {
    var w := c * 0x101_0101;
    assert w / 0x100 == c * 0x1_0101 && w / 0x1_0000 == c * 0x101 && w / 0x100_0000 == c;
    assert w % 0x100 == c && w / 0x100 % 0x100 == c && w / 0x1_0000 % 0x100 == c;
    w
  }

  /** `rep stosl`. */
  method RepStosl(mem: array<Byte>, d: nat, w: Word, n: nat)
    requires d + n <= mem.Length && n % 4 == 0
    modifies mem
    ensures forall i :: 0 <= i < mem.Length ==>
              mem[i] == if d <= i < d + n then WordByte(w, (i - d) % 4) else old(mem[i])
  {
    var k := 0;
    while k < n
      invariant 0 <= k <= n && k % 4 == 0
      invariant forall i :: 0 <= i < mem.Length ==>
                  mem[i] == if d <= i < d + k then WordByte(w, (i - d) % 4) else old(mem[i])
    {
      mem[d + k], mem[d + k + 1] := WordByte(w, 0), WordByte(w, 1);
      mem[d + k + 2], mem[d + k + 3] := WordByte(w, 2), WordByte(w, 3);
      k := k + 4;
    }
  }

  /** `rep stosb`. */
  method RepStosb(mem: array<Byte>, d: nat, c: int, n: nat)
    requires d + n <= mem.Length
    modifies mem
    ensures mem[..] == Filled(old(mem[..]), d, c, n)
  {
    for k := 0 to n
      invariant mem[..] == Filled(old(mem[..]), d, c, k)
    {
      mem[d + k] := c % 0x100;
    }
  }

  /** `memset` on the string instructions, by words where alignment and length allow it. */
  method Memset(mem: array<Byte>, v: nat, c: int, n: nat)
    requires v + n <= mem.Length
    modifies mem
    ensures mem[..] == Filled(old(mem[..]), v, c, n)
  {
    if n == 0 {
      return;
    }
    if v % 4 == 0 && n % 4 == 0 {
      RepStosl(mem, v, Spread(c % 0x100), n);
    } else {
      RepStosb(mem, v, c, n);
    }
  }

  /** A signed counter that starts at `n` and is decremented before it is tested. */
  lemma SignedCountdown(n: Word)
    ensures var m := ToInt32(ToInt32(n) - 1); if n <= 0x8000_0000 then m == n - 1 else m < 0
  {
  }

  /** One more byte filled. */
  lemma FilledNext(before: seq<Byte>, mem: seq<Byte>, v: nat, c: int, k: nat)
    requires v + k < |before| && mem == Filled(before, v, c, k)
    ensures mem[v + k := c % 0x100] == Filled(before, v, c, k + 1)
  {
  }

  /**
   * `memset` in plain C counts in a signed integer, so it fills what it should
   * up to 2 GB, where the counter's wrap-around just saves it, and nothing at
   * all beyond.
   */
  method MemsetBytes(mem: array<Byte>, v: nat, c: int, n: Word)
    requires v + n <= mem.Length
    modifies mem
    ensures mem[..] == if n <= 0x8000_0000 then Filled(old(mem[..]), v, c, n) else old(mem[..])
  {
    hide ToInt32, Filled;
    SignedCountdown(n);
    var p, m := v, ToInt32(ToInt32(n) - 1);
    FilledNone(mem[..], v, c);
    while m >= 0
      invariant n <= 0x8000_0000 ==> -1 <= m < n && p == v + (n - 1 - m)
      invariant n <= 0x8000_0000 ==> mem[..] == Filled(old(mem[..]), v, c, n - 1 - m)
      invariant n > 0x8000_0000 ==> m < 0 && mem[..] == old(mem[..])
    {
      FilledNext(old(mem[..]), mem[..], v, c, n - 1 - m);
      SmallCount(m);
      mem[p] := c % 0x100;
      p, m := p + 1, ToInt32(m - 1);
    }
  }

  lemma SmallCount(m: int)
    requires 0 <= m < 0x8000_0000
    ensures ToInt32(m - 1) == m - 1
  {
  }

  lemma FilledNone(before: seq<Byte>, v: nat, c: int)
    requires v <= |before|
    ensures Filled(before, v, c, 0) == before
  {
  }
}
