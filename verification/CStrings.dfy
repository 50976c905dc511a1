/** NUL-terminated strings inside a larger run of bytes, and the lookups of lib/string.c on them. */
module CStrings {
  import opened Machine

  /** A string starts at `i`: some byte from there on is NUL. */
  predicate HasNul(s: seq<Byte>, i: int) {
    0 <= i < |s| && 0 in s[i..]
  }

  /** The index of the first NUL at or after `i`. */
  function StrEnd(s: seq<Byte>, i: int): (e: int)
    requires HasNul(s, i)
    ensures i <= e < |s| && s[e] == 0
    ensures forall k :: i <= k < e ==> s[k] != 0
    decreases |s| - i
  {
    if s[i] == 0 then i else StrEnd(s, i + 1)
  }

  /** The characters of the string that starts at `i`. */
  function CStr(s: seq<Byte>, i: int): (t: seq<Byte>)
    requires HasNul(s, i)
    ensures 0 !in t
  {
    s[i..StrEnd(s, i)]
  }

  /** The length of the longest prefix of `t` without the byte `c`. */
  function Before(t: seq<Byte>, c: Byte): (n: nat)
    ensures n <= |t| && c !in t[..n] && (n < |t| ==> t[n] == c)
  {
    if t == [] || t[0] == c then 0
    else
      assert t[..1 + Before(t[1..], c)] == [t[0]] + t[1..][..Before(t[1..], c)];
      1 + Before(t[1..], c)
  }

  /** `strfind`: the first `c` in the string that starts at `i`, or its NUL. */
  method Strfind(s: seq<Byte>, i: int, c: Byte) returns (p: int)
    requires HasNul(s, i)
    ensures p == i + Before(CStr(s, i), c)
  {
    p := i;
    while s[p] != 0
      invariant i <= p <= StrEnd(s, i)
      invariant Before(CStr(s, i), c) == p - i + Before(s[p..StrEnd(s, i)], c)
      decreases StrEnd(s, i) - p
    {
      if s[p] == c {
        break;
      }
      assert s[p..StrEnd(s, i)][1..] == s[p + 1..StrEnd(s, i)];
      p := p + 1;
    }
  }

  // ---------- Comparison ----------

  /** The byte at `i`, or the NUL after the last character. */
  function CharAt(t: seq<Byte>, i: nat): Byte {
    if i < |t| then t[i] else 0
  }

  /** The first index at which the strings differ, or the length of both. */
  function FirstDifference(p: seq<Byte>, q: seq<Byte>): (k: nat)
    ensures k <= |p| && k <= |q| && p[..k] == q[..k]
    ensures k < |p| && k < |q| ==> p[k] != q[k]
  {
    if p == [] || q == [] || p[0] != q[0] then 0
    else
      var k := FirstDifference(p[1..], q[1..]);
      assert p[..k + 1] == [p[0]] + p[1..][..k] && q[..k + 1] == [q[0]] + q[1..][..k];
      k + 1
  }

  /** What `strcmp` returns for two strings. */
  function Compare(p: seq<Byte>, q: seq<Byte>): int {
    var k := FirstDifference(p, q);
    CharAt(p, k) - CharAt(q, k)
  }

  /** The order of strings by unsigned bytes, in which a prefix comes first. */
  ghost predicate Less(p: seq<Byte>, q: seq<Byte>) {
    exists k: nat :: k <= |p| && k < |q| && p[..k] == q[..k] && (k < |p| ==> p[k] < q[k])
  }

  lemma DifferenceIs(p: seq<Byte>, q: seq<Byte>, k: nat)
    requires k <= |p| && k <= |q| && p[..k] == q[..k]
    requires k < |p| && k < |q| ==> p[k] != q[k]
    requires k < |p| || k < |q|
    ensures FirstDifference(p, q) == k
  {
  }

  /** The sign of `strcmp` is the order of the strings. */
  lemma CompareMeaning(p: seq<Byte>, q: seq<Byte>)
    requires 0 !in p && 0 !in q
    ensures Compare(p, q) < 0 <==> Less(p, q)
    ensures Compare(p, q) == 0 <==> p == q
    ensures Compare(p, q) == -Compare(q, p)
  {
    var d := FirstDifference(p, q);
    if d < |p| || d < |q| {
      DifferenceIs(q, p, d);
    } else {
      assert p == p[..d] && q == q[..d];
      assert FirstDifference(q, p) == d;
    }
    if Less(p, q) {
      var k: nat :| k <= |p| && k < |q| && p[..k] == q[..k] && (k < |p| ==> p[k] < q[k]);
      DifferenceIs(p, q, k);
      assert q[k] in q;
    }
    if Compare(p, q) < 0 {
      assert d < |q|;
    }
  }

  lemma CompareTransitive(p: seq<Byte>, q: seq<Byte>, r: seq<Byte>)
    requires 0 !in p && 0 !in q && 0 !in r
    requires Compare(p, q) <= 0 && Compare(q, r) <= 0
    ensures Compare(p, r) <= 0
  {
    CompareMeaning(p, q);
    CompareMeaning(q, r);
    CompareMeaning(p, r);
    if p != q && q != r {
      var i: nat :| i <= |p| && i < |q| && p[..i] == q[..i] && (i < |p| ==> p[i] < q[i]);
      var j: nat :| j <= |q| && j < |r| && q[..j] == r[..j] && (j < |q| ==> q[j] < r[j]);
      var k := if i < j then i else j;
      assert p[..k] == p[..i][..k] == q[..i][..k] == q[..k];
      assert q[..k] == q[..j][..k] == r[..j][..k] == r[..k];
      if i < j {
        assert q[i] == q[..j][i] == r[..j][i] == r[i];
      } else if j < i {
        assert p[j] == p[..i][j] == q[..i][j] == q[j];
      }
      assert k <= |p| && k < |r| && p[..k] == r[..k] && (k < |p| ==> p[k] < r[k]);
    }
  }

  /** The string cut to at most n characters. */
  function Cut(t: seq<Byte>, n: nat): (r: seq<Byte>)
    ensures r <= t && |r| == if n < |t| then n else |t|
  {
    if n < |t| then t[..n] else t
  }

  /** `strcmp`. */
  method Strcmp(s: seq<Byte>, i: int, t: seq<Byte>, j: int) returns (r: int)
    requires HasNul(s, i) && HasNul(t, j)
    ensures r == Compare(CStr(s, i), CStr(t, j))
  {
    var k := 0;
    ghost var p, q := CStr(s, i), CStr(t, j);
    while s[i + k] != 0 && s[i + k] == t[j + k]
      invariant 0 <= k <= |p| && k <= |q| && p[..k] == q[..k]
      decreases |p| - k
    {
      assert p[k] == s[i + k] && q[k] == t[j + k];
      k := k + 1;
    }
    StopsAt(p, q, k);
    r := (s[i + k] as int) - (t[j + k] as int);
  }

  /** `strncmp`: the comparison of the two strings cut to n characters. */
  method Strncmp(s: seq<Byte>, i: int, t: seq<Byte>, j: int, n: nat) returns (r: int)
    requires HasNul(s, i) && HasNul(t, j)
    ensures r == Compare(Cut(CStr(s, i), n), Cut(CStr(t, j), n))
  {
    var k, left := 0, n;
    ghost var p, q := CStr(s, i), CStr(t, j);
    while left > 0 && s[i + k] != 0 && s[i + k] == t[j + k]
      invariant 0 <= k <= |p| && k <= |q| && p[..k] == q[..k] && k + left == n
      decreases left
    {
      assert p[k] == s[i + k] && q[k] == t[j + k];
      k, left := k + 1, left - 1;
    }
    CutStopsAt(p, q, k, n);
    if left == 0 {
      return 0;
    }
    r := (s[i + k] as int) - (t[j + k] as int);
  }

  /** A loop that stops at the end of `p` or at a difference knows the comparison. */
  lemma StopsAt(p: seq<Byte>, q: seq<Byte>, k: nat)
    requires k <= |p| && k <= |q| && p[..k] == q[..k]
    requires k < |p| ==> p[k] != CharAt(q, k)
    ensures Compare(p, q) == CharAt(p, k) - CharAt(q, k)
  {
    if k < |p| || k < |q| {
      DifferenceIs(p, q, k);
    }
  }

  lemma CutStopsAt(p: seq<Byte>, q: seq<Byte>, k: nat, n: nat)
    requires k <= n && k <= |p| && k <= |q| && p[..k] == q[..k]
    requires k < n && k < |p| ==> p[k] != CharAt(q, k)
    ensures Compare(Cut(p, n), Cut(q, n)) == if k == n then 0 else CharAt(p, k) - CharAt(q, k)
  {
    var a, b := Cut(p, n), Cut(q, n);
    assert a[..k] == p[..k] && b[..k] == q[..k];
    StopsAt(a, b, k);
  }
}
