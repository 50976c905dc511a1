/**
 * The STABS symbol table search (kern/kdebug.c, `stab_binsearch`).
 *
 * The table mixes entries of many types.  Only the entries of the wanted type
 * are sorted by value, so the binary search walks back from its midpoint to an
 * entry of that type, and after an exact hit it goes on with the address bumped
 * by one.  The specification is a naive linear scan.
 */
module StabSearch {
  import opened Machine

  datatype Stab = Stab(strx: Word, typ: Byte, other: Byte, desc: Half, value: Word)

  /** A table whose 12-byte entries fit into the address space. */
  predicate FitsMemory(stabs: seq<Stab>) {
    12 * |stabs| <= WORD_LIMIT
  }

  predicate InTable(stabs: seq<Stab>, lo: int, hi: int) {
    0 <= lo <= hi + 1 <= |stabs|
  }

  /** Entry `k` has the wanted type. */
  predicate Typed(stabs: seq<Stab>, ty: Byte, k: int) {
    0 <= k < |stabs| && stabs[k].typ == ty
  }

  ghost predicate Sorted(stabs: seq<Stab>, lo: int, hi: int, ty: Byte)
  {
    forall i, j :: lo <= i <= j <= hi && Typed(stabs, ty, i) && Typed(stabs, ty, j)
      ==> stabs[i].value <= stabs[j].value
  }

  // ---------- The linear-scan specification ----------

  /** The last entry of the type in [lo, hi], or lo - 1. */
  function LastTyped(stabs: seq<Stab>, lo: int, hi: int, ty: Byte): (r: int)
    ensures r == lo - 1 || (lo <= r <= hi && Typed(stabs, ty, r))
    ensures forall k :: lo <= k <= hi && Typed(stabs, ty, k) ==> k <= r
    decreases hi - lo + 1
  {
    if hi < lo then lo - 1
    else if Typed(stabs, ty, hi) then hi
    else LastTyped(stabs, lo, hi - 1, ty)
  }

  /** The last entry of the type in [lo, hi] whose value is at most `addr`, or lo - 1. */
  function Floor(stabs: seq<Stab>, lo: int, hi: int, ty: Byte, addr: int): (r: int)
    ensures r == lo - 1 || (lo <= r <= hi && Typed(stabs, ty, r) && stabs[r].value <= addr)
    ensures forall k :: lo <= k <= hi && Typed(stabs, ty, k) && stabs[k].value <= addr ==> k <= r
    decreases hi - lo + 1
  {
    if hi < lo then lo - 1
    else if Typed(stabs, ty, hi) && stabs[hi].value <= addr then hi
    else Floor(stabs, lo, hi - 1, ty, addr)
  }

  /** The first entry of the type in [lo, hi] whose value is above `addr`, or hi + 1. */
  function Ceiling(stabs: seq<Stab>, lo: int, hi: int, ty: Byte, addr: int): (r: int)
    ensures r == hi + 1 || (lo <= r <= hi && Typed(stabs, ty, r) && stabs[r].value > addr)
    ensures forall k :: lo <= k <= hi && Typed(stabs, ty, k) && stabs[k].value > addr ==> r <= k
    decreases hi - lo + 1
  {
    if hi < lo then hi + 1
    else if Typed(stabs, ty, lo) && stabs[lo].value > addr then lo
    else Ceiling(stabs, lo + 1, hi, ty, addr)
  }

  /**
   * What a search must answer.  Without an entry of the type the region is
   * empty.  When every such entry is above `addr`, the left end stays where it
   * was, pulled down to the right end if that fell below it: the answer then
   * looks like a match although there is none.
   */
  function Bracket(stabs: seq<Stab>, lo: int, hi: int, ty: Byte, addr: int): (int, int)
  {
    var right := Ceiling(stabs, lo, hi, ty, addr) - 1;
    var floor := Floor(stabs, lo, hi, ty, addr);
    if LastTyped(stabs, lo, hi, ty) < lo then (lo, lo - 1)
    else if lo <= floor then (floor, right)
    else (if right < lo then right else lo, right)
  }

  /** What the linear scan's answer says about a sorted table, in each of its three cases. */
  lemma BracketMeaning(stabs: seq<Stab>, lo: int, hi: int, ty: Byte, addr: int)
    requires InTable(stabs, lo, hi) && Sorted(stabs, lo, hi, ty)
    ensures var (left, right) := Bracket(stabs, lo, hi, ty, addr);
            if lo <= Floor(stabs, lo, hi, ty, addr) then
              // `left` is the last entry at or below `addr`, `right` sits just before the first one above
              && lo <= left <= right <= hi && Typed(stabs, ty, left)
              && (forall k :: lo <= k <= hi && Typed(stabs, ty, k) ==> (stabs[k].value <= addr <==> k <= left))
              && (forall k :: left < k <= right ==> !Typed(stabs, ty, k))
              && (right < hi ==> Typed(stabs, ty, right + 1) && stabs[right + 1].value > addr)
            else if lo <= LastTyped(stabs, lo, hi, ty) then
              // every entry is above `addr`, yet `left <= right`
              && left <= right < hi && left == (if Typed(stabs, ty, lo) then lo - 1 else lo)
              && Typed(stabs, ty, right + 1) && stabs[right + 1].value > addr
              && (forall k :: lo <= k <= right ==> !Typed(stabs, ty, k))
            else
              right < left && (forall k :: lo <= k <= hi ==> !Typed(stabs, ty, k))
  {
  }

  // ---------- Where the bumped address goes wrong ----------

  /** An entry of the type in [lo, hi] has exactly this value. */
  ghost predicate Holds(stabs: seq<Stab>, lo: int, hi: int, ty: Byte, value: int)
  {
    exists k :: lo <= k <= hi && Typed(stabs, ty, k) && stabs[k].value == value
  }

  /**
   * A plain binary search for `addr` (no bumping) hits an entry, and the range
   * still open to the right of that first hit holds an entry at `addr + 1`.
   */
  ghost predicate Collides(stabs: seq<Stab>, lo: int, hi: int, ty: Byte, addr: int)
    decreases hi - lo + 1
  {
    lo <= hi &&
    var mid := (lo + hi) / 2;
    var m := LastTyped(stabs, lo, mid, ty);
    if m < lo || stabs[m].value < addr then Collides(stabs, mid + 1, hi, ty, addr)
    else if stabs[m].value > addr then Collides(stabs, lo, m - 1, ty, addr)
    else Holds(stabs, m, hi, ty, addr + 1)
  }

  /**
   * The search meets a hit it does not survive: a second one, or, because the
   * last address is bumped to 0, a first one at 2^32 - 1.
   */
  ghost predicate Strays(stabs: seq<Stab>, lo: int, hi: int, ty: Byte, addr: Word) {
    Collides(stabs, lo, hi, ty, addr) || (addr == WORD_MAX && Holds(stabs, lo, hi, ty, WORD_MAX))
  }

  /** Without two entries one apart, at `addr` and `addr + 1`, nothing collides. */
  lemma {:induction false} CollisionNeedsNeighbours(stabs: seq<Stab>, lo: int, hi: int, ty: Byte, addr: int)
    requires InTable(stabs, lo, hi)
    requires Collides(stabs, lo, hi, ty, addr)
    ensures Holds(stabs, lo, hi, ty, addr) && Holds(stabs, lo, hi, ty, addr + 1)
    decreases hi - lo + 1
  {
    var mid := (lo + hi) / 2;
    var m := LastTyped(stabs, lo, mid, ty);
    if m < lo || stabs[m].value < addr {
      CollisionNeedsNeighbours(stabs, mid + 1, hi, ty, addr);
    } else if stabs[m].value > addr {
      CollisionNeedsNeighbours(stabs, lo, m - 1, ty, addr);
    }
  }

  /** Two function entries one apart: the search for the first one's address answers with the second. */
  lemma CollisionExample(first: Stab, second: Stab, addr: Word)
    requires first.typ == second.typ && first.value == addr && second.value == addr + 1
    ensures Sorted([first, second], 0, 1, first.typ)
    ensures Collides([first, second], 0, 1, first.typ, addr)
    ensures Bracket([first, second], 0, 1, first.typ, addr) == (0, 0)
  {
    assert LastTyped([first, second], 0, 0, first.typ) == 0;
    assert Typed([first, second], first.typ, 1);
  }

  /** The same two entries, followed by a third: now the first probe already cuts the second one off. */
  lemma HarmlessNeighboursExample(first: Stab, second: Stab, third: Stab, addr: Word)
    requires first.typ == second.typ == third.typ
    requires first.value == addr && second.value == addr + 1 && third.value > addr + 1
    ensures !Collides([first, second, third], 0, 2, first.typ, addr)
  {
    var stabs := [first, second, third];
    assert LastTyped(stabs, 0, 1, first.typ) == 1;
    assert LastTyped(stabs, 0, 0, first.typ) == 0;
    assert Collides(stabs, 0, 2, first.typ, addr) == Collides(stabs, 0, 0, first.typ, addr);
  }

  // ---------- The number of probes ----------

  function Log2(n: nat): nat
    requires n > 0
  {
    if n == 1 then 0 else 1 + Log2(n / 2)
  }

  lemma {:induction false} Log2Monotone(m: nat, n: nat)
    requires 0 < m <= n
    ensures Log2(m) <= Log2(n)
  {
    if m > 1 {
      Log2Monotone(m / 2, n / 2);
    }
  }

  /** Probes that a range of this size can still cost when nothing is hit exactly. */
  function Budget(size: nat): nat {
    if size == 0 then 0 else Log2(size) + 1
  }

  lemma BudgetHalves(size: nat, rest: nat)
    requires size > 0 && rest <= size / 2
    ensures Budget(rest) + 1 <= Budget(size)
  {
    if rest > 0 {
      Log2Monotone(rest, size / 2);
    }
  }

  lemma BudgetMonotone(m: nat, n: nat)
    requires m <= n
    ensures Budget(m) <= Budget(n)
  {
    if m > 0 {
      Log2Monotone(m, n);
    }
  }

  // ---------- The state of a running search ----------

  /**
   * The open range [l, r], the left end found so far, whether an entry was
   * found for it, the bumped address, the exact hits, and where the second
   * hit happened.
   */
  datatype Probe = Probe(l: int, r: int, left: int, below: bool, a: Word, hits: nat, second: int)

  /** What every round keeps on every table. */
  ghost predicate Framed(stabs: seq<Stab>, lo: int, hi: int, ty: Byte, addr: Word, p: Probe)
  {
    && lo <= p.l <= p.r + 1 <= hi + 1
    && p.a == (addr + p.hits) % WORD_LIMIT
    && (if p.below then Typed(stabs, ty, p.left) && lo <= p.left <= p.l && p.left <= hi
        else p.left == lo && p.hits == 0)
    && (forall k :: lo <= k < p.l && Typed(stabs, ty, k) ==> p.below && k <= p.left)
    && (p.r < hi ==> Typed(stabs, ty, p.r + 1))
  }

  /**
   * Up to the first hit, and from then on if no second one follows, the range
   * of a search on a sorted table closes in on `addr` itself.
   */
  ghost predicate Closing(stabs: seq<Stab>, lo: int, hi: int, ty: Byte, addr: Word, p: Probe) {
    && p.hits <= 1 && p.a == addr + p.hits
    && (forall k :: lo <= k < p.l && Typed(stabs, ty, k) ==> stabs[k].value < p.a)
    && (forall k :: p.r < k <= hi && Typed(stabs, ty, k) ==> stabs[k].value > addr)
    && (p.below ==> Typed(stabs, ty, p.left) && stabs[p.left].value <= addr)
  }

  /** Whether the rest of the search will hit a second time. */
  ghost predicate WillCollide(stabs: seq<Stab>, ty: Byte, addr: Word, p: Probe)
  {
    if p.hits == 0 then Collides(stabs, p.l, p.r, ty, addr)
    else p.hits >= 2 || Holds(stabs, p.l, p.r, ty, addr + 1)
  }

  /** A second hit leaves an entry above `addr` inside the answer for good. */
  ghost predicate Overshot(stabs: seq<Stab>, lo: int, ty: Byte, addr: Word, p: Probe) {
    && p.hits >= 2
    && lo <= p.second <= p.l && p.second <= p.r
    && Typed(stabs, ty, p.second) && stabs[p.second].value == addr + 1
    && (addr + p.hits > WORD_MAX ==> p.second < p.l)
  }

  /** The bumped address wrapped to 0, below everything in the open range. */
  ghost predicate Wrapped(stabs: seq<Stab>, lo: int, hi: int, ty: Byte, addr: Word, p: Probe) {
    && p.a == 0 && p.hits > 0 && addr + p.hits == WORD_LIMIT
    && lo <= p.l <= hi && Typed(stabs, ty, p.l) && stabs[p.l].value == WORD_MAX
    && p.below && p.left == p.l && p.l <= p.r + 1
  }

  /** The three outcomes of a probe, and the one of a walk back that found nothing. */
  ghost function Next(stabs: seq<Stab>, ty: Byte, p: Probe): Probe
    requires 0 <= p.l <= p.r < |stabs|
  {
    var mid := (p.l + p.r) / 2;
    var m := LastTyped(stabs, p.l, mid, ty);
    if m < p.l then p.(l := mid + 1)
    else if stabs[m].value < p.a then p.(l := mid + 1, left := m, below := true)
    else if stabs[m].value > p.a then p.(r := m - 1)
    else p.(l := m, left := m, below := true, a := (p.a + 1) % WORD_LIMIT, hits := p.hits + 1,
            second := if p.hits == 1 then m else p.second)
  }

  /** A round that hits exactly may leave the range as it is, but only once. */
  ghost function Spent(stabs: seq<Stab>, p: Probe): nat {
    if 0 <= p.l < |stabs| && p.below && p.left == p.l && (stabs[p.l].value + 1) % WORD_LIMIT == p.a then 0 else 1
  }

  lemma NextAt(stabs: seq<Stab>, ty: Byte, p: Probe, m: int)
    requires 0 <= p.l <= p.r < |stabs|
    requires m == LastTyped(stabs, p.l, (p.l + p.r) / 2, ty)
    ensures p.l - 1 <= m <= (p.l + p.r) / 2
    ensures m < p.l ==> Next(stabs, ty, p) == p.(l := (p.l + p.r) / 2 + 1)
    ensures m >= p.l && stabs[m].value < p.a
            ==> Next(stabs, ty, p) == p.(l := (p.l + p.r) / 2 + 1, left := m, below := true)
    ensures m >= p.l && stabs[m].value > p.a ==> Next(stabs, ty, p) == p.(r := m - 1) && m - 1 < |stabs| - 1
    ensures m >= p.l && stabs[m].value == p.a
            ==> var q := Next(stabs, ty, p);
                q == p.(l := m, left := m, below := true, a := q.a, hits := p.hits + 1, second := q.second)
                && q.a == (p.a + 1) % WORD_LIMIT
  {
  }

  lemma NextProgress(stabs: seq<Stab>, ty: Byte, p: Probe)
    requires 0 <= p.l <= p.r < |stabs|
    ensures var q := Next(stabs, ty, p);
            p.l <= q.l && q.r <= p.r && q.l <= q.r + 1
            && (q.r - q.l < p.r - p.l || (q.r - q.l == p.r - p.l && Spent(stabs, q) < Spent(stabs, p)))
  {
  }

  ghost function Start(lo: int, hi: int, addr: Word): Probe {
    Probe(lo, hi, lo, false, addr, 0, lo)
  }

  lemma NextFramed(stabs: seq<Stab>, lo: int, hi: int, ty: Byte, addr: Word, p: Probe)
    requires InTable(stabs, lo, hi) && p.l <= p.r
    requires Framed(stabs, lo, hi, ty, addr, p)
    ensures lo <= p.l && p.r <= hi
    ensures Framed(stabs, lo, hi, ty, addr, Next(stabs, ty, p))
  {
  }

  lemma NextClosing(stabs: seq<Stab>, lo: int, hi: int, ty: Byte, addr: Word, p: Probe)
    requires InTable(stabs, lo, hi) && p.l <= p.r
    requires Sorted(stabs, lo, hi, ty)
    requires Framed(stabs, lo, hi, ty, addr, p)
    requires Closing(stabs, lo, hi, ty, addr, p)
    ensures var q := Next(stabs, ty, p);
            q.hits <= 1 && addr + q.hits <= WORD_MAX ==> Closing(stabs, lo, hi, ty, addr, q)
  {
  }

  lemma NextWillCollide(stabs: seq<Stab>, ty: Byte, addr: Word, p: Probe)
    requires InTable(stabs, p.l, p.r) && p.l <= p.r
    requires p.hits == 0 && p.a == addr
    ensures InTable(stabs, Next(stabs, ty, p).l, Next(stabs, ty, p).r)
    ensures WillCollide(stabs, ty, addr, Next(stabs, ty, p)) == WillCollide(stabs, ty, addr, p)
  {
    hide Holds, LastTyped, Collides, Next, Typed;
    NextAt(stabs, ty, p, LastTyped(stabs, p.l, (p.l + p.r) / 2, ty));
    CollidesAt(stabs, p.l, p.r, ty, addr);
  }

  lemma CollidesAt(stabs: seq<Stab>, lo: int, hi: int, ty: Byte, addr: int)
    requires lo <= hi
    ensures var mid := (lo + hi) / 2;
            var m := LastTyped(stabs, lo, mid, ty);
            Collides(stabs, lo, hi, ty, addr)
            == if m < lo || stabs[m].value < addr then Collides(stabs, mid + 1, hi, ty, addr)
               else if stabs[m].value > addr then Collides(stabs, lo, m - 1, ty, addr)
               else Holds(stabs, m, hi, ty, addr + 1)
  {
  }

  lemma NextStillCollides(stabs: seq<Stab>, lo: int, hi: int, ty: Byte, addr: Word, p: Probe)
    requires InTable(stabs, lo, hi) && p.l <= p.r
    requires Sorted(stabs, lo, hi, ty) && addr < WORD_MAX
    requires Framed(stabs, lo, hi, ty, addr, p)
    requires Closing(stabs, lo, hi, ty, addr, p)
    requires p.hits == 1
    ensures InTable(stabs, Next(stabs, ty, p).l, Next(stabs, ty, p).r)
    ensures WillCollide(stabs, ty, addr, Next(stabs, ty, p)) == WillCollide(stabs, ty, addr, p)
  {
    var q := Next(stabs, ty, p);
    if q.hits == 1 && Holds(stabs, p.l, p.r, ty, addr + 1) {
      var k :| p.l <= k <= p.r && Typed(stabs, ty, k) && stabs[k].value == addr + 1;
      assert q.l <= k <= q.r;
    }
  }

  lemma NextOvershot(stabs: seq<Stab>, lo: int, hi: int, ty: Byte, addr: Word, p: Probe)
    requires InTable(stabs, lo, hi) && p.l <= p.r
    requires Sorted(stabs, lo, hi, ty) && addr < WORD_MAX - 1
    requires Framed(stabs, lo, hi, ty, addr, p)
    requires Closing(stabs, lo, hi, ty, addr, p) || Overshot(stabs, lo, ty, addr, p)
    ensures Next(stabs, ty, p).hits >= 2 ==> Overshot(stabs, lo, ty, addr, Next(stabs, ty, p))
  {
  }

  lemma NextWrapped(stabs: seq<Stab>, lo: int, hi: int, ty: Byte, addr: Word, p: Probe)
    requires InTable(stabs, lo, hi) && p.l <= p.r
    requires Sorted(stabs, lo, hi, ty) && addr >= WORD_MAX - 1
    requires Framed(stabs, lo, hi, ty, addr, p)
    requires Closing(stabs, lo, hi, ty, addr, p) || Wrapped(stabs, lo, hi, ty, addr, p)
    ensures Next(stabs, ty, p).hits == p.hits || !Wrapped(stabs, lo, hi, ty, addr, p)
    ensures addr + Next(stabs, ty, p).hits > WORD_MAX ==> Wrapped(stabs, lo, hi, ty, addr, Next(stabs, ty, p))
  {
  }

  /** A round halves the open range, or it is an exact hit. */
  lemma NextBudget(stabs: seq<Stab>, ty: Byte, p: Probe)
    requires 0 <= p.l <= p.r < |stabs|
    ensures var q := Next(stabs, ty, p);
            q.l <= q.r + 1 && Budget(q.r - q.l + 1) + 1 <= Budget(p.r - p.l + 1) + q.hits - p.hits
  {
    var q := Next(stabs, ty, p);
    if q.hits == p.hits {
      BudgetHalves(p.r - p.l + 1, q.r - q.l + 1);
    } else {
      BudgetMonotone(q.r - q.l + 1, p.r - p.l + 1);
    }
  }

  /** What every round keeps on a sorted table. */
  ghost predicate Sound(stabs: seq<Stab>, lo: int, hi: int, ty: Byte, addr: Word, p: Probe)
  {
    && InTable(stabs, p.l, p.r)
    && WillCollide(stabs, ty, addr, p) == Collides(stabs, lo, hi, ty, addr)
    && if addr >= WORD_MAX - 1 && addr + p.hits > WORD_MAX then Wrapped(stabs, lo, hi, ty, addr, p)
       else if p.hits <= 1 then Closing(stabs, lo, hi, ty, addr, p)
       else Overshot(stabs, lo, ty, addr, p)
  }

  lemma NextSound(stabs: seq<Stab>, lo: int, hi: int, ty: Byte, addr: Word, p: Probe)
    requires InTable(stabs, lo, hi) && p.l <= p.r
    requires Sorted(stabs, lo, hi, ty)
    requires Framed(stabs, lo, hi, ty, addr, p) && Sound(stabs, lo, hi, ty, addr, p)
    ensures Sound(stabs, lo, hi, ty, addr, Next(stabs, ty, p))
  {
    hide Framed, Sorted, Closing, Overshot, Collides, Next;
    NextFramed(stabs, lo, hi, ty, addr, p);
    NextCollision(stabs, lo, hi, ty, addr, p);
    if addr >= WORD_MAX - 1 {
      NextWrapped(stabs, lo, hi, ty, addr, p);
    } else {
      NextOvershot(stabs, lo, hi, ty, addr, p);
    }
    if addr + p.hits <= WORD_MAX && p.hits <= 1 {
      NextClosing(stabs, lo, hi, ty, addr, p);
    }
  }

  lemma NextCollision(stabs: seq<Stab>, lo: int, hi: int, ty: Byte, addr: Word, p: Probe)
    requires InTable(stabs, lo, hi) && p.l <= p.r
    requires Sorted(stabs, lo, hi, ty)
    requires Framed(stabs, lo, hi, ty, addr, p) && Sound(stabs, lo, hi, ty, addr, p)
    ensures InTable(stabs, Next(stabs, ty, p).l, Next(stabs, ty, p).r)
    ensures WillCollide(stabs, ty, addr, Next(stabs, ty, p)) == WillCollide(stabs, ty, addr, p)
    ensures p.hits <= Next(stabs, ty, p).hits
  {
    NextFramed(stabs, lo, hi, ty, addr, p);
    if p.hits == 0 {
      NextWillCollide(stabs, ty, addr, p);
    } else if p.hits == 1 && addr < WORD_MAX {
      NextStillCollides(stabs, lo, hi, ty, addr, p);
    } else if p.hits == 1 {
      NextWrapped(stabs, lo, hi, ty, addr, p);
    }
  }

  lemma StartSound(stabs: seq<Stab>, lo: int, hi: int, ty: Byte, addr: Word)
    requires InTable(stabs, lo, hi)
    ensures Framed(stabs, lo, hi, ty, addr, Start(lo, hi, addr))
    ensures Sound(stabs, lo, hi, ty, addr, Start(lo, hi, addr))
  {
  }

  /** One round, all told. */
  lemma NextRound(stabs: seq<Stab>, lo: int, hi: int, ty: Byte, addr: Word, p: Probe)
    requires InTable(stabs, lo, hi) && p.l <= p.r
    requires Framed(stabs, lo, hi, ty, addr, p)
    ensures var q := Next(stabs, ty, p);
            && Framed(stabs, lo, hi, ty, addr, q)
            && lo <= q.l <= q.r + 1 <= hi + 1
            && (Sorted(stabs, lo, hi, ty) && Sound(stabs, lo, hi, ty, addr, p) ==> Sound(stabs, lo, hi, ty, addr, q))
            && Budget(q.r - q.l + 1) + 1 <= Budget(p.r - p.l + 1) + q.hits - p.hits
            && (q.r - q.l < p.r - p.l || (q.r - q.l == p.r - p.l && Spent(stabs, q) < Spent(stabs, p)))
  {
    hide Sound, Framed, Sorted, Budget;
    NextFramed(stabs, lo, hi, ty, addr, p);
    NextProgress(stabs, ty, p);
    NextBudget(stabs, ty, p);
    if Sorted(stabs, lo, hi, ty) && Sound(stabs, lo, hi, ty, addr, p) {
      NextSound(stabs, lo, hi, ty, addr, p);
    }
  }

  /** What the last loop of the search makes of the left end. */
  function Settled(p: Probe): int {
    if p.r < p.left then p.r else p.left
  }

  /** The answer on any table, sorted or not. */
  lemma FramedAnswer(stabs: seq<Stab>, lo: int, hi: int, ty: Byte, addr: Word, p: Probe)
    requires InTable(stabs, lo, hi) && p.l == p.r + 1
    requires Framed(stabs, lo, hi, ty, addr, p)
    ensures LastTyped(stabs, lo, hi, ty) < lo <==> !p.below && p.r == hi
    ensures lo <= p.left && (!p.below ==> p.left == lo)
    ensures p.r < lo && (p.below || p.r < hi) ==> Typed(stabs, ty, lo)
  {
  }

  /** With no entry of the type there is nothing to hit. */
  lemma NoMatchAnswer(stabs: seq<Stab>, lo: int, hi: int, ty: Byte, addr: Word, p: Probe)
    requires InTable(stabs, lo, hi) && p.l == p.r + 1
    requires Framed(stabs, lo, hi, ty, addr, p) && !p.below && p.r == hi
    ensures Bracket(stabs, lo, hi, ty, addr) == (lo, lo - 1)
    ensures !Strays(stabs, lo, hi, ty, addr) && p.hits == 0
  {
    if Collides(stabs, lo, hi, ty, addr) {
      CollisionNeedsNeighbours(stabs, lo, hi, ty, addr);
    }
  }

  lemma NothingAfterLeft(stabs: seq<Stab>, lo: int, hi: int, ty: Byte, addr: Word, p: Probe)
    requires InTable(stabs, lo, hi) && p.l == p.r + 1
    requires Framed(stabs, lo, hi, ty, addr, p)
    ensures forall k :: p.left < k <= p.r ==> stabs[k].typ != ty
  {
    forall k | p.left < k <= p.r
      ensures stabs[k].typ != ty
    {
      assert !Typed(stabs, ty, k);
    }
  }

  /**
   * The answer of a search whose address wrapped to 0: the place just before
   * some entry at 2^32 - 1, which is right only by luck.
   */
  ghost predicate BeforeLastAddress(stabs: seq<Stab>, lo: int, hi: int, ty: Byte, addr: Word, left: int, right: int) {
    && left == right < hi && lo <= right + 1
    && Typed(stabs, ty, right + 1) && stabs[right + 1].value == WORD_MAX
    && ((left, right) == Bracket(stabs, lo, hi, ty, addr)
        <==> addr < WORD_MAX && lo <= right && Typed(stabs, ty, right) && stabs[right].value < WORD_MAX)
  }

  lemma WrappedAnswer(stabs: seq<Stab>, lo: int, hi: int, ty: Byte, addr: Word, p: Probe)
    requires InTable(stabs, lo, hi) && p.l == p.r + 1
    requires Sorted(stabs, lo, hi, ty) && Wrapped(stabs, lo, hi, ty, addr, p)
    requires addr >= WORD_MAX - 1
    requires addr < WORD_MAX ==> Holds(stabs, lo, hi, ty, addr)
    ensures BeforeLastAddress(stabs, lo, hi, ty, addr, Settled(p), p.r)
    ensures Holds(stabs, lo, hi, ty, WORD_MAX)
  {
  }

  /** The closed range of a search that went well. */
  lemma ClosingAnswer(stabs: seq<Stab>, lo: int, hi: int, ty: Byte, addr: Word, p: Probe)
    requires InTable(stabs, lo, hi) && p.l == p.r + 1
    requires Sorted(stabs, lo, hi, ty)
    requires Framed(stabs, lo, hi, ty, addr, p) && Closing(stabs, lo, hi, ty, addr, p)
    requires p.below || p.r < hi
    ensures (Settled(p), p.r) == Bracket(stabs, lo, hi, ty, addr)
    ensures addr == WORD_MAX && p.hits == 0 ==> !Holds(stabs, lo, hi, ty, WORD_MAX)
    ensures !WillCollide(stabs, ty, addr, p)
  {
  }

  /** The closed range of a search that hit twice. */
  lemma OvershotAnswer(stabs: seq<Stab>, lo: int, hi: int, ty: Byte, addr: Word, p: Probe)
    requires InTable(stabs, lo, hi) && p.l == p.r + 1
    requires Framed(stabs, lo, hi, ty, addr, p) && Overshot(stabs, lo, ty, addr, p)
    ensures p.r != Bracket(stabs, lo, hi, ty, addr).1
  {
  }

  lemma SoundAnswer(stabs: seq<Stab>, lo: int, hi: int, ty: Byte, addr: Word, p: Probe)
    requires InTable(stabs, lo, hi) && p.l == p.r + 1
    requires Sorted(stabs, lo, hi, ty)
    requires Framed(stabs, lo, hi, ty, addr, p) && Sound(stabs, lo, hi, ty, addr, p)
    requires p.below || p.r < hi
    ensures !Strays(stabs, lo, hi, ty, addr) ==> (Settled(p), p.r) == Bracket(stabs, lo, hi, ty, addr) && p.hits <= 1
    ensures Strays(stabs, lo, hi, ty, addr) && addr < WORD_MAX - 1 ==> p.r != Bracket(stabs, lo, hi, ty, addr).1
    ensures Strays(stabs, lo, hi, ty, addr) && addr >= WORD_MAX - 1
            ==> BeforeLastAddress(stabs, lo, hi, ty, addr, Settled(p), p.r)
  {
    hide Framed, Sorted, Closing, Overshot, Collides, Bracket, BeforeLastAddress, Holds, Typed, Settled;
    if addr >= WORD_MAX - 1 && addr + p.hits > WORD_MAX {
      if addr < WORD_MAX {
        CollisionNeedsNeighbours(stabs, lo, hi, ty, addr);
      }
      WrappedAnswer(stabs, lo, hi, ty, addr, p);
    } else if p.hits <= 1 {
      ClosingAnswer(stabs, lo, hi, ty, addr, p);
    } else {
      OvershotAnswer(stabs, lo, hi, ty, addr, p);
    }
  }

  // ---------- The search ----------

  /** The search's inner loop: from `mid` back to an entry of the type, or below `l`. */
  method WalkBack(stabs: seq<Stab>, l: int, mid: int, ty: Byte) returns (m: int)
    requires InTable(stabs, l, mid)
    ensures m == LastTyped(stabs, l, mid, ty)
  {
    m := mid;
    while m >= l && stabs[m].typ != ty
      invariant l - 1 <= m <= mid
      invariant LastTyped(stabs, l, mid, ty) == LastTyped(stabs, l, m, ty)
    {
      m := m - 1;
    }
  }

  /**
   * `stab_binsearch`.  `lo` and `hi` are the region's ends on entry, `left` and
   * `right` those on exit.  `hits` counts the exact hits, each of which bumps
   * the address (modulo 2^32), and `probes` the rounds of the outer loop.
   */
  method StabBinsearch(stabs: seq<Stab>, lo: int, hi: int, ty: Byte, addr: Word)
    returns (left: int, right: int, ghost hits: nat, ghost probes: nat)
    requires FitsMemory(stabs) && InTable(stabs, lo, hi)
    // On any table at all, sorted or not:
    ensures LastTyped(stabs, lo, hi, ty) < lo ==> left == lo && right == lo - 1
    ensures lo <= LastTyped(stabs, lo, hi, ty) ==> lo - 1 <= left <= right <= hi
    ensures left < lo ==> Typed(stabs, ty, lo)
    ensures probes <= Budget(hi - lo + 1) + hits
    // On a table sorted for the type:
    ensures Sorted(stabs, lo, hi, ty) && !Strays(stabs, lo, hi, ty, addr)
            ==> (left, right) == Bracket(stabs, lo, hi, ty, addr) && hits <= 1
    ensures Sorted(stabs, lo, hi, ty) && Strays(stabs, lo, hi, ty, addr) && addr < WORD_MAX - 1
            ==> (left, right) != Bracket(stabs, lo, hi, ty, addr)
    ensures Sorted(stabs, lo, hi, ty) && Strays(stabs, lo, hi, ty, addr) && addr >= WORD_MAX - 1
            ==> BeforeLastAddress(stabs, lo, hi, ty, addr, left, right)
  {
    hide Sound, Framed, Sorted, Strays, Bracket, Budget, LastTyped, Typed, Spent, Next, BeforeLastAddress;
    left, right := lo, hi;
    var l, r, anyMatches := lo, hi, false;
    var a: Word := addr;
    hits, probes := 0, 0;
    ghost var p := Start(lo, hi, addr);
    ghost var sorted := Sorted(stabs, lo, hi, ty);
    StartSound(stabs, lo, hi, ty, addr);
    while l <= r
      invariant p == Probe(l, r, left, p.below, a, hits, p.second) && right == r
      invariant Framed(stabs, lo, hi, ty, addr, p) && lo <= l <= r + 1 <= hi + 1
      invariant sorted ==> Sound(stabs, lo, hi, ty, addr, p)
      invariant probes + Budget(r - l + 1) <= Budget(hi - lo + 1) + hits
      invariant anyMatches == (p.below || r < hi)
      decreases r - l, Spent(stabs, p)
    {
      NextRound(stabs, lo, hi, ty, addr, p);
      ghost var before := p;
      p := Next(stabs, ty, p);
      probes := probes + 1;
      var mid := (l + r) / 2;
      assert l + r < 0x8000_0000;
      var m := WalkBack(stabs, l, mid, ty);
      NextAt(stabs, ty, before, m);
      if m < l {
        l := mid + 1;
        continue;
      }
      anyMatches := true;
      if stabs[m].value < a {
        left := m;
        l := mid + 1;
      } else if stabs[m].value > a {
        right := m - 1;
        r := m - 1;
      } else {
        left := m;
        l := m;
        a := (a + 1) % WORD_LIMIT;
        hits := hits + 1;
      }
    }
    FramedAnswer(stabs, lo, hi, ty, addr, p);
    if !anyMatches {
      NoMatchAnswer(stabs, lo, hi, ty, addr, p);
      right := left - 1;
    } else {
      if sorted {
        SoundAnswer(stabs, lo, hi, ty, addr, p);
      }
      NothingAfterLeft(stabs, lo, hi, ty, addr, p);
      l := right;
      while l > left && stabs[l].typ != ty
        invariant l <= right && (l == right || l >= left)
        decreases l - left
      {
        l := l - 1;
      }
      assert l == Settled(p);
      left := l;
    }
  }
}
