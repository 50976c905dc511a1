/**
 * The list of free pages (kern/pmap.c): `page_init`, which links all pages, and
 * the block of `check_page_free_list` that moves the low pages to the front by
 * rewriting links in place while it walks the same list.
 */
module PageList {
  import opened Machine

  const PGSIZE := 0x1000
  const PTSIZE := 0x40_0000

  /** `struct page_info`; `index` is its place in the array `pages`. */
  class PageInfo {
    const index: nat
    var link: PageInfo?
    var ref: nat

    constructor (index: nat)
      ensures this.index == index
    {
      this.index := index;
      link, ref := null, 0;
    }
  }

  /** `page2pa`, in 32 bits. */
  function PhysicalAddress(index: nat): Word {
    index * PGSIZE % WORD_LIMIT
  }

  /** `PDX`: which page directory entry maps an address. */
  function Pdx(a: Word): nat {
    a / PTSIZE
  }

  /** `pagetype`: whether the page lies past the part of memory that is mapped early. */
  predicate IsHigh(p: PageInfo, pdxLimit: nat) {
    Pdx(PhysicalAddress(p.index)) >= pdxLimit
  }

  // ---------- Lists ----------

  ghost predicate Distinct(s: seq<PageInfo>) {
    forall i, j :: 0 <= i < j < |s| ==> s[i] != s[j]
  }

  /** Each page of `s` links to the next one, and the last one to `end`. */
  ghost predicate Chain(s: seq<PageInfo>, end: PageInfo?)
    reads s
  {
    && (forall i {:trigger s[i].link} :: 0 <= i < |s| - 1 ==> s[i].link == s[i + 1])
    && (s != [] ==> s[|s| - 1].link == end)
  }

  /** `head` starts a list of exactly these pages, which ends. */
  ghost predicate IsList(head: PageInfo?, s: seq<PageInfo>)
    reads s
  {
    && Distinct(s)
    && head == (if s == [] then null else s[0])
    && Chain(s, null)
  }

  /** The pages of one kind, in order. */
  function Select(s: seq<PageInfo>, high: bool, pdxLimit: nat): (r: seq<PageInfo>)
    ensures forall i :: 0 <= i < |r| ==> r[i] in s && IsHigh(r[i], pdxLimit) == high
  {
    if s == [] then []
    else if IsHigh(s[|s| - 1], pdxLimit) == high then Select(s[..|s| - 1], high, pdxLimit) + [s[|s| - 1]]
    else Select(s[..|s| - 1], high, pdxLimit)
  }

  lemma {:induction false} SelectDistinct(s: seq<PageInfo>, high: bool, pdxLimit: nat)
    requires Distinct(s)
    ensures Distinct(Select(s, high, pdxLimit))
  {
    if s != [] {
      SelectDistinct(s[..|s| - 1], high, pdxLimit);
    }
  }

  /** The low pages in their order, then the high pages in theirs. */
  function LowFirst(s: seq<PageInfo>, pdxLimit: nat): seq<PageInfo> {
    Select(s, false, pdxLimit) + Select(s, true, pdxLimit)
  }

  lemma LowFirstDistinct(s: seq<PageInfo>, pdxLimit: nat)
    requires Distinct(s)
    ensures Distinct(LowFirst(s, pdxLimit))
  {
    SelectDistinct(s, false, pdxLimit);
    SelectDistinct(s, true, pdxLimit);
  }

  /** Nothing is lost, nothing appears twice. */
  lemma LowFirstSamePages(s: seq<PageInfo>, pdxLimit: nat)
    requires Distinct(s)
    ensures Distinct(LowFirst(s, pdxLimit)) && multiset(LowFirst(s, pdxLimit)) == multiset(s)
  {
    LowFirstDistinct(s, pdxLimit);
    SelectSplits(s, pdxLimit);
  }

  lemma {:induction false} SelectSplits(s: seq<PageInfo>, pdxLimit: nat)
    ensures multiset(Select(s, false, pdxLimit)) + multiset(Select(s, true, pdxLimit)) == multiset(s)
  {
    if s != [] {
      SelectSplits(s[..|s| - 1], pdxLimit);
      assert s == s[..|s| - 1] + [s[|s| - 1]];
    }
  }

  /** The pages selected so far are none of those still to come, and no page is of both kinds. */
  lemma SelectApart(s: seq<PageInfo>, i: nat, pdxLimit: nat)
    requires Distinct(s) && i <= |s|
    ensures var low, high := Select(s[..i], false, pdxLimit), Select(s[..i], true, pdxLimit);
            && Distinct(low) && Distinct(high)
            && (forall p, q :: p in low && q in high ==> p != q)
            && (forall p, j :: (p in low || p in high) && i <= j < |s| ==> p != s[j])
            && (forall p :: p in low || p in high ==> p in s)
  {
    SelectDistinct(s[..i], false, pdxLimit);
    SelectDistinct(s[..i], true, pdxLimit);
  }

  /** What appending `s[i]` to its own list must not disturb. */
  lemma SelectNext(s: seq<PageInfo>, i: nat, high: bool, pdxLimit: nat)
    requires Distinct(s) && i < |s| && IsHigh(s[i], pdxLimit) == high
    ensures var mine, other := Select(s[..i], high, pdxLimit), Select(s[..i], !high, pdxLimit);
            && Distinct(mine) && s[i] !in mine
            && (mine != [] ==> var last := mine[|mine| - 1]; last !in other && last !in s[i..] && last in s)
            && Select(s[..i + 1], high, pdxLimit) == mine + [s[i]]
            && Select(s[..i + 1], !high, pdxLimit) == other
  {
    assert s[..i + 1][..i] == s[..i];
    SelectApart(s, i, pdxLimit);
  }

  // ---------- The allocator's list ----------

  lemma DistinctParts(a: seq<PageInfo>, b: seq<PageInfo>)
    requires Distinct(a + b)
    ensures Distinct(a) && Distinct(b) && forall i, j :: 0 <= i < |a| && 0 <= j < |b| ==> a[i] != b[j]
  {
    assert forall i :: 0 <= i < |a| ==> (a + b)[i] == a[i];
    assert forall j :: 0 <= j < |b| ==> (a + b)[|a| + j] == b[j];
  }

  lemma PushedNone(pages: seq<PageInfo>, before: seq<PageInfo>)
    ensures Reversed(pages[..0]) + before == before && pages[..|pages|] == pages
  {
  }

  lemma PushedNext(pages: seq<PageInfo>, before: seq<PageInfo>, i: nat)
    requires Distinct(pages + before) && i < |pages|
    ensures [pages[i]] + (Reversed(pages[..i]) + before) == Reversed(pages[..i + 1]) + before
    ensures pages[i] !in Reversed(pages[..i]) + before
    ensures forall j :: 0 <= j < i ==> pages[j] != pages[i]
  {
    DistinctParts(pages, before);
    assert pages[..i + 1][..i] == pages[..i];
  }

  /** A list under construction: the link of its last page, at `tail`, is still open. */
  ghost predicate Open(s: seq<PageInfo>, head: PageInfo?, tail: PageInfo?)
    reads s
  {
    && (tail == null <==> s == [])
    && (s != [] ==> head == s[0] && tail == s[|s| - 1])
    && forall i {:trigger s[i].link} :: 0 <= i < |s| - 1 ==> s[i].link == s[i + 1]
  }

  /** The pages from `s[i]` on are linked as they were. */
  ghost predicate Untouched(s: seq<PageInfo>, i: nat, pp: PageInfo?)
    requires i <= |s|
    reads s[i..]
  {
    && pp == (if i < |s| then s[i] else null)
    && Chain(s[i..], null)
  }

  /**
   * `*tail = p; tail = &p->pp_link`.  A tail that is null stands for the address
   * of the local variable that will hold the head; otherwise it stands for the
   * address of the `pp_link` field of that page.
   */
  method Append(head: PageInfo?, tail: PageInfo?, p: PageInfo, ghost s: seq<PageInfo>) returns (newHead: PageInfo?)
    requires Open(s, head, tail) && Distinct(s) && p !in s
    modifies (if tail == null then {} else {tail})`link
    ensures Open(s + [p], newHead, p)
  {
    newHead := head;
    if tail == null {
      newHead := p;
    } else {
      tail.link := p;
    }
  }

  /** `*tail = p` at the end of a list. */
  method Close(head: PageInfo?, tail: PageInfo?, p: PageInfo?, ghost s: seq<PageInfo>) returns (newHead: PageInfo?)
    requires Open(s, head, tail) && Distinct(s)
    modifies (if tail == null then {} else {tail})`link
    ensures Chain(s, p) && newHead == if s == [] then p else s[0]
  {
    newHead := head;
    if tail == null {
      newHead := p;
    } else {
      tail.link := p;
    }
  }

  lemma LastOf(s: seq<PageInfo>, head: PageInfo?, tail: PageInfo?)
    requires Open(s, head, tail)
    ensures tail != null ==> tail in s
    ensures tail == null <==> s == []
    ensures s != [] ==> tail == s[|s| - 1]
  {
  }

  lemma ChainsJoin(low: seq<PageInfo>, high: seq<PageInfo>)
    requires Chain(high, null) && Chain(low, if high == [] then null else high[0])
    ensures Chain(low + high, null)
  {
  }

  class FreeList {
    var pageFreeList: PageInfo?

    constructor ()
      ensures pageFreeList == null
    {
      pageFreeList := null;
    }

    /** The body of the loop of `page_init`. */
    method Push(p: PageInfo, ghost s: seq<PageInfo>)
      requires IsList(pageFreeList, s) && p !in s
      modifies this, p
      ensures IsList(pageFreeList, [p] + s) && p.ref == 0
    {
      p.ref := 0;
      p.link := pageFreeList;
      pageFreeList := p;
      assert forall k :: 0 <= k < |s| ==> ([p] + s)[k + 1] == s[k];
    }

    /** `page_init`: every page goes to the front of the list. */
    method PageInit(pages: seq<PageInfo>, ghost before: seq<PageInfo>)
      requires Distinct(pages + before) && IsList(pageFreeList, before)
      modifies this, pages
      ensures IsList(pageFreeList, Reversed(pages) + before)
      ensures forall i :: 0 <= i < |pages| ==> pages[i].ref == 0
    {
      PushedNone(pages, before);
      hide IsList, Reversed, Distinct;
      ghost var done := before;
      for i := 0 to |pages|
        invariant done == Reversed(pages[..i]) + before && IsList(pageFreeList, done)
        invariant forall j :: 0 <= j < i ==> pages[j].ref == 0
      {
        PushedNext(pages, before, i);
        Push(pages[i], done);
        done := [pages[i]] + done;
      }
    }

    /** The double-pointer loop of `check_page_free_list`. */
    method MoveLowPagesFirst(pdxLimit: nat, ghost s: seq<PageInfo>)
      requires IsList(pageFreeList, s)
      modifies `pageFreeList, s`link
      ensures IsList(pageFreeList, LowFirst(s, pdxLimit))
    {
      hide *;
      var pp1: PageInfo? := *;
      var pp2: PageInfo? := *;
      StartsUntouched(s, pageFreeList, pp1, pp2, pdxLimit);
      var tail1: PageInfo?, tail2: PageInfo? := null, null;
      var pp := pageFreeList;
      ghost var i := 0;
      while pp != null
        modifies s`link
        invariant 0 <= i <= |s| && (pp != null <==> i < |s|) && Untouched(s, i, pp)
        invariant Open(Select(s[..i], false, pdxLimit), pp1, tail1)
        invariant Open(Select(s[..i], true, pdxLimit), pp2, tail2)
        decreases |s| - i
      {
        if IsHigh(pp, pdxLimit) {
          pp2, tail2, pp := MoveOne(pdxLimit, s, i, true, pp, pp2, tail2, pp1, tail1);
        } else {
          pp1, tail1, pp := MoveOne(pdxLimit, s, i, false, pp, pp1, tail1, pp2, tail2);
        }
        i := i + 1;
      }
      pageFreeList := JoinSelected(pp1, tail1, pp2, tail2, s, pdxLimit);
    }

    /** The start of `check_page_free_list`: only low memory is mapped while `onlyLowMemory` holds. */
    method ReorderForCheck(onlyLowMemory: bool, ghost s: seq<PageInfo>) returns (panicked: bool)
      requires IsList(pageFreeList, s)
      modifies `pageFreeList, s`link
      ensures panicked <==> s == []
      ensures IsList(pageFreeList, if onlyLowMemory then LowFirst(s, 1) else s)
    {
      if pageFreeList == null {
        return true;
      }
      if onlyLowMemory {
        MoveLowPagesFirst(1, s);
      }
      panicked := false;
    }
  }

  /** The three stores after the loop; the second list is closed before the first one reads its head. */
  method Join(head1: PageInfo?, tail1: PageInfo?, head2: PageInfo?, tail2: PageInfo?,
              ghost low: seq<PageInfo>, ghost high: seq<PageInfo>)
    returns (head: PageInfo?)
    requires Open(low, head1, tail1) && Open(high, head2, tail2) && Distinct(low + high)
    modifies low`link, high`link
    ensures IsList(head, low + high)
  {
    DistinctParts(low, high);
    LastOf(low, head1, tail1);
    LastOf(high, head2, tail2);
    assert tail1 != null ==> tail1 !in high;
    assert tail2 != null ==> tail2 !in low;
    hide Open, Distinct, Chain;
    var pp2 := Close(head2, tail2, null, high);
    head := Close(head1, tail1, pp2, low);
    ChainsJoin(low, high);
  }

  method JoinSelected(head1: PageInfo?, tail1: PageInfo?, head2: PageInfo?, tail2: PageInfo?,
                      ghost s: seq<PageInfo>, ghost pdxLimit: nat)
    returns (head: PageInfo?)
    requires Distinct(s)
    requires Open(Select(s, false, pdxLimit), head1, tail1) && Open(Select(s, true, pdxLimit), head2, tail2)
    modifies s`link
    ensures IsList(head, LowFirst(s, pdxLimit))
  {
    ghost var low, high := Select(s, false, pdxLimit), Select(s, true, pdxLimit);
    LowFirstDistinct(s, pdxLimit);
    assert forall i :: 0 <= i < |low| ==> low[i] in s;
    assert forall i :: 0 <= i < |high| ==> high[i] in s;
    hide Select, Open, IsList, Distinct;
    head := Join(head1, tail1, head2, tail2, low, high);
  }

  /**
   * One round of the loop: `pp` goes to the end of the list of its kind, and
   * the walk goes on along its link, which is still the original one.
   */
  method MoveOne(pdxLimit: nat, ghost s: seq<PageInfo>, ghost i: nat, high: bool, pp: PageInfo,
                 head: PageInfo?, tail: PageInfo?, ghost otherHead: PageInfo?, ghost otherTail: PageInfo?)
    returns (newHead: PageInfo?, newTail: PageInfo?, next: PageInfo?)
    requires Distinct(s) && i < |s| && Untouched(s, i, pp) && IsHigh(pp, pdxLimit) == high
    requires Open(Select(s[..i], high, pdxLimit), head, tail)
    requires Open(Select(s[..i], !high, pdxLimit), otherHead, otherTail)
    modifies s`link
    ensures Untouched(s, i + 1, next) && (next != null <==> i + 1 < |s|)
    ensures Open(Select(s[..i + 1], high, pdxLimit), newHead, newTail)
    ensures Open(Select(s[..i + 1], !high, pdxLimit), otherHead, otherTail)
  {
    UntouchedNext(s, i, pp);
    SelectNext(s, i, high, pdxLimit);
    ghost var mine := Select(s[..i], high, pdxLimit);
    LastOf(mine, head, tail);
    hide Select, Open, Distinct, Untouched, IsHigh, Chain;
    newHead := Append(head, tail, pp, mine);
    newTail := pp;
    next := pp.link;
  }

  lemma StartsUntouched(s: seq<PageInfo>, head: PageInfo?, pp1: PageInfo?, pp2: PageInfo?, pdxLimit: nat)
    requires IsList(head, s)
    ensures Distinct(s) && Untouched(s, 0, head) && (head != null <==> |s| > 0)
    ensures s[..0] == [] && s[..|s|] == s
    ensures Select([], false, pdxLimit) == [] && Select([], true, pdxLimit) == []
    ensures Open([], pp1, null) && Open([], pp2, null)
  {
    assert s[0..] == s;
  }

  lemma UntouchedNext(s: seq<PageInfo>, i: nat, pp: PageInfo?)
    requires i < |s| && Untouched(s, i, pp)
    ensures pp != null && pp == s[i] && Untouched(s, i + 1, pp.link) && (pp.link != null <==> i + 1 < |s|)
  {
    assert s[i..][1..] == s[i + 1..];
  }

  function Reversed(s: seq<PageInfo>): (r: seq<PageInfo>)
    ensures |r| == |s|
    ensures forall i :: 0 <= i < |s| ==> r[i] == s[|s| - 1 - i]
  {
    if s == [] then [] else [s[|s| - 1]] + Reversed(s[..|s| - 1])
  }

  // ---------- The order after initialisation ----------

  lemma {:induction false} SelectAppend(a: seq<PageInfo>, b: seq<PageInfo>, high: bool, pdxLimit: nat)
    ensures Select(a + b, high, pdxLimit) == Select(a, high, pdxLimit) + Select(b, high, pdxLimit)
    decreases |b|
  {
    if b == [] {
      assert a + b == a;
    } else {
      assert (a + b)[..|a + b| - 1] == a + b[..|b| - 1];
      SelectAppend(a, b[..|b| - 1], high, pdxLimit);
    }
  }

  lemma {:induction false} SelectUniform(s: seq<PageInfo>, high: bool, pdxLimit: nat)
    requires forall i :: 0 <= i < |s| ==> IsHigh(s[i], pdxLimit) == high
    ensures Select(s, high, pdxLimit) == s && Select(s, !high, pdxLimit) == []
    decreases |s|
  {
    if s != [] {
      SelectUniform(s[..|s| - 1], high, pdxLimit);
    }
  }

  /** The pages in the first 4 MB are the first 1024 of them. */
  lemma HighPages(p: PageInfo)
    requires p.index < 0x10_0000
    ensures IsHigh(p, 1) <==> p.index >= 1024
  {
  }

  lemma KindOfReversed(s: seq<PageInfo>, high: bool)
    requires forall i :: 0 <= i < |s| ==> IsHigh(s[i], 1) == high
    ensures forall k :: 0 <= k < |s| ==> IsHigh(Reversed(s)[k], 1) == high
  {
    hide Reversed, IsHigh;
    forall k | 0 <= k < |s|
      ensures IsHigh(Reversed(s)[k], 1) == high
    {
      assert Reversed(s)[k] == s[|s| - 1 - k];
    }
  }

  lemma {:induction false} ReversedAppend(a: seq<PageInfo>, b: seq<PageInfo>)
    ensures Reversed(a + b) == Reversed(b) + Reversed(a)
    decreases |b|
  {
    if b == [] {
      assert a + b == a;
    } else {
      assert (a + b)[..|a + b| - 1] == a + b[..|b| - 1];
      ReversedAppend(a, b[..|b| - 1]);
    }
  }

  /**
   * `page_init` on all pages and then the reordering: the low pages from the
   * highest to the lowest, then the high pages from the highest to the lowest.
   */
  lemma OrderAfterInit(pages: seq<PageInfo>)
    requires |pages| <= 0x10_0000
    requires forall i :: 0 <= i < |pages| ==> pages[i].index == i
    ensures var low := if |pages| < 1024 then |pages| else 1024;
            LowFirst(Reversed(pages), 1) == Reversed(pages[..low]) + Reversed(pages[low..])
  {
    var low := if |pages| < 1024 then |pages| else 1024;
    hide *;
    forall i | 0 <= i < |pages|
      ensures IsHigh(pages[i], 1) == (i >= 1024)
    {
      HighPages(pages[i]);
    }
    KindsOfParts(pages, low);
    TwoKinds(pages[..low], pages[low..]);
  }

  lemma KindsOfParts(pages: seq<PageInfo>, low: nat)
    requires low <= |pages| && low <= 1024 && (low < |pages| ==> low == 1024)
    requires forall i :: 0 <= i < |pages| ==> IsHigh(pages[i], 1) == (i >= 1024)
    ensures pages == pages[..low] + pages[low..]
    ensures forall k :: 0 <= k < low ==> !IsHigh(pages[..low][k], 1)
    ensures forall k :: 0 <= k < |pages| - low ==> IsHigh(pages[low..][k], 1)
  {
    hide *;
  }

  lemma TwoKinds(low: seq<PageInfo>, high: seq<PageInfo>)
    requires forall k :: 0 <= k < |low| ==> !IsHigh(low[k], 1)
    requires forall k :: 0 <= k < |high| ==> IsHigh(high[k], 1)
    ensures LowFirst(Reversed(low + high), 1) == Reversed(low) + Reversed(high)
  {
    hide Select, IsHigh, Reversed;
    var a, b := Reversed(high), Reversed(low);
    ReversedAppend(low, high);
    KindOfReversed(low, false);
    KindOfReversed(high, true);
    SelectUniform(a, true, 1);
    SelectUniform(b, false, 1);
    SelectAppend(a, b, false, 1);
    SelectAppend(a, b, true, 1);
    assert [] + b == b && a + [] == a;
  }
}
