/**
 * Debug information about an instruction address (kern/kdebug.c,
 * `debuginfo_eip`): three chained symbol table searches, a walk back to the
 * source file's name and a count of the function's parameters.
 */
module DebugInfo {
  import opened Machine
  import opened CStrings
  import opened StabSearch

  const N_FUN: Byte := 0x24
  const N_SLINE: Byte := 0x44
  const N_SO: Byte := 0x64
  const N_SOL: Byte := 0x84
  const N_PSYM: Byte := 0xa0

  const ULIM := 0xEF80_0000

  /** "<unknown>" with its NUL. */
  const UNKNOWN: seq<Byte> := [0x3c, 0x75, 0x6e, 0x6b, 0x6e, 0x6f, 0x77, 0x6e, 0x3e, 0]

  /** A name is the literal above or a string inside the string table. */
  datatype Name = Unknown | At(offset: nat)

  datatype Info = Info(file: Name, line: int, fnName: Name, fnNameLen: int, fnAddr: Word, fnNarg: nat)

  /** The call panics on user addresses; otherwise it returns 0 or -1. */
  datatype Outcome = Panicked | Found | NotFound

  predicate ValidStrtab(strtab: seq<Byte>) {
    |strtab| > 0 && strtab[|strtab| - 1] == 0
  }

  /** `debuginfo_eip` never looks below a table whose first entry is of neither type. */
  predicate HasHeader(stabs: seq<Stab>) {
    stabs == [] || (stabs[0].typ != N_SO && stabs[0].typ != N_SLINE)
  }

  /** On a well-formed table it is enough that the first entry is no source file above the address. */
  predicate Covered(stabs: seq<Stab>, addr: Word) {
    stabs != [] && stabs[0].typ == N_SO ==> stabs[0].value <= addr
  }

  // ---------- The linear-scan specification ----------

  function NameOf(strtab: seq<Byte>, strx: Word): Name {
    if strx < |strtab| then At(strx) else Unknown
  }

  /** The length of a name up to the type suffix after its colon. */
  function NameLength(strtab: seq<Byte>, name: Name): nat
    requires ValidStrtab(strtab)
    requires name.At? ==> name.offset < |strtab|
  {
    match name
    case Unknown => 9
    case At(offset) =>
      assert 0 == strtab[offset..][|strtab| - 1 - offset];
      Before(CStr(strtab, offset), ':' as int)
  }

  predicate NamesFile(s: Stab) {
    s.typ == N_SOL || (s.typ == N_SO && s.value != 0)
  }

  /** The last entry of [lo, hi] that names a source file, or lo - 1. */
  function LastFileName(stabs: seq<Stab>, lo: int, hi: int): (r: int)
    requires 0 <= lo && lo - 1 <= hi < |stabs|
    ensures lo - 1 <= r <= hi
    ensures r >= lo ==> NamesFile(stabs[r])
    ensures forall k :: r < k <= hi ==> !NamesFile(stabs[k])
    decreases hi - lo + 1
  {
    if hi < lo || NamesFile(stabs[hi]) then hi else LastFileName(stabs, lo, hi - 1)
  }

  /** The number of consecutive parameter entries from `i` on, strictly before `limit`. */
  function ParameterRun(stabs: seq<Stab>, i: int, limit: int): (n: nat)
    requires 0 <= i <= limit <= |stabs|
    ensures i + n <= limit
    ensures forall k :: i <= k < i + n ==> stabs[k].typ == N_PSYM
    ensures i + n < limit ==> stabs[i + n].typ != N_PSYM
    decreases limit - i
  {
    if i < limit && stabs[i].typ == N_PSYM then 1 + ParameterRun(stabs, i + 1, limit) else 0
  }

  /** A search that the binary search answers like the linear scan. */
  ghost predicate Searchable(stabs: seq<Stab>, lo: int, hi: int, ty: Byte, addr: int) {
    && Sorted(stabs, lo, hi, ty)
    && 0 <= addr <= WORD_MAX && !Strays(stabs, lo, hi, ty, addr)
  }

  /** The regions of a file, of a function in it (empty if none) and of a line. */
  datatype Regions = Regions(lfile: int, rfile: int, lfun: int, rfun: int, base: Word, lline: int, rline: int)
  {
    // The region the line is searched in: the function, or the whole file if there is none.
    function Lo(): int { if lfun <= rfun then lfun else lfile }
    function Hi(): int { if lfun <= rfun then rfun else rfile }
  }

  /** The start of the function whose entry is `lfun`; line entries count from it. */
  function Base(stabs: seq<Stab>, lfun: int, rfun: int): Word {
    if 0 <= lfun <= rfun < |stabs| then stabs[lfun].value else 0
  }

  function Locate(stabs: seq<Stab>, addr: Word): Regions {
    var (lfile, rfile) := Bracket(stabs, 0, |stabs| - 1, N_SO, addr);
    var (lfun, rfun) := Bracket(stabs, lfile, rfile, N_FUN, addr);
    var base := Base(stabs, lfun, rfun);
    var (lline, rline) := if lfun <= rfun then Bracket(stabs, lfun, rfun, N_SLINE, addr - base)
                          else Bracket(stabs, lfile, rfile, N_SLINE, addr);
    Regions(lfile, rfile, lfun, rfun, base, lline, rline)
  }

  /** A table on which each of the searches for `addr` agrees with the scan. */
  ghost predicate WellFormed(stabs: seq<Stab>, addr: Word) {
    var g := Locate(stabs, addr);
    && Searchable(stabs, 0, |stabs| - 1, N_SO, addr)
    && (g.lfile != 0 ==>
          && Searchable(stabs, g.lfile, g.rfile, N_FUN, addr)
          && if g.lfun <= g.rfun then Searchable(stabs, g.lfun, g.rfun, N_SLINE, addr - g.base)
             else Searchable(stabs, g.lfile, g.rfile, N_SLINE, addr))
  }

  lemma FileBounds(stabs: seq<Stab>, addr: Word)
    requires Covered(stabs, addr) && Sorted(stabs, 0, |stabs| - 1, N_SO)
    ensures var (lfile, rfile) := Bracket(stabs, 0, |stabs| - 1, N_SO, addr);
            lfile != 0 ==> 0 < lfile <= rfile < |stabs| && Typed(stabs, N_SO, lfile) && stabs[lfile].value <= addr
  {
    BracketMeaning(stabs, 0, |stabs| - 1, N_SO, addr);
  }

  /**
   * In any other sorted table the file found is the entry before the table,
   * which is not taken for a failure and is searched next.
   */
  lemma UncoveredFile(stabs: seq<Stab>, addr: Word)
    requires Sorted(stabs, 0, |stabs| - 1, N_SO)
    ensures var g := Locate(stabs, addr); Covered(stabs, addr) <==> g.lfile >= 0
    ensures var g := Locate(stabs, addr); !Covered(stabs, addr) ==> g.lfile == g.rfile == -1
  {
    assert stabs != [] ==> (stabs[0].typ == N_SO <==> Typed(stabs, N_SO, 0));
    BracketMeaning(stabs, 0, |stabs| - 1, N_SO, addr);
  }

  lemma FunctionBounds(stabs: seq<Stab>, lfile: int, rfile: int, addr: Word)
    requires 0 < lfile <= rfile < |stabs| && Typed(stabs, N_SO, lfile) && stabs[lfile].value <= addr
    requires Sorted(stabs, lfile, rfile, N_FUN)
    ensures var (lfun, rfun) := Bracket(stabs, lfile, rfile, N_FUN, addr);
            if lfun <= rfun then
              lfile <= lfun && rfun <= rfile && Base(stabs, lfun, rfun) <= addr && !Typed(stabs, N_SLINE, lfun)
            else lfun == lfile
  {
    BracketMeaning(stabs, lfile, rfile, N_FUN, addr);
  }

  lemma LineBounds(stabs: seq<Stab>, lo: int, hi: int, addr: int)
    requires 0 <= lo <= hi < |stabs| && !Typed(stabs, N_SLINE, lo) && Sorted(stabs, lo, hi, N_SLINE)
    ensures var (lline, rline) := Bracket(stabs, lo, hi, N_SLINE, addr);
            lo <= lline && rline <= hi
  {
    BracketMeaning(stabs, lo, hi, N_SLINE, addr);
  }

  /** Every region the scan finds lies in the table, inside the region it was searched in. */
  lemma LocateBounds(stabs: seq<Stab>, addr: Word)
    requires Covered(stabs, addr) && WellFormed(stabs, addr)
    ensures var g := Locate(stabs, addr);
            g.lfile != 0 ==>
              && 0 < g.lfile <= g.rfile < |stabs| && g.lfile <= g.lfun && g.rfun <= g.rfile
              && g.base <= addr && g.lfile <= g.lline && g.rline <= g.rfile
  {
    hide Strays, Sorted, Bracket, Typed;
    FileBounds(stabs, addr);
    var g := Locate(stabs, addr);
    if g.lfile != 0 {
      FunctionBounds(stabs, g.lfile, g.rfile, addr);
      if g.lfun <= g.rfun {
        LineBounds(stabs, g.lfun, g.rfun, addr - g.base);
      } else {
        OneType(stabs, g.lfile);
        LineBounds(stabs, g.lfile, g.rfile, addr);
      }
    }
  }

  lemma OneType(stabs: seq<Stab>, k: int)
    ensures Typed(stabs, N_SO, k) ==> !Typed(stabs, N_SLINE, k)
  {
  }

  function Blank(addr: Word): Info {
    Info(Unknown, 0, Unknown, 9, addr, 0)
  }

  /** What `debuginfo_eip` must find in a well-formed table, by linear scans alone. */
  ghost function Describe(stabs: seq<Stab>, strtab: seq<Byte>, addr: Word): (Outcome, Info)
    requires Covered(stabs, addr) && WellFormed(stabs, addr)
  {
    LocateBounds(stabs, addr);
    var g := Locate(stabs, addr);
    if addr < ULIM then (Panicked, Blank(addr))
    else if !ValidStrtab(strtab) || g.lfile == 0 then (NotFound, Blank(addr))
    else
      var fnName := if g.lfun <= g.rfun then NameOf(strtab, stabs[g.lfun].strx) else Unknown;
      var info := Blank(addr).(
        fnName := fnName,
        fnNameLen := NameLength(strtab, fnName),
        fnAddr := if g.lfun <= g.rfun then g.base else addr);
      if g.lline > g.rline then (NotFound, info)
      else
        var f := LastFileName(stabs, g.lfile, g.lline);
        (Found, info.(
          line := stabs[g.rline].desc,
          file := if f >= g.lfile then NameOf(strtab, stabs[f].strx) else Unknown,
          fnNarg := if g.lfun < g.rfun then ParameterRun(stabs, g.lfun + 1, g.rfun) else 0))
  }

  // ---------- What the answer means ----------

  /**
   * The entries of type `ty` in [lo, hi] whose value is at most `addr` are
   * exactly those up to `k`, which is one of them.
   */
  ghost predicate LastAtOrBelow(stabs: seq<Stab>, lo: int, hi: int, ty: Byte, addr: int, k: int) {
    && lo <= k <= hi && Typed(stabs, ty, k)
    && forall i :: lo <= i <= hi && Typed(stabs, ty, i) ==> (stabs[i].value <= addr <==> i <= k)
  }

  ghost predicate SomeAtOrBelow(stabs: seq<Stab>, lo: int, hi: int, ty: Byte, addr: int) {
    exists k :: lo <= k <= hi && Typed(stabs, ty, k) && stabs[k].value <= addr
  }

  lemma BracketIsLast(stabs: seq<Stab>, lo: int, hi: int, ty: Byte, addr: int)
    requires InTable(stabs, lo, hi) && Sorted(stabs, lo, hi, ty)
    requires SomeAtOrBelow(stabs, lo, hi, ty, addr)
    ensures var (left, right) := Bracket(stabs, lo, hi, ty, addr);
            && LastAtOrBelow(stabs, lo, hi, ty, addr, left) && left <= right
            && (Typed(stabs, ty, right) <==> left == right)
            && (left == right <==> left == hi || Typed(stabs, ty, left + 1))
  {
    BracketMeaning(stabs, lo, hi, ty, addr);
  }

  /** A region ends before the next entry of its type, or with the region it lies in. */
  ghost predicate EndsRegion(stabs: seq<Stab>, left: int, right: int, hi: int, ty: Byte) {
    && left <= right <= hi
    && (forall k :: left < k <= right ==> !Typed(stabs, ty, k))
    && (right < hi ==> Typed(stabs, ty, right + 1))
  }

  lemma BracketEndsRegion(stabs: seq<Stab>, lo: int, hi: int, ty: Byte, addr: int)
    requires InTable(stabs, lo, hi) && Sorted(stabs, lo, hi, ty)
    requires SomeAtOrBelow(stabs, lo, hi, ty, addr)
    ensures var (left, right) := Bracket(stabs, lo, hi, ty, addr); EndsRegion(stabs, left, right, hi, ty)
  {
    BracketMeaning(stabs, lo, hi, ty, addr);
  }

  /** The length of a string up to a colon, or else up to its NUL. */
  lemma NameLengthIs(strtab: seq<Byte>, name: Name, w: seq<Byte>)
    requires ValidStrtab(strtab) && 0 !in w && 0x3a !in w
    requires name.At? && name.offset < |strtab|
    requires w + [0x3a] <= strtab[name.offset..] || w + [0] <= strtab[name.offset..]
    ensures NameLength(strtab, name) == |w|
  {
    var i, s := name.offset, strtab[name.offset..];
    assert 0 == s[|strtab| - 1 - i];
    assert forall k :: 0 <= k < |w| ==> s[k] == w[k] && w[k] in w;
    assert (w + [0x3a])[|w|] == 0x3a && (w + [0])[|w|] == 0;
    assert s[|w|] == strtab[i + |w|] && (s[|w|] == 0x3a || s[|w|] == 0);
    var t := CStr(strtab, i);
    var e := StrEnd(strtab, i);
    assert forall k :: i <= k < i + |w| ==> strtab[k] == s[k - i] != 0;
    assert forall k :: 0 <= k < |t| ==> t[k] == strtab[i + k];
    assert i + |w| <= e;
  }

  /** The name's length that is left behind, when the function was found and also when the line then was not. */
  lemma FoundNameLength(stabs: seq<Stab>, strtab: seq<Byte>, addr: Word, w: seq<Byte>)
    requires Covered(stabs, addr) && WellFormed(stabs, addr) && 0 !in w && 0x3a !in w
    ensures var info := Describe(stabs, strtab, addr).1;
            && (info.fnName == Unknown ==> info.fnNameLen == 9)
            && (info.fnName.At? ==>
                  && info.fnName.offset < |strtab|
                  && (w + [0x3a] <= strtab[info.fnName.offset..] || w + [0] <= strtab[info.fnName.offset..]
                      ==> info.fnNameLen == |w|))
  {
    LocateBounds(stabs, addr);
    var info := Describe(stabs, strtab, addr).1;
    if info.fnName.At? {
      hide Describe;
      NameIsInTable(stabs, strtab, addr);
      if w + [0x3a] <= strtab[info.fnName.offset..] || w + [0] <= strtab[info.fnName.offset..] {
        NameLengthIs(strtab, info.fnName, w);
      }
    } else {
      hide Locate;
    }
  }

  lemma NameIsInTable(stabs: seq<Stab>, strtab: seq<Byte>, addr: Word)
    requires Covered(stabs, addr) && WellFormed(stabs, addr)
    ensures var info := Describe(stabs, strtab, addr).1;
            info.fnName.At? ==>
              ValidStrtab(strtab) && info.fnName.offset < |strtab| && info.fnNameLen == NameLength(strtab, info.fnName)
  {
    hide NameLength, LastFileName, ParameterRun, Locate, WellFormed;
  }

  /**
   * Exactly when an answer is found: the address is the kernel's, the string
   * table ends in a NUL, some file starts at or below the address, and its
   * region, or its function's, has any line entry, even one above the address.
   */
  lemma FoundIff(stabs: seq<Stab>, strtab: seq<Byte>, addr: Word)
    requires Covered(stabs, addr) && WellFormed(stabs, addr)
    ensures var rc, g := Describe(stabs, strtab, addr).0, Locate(stabs, addr);
            && (rc == Panicked <==> addr < 0xEF80_0000)
            && (rc == Found <==>
                  && addr >= 0xEF80_0000 && strtab != [] && strtab[|strtab| - 1] == 0
                  && SomeAtOrBelow(stabs, 1, |stabs| - 1, 0x64, addr)
                  && exists k :: g.Lo() <= k <= g.Hi() && Typed(stabs, 0x44, k))
  {
    hide Describe, Bracket;
    OutcomeOf(stabs, strtab, addr);
    FileFound(stabs, addr);
    var g := Locate(stabs, addr);
    if g.lfile != 0 {
      LineRegion(stabs, addr);
      LineFound(stabs, g.Lo(), g.Hi(), addr - g.base);
    }
  }

  lemma OutcomeOf(stabs: seq<Stab>, strtab: seq<Byte>, addr: Word)
    requires Covered(stabs, addr) && WellFormed(stabs, addr)
    ensures var g := Locate(stabs, addr);
            Describe(stabs, strtab, addr).0
            == if addr < 0xEF80_0000 then Panicked
               else if !ValidStrtab(strtab) || g.lfile == 0 || g.lline > g.rline then NotFound
               else Found
  {
    hide NameLength, LastFileName, ParameterRun, Locate, WellFormed;
  }

  lemma FileFound(stabs: seq<Stab>, addr: Word)
    requires Covered(stabs, addr) && Sorted(stabs, 0, |stabs| - 1, N_SO)
    ensures Bracket(stabs, 0, |stabs| - 1, N_SO, addr).0 != 0 <==> SomeAtOrBelow(stabs, 1, |stabs| - 1, 0x64, addr)
  {
    BracketMeaning(stabs, 0, |stabs| - 1, N_SO, addr);
    assert stabs != [] ==> (stabs[0].typ == N_SO <==> Typed(stabs, N_SO, 0));
  }

  lemma LineFound(stabs: seq<Stab>, lo: int, hi: int, offset: int)
    requires InTable(stabs, lo, hi) && Sorted(stabs, lo, hi, N_SLINE)
    ensures var (lline, rline) := Bracket(stabs, lo, hi, N_SLINE, offset);
            lline <= rline <==> exists k :: lo <= k <= hi && Typed(stabs, 0x44, k)
  {
    BracketMeaning(stabs, lo, hi, N_SLINE, offset);
  }

  /** Without an answer no line, file or parameters are recorded, and without a file nothing is. */
  lemma NothingFound(stabs: seq<Stab>, strtab: seq<Byte>, addr: Word)
    requires Covered(stabs, addr) && WellFormed(stabs, addr)
    ensures var (rc, info) := Describe(stabs, strtab, addr);
            && (rc != Found ==> info.file == Unknown && info.line == 0 && info.fnNarg == 0)
            && (addr < 0xEF80_0000 || !ValidStrtab(strtab) || Locate(stabs, addr).lfile == 0 ==>
                  info == Info(Unknown, 0, Unknown, 9, addr, 0))
  {
    hide NameLength, LastFileName, ParameterRun, Locate, WellFormed;
  }

  /**
   * With a function at or below `addr` in the file, the answer names the last
   * such function of the last such file, even if no line is found.
   */
  lemma FoundFunction(stabs: seq<Stab>, strtab: seq<Byte>, addr: Word)
    requires Covered(stabs, addr) && WellFormed(stabs, addr)
    requires addr >= 0xEF80_0000 && ValidStrtab(strtab) && Locate(stabs, addr).lfile != 0
    requires var g := Locate(stabs, addr); SomeAtOrBelow(stabs, g.lfile, g.rfile, N_FUN, addr)
    ensures var g, info := Locate(stabs, addr), Describe(stabs, strtab, addr).1;
            && LastAtOrBelow(stabs, 0, |stabs| - 1, 0x64, addr, g.lfile)
            && EndsRegion(stabs, g.lfile, g.rfile, |stabs| - 1, 0x64)
            && LastAtOrBelow(stabs, g.lfile, g.rfile, 0x24, addr, g.lfun)
            && EndsRegion(stabs, g.lfun, g.rfun, g.rfile, 0x24)
            && info.fnAddr == stabs[g.lfun].value
            && info.fnName == (if stabs[g.lfun].strx < |strtab| then At(stabs[g.lfun].strx) else Unknown)
            && g.Lo() == g.lfun && g.Hi() == g.rfun && g.base == stabs[g.lfun].value
  {
    LocateBounds(stabs, addr);
    var g := Locate(stabs, addr);
    hide Describe, Locate;
    FileIsLast(stabs, addr, g.lfile, g.rfile);
    BracketIsLast(stabs, g.lfile, g.rfile, N_FUN, addr);
    BracketEndsRegion(stabs, g.lfile, g.rfile, N_FUN, addr);
  }

  /** Without any function in the file, the line is searched in the whole file, and the address stands for itself. */
  lemma NoFunction(stabs: seq<Stab>, strtab: seq<Byte>, addr: Word)
    requires Covered(stabs, addr) && WellFormed(stabs, addr)
    requires Describe(stabs, strtab, addr).0 == Found
    requires var g := Locate(stabs, addr); forall k :: g.lfile <= k <= g.rfile ==> !Typed(stabs, 0x24, k)
    ensures var g, info := Locate(stabs, addr), Describe(stabs, strtab, addr).1;
            && info.fnName == Unknown && info.fnAddr == addr && info.fnNarg == 0
            && g.Lo() == g.lfile && g.Hi() == g.rfile && g.base == 0
  {
    LocateBounds(stabs, addr);
    var g := Locate(stabs, addr);
    assert g.lfun == g.lfile && g.rfun == g.lfile - 1;
  }

  lemma FileIsLast(stabs: seq<Stab>, addr: Word, lfile: int, rfile: int)
    requires Covered(stabs, addr) && Sorted(stabs, 0, |stabs| - 1, N_SO)
    requires (lfile, rfile) == Bracket(stabs, 0, |stabs| - 1, N_SO, addr) && lfile != 0
    ensures LastAtOrBelow(stabs, 0, |stabs| - 1, N_SO, addr, lfile)
    ensures EndsRegion(stabs, lfile, rfile, |stabs| - 1, N_SO)
  {
    FileBounds(stabs, addr);
    BracketIsLast(stabs, 0, |stabs| - 1, N_SO, addr);
    BracketEndsRegion(stabs, 0, |stabs| - 1, N_SO, addr);
  }

  lemma FoundFields(stabs: seq<Stab>, strtab: seq<Byte>, addr: Word)
    requires Covered(stabs, addr) && WellFormed(stabs, addr)
    requires Describe(stabs, strtab, addr).0 == Found
    ensures var g, info := Locate(stabs, addr), Describe(stabs, strtab, addr).1;
            && 0 < g.lfile <= g.lline <= g.rline < |stabs| && g.rfun < |stabs| && 0 <= g.lfun
            && Typed(stabs, N_SO, g.lfile)
            && info.line == stabs[g.rline].desc
            && info.fnNarg == (if g.lfun < g.rfun then ParameterRun(stabs, g.lfun + 1, g.rfun) else 0)
            && var f := LastFileName(stabs, g.lfile, g.lline);
               info.file == if f >= g.lfile then NameOf(strtab, stabs[f].strx) else Unknown
  {
    FileBounds(stabs, addr);
    LocateBounds(stabs, addr);
  }

  /** The file name is that of the nearest entry that names a file, from the line entry back to the file's own entry. */
  lemma FoundFile(stabs: seq<Stab>, strtab: seq<Byte>, addr: Word)
    requires Covered(stabs, addr) && WellFormed(stabs, addr)
    requires Describe(stabs, strtab, addr).0 == Found
    ensures var g, info := Locate(stabs, addr), Describe(stabs, strtab, addr).1;
            0 < g.lfile < |stabs| && stabs[g.lfile].value != 0 ==>
              exists f :: g.lfile <= f <= g.lline < |stabs|
                          && info.file == NameOf(strtab, stabs[f].strx)
                          && (stabs[f].typ == 0x84 || (stabs[f].typ == 0x64 && stabs[f].value != 0))
                          && forall k :: f < k <= g.lline ==>
                               stabs[k].typ != 0x84 && (stabs[k].typ != 0x64 || stabs[k].value == 0)
  {
    FoundFields(stabs, strtab, addr);
    hide Describe, Locate, WellFormed;
    var g := Locate(stabs, addr);
    if stabs[g.lfile].value != 0 {
      NearestFile(stabs, g.lfile, g.lline);
      var f := LastFileName(stabs, g.lfile, g.lline);
      assert Describe(stabs, strtab, addr).1.file == NameOf(strtab, stabs[f].strx);
    }
  }

  lemma NearestFile(stabs: seq<Stab>, lo: int, hi: int)
    requires 0 <= lo <= hi < |stabs| && stabs[lo].typ == 0x64 && stabs[lo].value != 0
    ensures var f := LastFileName(stabs, lo, hi);
            && lo <= f && (stabs[f].typ == 0x84 || (stabs[f].typ == 0x64 && stabs[f].value != 0))
            && forall k :: f < k <= hi ==> stabs[k].typ != 0x84 && (stabs[k].typ != 0x64 || stabs[k].value == 0)
  {
    var f := LastFileName(stabs, lo, hi);
    assert NamesFile(stabs[lo]);
    forall k | f < k <= hi
      ensures !NamesFile(stabs[k])
    {
    }
  }

  /** The parameters counted are the unbroken run after the function's entry, without the last entry of its region. */
  lemma FoundParameters(stabs: seq<Stab>, strtab: seq<Byte>, addr: Word)
    requires Covered(stabs, addr) && WellFormed(stabs, addr)
    requires Describe(stabs, strtab, addr).0 == Found
    ensures var g, n := Locate(stabs, addr), Describe(stabs, strtab, addr).1.fnNarg;
            && (g.lfun >= g.rfun ==> n == 0)
            && (g.lfun < g.rfun ==> g.lfun + n < g.rfun)
            && (forall k :: g.lfun < k <= g.lfun + n ==> Typed(stabs, 0xa0, k))
            && (g.lfun + n + 1 < g.rfun ==> !Typed(stabs, 0xa0, g.lfun + n + 1))
  {
    hide *;
    FoundFields(stabs, strtab, addr);
    var g := Locate(stabs, addr);
    CountIsRun(stabs, g.lfun, g.rfun, Describe(stabs, strtab, addr).1.fnNarg);
  }

  lemma CountIsRun(stabs: seq<Stab>, lfun: int, rfun: int, n: nat)
    requires 0 <= lfun && rfun < |stabs|
    requires n == if lfun < rfun then ParameterRun(stabs, lfun + 1, rfun) else 0
    ensures (lfun >= rfun ==> n == 0) && (lfun < rfun ==> lfun + n < rfun)
    ensures forall k :: lfun < k <= lfun + n ==> Typed(stabs, 0xa0, k)
    ensures lfun + n + 1 < rfun ==> !Typed(stabs, 0xa0, lfun + n + 1)
  {
  }

  /**
   * When the file has functions but all of them start above `addr`, the search
   * does not come back empty: the file's own entry is taken for the function.
   */
  lemma PhantomFunction(stabs: seq<Stab>, strtab: seq<Byte>, addr: Word)
    requires Covered(stabs, addr) && WellFormed(stabs, addr)
    requires addr >= ULIM && ValidStrtab(strtab)
    requires var g := Locate(stabs, addr);
             g.lfile != 0 && g.lfile <= LastTyped(stabs, g.lfile, g.rfile, N_FUN)
             && forall k :: g.lfile <= k <= g.rfile && Typed(stabs, N_FUN, k) ==> stabs[k].value > addr
    ensures var g, info := Locate(stabs, addr), Describe(stabs, strtab, addr).1;
            && Typed(stabs, N_SO, g.lfile)
            && info.fnAddr == stabs[g.lfile].value
            && info.fnName == NameOf(strtab, stabs[g.lfile].strx)
  {
    LocateBounds(stabs, addr);
    FileBounds(stabs, addr);
    var g := Locate(stabs, addr);
    BracketMeaning(stabs, g.lfile, g.rfile, N_FUN, addr);
  }

  /** An address in a file whose only function starts further on is answered with the file's own name. */
  lemma PhantomExample(header: Stab, file: Stab, line: Stab, fun: Stab, strtab: seq<Byte>)
    requires header.typ == 0 && ValidStrtab(strtab)
    requires file.typ == N_SO && line.typ == N_SLINE && fun.typ == N_FUN
    requires file.value == 0xF010_0000 && line.value == 0 && fun.value == 0xF010_0010
    ensures HasHeader([header, file, line, fun]) && WellFormed([header, file, line, fun], 0xF010_0000)
    ensures var (rc, info) := Describe([header, file, line, fun], strtab, 0xF010_0000);
            rc == Found && info.fnName == NameOf(strtab, file.strx) && info.line == line.desc
  {
    hide Bracket, Searchable, NameOf, NameLength, LastFileName;
    var stabs := [header, file, line, fun];
    var addr: Word := 0xF010_0000;
    PhantomSearches(stabs, addr);
    LocateBounds(stabs, addr);
  }

  lemma PhantomSearches(stabs: seq<Stab>, addr: Word)
    requires |stabs| == 4 && stabs[0].typ == 0
    requires stabs[1].typ == N_SO && stabs[2].typ == N_SLINE && stabs[3].typ == N_FUN
    requires stabs[1].value == addr < WORD_MAX && stabs[2].value == 0 && stabs[3].value > addr + 1
    ensures Bracket(stabs, 0, 3, N_SO, addr) == (1, 3) && Searchable(stabs, 0, 3, N_SO, addr)
    ensures Bracket(stabs, 1, 3, N_FUN, addr) == (1, 2) && Searchable(stabs, 1, 3, N_FUN, addr)
    ensures Bracket(stabs, 1, 2, N_SLINE, 0) == (2, 2) && Searchable(stabs, 1, 2, N_SLINE, 0)
  {
    hide Strays;
    assert Floor(stabs, 0, 3, N_SO, addr) == 1 && Ceiling(stabs, 0, 3, N_SO, addr) == 4;
    assert LastTyped(stabs, 1, 3, N_FUN) == 3;
    assert Floor(stabs, 1, 3, N_FUN, addr) == 0 && Ceiling(stabs, 1, 3, N_FUN, addr) == 3;
    assert Floor(stabs, 1, 2, N_SLINE, 0) == 2 && Ceiling(stabs, 1, 2, N_SLINE, 0) == 3;
    Lonely(stabs, 0, 3, N_SO, addr);
    Lonely(stabs, 1, 3, N_FUN, addr);
    Lonely(stabs, 1, 2, N_SLINE, 0);
  }

  lemma LineRegion(stabs: seq<Stab>, addr: Word)
    requires Covered(stabs, addr) && WellFormed(stabs, addr) && Locate(stabs, addr).lfile != 0
    ensures var g := Locate(stabs, addr);
            && InTable(stabs, g.Lo(), g.Hi())
            && Sorted(stabs, g.Lo(), g.Hi(), N_SLINE)
            && (g.lline, g.rline) == Bracket(stabs, g.Lo(), g.Hi(), N_SLINE, addr - g.base)
  {
    hide Sorted, Bracket, Strays, Typed;
    LocateBounds(stabs, addr);
  }

  lemma LineEntryIn(stabs: seq<Stab>, lo: int, hi: int, offset: int, lline: int, rline: int)
    requires InTable(stabs, lo, hi) && Sorted(stabs, lo, hi, N_SLINE)
    requires SomeAtOrBelow(stabs, lo, hi, N_SLINE, offset)
    requires (lline, rline) == Bracket(stabs, lo, hi, N_SLINE, offset)
    ensures LastAtOrBelow(stabs, lo, hi, N_SLINE, offset, lline)
    ensures EndsRegion(stabs, lline, rline, hi, N_SLINE)
    ensures Typed(stabs, N_SLINE, rline) <==> lline == rline
    ensures lline == rline <==> lline == hi || Typed(stabs, N_SLINE, lline + 1)
  {
    BracketIsLast(stabs, lo, hi, N_SLINE, offset);
    BracketEndsRegion(stabs, lo, hi, N_SLINE, offset);
  }

  /**
   * The line number is read at the right end of the line's region, not at its
   * left end, the entry that matched.  That is a line entry exactly when the
   * next entry is one too or the function ends there.
   */
  lemma LineEntry(stabs: seq<Stab>, strtab: seq<Byte>, addr: Word)
    requires Covered(stabs, addr) && WellFormed(stabs, addr)
    requires var g := Locate(stabs, addr);
             g.lfile != 0 && SomeAtOrBelow(stabs, g.Lo(), g.Hi(), N_SLINE, addr - g.base)
    ensures var g := Locate(stabs, addr);
            && LastAtOrBelow(stabs, g.Lo(), g.Hi(), N_SLINE, addr - g.base, g.lline)
            && EndsRegion(stabs, g.lline, g.rline, g.Hi(), N_SLINE)
            && (Typed(stabs, N_SLINE, g.rline) <==> g.lline == g.rline)
            && (g.lline == g.rline <==> g.lline == g.Hi() || Typed(stabs, N_SLINE, g.lline + 1))
  {
    hide *;
    LineRegion(stabs, addr);
    var g := Locate(stabs, addr);
    LineEntryIn(stabs, g.Lo(), g.Hi(), addr - g.base, g.lline, g.rline);
  }

  /** A local symbol after the only line entry makes the line number come from that symbol. */
  lemma WrongLineExample(header: Stab, file: Stab, fun: Stab, line: Stab, symbol: Stab, strtab: seq<Byte>)
    requires header.typ == 0 && ValidStrtab(strtab)
    requires file.typ == N_SO && fun.typ == N_FUN && line.typ == N_SLINE && symbol.typ == 0x80
    requires file.value == fun.value == 0xF010_0000 && line.value == 0
    ensures HasHeader([header, file, fun, line, symbol]) && WellFormed([header, file, fun, line, symbol], 0xF010_0000)
    ensures var (rc, info) := Describe([header, file, fun, line, symbol], strtab, 0xF010_0000);
            rc == Found && info.line == symbol.desc
  {
    hide Bracket, Searchable, NameOf, NameLength, LastFileName;
    var stabs := [header, file, fun, line, symbol];
    var addr: Word := 0xF010_0000;
    WrongLineSearches(stabs, addr);
    LocateBounds(stabs, addr);
  }

  lemma WrongLineSearches(stabs: seq<Stab>, addr: Word)
    requires |stabs| == 5 && stabs[0].typ == 0 && stabs[4].typ == 0x80
    requires stabs[1].typ == N_SO && stabs[2].typ == N_FUN && stabs[3].typ == N_SLINE
    requires stabs[1].value == stabs[2].value == addr < WORD_MAX && stabs[3].value == 0
    ensures Bracket(stabs, 0, 4, N_SO, addr) == (1, 4) && Searchable(stabs, 0, 4, N_SO, addr)
    ensures Bracket(stabs, 1, 4, N_FUN, addr) == (2, 4) && Searchable(stabs, 1, 4, N_FUN, addr)
    ensures Bracket(stabs, 2, 4, N_SLINE, 0) == (3, 4) && Searchable(stabs, 2, 4, N_SLINE, 0)
  {
    hide Strays;
    assert Floor(stabs, 0, 4, N_SO, addr) == 1 && Ceiling(stabs, 0, 4, N_SO, addr) == 5;
    assert Floor(stabs, 1, 4, N_FUN, addr) == 2 && Ceiling(stabs, 1, 4, N_FUN, addr) == 5;
    assert Floor(stabs, 2, 4, N_SLINE, 0) == 3 && Ceiling(stabs, 2, 4, N_SLINE, 0) == 5;
    Lonely(stabs, 0, 4, N_SO, addr);
    Lonely(stabs, 1, 4, N_FUN, addr);
    Lonely(stabs, 2, 4, N_SLINE, 0);
  }

  lemma Lonely(stabs: seq<Stab>, lo: int, hi: int, ty: Byte, addr: Word)
    requires InTable(stabs, lo, hi) && !Holds(stabs, lo, hi, ty, addr + 1) && addr < WORD_MAX
    ensures !Strays(stabs, lo, hi, ty, addr)
  {
    if Strays(stabs, lo, hi, ty, addr) {
      CollisionNeedsNeighbours(stabs, lo, hi, ty, addr);
    }
  }

  // ---------- The function ----------

  /** `struct eip_debuginfo`. */
  class EipDebuginfo {
    var file: Name
    var line: int
    var fnName: Name
    var fnNameLen: int
    var fnAddr: Word
    var fnNarg: nat

    constructor () {
      file, line, fnName, fnNameLen, fnAddr, fnNarg := Unknown, 0, Unknown, 0, 0, 0;
    }

    ghost function View(): Info
      reads this
    {
      Info(file, line, fnName, fnNameLen, fnAddr, fnNarg)
    }
  }

  /** The distance from the start of a name to its colon or its end. */
  method NameLengthOf(strtab: seq<Byte>, name: Name) returns (n: int)
    requires ValidStrtab(strtab)
    requires name.At? ==> name.offset < |strtab|
    ensures n == NameLength(strtab, name)
  {
    match name
    case Unknown =>
      assert UNKNOWN[9] == 0;
      n := Strfind(UNKNOWN, 0, ':' as int);
    case At(offset) =>
      assert 0 == strtab[offset..][|strtab| - 1 - offset];
      n := Strfind(strtab, offset, ':' as int);
      n := n - offset;
  }

  /** One search, with what the rest of the function needs of it. */
  method Search(stabs: seq<Stab>, lo: int, hi: int, ty: Byte, addr: Word) returns (left: int, right: int)
    requires FitsMemory(stabs) && InTable(stabs, lo, hi)
    ensures if left <= right then lo - 1 <= left && right <= hi else left == lo && right == lo - 1
    ensures left < lo ==> Typed(stabs, ty, lo)
    ensures Searchable(stabs, lo, hi, ty, addr) ==> (left, right) == Bracket(stabs, lo, hi, ty, addr)
  {
    ghost var hits, probes;
    left, right, hits, probes := StabBinsearch(stabs, lo, hi, ty, addr);
  }

  /** The function's name and start; line entries count from there. */
  method RecordFunction(stabs: seq<Stab>, strtab: seq<Byte>, lfun: nat, addr: Word, info: EipDebuginfo)
    returns (offset: Word)
    requires lfun < |stabs| && info.fnName == Unknown
    modifies info`fnName, info`fnAddr
    ensures info.fnName == NameOf(strtab, stabs[lfun].strx) && info.fnAddr == stabs[lfun].value
    ensures info.fnAddr <= addr ==> offset == addr - info.fnAddr
  {
    if stabs[lfun].strx < |strtab| {
      info.fnName := At(stabs[lfun].strx);
    }
    info.fnAddr := stabs[lfun].value;
    offset := (addr - info.fnAddr) % WORD_LIMIT;
  }

  /** The walk back from a line entry to the entry that names its source file. */
  method FindFileName(stabs: seq<Stab>, lfile: int, lline: int) returns (k: int)
    requires 0 < lfile && lline < |stabs|
    ensures k < |stabs|
    ensures lfile - 1 <= lline ==> k == LastFileName(stabs, lfile, lline)
  {
    k := lline;
    while k >= lfile && stabs[k].typ != N_SOL && (stabs[k].typ != N_SO || stabs[k].value == 0)
      invariant k < |stabs|
      invariant lfile - 1 <= lline ==> lfile - 1 <= k
      invariant lfile - 1 <= lline ==> LastFileName(stabs, lfile, lline) == LastFileName(stabs, lfile, k)
    {
      k := k - 1;
    }
  }

  /** The name of that file, if the string table has it. */
  method RecordFile(stabs: seq<Stab>, strtab: seq<Byte>, lfile: int, lline: int, info: EipDebuginfo)
    requires 0 < lfile && lline < |stabs| && info.file == Unknown
    modifies info`file
    ensures lfile - 1 <= lline ==>
              var f := LastFileName(stabs, lfile, lline);
              info.file == if f >= lfile then NameOf(strtab, stabs[f].strx) else Unknown
  {
    var k := FindFileName(stabs, lfile, lline);
    if k >= lfile && stabs[k].strx < |strtab| {
      info.file := At(stabs[k].strx);
    }
  }

  /** The count of the parameter entries that follow the function's entry. */
  method CountParameters(stabs: seq<Stab>, lfun: int, rfun: int, info: EipDebuginfo)
    requires 0 <= lfun < rfun < |stabs|
    modifies info`fnNarg
    ensures info.fnNarg == old(info.fnNarg) + ParameterRun(stabs, lfun + 1, rfun)
  {
    var lline := lfun + 1;
    while lline < rfun && stabs[lline].typ == N_PSYM
      invariant lfun < lline <= rfun
      invariant info.fnNarg + ParameterRun(stabs, lline, rfun)
                == old(info.fnNarg) + ParameterRun(stabs, lfun + 1, rfun)
    {
      info.fnNarg := info.fnNarg + 1;
      lline := lline + 1;
    }
  }

  /**
   * `debuginfo_eip`.  It stays inside any table, sorted or not, and on a
   * well-formed one it agrees with the linear scans, in what it returns and in
   * what it leaves in `info`, also when it fails.
   */
  method DebuginfoEip(stabs: seq<Stab>, strtab: seq<Byte>, pc: Word, info: EipDebuginfo) returns (rc: Outcome)
    requires FitsMemory(stabs)
    requires HasHeader(stabs) || (WellFormed(stabs, pc) && Covered(stabs, pc))
    modifies info
    ensures rc == Panicked <==> pc < ULIM
    ensures WellFormed(stabs, pc) ==> (rc, info.View()) == Describe(stabs, strtab, pc)
  {
    hide Bracket, Searchable, LastFileName, ParameterRun, NameLength;
    var addr: Word := pc;
    ghost var ok, g := WellFormed(stabs, pc), Locate(stabs, pc);
    if ok {
      LocateBounds(stabs, pc);
    }
    info.file := Unknown;
    info.line := 0;
    info.fnName := Unknown;
    info.fnNameLen := 9;
    info.fnAddr := addr;
    info.fnNarg := 0;

    if addr < ULIM {
      return Panicked;
    }
    if |strtab| == 0 || strtab[|strtab| - 1] != 0 {
      return NotFound;
    }

    var lfile, rfile := Search(stabs, 0, |stabs| - 1, N_SO, addr);
    if lfile == 0 {
      return NotFound;
    }

    var lfun, rfun := Search(stabs, lfile, rfile, N_FUN, addr);
    var lline, rline;
    if lfun <= rfun {
      addr := RecordFunction(stabs, strtab, lfun, addr, info);
      lline, rline := lfun, rfun;
    } else {
      info.fnAddr := addr;
      lline, rline := lfile, rfile;
    }
    info.fnNameLen := NameLengthOf(strtab, info.fnName);

    lline, rline := Search(stabs, lline, rline, N_SLINE, addr);
    if lline > rline {
      return NotFound;
    }
    info.line := stabs[rline].desc;

    RecordFile(stabs, strtab, lfile, lline, info);
    if lfun < rfun {
      CountParameters(stabs, lfun, rfun, info);
    }
    return Found;
  }
}
