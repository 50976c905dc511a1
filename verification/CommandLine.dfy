/**
 * The monitor's command interpreter (kern/monitor.c, `runcmd`): it cuts the
 * line into arguments in place, by overwriting whitespace with NULs.
 */
module CommandLine {
  import opened Machine
  import opened CStrings

  const MAXARGS := 16

  predicate IsSpace(c: Byte) {
    c == 0x09 || c == 0x0d || c == 0x0a || c == 0x20
  }

  // ---------- Words ----------

  /** A maximal run of other characters starts at `p`. */
  predicate StartsWord(t: seq<Byte>, p: int) {
    0 <= p < |t| && !IsSpace(t[p]) && (p > 0 ==> IsSpace(t[p - 1]))
  }

  /** The starts of all words that begin before `n`, in order. */
  function Starts(t: seq<Byte>, n: nat): (r: seq<nat>)
    requires n <= |t|
    ensures forall i :: 0 <= i < |r| ==> r[i] < n && StartsWord(t, r[i])
    ensures forall i, j :: 0 <= i < j < |r| ==> r[i] < r[j]
    ensures forall p :: 0 <= p < n && StartsWord(t, p) ==> p in r
  {
    if n == 0 then []
    else if StartsWord(t, n - 1) then Starts(t, n - 1) + [n - 1]
    else Starts(t, n - 1)
  }

  /** The end of the run of other characters from `p` on. */
  function WordEnd(t: seq<Byte>, p: nat): (e: nat)
    requires p <= |t|
    ensures p <= e <= |t| && (e < |t| ==> IsSpace(t[e]))
    ensures forall k :: p <= k < e ==> !IsSpace(t[k])
    decreases |t| - p
  {
    if p == |t| || IsSpace(t[p]) then p else WordEnd(t, p + 1)
  }

  function WordAt(t: seq<Byte>, p: nat): seq<Byte>
    requires p <= |t|
  {
    t[p..WordEnd(t, p)]
  }

  /** The text up to `n` with its whitespace overwritten. */
  function Cleared(t: seq<Byte>, n: nat): (r: seq<Byte>)
    requires n <= |t|
    ensures |r| == |t|
    ensures forall i :: 0 <= i < |t| ==> r[i] == if i < n && IsSpace(t[i]) then 0 else t[i]
  {
    seq(|t|, i requires 0 <= i < |t| => if i < n && IsSpace(t[i]) then 0 else t[i])
  }

  /** In the overwritten line, each argument is a NUL-terminated string equal to its word. */
  lemma ArgumentIsWord(t: seq<Byte>, line: seq<Byte>, p: nat)
    requires 0 !in t && StartsWord(t, p)
    requires |t| < |line| && line[..|t|] == Cleared(t, |t|) && line[|t|] == 0
    ensures HasNul(line, p) && CStr(line, p) == WordAt(t, p)
  {
    var e := WordEnd(t, p);
    assert forall k :: 0 <= k < |t| ==> line[k] == line[..|t|][k];
    assert line[e] == 0 && line[p..][e - p] == 0;
    assert forall k :: p <= k < e ==> line[k] == t[k] && t[k] in t;
    assert StrEnd(line, p) == e;
  }

  // ---------- runcmd ----------

  /** The commands' names, "help", "kerninfo" and "backtrace". */
  const COMMANDS: seq<seq<Byte>> := [
    [0x68, 0x65, 0x6c, 0x70],
    [0x6b, 0x65, 0x72, 0x6e, 0x69, 0x6e, 0x66, 0x6f],
    [0x62, 0x61, 0x63, 0x6b, 0x74, 0x72, 0x61, 0x63, 0x65]]

  /** The place of a word in the table. */
  function IndexOf(words: seq<seq<Byte>>, word: seq<Byte>): (i: nat)
    requires word in words
    ensures i < |words| && words[i] == word
  {
    if words[0] == word then 0 else 1 + IndexOf(words[1..], word)
  }

  /** A command is invoked with argc and with argv up to its null pointer. */
  datatype Outcome = NoCommand | TooMany | UnknownCommand | Invoke(command: nat, argc: nat, argv: seq<Option<nat>>)

  function Pointers(starts: seq<nat>): (r: seq<Option<nat>>)
    ensures |r| == |starts| + 1 && r[|starts|] == None
    ensures forall i :: 0 <= i < |starts| ==> r[i] == Some(starts[i])
  {
    seq(|starts|, i requires 0 <= i < |starts| => Some(starts[i])) + [None]
  }

  /** What a line asks for. */
  function Meaning(t: seq<Byte>): Outcome {
    var starts := Starts(t, |t|);
    if |starts| >= MAXARGS then TooMany
    else if starts == [] then NoCommand
    else if WordAt(t, starts[0]) !in COMMANDS then UnknownCommand
    else Invoke(IndexOf(COMMANDS, WordAt(t, starts[0])), |starts|, Pointers(starts))
  }

  // ---------- Lines made of words ----------

  /** Tabs, newlines, carriage returns and spaces only. */
  predicate IsGap(g: seq<Byte>) {
    forall i :: 0 <= i < |g| ==> g[i] == 9 || g[i] == 10 || g[i] == 13 || g[i] == 32
  }

  predicate IsWord(w: seq<Byte>) {
    w != [] && forall i :: 0 <= i < |w| ==> w[i] != 9 && w[i] != 10 && w[i] != 13 && w[i] != 32
  }

  /** The words with the gaps before, between and after them. */
  function Joined(words: seq<seq<Byte>>, gaps: seq<seq<Byte>>): seq<Byte>
    requires |gaps| == |words| + 1
  {
    var n := |words|;
    if n == 0 then gaps[0] else Joined(words[..n - 1], gaps[..n]) + words[n - 1] + gaps[n]
  }

  ghost predicate IsText(words: seq<seq<Byte>>, gaps: seq<seq<Byte>>) {
    && |gaps| == |words| + 1
    && (forall i :: 0 <= i < |words| ==> IsWord(words[i]))
    && (forall i :: 0 <= i < |gaps| ==> IsGap(gaps[i]))
    && forall i :: 0 < i < |words| ==> gaps[i] != []
  }

  lemma {:induction false} StartsPrefix(t: seq<Byte>, x: seq<Byte>, n: nat)
    requires n <= |t|
    ensures Starts(t + x, n) == Starts(t, n)
  {
    if n > 0 {
      StartsPrefix(t, x, n - 1);
      assert StartsWord(t + x, n - 1) == StartsWord(t, n - 1);
    }
  }

  lemma WordInPrefix(t: seq<Byte>, x: seq<Byte>, p: nat)
    requires p < |t| && IsSpace(t[|t| - 1])
    ensures WordAt(t + x, p) == WordAt(t, p)
  {
    var e := WordEnd(t, p);
    WordEndIs(t + x, p, e);
    assert (t + x)[p..e] == t[p..e];
  }

  lemma WordEndIs(t: seq<Byte>, p: nat, e: nat)
    requires p <= e <= |t| && (e < |t| ==> IsSpace(t[e]))
    requires forall k :: p <= k < e ==> !IsSpace(t[k])
    ensures WordEnd(t, p) == e
  {
  }

  /** One more word and the gap after it. */
  lemma WordAdded(t: seq<Byte>, w: seq<Byte>, g: seq<Byte>)
    requires IsWord(w) && IsGap(g) && (t == [] || IsSpace(t[|t| - 1]))
    ensures var u := t + w + g;
            Starts(u, |u|) == Starts(t, |t|) + [|t|] && WordAt(u, |t|) == w
  {
    var n, u := |t|, t + w + g;
    var e := n + |w|;
    assert u[..n] == t && u[n..e] == w && u[e..] == g && t + (w + g) == u;
    OneMoreWord(u, n, e);
    StartsPrefix(t, w + g, n);
  }

  lemma OneMoreWord(u: seq<Byte>, n: nat, e: nat)
    requires n <= e <= |u| && IsWord(u[n..e]) && IsGap(u[e..])
    requires n == 0 || IsSpace(u[..n][n - 1])
    ensures Starts(u, |u|) == Starts(u, n) + [n] && WordEnd(u, n) == e
  {
    WordThenGap(u, n, e);
    hide IsWord, IsGap, IsSpace, Starts, WordEnd;
    NoStarts(u, n + 1, |u|);
    OneStart(u, n);
    WordEndIs(u, n, e);
  }

  lemma OneStart(u: seq<Byte>, n: nat)
    requires n < |u| && StartsWord(u, n)
    ensures Starts(u, n + 1) == Starts(u, n) + [n]
  {
  }

  lemma WordThenGap(u: seq<Byte>, n: nat, e: nat)
    requires n <= e <= |u| && IsWord(u[n..e]) && IsGap(u[e..])
    requires n == 0 || IsSpace(u[..n][n - 1])
    ensures n < e && StartsWord(u, n) && (e < |u| ==> IsSpace(u[e]))
    ensures forall k :: n <= k < e ==> !IsSpace(u[k])
    ensures forall k :: n < k < |u| ==> !StartsWord(u, k)
  {
    forall k | n <= k < e
      ensures !IsSpace(u[k])
    {
      assert u[k] == u[n..e][k - n];
    }
    forall k | e <= k < |u|
      ensures IsSpace(u[k])
    {
      assert u[k] == u[e..][k - e];
    }
  }

  /** The words of a line are the words it was made of. */
  lemma {:induction false} SplitUndoesJoin(words: seq<seq<Byte>>, gaps: seq<seq<Byte>>)
    requires IsText(words, gaps)
    ensures var t := Joined(words, gaps);
            && |Starts(t, |t|)| == |words|
            && forall i :: 0 <= i < |words| ==> WordAt(t, Starts(t, |t|)[i]) == words[i]
    decreases |words|
  {
    hide WordAt, StartsWord, Starts, IsWord, IsGap;
    var n := |words|;
    if n == 0 {
      GapHasNoWord(gaps[0]);
    } else {
      var t := Joined(words[..n - 1], gaps[..n]);
      SplitUndoesJoin(words[..n - 1], gaps[..n]);
      EndsInSpace(words[..n - 1], gaps[..n]);
      WordAdded(t, words[n - 1], gaps[n]);
      WordsKept(t, words[n - 1], gaps[n]);
      assert Joined(words, gaps) == t + words[n - 1] + gaps[n];
    }
  }

  /** What is added behind a space changes none of the words before it. */
  lemma WordsKept(t: seq<Byte>, w: seq<Byte>, g: seq<Byte>)
    requires t == [] || IsSpace(t[|t| - 1])
    ensures forall i :: 0 <= i < |Starts(t, |t|)| ==>
              WordAt(t + w + g, Starts(t, |t|)[i]) == WordAt(t, Starts(t, |t|)[i])
  {
    assert t + w + g == t + (w + g);
    hide WordAt;
    forall i | 0 <= i < |Starts(t, |t|)|
      ensures WordAt(t + w + g, Starts(t, |t|)[i]) == WordAt(t, Starts(t, |t|)[i])
    {
      WordInPrefix(t, w + g, Starts(t, |t|)[i]);
    }
  }

  lemma GapHasNoWord(g: seq<Byte>)
    requires IsGap(g)
    ensures Starts(g, |g|) == []
  {
    NoStarts(g, 0, |g|);
  }

  lemma EndsInSpace(words: seq<seq<Byte>>, gaps: seq<seq<Byte>>)
    requires IsText(words, gaps) && (words != [] ==> gaps[|words|] != [])
    ensures var t := Joined(words, gaps); t == [] || IsSpace(t[|t| - 1])
  {
    var t, g := Joined(words, gaps), gaps[|words|];
    if g != [] {
      assert t[|t| - 1] == g[|g| - 1];
    }
  }

  const HELP: seq<Byte> := ['h' as int, 'e' as int, 'l' as int, 'p' as int]
  const KERNINFO: seq<Byte> :=
    ['k' as int, 'e' as int, 'r' as int, 'n' as int, 'i' as int, 'n' as int, 'f' as int, 'o' as int]
  const BACKTRACE: seq<Byte> :=
    ['b' as int, 'a' as int, 'c' as int, 'k' as int, 't' as int, 'r' as int, 'a' as int, 'c' as int, 'e' as int]

  /** What a line made of these words asks for. */
  lemma MeaningOfWords(words: seq<seq<Byte>>, gaps: seq<seq<Byte>>)
    requires IsText(words, gaps)
    ensures var t, r := Joined(words, gaps), Meaning(Joined(words, gaps));
            && (r == TooMany <==> |words| >= 16)
            && (r == NoCommand <==> words == [])
            && (r.Invoke? ==>
                  && r.command < 3
                  && words[0] == [HELP, KERNINFO, BACKTRACE][r.command]
                  && r.argc == |words| && |r.argv| == |words| + 1 && r.argv[|words|] == None
                  && forall i :: 0 <= i < |words| ==>
                       r.argv[i].Some? && r.argv[i].value < |t| && WordAt(t, r.argv[i].value) == words[i])
            && (r == UnknownCommand ==> words[0] !in [HELP, KERNINFO, BACKTRACE])
  {
    SplitUndoesJoin(words, gaps);
  }

  /** The first loop of `runcmd`, over whitespace; it stops at a word or at the NUL. */
  method GobbleSpace(buf: array<Byte>, start: nat, ghost t: seq<Byte>) returns (p: nat)
    requires 0 !in t && start <= |t| < buf.Length
    requires buf[..|t|] == Cleared(t, start) && buf[|t|] == 0
    modifies buf
    ensures start <= p <= |t| && (p < |t| ==> !IsSpace(t[p]))
    ensures forall k :: start <= k < p ==> IsSpace(t[k])
    ensures buf[..|t|] == Cleared(t, p) && buf[|t|..] == old(buf[|t|..])
  {
    p := start;
    while buf[p] != 0 && IsSpace(buf[p])
      invariant start <= p <= |t|
      invariant forall k :: start <= k < p ==> IsSpace(t[k])
      invariant buf[..|t|] == Cleared(t, p) && buf[|t|..] == old(buf[|t|..])
      decreases |t| - p
    {
      assert buf[..|t|][p] == t[p];
      buf[p] := 0;
      p := p + 1;
    }
  }

  lemma {:induction false} NoStarts(t: seq<Byte>, lo: nat, hi: nat)
    requires lo <= hi <= |t|
    requires forall k :: lo <= k < hi ==> !StartsWord(t, k)
    ensures Starts(t, hi) == Starts(t, lo)
    decreases hi - lo
  {
    if lo < hi {
      NoStarts(t, lo, hi - 1);
    }
  }

  /** The second loop of `runcmd`, over a word. */
  method ScanWord(buf: array<Byte>, start: nat, ghost t: seq<Byte>) returns (p: nat)
    requires 0 !in t && start <= |t| < buf.Length && buf[|t|] == 0
    requires forall k :: start <= k < |t| ==> buf[k] == t[k]
    ensures p == WordEnd(t, start)
  {
    p := start;
    while buf[p] != 0 && !IsSpace(buf[p])
      invariant start <= p <= |t| && WordEnd(t, start) == WordEnd(t, p)
      decreases |t| - p
    {
      p := p + 1;
    }
  }

  /** What a word adds: its start, and nothing up to its end. */
  lemma WordStarts(t: seq<Byte>, p: nat)
    requires StartsWord(t, p)
    ensures var e := WordEnd(t, p);
            && p < e <= |t| && (e < |t| ==> IsSpace(t[e]))
            && Starts(t, e) == Starts(t, p) + [p] && Cleared(t, e) == Cleared(t, p)
  {
    NoStarts(t, p + 1, WordEnd(t, p));
  }

  lemma NotYetCleared(s: seq<Byte>, t: seq<Byte>, p: nat)
    requires p <= |t| < |s| && s[..|t|] == Cleared(t, p)
    ensures forall k :: p <= k < |t| ==> s[k] == t[k]
  {
    assert forall k :: 0 <= k < |t| ==> s[..|t|][k] == s[k];
  }

  /** Whitespace starts no word. */
  lemma SpaceStarts(t: seq<Byte>, lo: nat, hi: nat)
    requires lo <= hi <= |t|
    requires forall k :: lo <= k < hi ==> IsSpace(t[k])
    ensures Starts(t, hi) == Starts(t, lo)
  {
    NoStarts(t, lo, hi);
  }

  lemma MoreStarts(t: seq<Byte>, lo: nat, hi: nat)
    requires lo <= hi <= |t|
    ensures |Starts(t, lo)| <= |Starts(t, hi)|
    decreases hi - lo
  {
    if lo < hi {
      MoreStarts(t, lo, hi - 1);
    }
  }

  /** Only whitespace was overwritten, all of it up to `n` and none after. */
  lemma OnlySpaceCleared(t: seq<Byte>, n: nat)
    requires n <= |t|
    ensures SpaceOverwritten(Cleared(t, n), t)
  {
  }

  ghost predicate SpaceOverwritten(now: seq<Byte>, t: seq<Byte>) {
    |now| == |t| && forall i :: 0 <= i < |t| ==> now[i] == t[i] || (IsSpace(t[i]) && now[i] == 0)
  }

  /** Between two words: the line is overwritten up to `p`, and the words before it are recorded. */
  ghost predicate Parsed(line: seq<Byte>, args: seq<Option<nat>>, argc: nat, p: nat, t: seq<Byte>) {
    && p <= |t| < |line| && line[..|t|] == Cleared(t, p) && line[|t|] == 0
    && (0 < p < |t| ==> IsSpace(t[p]))
    && argc == |Starts(t, p)| < MAXARGS == |args|
    && forall i :: 0 <= i < argc ==> args[i] == Some(Starts(t, p)[i])
  }

  lemma StartOfLine(t: seq<Byte>, line: seq<Byte>, args: seq<Option<nat>>)
    requires t + [0] <= line && |args| == MAXARGS
    ensures Parsed(line, args, 0, 0, t)
  {
    assert (t + [0])[|t|] == 0;
    assert forall i :: 0 <= i < |t| ==> (t + [0])[i] == t[i];
    assert line[..|t|] == Cleared(t, 0);
  }

  lemma EndOfLine(t: seq<Byte>, line: seq<Byte>, args: seq<Option<nat>>, argc: nat)
    requires Parsed(line, args, argc, |t|, t)
    ensures argc == |Starts(t, |t|)| < MAXARGS == |args|
    ensures args[..argc] + [None] == Pointers(Starts(t, |t|))
    ensures line[..|t|] == Cleared(t, |t|) && SpaceOverwritten(line[..|t|], t)
  {
    OnlySpaceCleared(t, |t|);
  }

  /** What stopped the parsing loop, if anything did. */
  datatype Progress = More | AtEnd | Full

  /** One round of the parsing loop. */
  method NextArgument(buf: array<Byte>, argv: array<Option<nat>>, argc: nat, start: nat, ghost t: seq<Byte>)
    returns (state: Progress, n: nat, p: nat)
    requires 0 !in t && Parsed(buf[..], argv[..], argc, start, t)
    modifies buf, argv
    ensures p <= |t| < buf.Length && buf[|t|..] == old(buf[|t|..])
    ensures state == More ==> Parsed(buf[..], argv[..], n, p, t) && p > start
    ensures state == AtEnd ==> Parsed(buf[..], argv[..], n, p, t) && p == |t|
    ensures state == Full ==> |Starts(t, |t|)| >= MAXARGS && buf[..|t|] == Cleared(t, p)
  {
    hide Starts, Cleared, WordEnd;
    n := argc;
    p := GobbleSpace(buf, start, t);
    SpaceStarts(t, start, p);
    NotYetCleared(buf[..], t, p);
    if buf[p] == 0 {
      state := AtEnd;
    } else {
      WordStarts(t, p);
      if argc == MAXARGS - 1 {
        MoreStarts(t, WordEnd(t, p), |t|);
        return Full, n, p;
      }
      argv[argc] := Some(p);
      n := argc + 1;
      p := ScanWord(buf, p, t);
      state := More;
    }
  }

  /** The parsing loop: where the words start, unless there are too many. */
  method ParseArguments(buf: array<Byte>, argv: array<Option<nat>>, ghost t: seq<Byte>)
    returns (argc: nat, tooMany: bool)
    requires 0 !in t && t + [0] <= buf[..] && argv.Length == MAXARGS
    modifies buf, argv
    ensures tooMany <==> |Starts(t, |t|)| >= MAXARGS
    ensures buf[|t|..] == old(buf[|t|..]) && SpaceOverwritten(buf[..|t|], t)
    ensures !tooMany ==> buf[..|t|] == Cleared(t, |t|)
    ensures !tooMany ==> argc == |Starts(t, |t|)| && argv[..argc + 1] == Pointers(Starts(t, |t|))
  {
    hide Starts, Cleared, Pointers, Parsed, SpaceOverwritten;
    argc, tooMany := 0, false;
    argv[0] := None;
    StartOfLine(t, buf[..], argv[..]);
    var p, state := 0, More;
    while state == More
      invariant state != Full && Parsed(buf[..], argv[..], argc, p, t)
      invariant p <= |t| && (state == AtEnd ==> p == |t|) && buf[|t|..] == old(buf[|t|..])
      decreases |t| - p, if state == More then 1 else 0
    {
      state, argc, p := NextArgument(buf, argv, argc, p, t);
      if state == Full {
        OnlySpaceCleared(t, p);
        return argc, true;
      }
    }
    ghost var before := argv[..];
    EndOfLine(t, buf[..], before, argc);
    argv[argc] := None;
    assert argv[..argc + 1] == before[..argc] + [None];
  }

  // ---------- Lookup ----------

  lemma NameString(i: nat)
    requires i < |COMMANDS|
    ensures 0 !in COMMANDS[i] && HasNul(COMMANDS[i] + [0], 0) && CStr(COMMANDS[i] + [0], 0) == COMMANDS[i]
  {
    assert 0 !in COMMANDS[i];
    TextWithNul(COMMANDS[i]);
  }

  lemma TextWithNul(t: seq<Byte>)
    requires 0 !in t
    ensures HasNul(t + [0], 0) && CStr(t + [0], 0) == t
  {
    var s := t + [0];
    assert s[0..][|t|] == 0;
    assert forall k :: 0 <= k < |t| ==> s[k] == t[k] && t[k] in t;
  }

  lemma DistinctCommands(i: nat)
    requires i < |COMMANDS|
    ensures IndexOf(COMMANDS, COMMANDS[i]) == i
  {
    var k := IndexOf(COMMANDS, COMMANDS[i]);
    assert |COMMANDS[0]| == 4 && |COMMANDS[1]| == 8 && |COMMANDS[2]| == 9;
  }

  /** The start of the first word. */
  function FirstStart(t: seq<Byte>): (p: nat)
    requires Starts(t, |t|) != []
    ensures p == Starts(t, |t|)[0] && StartsWord(t, p)
  {
    Starts(t, |t|)[0]
  }

  lemma LineShape(s: seq<Byte>)
    requires HasNul(s, 0)
    ensures CStr(s, 0) + [0] <= s && 0 !in CStr(s, 0)
  {
    var e := StrEnd(s, 0);
    assert s[0..e] + [0] == s[..e + 1];
  }

  /** The loop over the table of commands; none is -1. */
  method FindCommand(line: seq<Byte>, name: int) returns (i: int)
    requires HasNul(line, name)
    ensures -1 <= i < |COMMANDS|
    ensures if i >= 0 then CStr(line, name) == COMMANDS[i] else CStr(line, name) !in COMMANDS
  {
    hide COMMANDS, CStr, Compare, HasNul;
    ghost var word := CStr(line, name);
    i := 0;
    while i < |COMMANDS|
      invariant 0 <= i <= |COMMANDS|
      invariant forall j :: 0 <= j < i ==> COMMANDS[j] != word
    {
      NameString(i);
      var order := Strcmp(line, name, COMMANDS[i] + [0], 0);
      CompareMeaning(word, COMMANDS[i]);
      if order == 0 {
        return i;
      }
      i := i + 1;
    }
    i := -1;
  }

  /**
   * `runcmd`: which command is called and with what, and how the line was
   * overwritten: whitespace only, and all of it unless there were too many words.
   */
  method RunCmd(buf: array<Byte>) returns (r: Outcome)
    requires HasNul(buf[..], 0)
    modifies buf
    ensures var t := CStr(old(buf[..]), 0);
            && buf[|t|..] == old(buf[|t|..]) && SpaceOverwritten(buf[..|t|], t)
            && (|Starts(t, |t|)| < MAXARGS ==> buf[..|t|] == Cleared(t, |t|))
    ensures r == Meaning(CStr(old(buf[..]), 0))
  {
    ghost var t := CStr(buf[..], 0);
    LineShape(buf[..]);
    hide Starts, Cleared, CStr, WordAt, HasNul, SpaceOverwritten, COMMANDS;
    var argv := new Option<nat>[MAXARGS](_ => None);
    var argc, tooMany := ParseArguments(buf, argv, t);
    if tooMany {
      return TooMany;
    }
    if argc == 0 {
      return NoCommand;
    }
    ArgumentIsWord(t, buf[..], FirstStart(t));
    assert argv[..argc + 1][0] == Some(Starts(t, |t|)[0]);
    var i := FindCommand(buf[..], argv[0].value);
    if i < 0 {
      return UnknownCommand;
    }
    DistinctCommands(i);
    return Invoke(i, argc, argv[..argc + 1]);
  }
}
