/**
 * The two stream splitters of the grading scripts (gradelib.py): lines out of
 * QEMU's output and packets out of GDB's replies.  What they extract does not
 * depend on how the stream was cut into reads.
 */
module StreamSplitters {
  import opened Machine

  const NEWLINE: Byte := 10
  const DOLLAR: Byte := 0x24
  const HASH: Byte := 0x23

  /** The first `c` at or after `i`, or the end. */
  function Find(s: seq<Byte>, c: Byte, i: nat): (k: nat)
    requires i <= |s|
    ensures i <= k <= |s| && (k < |s| ==> s[k] == c)
    ensures forall j :: i <= j < k ==> s[j] != c
    decreases |s| - i
  {
    if i == |s| || s[i] == c then i else Find(s, c, i + 1)
  }

  /** What is found in a prefix is found at the same place in every extension. */
  lemma FindExtends(s: seq<Byte>, more: seq<Byte>, c: Byte, i: nat)
    requires i <= |s| && Find(s, c, i) < |s|
    ensures Find(s + more, c, i) == Find(s, c, i)
  {
    var k := Find(s, c, i);
    assert (s + more)[k] == c && forall j :: i <= j < k ==> (s + more)[j] == s[j];
  }

  function Concat(chunks: seq<seq<Byte>>): seq<Byte> {
    if chunks == [] then [] else Concat(chunks[..|chunks| - 1]) + chunks[|chunks| - 1]
  }

  // ---------- Lines ----------

  /** The complete lines of a stream, without their newlines. */
  function Lines(s: seq<Byte>): seq<seq<Byte>>
    decreases |s|
  {
    var k := Find(s, NEWLINE, 0);
    if k == |s| then [] else [s[..k]] + Lines(s[k + 1..])
  }

  /** What follows the last newline. */
  function Rest(s: seq<Byte>): (r: seq<Byte>)
    ensures |r| <= |s| && NEWLINE !in r
    decreases |s|
  {
    var k := Find(s, NEWLINE, 0);
    if k == |s| then s else Rest(s[k + 1..])
  }

  lemma LinesStep(s: seq<Byte>)
    ensures NEWLINE !in s ==> Lines(s) == [] && Rest(s) == s
    ensures NEWLINE in s ==>
              var k := Find(s, NEWLINE, 0);
              k < |s| && Lines(s) == [s[..k]] + Lines(s[k + 1..]) && Rest(s) == Rest(s[k + 1..])
  {
  }

  lemma SelectOne(line: seq<Byte>, lines: seq<seq<Byte>>, matches: seq<Byte> -> bool)
    ensures Select([line] + lines, matches) == (if matches(line) then [line] else []) + Select(lines, matches)
    ensures Select([], matches) == []
  {
    assert ([line] + lines)[1..] == lines;
  }

  lemma {:induction false} LinesAppend(a: seq<Byte>, b: seq<Byte>)
    ensures Lines(a + b) == Lines(a) + Lines(Rest(a) + b)
    ensures Rest(a + b) == Rest(Rest(a) + b)
    decreases |a|
  {
    hide Lines, Rest;
    LinesStep(a);
    if NEWLINE in a {
      var k := Find(a, NEWLINE, 0);
      FindExtends(a, b, NEWLINE, 0);
      assert (a + b)[k] == NEWLINE;
      LinesStep(a + b);
      assert (a + b)[..k] == a[..k] && (a + b)[k + 1..] == a[k + 1..] + b;
      LinesAppend(a[k + 1..], b);
    } else {
      assert [] + Lines(a + b) == Lines(a + b);
    }
  }

  /** Lines as a program prints them, each with a newline. */
  function Printed(lines: seq<seq<Byte>>): seq<Byte> {
    if lines == [] then [] else lines[0] + [10] + Printed(lines[1..])
  }

  /** What was printed as lines comes out as those lines, and an unfinished line stays. */
  lemma {:induction false} LinesRoundTrip(lines: seq<seq<Byte>>, rest: seq<Byte>)
    requires (forall i :: 0 <= i < |lines| ==> 10 !in lines[i]) && 10 !in rest
    ensures Lines(Printed(lines) + rest) == lines && Rest(Printed(lines) + rest) == rest
  {
    hide Lines, Rest;
    var s := Printed(lines) + rest;
    LinesStep(s);
    if lines == [] {
      assert s == rest;
    } else {
      LinesRoundTrip(lines[1..], rest);
      var n := |lines[0]|;
      assert s == lines[0] + [10] + (Printed(lines[1..]) + rest);
      assert s[n] == 10 && forall k :: 0 <= k < n ==> s[k] == lines[0][k];
      assert s[..n] == lines[0] && s[n + 1..] == Printed(lines[1..]) + rest;
    }
  }

  function Select(lines: seq<seq<Byte>>, matches: seq<Byte> -> bool): seq<seq<Byte>> {
    if lines == [] then []
    else (if matches(lines[0]) then [lines[0]] else []) + Select(lines[1..], matches)
  }

  lemma {:induction false} SelectAppend(a: seq<seq<Byte>>, b: seq<seq<Byte>>, matches: seq<Byte> -> bool)
    ensures Select(a + b, matches) == Select(a, matches) + Select(b, matches)
  {
    if a == [] {
      assert a + b == b;
    } else {
      assert (a + b)[1..] == a[1..] + b;
      SelectAppend(a[1..], b, matches);
    }
  }

  /** The closure `setup_call_on_line` makes: its buffer, its pattern and the lines it called back with. */
  class LineMonitor {
    const matches: seq<Byte> -> bool
    var buf: seq<Byte>
    var called: seq<seq<Byte>>

    constructor (matches: seq<Byte> -> bool)
      ensures this.matches == matches && buf == [] && called == []
    {
      this.matches := matches;
      buf, called := [], [];
    }

    /** `handle_output`. */
    method HandleOutput(output: seq<Byte>)
      modifies this
      ensures buf == Rest(old(buf) + output)
      ensures called == old(called) + Select(Lines(old(buf) + output), matches)
    {
      hide Lines, Rest, Select, Find;
      buf := buf + output;
      ghost var all := buf;
      SelectOne([], [], matches);
      while NEWLINE in buf
        invariant Rest(buf) == Rest(all)
        invariant called + Select(Lines(buf), matches) == old(called) + Select(Lines(all), matches)
        decreases |buf|
      {
        LinesStep(buf);
        var k := Find(buf, NEWLINE, 0);
        var line := buf[..k];
        SelectOne(line, Lines(buf[k + 1..]), matches);
        buf := buf[k + 1..];
        if matches(line) {
          called := called + [line];
        }
      }
      LinesStep(buf);
    }

    /** A run of reads. */
    method HandleAll(chunks: seq<seq<Byte>>)
      requires buf == [] && called == []
      modifies this
      ensures buf == Rest(Concat(chunks)) && called == Select(Lines(Concat(chunks)), matches)
    {
      for i := 0 to |chunks|
        invariant buf == Rest(Concat(chunks[..i])) && called == Select(Lines(Concat(chunks[..i])), matches)
      {
        ghost var sofar := Concat(chunks[..i]);
        assert chunks[..i + 1][..i] == chunks[..i];
        LinesAppend(sofar, chunks[i]);
        SelectAppend(Lines(sofar), Lines(Rest(sofar) + chunks[i]), matches);
        HandleOutput(chunks[i]);
      }
      assert chunks[..|chunks|] == chunks;
    }
  }

  // ---------- Packets ----------

  predicate IsAlnum(c: Byte) {
    '0' as int <= c <= '9' as int || 'a' as int <= c <= 'z' as int || 'A' as int <= c <= 'Z' as int
  }

  /** A packet starts at `i`: a dollar sign, any text without a hash, a hash and two letters or digits. */
  predicate PacketAt(s: seq<Byte>, i: nat) {
    i < |s| && s[i] == DOLLAR &&
    var h := Find(s, HASH, i + 1);
    h + 2 < |s| && IsAlnum(s[h + 1]) && IsAlnum(s[h + 2])
  }

  /** The leftmost packet at or after `i`, or the end: what `re.search` answers. */
  function SearchFrom(s: seq<Byte>, i: nat): (k: nat)
    requires i <= |s|
    ensures i <= k <= |s| && (k < |s| ==> PacketAt(s, k))
    ensures forall j :: i <= j < k ==> !PacketAt(s, j)
    decreases |s| - i
  {
    if i == |s| || PacketAt(s, i) then i else SearchFrom(s, i + 1)
  }

  lemma PacketExtends(s: seq<Byte>, more: seq<Byte>, i: nat)
    requires i < |s| && s[i] == DOLLAR && Find(s, HASH, i + 1) + 2 < |s|
    ensures PacketAt(s + more, i) == PacketAt(s, i)
    ensures Find(s + more, HASH, i + 1) == Find(s, HASH, i + 1)
  {
    FindExtends(s, more, HASH, i + 1);
  }

  /**
   * The leftmost packet in a prefix stays the leftmost one in every extension:
   * a start before it has its hash in the prefix already, with both characters
   * after it, so it cannot become a packet later.
   */
  lemma SearchExtends(s: seq<Byte>, more: seq<Byte>)
    requires SearchFrom(s, 0) < |s|
    ensures SearchFrom(s + more, 0) == SearchFrom(s, 0)
    ensures var k := SearchFrom(s, 0); Find(s + more, HASH, k + 1) == Find(s, HASH, k + 1)
  {
    var k, all := SearchFrom(s, 0), s + more;
    PacketExtends(s, more, k);
    forall j | 0 <= j < k
      ensures !PacketAt(all, j)
    {
      assert !PacketAt(s, j);
      if s[j] == DOLLAR {
        FoundBefore(s, HASH, j + 1, k + 1);
        PacketExtends(s, more, j);
      }
    }
    var n := SearchFrom(all, 0);
    assert n < k ==> PacketAt(all, n);
    assert k < n ==> !PacketAt(all, k);
  }

  lemma FoundBefore(s: seq<Byte>, c: Byte, i: nat, j: nat)
    requires i <= j <= |s|
    ensures Find(s, c, i) <= Find(s, c, j)
  {
  }

  /** The text of the leftmost packet and what follows the packet. */
  datatype Packet = Packet(text: seq<Byte>, rest: seq<Byte>)

  function FirstPacket(s: seq<Byte>): (r: Option<Packet>)
    ensures r.Some? ==> |r.value.rest| < |s|
  {
    var k := SearchFrom(s, 0);
    if k == |s| then None
    else
      var h := Find(s, HASH, k + 1);
      Some(Packet(s[k + 1..h], s[h + 3..]))
  }

  /** A letter or a digit, by its code. */
  predicate IsCheckChar(c: Byte) {
    0x30 <= c <= 0x39 || 0x41 <= c <= 0x5a || 0x61 <= c <= 0x7a
  }

  /** The bytes of a packet: a dollar sign, a text, a hash and two characters. */
  function Framed(text: seq<Byte>, a: Byte, b: Byte): seq<Byte> {
    [0x24] + text + [0x23, a, b]
  }

  lemma FramedIsPacket(s: seq<Byte>, before: seq<Byte>, text: seq<Byte>, a: Byte, b: Byte, after: seq<Byte>)
    requires s == before + Framed(text, a, b) + after
    requires 0x23 !in text && IsCheckChar(a) && IsCheckChar(b)
    ensures PacketAt(s, |before|)
    ensures var h := |before| + 1 + |text|;
            Find(s, HASH, |before| + 1) == h && s[|before| + 1..h] == text && s[h + 3..] == after
  {
    hide PacketAt, Framed, Find, IsCheckChar;
    var i := |before|;
    var h := i + 1 + |text|;
    FramedBytes(s, before, text, a, b, after, i, h);
    BytesArePacket(s, i, h);
  }

  lemma FramedBytes(
    s: seq<Byte>, before: seq<Byte>, text: seq<Byte>, a: Byte, b: Byte, after: seq<Byte>, i: nat, h: nat)
    requires s == before + Framed(text, a, b) + after && i == |before| && h == i + 1 + |text|
    ensures h + 2 < |s| && s[i] == 0x24 && s[h] == 0x23 && s[h + 1] == a && s[h + 2] == b
    ensures s[i + 1..h] == text && s[h + 3..] == after
  {
    var m := Framed(text, a, b);
    assert |m| == |text| + 4 && m[1..|text| + 1] == text;
    assert s[i..i + |m|] == m;
    assert s[i..i + |m|][1..|text| + 1] == s[i + 1..h];
  }

  lemma BytesArePacket(s: seq<Byte>, i: nat, h: nat)
    requires i < h && h + 2 < |s| && s[i] == 0x24 && s[h] == 0x23 && 0x23 !in s[i + 1..h]
    requires IsCheckChar(s[h + 1]) && IsCheckChar(s[h + 2])
    ensures PacketAt(s, i) && Find(s, HASH, i + 1) == h
  {
    forall k | i + 1 <= k < h
      ensures s[k] != 0x23
    {
      assert s[k] == s[i + 1..h][k - i - 1];
    }
  }

  /** A packet comes out whole when no dollar sign stands before it. */
  lemma PacketRead(before: seq<Byte>, text: seq<Byte>, a: Byte, b: Byte, after: seq<Byte>)
    requires 0x24 !in before && 0x23 !in text && IsCheckChar(a) && IsCheckChar(b)
    ensures FirstPacket(before + Framed(text, a, b) + after) == Some(Packet(text, after))
  {
    var s := before + Framed(text, a, b) + after;
    FramedIsPacket(s, before, text, a, b, after);
    assert s[..|before|] == before;
    hide PacketAt, Framed;
    SearchIs(s, |before|);
  }

  lemma SearchIs(s: seq<Byte>, n: nat)
    requires PacketAt(s, n) && 0x24 !in s[..n]
    ensures SearchFrom(s, 0) == n
  {
    forall j | 0 <= j < n
      ensures !PacketAt(s, j)
    {
      assert s[j] == s[..n][j];
    }
  }

  lemma PacketStart(s: seq<Byte>, j: nat)
    ensures PacketAt(s, j) ==> j < |s| && s[j] == 0x24
  {
  }

  lemma PacketFramed(s: seq<Byte>, k: nat)
    requires PacketAt(s, k)
    ensures var h := Find(s, HASH, k + 1);
            && k < h && h + 2 < |s| && IsCheckChar(s[h + 1]) && IsCheckChar(s[h + 2]) && 0x23 !in s[k + 1..h]
            && s == s[..k] + Framed(s[k + 1..h], s[h + 1], s[h + 2]) + s[h + 3..]
  {
  }

  /** Whatever comes out was framed in the stream, and if something is framed there, something comes out. */
  lemma PacketShape(s: seq<Byte>)
    ensures match FirstPacket(s)
            case Some(p) =>
              0x23 !in p.text
              && exists before: seq<Byte>, a: Byte, b: Byte ::
                   IsCheckChar(a) && IsCheckChar(b) && s == before + Framed(p.text, a, b) + p.rest
            case None =>
              forall before: seq<Byte>, text: seq<Byte>, a: Byte, b: Byte, after: seq<Byte> ::
                0x23 !in text && IsCheckChar(a) && IsCheckChar(b) ==> s != before + Framed(text, a, b) + after
  {
    var k := SearchFrom(s, 0);
    if k < |s| {
      PacketFramed(s, k);
    } else {
      hide Framed;
      forall before: seq<Byte>, text: seq<Byte>, a: Byte, b: Byte, after: seq<Byte>
        | 0x23 !in text && IsCheckChar(a) && IsCheckChar(b)
        ensures s != before + Framed(text, a, b) + after
      {
        if s == before + Framed(text, a, b) + after {
          FramedIsPacket(s, before, text, a, b, after);
        }
      }
    }
  }

  lemma FirstPacketExtends(a: seq<Byte>, b: seq<Byte>)
    requires FirstPacket(a).Some?
    ensures FirstPacket(a + b) == Some(Packet(FirstPacket(a).value.text, FirstPacket(a).value.rest + b))
  {
    SearchExtends(a, b);
    var k := SearchFrom(a, 0);
    var h := Find(a, HASH, k + 1);
    assert (a + b)[k + 1..h] == a[k + 1..h] && (a + b)[h + 3..] == a[h + 3..] + b;
  }

  /** The packets taken out of a buffer, what is left, and whether a breakpoint packet stopped the loop. */
  datatype Drained = Drained(packets: seq<seq<Byte>>, rest: seq<Byte>, stopped: bool)

  const T05: seq<Byte> := [0x54, 0x30, 0x35]

  function Drain(s: seq<Byte>): Drained
    decreases |s|
  {
    match FirstPacket(s)
    case None => Drained([], s, false)
    case Some(p) =>
      if T05 <= p.text then Drained([p.text], p.rest, true)
      else
        var d := Drain(p.rest);
        Drained([p.text] + d.packets, d.rest, d.stopped)
  }

  /** Draining early loses nothing, and after a breakpoint later input changes nothing. */
  lemma {:induction false} DrainAppend(a: seq<Byte>, b: seq<Byte>)
    ensures var d := Drain(a);
            if d.stopped then Drain(a + b) == Drained(d.packets, d.rest + b, true)
            else
              var e := Drain(d.rest + b);
              Drain(a + b) == Drained(d.packets + e.packets, e.rest, e.stopped)
    decreases |a|
  {
    hide FirstPacket;
    if FirstPacket(a).Some? {
      var p := FirstPacket(a).value;
      FirstPacketExtends(a, b);
      if !(T05 <= p.text) {
        DrainAppend(p.rest, b);
      }
    }
  }

  /** Packets are taken out up to the first whose text starts with T05, or until none is left. */
  lemma {:induction false} DrainStops(s: seq<Byte>)
    ensures var d, t05 := Drain(s), ['T' as int, '0' as int, '5' as int];
            && (forall i :: 0 <= i < |d.packets| - 1 ==> !(t05 <= d.packets[i]))
            && (d.stopped <==> d.packets != [] && t05 <= d.packets[|d.packets| - 1])
            && (!d.stopped ==> FirstPacket(d.rest) == None)
    decreases |s|
  {
    hide FirstPacket;
    if FirstPacket(s).Some? {
      DrainStops(FirstPacket(s).value.rest);
    }
  }

  /** Packets as GDB's peer sends them. */
  function Sent(texts: seq<seq<Byte>>, sums: seq<(Byte, Byte)>): seq<Byte>
    requires |texts| == |sums|
  {
    if texts == [] then [] else Framed(texts[0], sums[0].0, sums[0].1) + Sent(texts[1..], sums[1..])
  }

  /** What was sent as packets comes out as those packets, if no breakpoint is among them. */
  lemma {:induction false} PacketsRoundTrip(texts: seq<seq<Byte>>, sums: seq<(Byte, Byte)>)
    requires |texts| == |sums|
    requires forall i :: 0 <= i < |texts| ==> 0x23 !in texts[i] && !(T05 <= texts[i])
    requires forall i :: 0 <= i < |sums| ==> IsCheckChar(sums[i].0) && IsCheckChar(sums[i].1)
    ensures Drain(Sent(texts, sums)) == Drained(texts, [], false)
  {
    hide FirstPacket, Framed;
    if texts == [] {
      NothingSent();
    } else {
      var rest := Sent(texts[1..], sums[1..]);
      PacketRead([], texts[0], sums[0].0, sums[0].1, rest);
      assert [] + Framed(texts[0], sums[0].0, sums[0].1) == Framed(texts[0], sums[0].0, sums[0].1);
      PacketsRoundTrip(texts[1..], sums[1..]);
    }
  }

  lemma NothingSent()
    ensures FirstPacket([]) == None
  {
  }

  lemma DrainStep(s: seq<Byte>)
    ensures match FirstPacket(s)
            case None => Drain(s) == Drained([], s, false)
            case Some(p) =>
              |p.rest| < |s| &&
              if T05 <= p.text then Drain(s) == Drained([p.text], p.rest, true)
              else Drain(s) == Drained([p.text] + Drain(p.rest).packets, Drain(p.rest).rest, Drain(p.rest).stopped)
  {
  }

  /** `GDBClient`, as far as it reads: the connection, the buffer and the packets taken out of it. */
  class GdbClient {
    var connected: bool
    var buf: seq<Byte>
    ghost var packets: seq<seq<Byte>>

    constructor ()
      ensures connected && buf == [] && packets == []
    {
      connected, buf, packets := true, [], [];
    }

    /** `handle_read`, on what the socket delivered; nothing means it was closed. */
    method HandleRead(data: seq<Byte>) returns (stopped: bool)
      modifies this
      ensures data == [] ==> !connected && !stopped && buf == old(buf) && packets == old(packets)
      ensures data != [] ==>
                var d := Drain(old(buf) + data);
                && connected == old(connected) && buf == d.rest
                && packets == old(packets) + d.packets && stopped == d.stopped
    {
      if data == [] {
        connected := false;
        return false;
      }
      buf := buf + data;
      stopped := TakePackets();
    }

    /** The loop of `handle_read`; a breakpoint packet leaves it by an exception. */
    method TakePackets() returns (stopped: bool)
      modifies `buf, `packets
      ensures var d := Drain(old(buf));
              buf == d.rest && packets == old(packets) + d.packets && stopped == d.stopped
    {
      hide *;
      ghost var taken: seq<seq<Byte>> := [];
      while true
        invariant packets == old(packets) + taken
        invariant Drain(old(buf)) == Drained(taken + Drain(buf).packets, Drain(buf).rest, Drain(buf).stopped)
        decreases |buf|
      {
        DrainStep(buf);
        var m := FirstPacket(buf);
        if m.None? {
          return false;
        }
        var p := m.value;
        assert taken + ([p.text] + Drain(p.rest).packets) == (taken + [p.text]) + Drain(p.rest).packets;
        taken := taken + [p.text];
        buf := p.rest;
        packets := packets + [p.text];
        if T05 <= p.text {
          return true;
        }
      }
    }

    /** Reads until a breakpoint is reported. */
    method HandleAll(chunks: seq<seq<Byte>>) returns (stopped: bool)
      requires buf == [] && packets == [] && forall i :: 0 <= i < |chunks| ==> chunks[i] != []
      modifies this
      ensures var d := Drain(Concat(chunks));
              packets == d.packets && stopped == d.stopped && (!stopped ==> buf == d.rest)
    {
      hide Drain;
      stopped := false;
      DrainNothing();
      for i := 0 to |chunks|
        invariant var d := Drain(Concat(chunks[..i]));
                  packets == d.packets && stopped == d.stopped && (!stopped ==> buf == d.rest)
      {
        assert chunks[..i + 1][..i] == chunks[..i];
        DrainAppend(Concat(chunks[..i]), chunks[i]);
        if !stopped {
          stopped := HandleRead(chunks[i]);
        }
      }
      assert chunks[..|chunks|] == chunks;
    }
  }

  lemma DrainNothing()
    ensures Drain([]) == Drained([], [], false)
  {
  }
}
