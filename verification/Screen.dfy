/**
 * The 25x80 text screen (kern/console.c, `cga_putc` and `cons_putc`).
 *
 * The screen is specified by a terminal of unbounded height: nothing on it ever
 * moves, rows not yet reached are blank, and the screen is the 25-row window
 * whose first row is `top`.  Scrolling the screen is moving the window down.
 */
module Screen {
  import opened Machine

  const CRT_ROWS := 25
  const CRT_COLS := 80
  const CRT_SIZE := 2000

  /** A character with its attribute in the high byte. */
  type Cell = Half
  const BLANK: Cell := 0x0720

  /** Without an attribute, black on white is used. */
  function Coloured(c: int): int {
    if 0 <= c < 0x100 then c + 0x0700 else c
  }

  /** The first cell of the row of cell `k`, and of the row after it. */
  function RowOf(k: nat): nat {
    k / CRT_COLS * CRT_COLS
  }

  function NextRow(k: nat): nat {
    (k / CRT_COLS + 1) * CRT_COLS
  }

  /** The terminal: absolute cell numbers count from the first row ever shown. */
  datatype Terminal = Terminal(written: map<nat, Cell>, top: nat, cur: nat)
  {
    function At(k: nat): Cell {
      if k in written then written[k] else BLANK
    }

    /** The first cell of the window. */
    function Start(): nat {
      CRT_COLS * top
    }

    /** The cursor is in the window and nothing was written below it. */
    ghost predicate Valid() {
      && Start() <= cur < Start() + CRT_SIZE
      && forall k :: k in written ==> k < Start() + CRT_SIZE
    }

    /** The window follows a cursor that left it. */
    function Follow(): Terminal {
      if cur < Start() + CRT_SIZE then this else this.(top := cur / CRT_COLS - (CRT_ROWS - 1))
    }

    /** What a character other than a tab writes, and where it puts the cursor. */
    function Strike(c: int): Terminal {
      var d := Coloured(c);
      match c % 0x100
      case 8 =>
        if cur > Start() then Terminal(written[cur - 1 := (d - d % 0x100 + 0x20) % 0x1_0000], top, cur - 1) else this
      case 10 => this.(cur := NextRow(cur))
      case 13 => this.(cur := RowOf(cur))
      case _ => Terminal(written[cur := d % 0x1_0000], top, cur + 1)
    }

    function Put(c: int): Terminal {
      Strike(c).Follow()
    }

    /** A tab is five spaces, whatever the column. */
    function Putc(c: int): Terminal {
      if c % 0x100 == 9 then Put(32).Put(32).Put(32).Put(32).Put(32) else Put(c)
    }

    function Run(cs: seq<int>): Terminal
      decreases |cs|
    {
      if cs == [] then this else Putc(cs[0]).Run(cs[1..])
    }
  }

  // ---------- The terminal over whole runs ----------

  lemma PutValid(t: Terminal, c: int)
    requires t.Valid()
    ensures t.Put(c).Valid() && t.top <= t.Put(c).top <= t.top + 1
    ensures forall k :: 0 <= k < t.Start() ==> t.Put(c).At(k) == t.At(k)
  {
  }

  /** Whatever is printed, the cursor stays in the window, and what scrolled out of it never changes again. */
  lemma {:induction false} RunKeepsScrollback(t: Terminal, cs: seq<int>)
    requires t.Valid()
    ensures t.Run(cs).Valid() && t.top <= t.Run(cs).top
    ensures forall k :: 0 <= k < t.Start() ==> t.Run(cs).At(k) == t.At(k)
    decreases |cs|
  {
    if cs != [] {
      PutcValid(t, cs[0]);
      RunKeepsScrollback(t.Putc(cs[0]), cs[1..]);
    }
  }

  lemma PutcValid(t: Terminal, c: int)
    requires t.Valid()
    ensures t.Putc(c).Valid() && t.top <= t.Putc(c).top
    ensures forall k :: 0 <= k < t.Start() ==> t.Putc(c).At(k) == t.At(k)
  {
    if c % 0x100 == 9 {
      var t1 := t.Put(32);
      var t2 := t1.Put(32);
      var t3 := t2.Put(32);
      var t4 := t3.Put(32);
      PutValid(t, 32);
      PutValid(t1, 32);
      PutValid(t2, 32);
      PutValid(t3, 32);
      PutValid(t4, 32);
    } else {
      PutValid(t, c);
    }
  }

  lemma {:induction false} RunAppend(t: Terminal, cs: seq<int>, ds: seq<int>)
    ensures t.Run(cs + ds) == t.Run(cs).Run(ds)
    decreases |cs|
  {
    if cs == [] {
      assert cs + ds == ds;
    } else {
      assert (cs + ds)[1..] == cs[1..] + ds;
      RunAppend(t.Putc(cs[0]), cs[1..], ds);
    }
  }

  predicate Printable(c: int) {
    c % 0x100 != 8 && c % 0x100 != 9 && c % 0x100 != 10 && c % 0x100 != 13
  }

  /** Printing text writes it to consecutive cells and nothing else, however often the screen scrolls. */
  lemma {:induction false} RunText(t: Terminal, cs: seq<int>)
    requires t.Valid()
    requires forall c :: c in cs ==> Printable(c)
    ensures t.Run(cs).cur == t.cur + |cs|
    ensures forall i :: 0 <= i < |cs| ==> t.Run(cs).At(t.cur + i) == Coloured(cs[i]) % 0x1_0000
    ensures forall k: nat :: k < t.cur || t.cur + |cs| <= k ==> t.Run(cs).At(k) == t.At(k)
    decreases |cs|
  {
    if cs != [] {
      hide Terminal.Valid, Terminal.Putc;
      PutPrintable(t, cs[0]);
      RunText(t.Putc(cs[0]), cs[1..]);
    }
  }

  /** A tab prints five spaces, whatever the column and also across a scroll. */
  lemma TabIsFiveSpaces(t: Terminal)
    requires t.Valid()
    ensures t.Run([9]) == t.Run([32, 32, 32, 32, 32])
    ensures t.Run([9]).cur == t.cur + 5
    ensures forall k :: t.cur <= k < t.cur + 5 ==> t.Run([9]).At(k) == 0x0720
    ensures forall k: nat :: k < t.cur || t.cur + 5 <= k ==> t.Run([9]).At(k) == t.At(k)
  {
    hide Terminal.Put, Terminal.Valid, Terminal.At;
    var spaces := [32, 32, 32, 32, 32];
    assert spaces[1..] == [32, 32, 32, 32] && spaces[1..][1..] == [32, 32, 32];
    assert t.Putc(32).Run(spaces[1..]) == t.Run(spaces);
    var u := t.Putc(32).Putc(32);
    assert u.Run([32, 32, 32]) == t.Run(spaces);
    assert [32, 32, 32][1..] == [32, 32] && [32, 32][1..] == [32];
    assert u.Putc(32).Putc(32).Run([32]) == t.Run(spaces);
    RunOne(u.Putc(32).Putc(32), 32);
    RunOne(t, 9);
    RunText(t, spaces);
    forall k | t.cur <= k < t.cur + 5
      ensures t.Run([9]).At(k) == 0x0720
    {
      assert t.Run(spaces).At(t.cur + (k - t.cur)) == Coloured(spaces[k - t.cur]) % 0x1_0000;
    }
  }

  lemma RunOne(t: Terminal, c: int)
    ensures t.Run([c]) == t.Putc(c)
  {
    assert [c][1..] == [];
  }

  /** A newline ends the row and a carriage return goes back to its start; neither changes a cell. */
  lemma RowControls(t: Terminal)
    requires t.Valid()
    ensures t.Putc(10).cur % 80 == 0 && t.cur < t.Putc(10).cur <= t.cur + 80
    ensures t.Putc(13).cur % 80 == 0 && t.Putc(13).cur <= t.cur < t.Putc(13).cur + 80
    ensures t.Putc(10).written == t.written == t.Putc(13).written
  {
    hide Terminal.Valid, RowOf, NextRow;
    StrikeCases(t, 10);
    StrikeCases(t, 13);
    RowBounds(t.cur);
  }

  lemma RowBounds(k: nat)
    ensures NextRow(k) % 80 == 0 && k < NextRow(k) <= k + 80
    ensures RowOf(k) % 80 == 0 && RowOf(k) <= k < RowOf(k) + 80
  {
  }

  /**
   * A backspace blanks the cell before the cursor, in the character's own
   * colours, unless the cursor is at the window's start.
   */
  lemma BackspaceLaw(t: Terminal, c: int)
    requires t.Valid() && c % 0x100 == 8
    ensures t.cur == 80 * t.top ==> t.Putc(c) == t
    ensures t.cur > 80 * t.top ==>
              && t.Putc(c).cur == t.cur - 1
              && t.Putc(c).At(t.cur - 1) == (if c == 8 then 0x0720 else (c + 0x18) % 0x1_0000)
              && forall k: nat :: k != t.cur - 1 ==> t.Putc(c).At(k) == t.At(k)
  {
    StrikeCases(t, c);
    PutcIs(t, c);
  }

  /** The window moves only when the cursor leaves it, and then by one row. */
  lemma WindowMoves(t: Terminal, c: int)
    requires t.Valid() && c % 0x100 != 9
    ensures t.Putc(c).top == if t.Putc(c).cur < 80 * t.top + 2000 then t.top else t.top + 1
  {
  }

  lemma PutPrintable(t: Terminal, c: int)
    requires t.Valid() && Printable(c)
    ensures t.Putc(c).Valid() && t.Putc(c).cur == t.cur + 1
    ensures t.Putc(c).written == t.written[t.cur := Coloured(c) % 0x1_0000]
  {
  }

  /** The start of a row, counted in the window and counted from the top of the terminal. */
  lemma RowStart(t: Terminal, pos: int)
    requires pos == t.cur - t.Start() && pos >= 0
    ensures RowOf(t.cur) - t.Start() == pos - pos % CRT_COLS
    ensures NextRow(t.cur) - t.Start() == pos + CRT_COLS - (pos + CRT_COLS) % CRT_COLS
  {
    assert t.cur / CRT_COLS == t.top + pos / CRT_COLS;
    assert (pos + CRT_COLS) % CRT_COLS == pos % CRT_COLS;
  }

  lemma StrikeCases(t: Terminal, c: int)
    ensures Coloured(c) % 0x100 == c % 0x100
    ensures Coloured(c) == if 0 <= c < 0x100 then c + 0x0700 else c
    ensures c % 0x100 == 8 && t.cur > t.Start() ==>
              t.Strike(c)
              == Terminal(t.written[t.cur - 1 := (Coloured(c) - c % 0x100 + 0x20) % 0x1_0000], t.top, t.cur - 1)
    ensures c % 0x100 == 8 && t.cur <= t.Start() ==> t.Strike(c) == t
    ensures c % 0x100 == 10 ==> t.Strike(c) == t.(cur := NextRow(t.cur))
    ensures c % 0x100 == 13 ==> t.Strike(c) == t.(cur := RowOf(t.cur))
    ensures Printable(c) ==> t.Strike(c) == Terminal(t.written[t.cur := Coloured(c) % 0x1_0000], t.top, t.cur + 1)
  {
  }

  lemma PutcIs(t: Terminal, c: int)
    ensures c % 0x100 == 9 ==> t.Putc(c) == t.Putc(9)
    ensures c % 0x100 != 9 ==> t.Putc(c) == t.Strike(c).Follow()
    ensures t.Valid() ==> t.Follow() == t
  {
  }

  // ---------- The screen ----------

  /** What is on the screen is what the terminal shows from `Start` on, and nothing was written below that. */
  ghost predicate Shows(screen: seq<Cell>, t: Terminal) {
    && |screen| == CRT_SIZE
    && (forall k :: 0 <= k < CRT_SIZE ==> screen[k] == t.At(t.Start() + k))
    && forall k :: k in t.written ==> k < t.Start() + CRT_SIZE
  }

  lemma ShowsWrite(screen: seq<Cell>, t: Terminal, pos: int, cell: Cell, cur: nat)
    requires Shows(screen, t) && 0 <= pos < CRT_SIZE
    ensures Shows(screen[pos := cell], Terminal(t.written[t.Start() + pos := cell], t.top, cur))
  {
  }

  lemma ShowsMove(screen: seq<Cell>, t: Terminal, cur: nat)
    requires Shows(screen, t)
    ensures Shows(screen, t.(cur := cur))
  {
  }

  /** One row up, and a blank row at the bottom. */
  function Scrolled(screen: seq<Cell>): seq<Cell>
    requires |screen| == CRT_SIZE
  {
    screen[CRT_COLS..] + seq(CRT_COLS, _ => BLANK)
  }

  lemma ShowsFollow(screen: seq<Cell>, t: Terminal)
    requires Shows(screen, t) && CRT_SIZE <= t.cur - t.Start() < CRT_SIZE + CRT_COLS
    ensures Shows(Scrolled(screen), t.Follow()) && t.Follow().Valid() && t.Follow().Start() == t.Start() + CRT_COLS
  {
    var u := t.Follow();
    assert u.top == t.top + 1;
    forall k | 0 <= k < CRT_SIZE
      ensures Scrolled(screen)[k] == u.At(u.Start() + k)
    {
      if k < CRT_SIZE - CRT_COLS {
        assert Scrolled(screen)[k] == screen[k + CRT_COLS] == t.At(t.Start() + (k + CRT_COLS));
      }
    }
  }

  class Crt {
    const crtBuf: array<Cell>
    var crtPos: Half
    ghost var term: Terminal

    /** The screen is the terminal's window. */
    ghost predicate Valid()
      reads this, crtBuf
    {
      && crtBuf.Length == CRT_SIZE
      && term.Valid()
      && crtPos == term.cur - term.Start()
      && Shows(crtBuf[..], term)
    }

    /** `cga_init`: the screen as the firmware left it. */
    constructor (screen: array<Cell>, pos: Half)
      requires screen.Length == CRT_SIZE && pos < CRT_SIZE
      ensures Valid() && crtBuf == screen
      ensures term == Terminal(map k: nat | 0 <= k < CRT_SIZE :: screen[k], 0, pos)
    {
      crtBuf := screen;
      crtPos := pos;
      term := Terminal(map k: nat | 0 <= k < CRT_SIZE :: screen[k], 0, pos);
    }

    /** The scroll at the end of `cga_putc`; the copy is what `memmove` promises. */
    method Scroll()
      requires crtBuf.Length == CRT_SIZE && CRT_SIZE <= crtPos < CRT_SIZE + CRT_COLS
      modifies `crtPos, crtBuf
      ensures crtPos == old(crtPos) - CRT_COLS && crtBuf[..] == Scrolled(old(crtBuf[..]))
    {
      forall i | 0 <= i < CRT_SIZE - CRT_COLS {
        crtBuf[i] := crtBuf[i + CRT_COLS];
      }
      for i := CRT_SIZE - CRT_COLS to CRT_SIZE
        modifies crtBuf
        invariant forall k :: 0 <= k < CRT_SIZE - CRT_COLS ==> crtBuf[k] == old(crtBuf[k + CRT_COLS])
        invariant forall k :: CRT_SIZE - CRT_COLS <= k < i ==> crtBuf[k] == BLANK
      {
        crtBuf[i] := BLANK;
      }
      crtPos := crtPos - CRT_COLS;
    }

    /** The screen shows terminal `t`, whose cursor may just have left the window. */
    ghost predicate Struck(t: Terminal)
      reads this, crtBuf
    {
      && crtBuf.Length == CRT_SIZE
      && crtPos == t.cur - t.Start() && crtPos < CRT_SIZE + CRT_COLS
      && Shows(crtBuf[..], t)
    }

    lemma OpenValid()
      requires Valid()
      ensures Struck(term) && crtBuf.Length == CRT_SIZE && crtPos == term.cur - term.Start() && crtPos < CRT_SIZE
      ensures Shows(crtBuf[..], term) && term.Follow() == term
    {
    }

    lemma MakeStruck(t: Terminal)
      requires crtBuf.Length == CRT_SIZE && crtPos == t.cur - t.Start() && crtPos < CRT_SIZE + CRT_COLS
      requires Shows(crtBuf[..], t)
      ensures Struck(t)
    {
    }

    /** The end of `cga_putc`. */
    method ScrollIfPast(ghost t: Terminal)
      requires Struck(t)
      modifies this, crtBuf
      ensures Valid() && term == t.Follow()
    {
      if crtPos >= CRT_SIZE {
        ShowsFollow(crtBuf[..], t);
        Scroll();
      }
      term := t.Follow();
    }

    method CgaPutc(ch: int)
      requires Valid()
      modifies this, crtBuf
      ensures Valid() && term == old(term).Putc(ch)
      decreases if ch % 0x100 == 9 then 1 else 0, 0
    {
      hide Terminal.Strike, Terminal.Follow, Terminal.Putc, Terminal.Put, Terminal.Valid, Terminal.At;
      hide Shows, RowOf, NextRow, Coloured, Valid, Struck, Scrolled;
      ghost var t, u := term, term.Strike(ch);
      OpenValid();
      StrikeCases(t, ch);
      PutcIs(t, ch);
      RowStart(t, crtPos);
      var c := ch;
      if 0 <= c < 0x100 {
        c := c + 0x0700;
      }
      if c % 0x100 == 8 {
        if crtPos > 0 {
          crtPos := crtPos - 1;
          crtBuf[crtPos] := (c - c % 0x100 + 0x20) % 0x1_0000;
          ShowsWrite(old(crtBuf[..]), t, crtPos, crtBuf[crtPos], t.cur - 1);
        }
      } else if c % 0x100 == 10 {
        crtPos := crtPos + CRT_COLS;
        crtPos := crtPos - crtPos % CRT_COLS;
        ShowsMove(crtBuf[..], t, NextRow(t.cur));
      } else if c % 0x100 == 13 {
        crtPos := crtPos - crtPos % CRT_COLS;
        ShowsMove(crtBuf[..], t, RowOf(t.cur));
      } else if c % 0x100 == 9 {
        Tab();
        OpenValid();
        u := term;
      } else {
        crtBuf[crtPos] := c % 0x1_0000;
        ShowsWrite(old(crtBuf[..]), t, crtPos, crtBuf[crtPos], t.cur + 1);
        crtPos := crtPos + 1;
      }
      MakeStruck(u);
      ScrollIfPast(u);
    }

    /** The tab case of `cga_putc`, which prints through `cons_putc` again. */
    method Tab()
      requires Valid()
      modifies this, crtBuf
      ensures Valid() && term == old(term).Putc(9)
      decreases 1, -1
    {
      ConsPutc(32);
      ConsPutc(32);
      ConsPutc(32);
      ConsPutc(32);
      ConsPutc(32);
    }

    /** `cons_putc`, without the copies it sends to the serial and parallel ports. */
    method ConsPutc(c: int)
      requires Valid()
      modifies this, crtBuf
      ensures Valid() && term == old(term).Putc(c)
      decreases if c % 0x100 == 9 then 1 else 0, 1
    {
      CgaPutc(c);
    }

    /** A run of `cputchar` calls. */
    method PutAll(cs: seq<int>)
      requires Valid()
      modifies this, crtBuf
      ensures Valid() && term == old(term).Run(cs)
    {
      for i := 0 to |cs|
        invariant Valid() && old(term).Run(cs) == term.Run(cs[i..])
      {
        assert cs[i..][1..] == cs[i + 1..];
        ConsPutc(cs[i]);
      }
    }
  }
}
