/**
 * The console input buffer (kern/console.c, `cons_intr` and `cons_getc`): a
 * ring of 512 bytes with no check for being full.
 */
module InputRing {
  import opened Machine

  const CONSBUFSIZE := 512

  // ---------- What the ring must do ----------

  /** Bytes the device delivered, without the zeros, which mean that no character is finished yet. */
  function NonZero(feed: seq<Byte>): (r: seq<Byte>)
    ensures 0 !in r
  {
    if feed == [] then []
    else if feed[0] == 0 then NonZero(feed[1..])
    else [feed[0]] + NonZero(feed[1..])
  }

  lemma {:induction false} NonZeroAppend(a: seq<Byte>, b: seq<Byte>)
    ensures NonZero(a + b) == NonZero(a) + NonZero(b)
  {
    if a == [] {
      assert a + b == b;
    } else {
      assert (a + b)[1..] == a[1..] + b;
      NonZeroAppend(a[1..], b);
    }
  }

  lemma {:induction false} NonZeroPlain(s: seq<Byte>)
    requires 0 !in s
    ensures NonZero(s) == s
  {
    if s != [] {
      assert s[0] in s && s == [s[0]] + s[1..];
      NonZeroPlain(s[1..]);
    }
  }

  /** What stays readable of bytes put in one after the other: whenever 512 are there, all are lost. */
  function Kept(s: seq<Byte>): (r: seq<Byte>)
    ensures |r| == |s| % CONSBUFSIZE
    ensures 0 !in s ==> 0 !in r
  {
    s[|s| - |s| % CONSBUFSIZE..]
  }

  lemma KeptAppend(s: seq<Byte>, t: seq<Byte>)
    ensures Kept(Kept(s) + t) == Kept(s + t)
  {
    var k := Kept(s) + t;
    assert |k| % CONSBUFSIZE == |s + t| % CONSBUFSIZE;
    var d := |s| - |Kept(s)|;
    assert s + t == s[..d] + k;
  }

  // ---------- Whole runs ----------

  /** A read polls both devices first, the serial port and then the keyboard. */
  datatype Event = Interrupt(feed: seq<Byte>) | Read(serial: seq<Byte>, keyboard: seq<Byte>)

  function FeedOf(e: Event): seq<Byte> {
    match e
    case Interrupt(feed) => NonZero(feed)
    case Read(serial, keyboard) => NonZero(serial) + NonZero(keyboard)
  }

  /** The pending bytes, the bytes read so far and the number of times the ring was overrun. */
  datatype History = History(pending: seq<Byte>, got: seq<Byte>, overruns: nat)
  {
    function Step(e: Event): History {
      var all := pending + FeedOf(e);
      var kept := Kept(all);
      var lost := overruns + |all| / CONSBUFSIZE;
      if e.Interrupt? || kept == [] then History(kept, got, lost) else History(kept[1..], got + [kept[0]], lost)
    }

    function Run(es: seq<Event>): History
      decreases |es|
    {
      if es == [] then this else Run(es[..|es| - 1]).Step(es[|es| - 1])
    }
  }

  const START := History([], [], 0)

  /** All the bytes ever fed. */
  function Fed(es: seq<Event>): seq<Byte> {
    if es == [] then [] else Fed(es[..|es| - 1]) + FeedOf(es[|es| - 1])
  }

  /** A read takes in what both devices have, the serial port's bytes first and no zeros. */
  lemma FedByRead(serial: seq<Byte>, keyboard: seq<Byte>)
    ensures Fed([Read(serial, keyboard)]) == NonZero(serial) + NonZero(keyboard)
    ensures 0 !in serial && 0 !in keyboard ==> Fed([Read(serial, keyboard)]) == serial + keyboard
  {
    assert [Read(serial, keyboard)][..0] == [];
    if 0 !in serial && 0 !in keyboard {
      NonZeroPlain(serial);
      NonZeroPlain(keyboard);
    }
  }

  /** Every byte fed was read, is pending, or went away in a full ring of 512. */
  lemma {:induction false} BytesConserved(es: seq<Event>)
    ensures var h := START.Run(es);
            |h.got| + |h.pending| + CONSBUFSIZE * h.overruns == |Fed(es)| && |h.pending| < CONSBUFSIZE
    decreases |es|
  {
    if es != [] {
      BytesConserved(es[..|es| - 1]);
    }
  }

  /**
   * The bytes read, followed by the bytes pending, are the bytes fed in order,
   * exactly as long as the ring was never overrun.
   */
  lemma {:induction false} InOrderUnlessOverrun(es: seq<Event>)
    ensures var h := START.Run(es); h.got + h.pending == Fed(es) <==> h.overruns == 0
    decreases |es|
  {
    BytesConserved(es);
    if es != [] {
      var init, e := es[..|es| - 1], es[|es| - 1];
      InOrderUnlessOverrun(init);
      hide History.Step, Kept, FeedOf;
      if START.Run(es).overruns == 0 {
        StepInOrder(START.Run(init), e);
      }
    }
  }

  lemma StepInOrder(h: History, e: Event)
    requires h.Step(e).overruns == 0
    ensures h.overruns == 0
    ensures h.Step(e).got + h.Step(e).pending == h.got + h.pending + FeedOf(e)
  {
    hide FeedOf, Kept;
    var all := h.pending + FeedOf(e);
    assert |all| < CONSBUFSIZE;
    KeptShort(all);
    var next := h.Step(e);
    if e.Read? && all != [] {
      assert next.got + next.pending == h.got + ([all[0]] + all[1..]);
    } else {
      assert next.got + next.pending == h.got + all;
    }
    assert h.got + all == h.got + h.pending + FeedOf(e);
  }

  /** A step looks at the pending bytes only. */
  lemma StepFrom(h: History, e: Event)
    ensures var one := History(h.pending, [], 0).Step(e);
            h.Step(e) == History(one.pending, h.got + one.got, h.overruns + one.overruns)
  {
    hide Kept, FeedOf;
    assert h.got + [] == h.got;
  }

  lemma InterruptStep(h: History, feed: seq<Byte>)
    ensures h.Step(Interrupt(feed)).pending == Kept(h.pending + NonZero(feed))
    ensures h.Step(Interrupt(feed)).got == h.got
  {
  }

  lemma KeptShort(s: seq<Byte>)
    requires |s| < CONSBUFSIZE
    ensures Kept(s) == s
  {
  }

  // ---------- The ring ----------

  lemma NextFed(before: seq<Byte>, feed: seq<Byte>, i: nat)
    requires i < |feed|
    ensures Kept(before + NonZero(feed[..i + 1]))
            == if feed[i] == 0 then Kept(before + NonZero(feed[..i]))
               else Kept(Kept(before + NonZero(feed[..i])) + [feed[i]])
  {
    assert feed[..i + 1] == feed[..i] + [feed[i]];
    NonZeroAppend(feed[..i], [feed[i]]);
    KeptAppend(before + NonZero(feed[..i]), [feed[i]]);
    assert before + NonZero(feed[..i]) + [feed[i]] == before + (NonZero(feed[..i]) + [feed[i]]);
  }

  lemma NothingFed(pending: seq<Byte>)
    requires |pending| < CONSBUFSIZE
    ensures Kept(pending + NonZero([])) == pending
  {
  }

  lemma KeptOneMore(s: seq<Byte>, c: Byte)
    requires |s| < CONSBUFSIZE
    ensures Kept(s + [c]) == if |s| == CONSBUFSIZE - 1 then [] else s + [c]
    ensures c != 0 && 0 !in s ==> 0 !in s + [c]
  {
  }

  class Console {
    const buf: array<Byte>
    var rpos: Word
    var wpos: Word

    constructor ()
      ensures Valid() && Pending() == [] && fresh(buf)
    {
      buf := new Byte[CONSBUFSIZE](_ => 0);
      rpos, wpos := 0, 0;
    }

    /** No pending byte is a zero. */
    ghost predicate Valid()
      reads this, buf
    {
      && buf.Length == CONSBUFSIZE && rpos < CONSBUFSIZE && wpos < CONSBUFSIZE
      && 0 !in Pending()
    }

    ghost function Pending(): (s: seq<Byte>)
      requires buf.Length == CONSBUFSIZE && rpos < CONSBUFSIZE && wpos < CONSBUFSIZE
      reads this, buf
      ensures |s| == (wpos - rpos) % CONSBUFSIZE
    {
      if rpos <= wpos then buf[rpos..wpos] else buf[rpos..] + buf[..wpos]
    }

    method Store(c: Byte)
      requires Valid() && c != 0
      modifies this, buf
      ensures Valid() && Pending() == Kept(old(Pending()) + [c])
    {
      hide Kept;
      ghost var before := Pending();
      KeptOneMore(before, c);
      buf[wpos] := c;
      assert rpos <= wpos ==> buf[rpos..wpos + 1] == before + [c];
      assert wpos < rpos ==> buf[rpos..] + buf[..wpos + 1] == before + [c];
      wpos := wpos + 1;
      if wpos == CONSBUFSIZE {
        wpos := 0;
      }
    }

    /** `cons_intr`, on the values the device routine returns before its -1. */
    method ConsIntr(feed: seq<Byte>)
      requires Valid()
      modifies this, buf
      ensures Valid() && Pending() == Kept(old(Pending()) + NonZero(feed))
    {
      hide Pending, Kept, NonZero;
      NothingFed(Pending());
      assert feed[..0] == [];
      for i := 0 to |feed|
        invariant Valid() && Pending() == Kept(old(Pending()) + NonZero(feed[..i]))
      {
        var c := feed[i];
        NextFed(old(Pending()), feed, i);
        if c == 0 {
          continue;
        }
        Store(c);
      }
      assert feed[..|feed|] == feed;
    }

    /** The oldest pending byte, or 0 if there is none. */
    method Take() returns (c: int)
      requires Valid()
      modifies `rpos
      ensures Valid()
      ensures old(Pending()) == [] ==> c == 0 && Pending() == []
      ensures old(Pending()) != [] ==> c == old(Pending())[0] != 0 && Pending() == old(Pending())[1..]
    {
      if rpos != wpos {
        c := buf[rpos];
        assert c == Pending()[0];
        rpos := rpos + 1;
        if rpos == CONSBUFSIZE {
          rpos := 0;
        }
        return c;
      }
      return 0;
    }

    /** `cons_getc`: 0 says that nothing is waiting. */
    method ConsGetc(serial: seq<Byte>, keyboard: seq<Byte>) returns (c: int)
      requires Valid()
      modifies this, buf
      ensures Valid()
      ensures var all := Kept(old(Pending()) + NonZero(serial) + NonZero(keyboard));
              if all == [] then c == 0 && Pending() == [] else c == all[0] != 0 && Pending() == all[1..]
      ensures var h := History(old(Pending()), [], 0).Step(Read(serial, keyboard));
              && Pending() == h.pending
              && (c == 0 <==> h.got == []) && (c != 0 ==> h.got == [c])
    {
      hide Pending, Kept, NonZero;
      ghost var before := Pending();
      KeptAppend(before + NonZero(serial), NonZero(keyboard));
      assert before + NonZero(serial) + NonZero(keyboard) == before + (NonZero(serial) + NonZero(keyboard));
      ConsIntr(serial);
      ConsIntr(keyboard);
      c := Take();
    }

    /** A whole run of interrupts and reads on a fresh console: what was read and what is left. */
    method Serve(es: seq<Event>) returns (got: seq<Byte>)
      requires Valid() && Pending() == []
      modifies this, buf
      ensures Valid() && got == START.Run(es).got && Pending() == START.Run(es).pending
      ensures got + Pending() == Fed(es) <==> START.Run(es).overruns == 0
      ensures |got| + |Pending()| + CONSBUFSIZE * START.Run(es).overruns == |Fed(es)|
    {
      hide Pending, Kept, NonZero, FeedOf, Fed;
      got := [];
      assert es[..0] == [];
      for i := 0 to |es|
        invariant Valid() && got == START.Run(es[..i]).got && Pending() == START.Run(es[..i]).pending
      {
        ghost var h := START.Run(es[..i]);
        assert es[..i + 1][..i] == es[..i];
        StepFrom(h, es[i]);
        match es[i]
        case Interrupt(feed) =>
          InterruptStep(h, feed);
          ConsIntr(feed);
        case Read(serial, keyboard) =>
          var c := ConsGetc(serial, keyboard);
          if c != 0 {
            got := got + [c];
          }
      }
      assert es[..|es|] == es;
      BytesConserved(es);
      InOrderUnlessOverrun(es);
    }
  }
}
