/**
 * The line editor (lib/readline.c): what is in its buffer is what is on the
 * screen, after every key.
 */
module LineEditor {
  import opened Machine
  import opened Screen
  import opened PrintFormat
  import D = Directives

  const BUFLEN := 1024

  /** What `getchar` returns: a byte other than 0, or a negative error code. */
  type Key = c: int | -0x8000_0000 <= c < 0x100 && c != 0 witness 1

  predicate IsErase(c: Key) {
    c == 8 || c == 0x7f
  }

  /** Keys after which `readline` returns. */
  predicate Ends(c: Key) {
    c < 0 || c == 10 || c == 13
  }

  // ---------- The edited line and its echo ----------

  /** An erase key on an empty line is not one: a delete is then typed like any other character. */
  function Edit(line: seq<Byte>, c: Key): seq<Byte> {
    if IsErase(c) && line != [] then line[..|line| - 1]
    else if c >= 0x20 && |line| < BUFLEN - 1 then line + [c]
    else line
  }

  function EchoOf(line: seq<Byte>, c: Key): seq<int> {
    if IsErase(c) && line != [] then [8]
    else if c >= 0x20 && |line| < BUFLEN - 1 then [c]
    else []
  }

  /** The line after these keys. */
  function EditAll(keys: seq<Key>): seq<Byte> {
    if keys == [] then [] else Edit(EditAll(keys[..|keys| - 1]), keys[|keys| - 1])
  }

  /** Everything echoed for these keys. */
  function EchoAll(keys: seq<Key>): seq<int> {
    if keys == [] then []
    else EchoAll(keys[..|keys| - 1]) + EchoOf(EditAll(keys[..|keys| - 1]), keys[|keys| - 1])
  }

  /**
   * Terminal `u`, reached from `t`, shows the line from where the cursor was,
   * black on white, with the cursor right after it and all of it in the window.
   * Before the line nothing changed, and after it at most cells were blanked.
   */
  ghost predicate ShowsLine(t: Terminal, u: Terminal, line: seq<Byte>) {
    && u.Valid()
    && u.cur == t.cur + |line|
    && u.Start() <= t.cur
    && (forall i :: 0 <= i < |line| ==> u.At(t.cur + i) == Coloured(line[i]))
    && (forall k: nat :: k < t.cur ==> u.At(k) == t.At(k))
    && forall k: nat :: u.cur <= k ==> u.At(k) == t.At(k) || u.At(k) == BLANK
  }

  predicate IsLine(line: seq<Byte>) {
    |line| < BUFLEN && forall i :: 0 <= i < |line| ==> line[i] >= 0x20
  }

  /** The window can follow a line this long without losing its start. */
  lemma EchoTyped(t: Terminal, u: Terminal, line: seq<Byte>, c: Key)
    requires ShowsLine(t, u, line) && |line| < BUFLEN - 1 && c >= 0x20
    ensures ShowsLine(t, u.Putc(c), line + [c])
  {
    PutPrintable(u, c);
    var v := u.Putc(c);
    assert v.written == u.written[u.cur := 0x0700 + c];
    StrikeCases(u, c);
    assert v.Start() <= t.cur;
    hide Terminal.Putc;
  }

  /** The guard of the screen's backspace never holds back an erase. */
  lemma EchoErased(t: Terminal, u: Terminal, line: seq<Byte>)
    requires ShowsLine(t, u, line) && |line| > 0
    ensures ShowsLine(t, u.Putc(8), line[..|line| - 1])
  {
    StrikeCases(u, 8);
    assert u.Putc(8) == Terminal(u.written[u.cur - 1 := BLANK], u.top, u.cur - 1);
    hide Terminal.Putc;
  }

  /** After any keys, line and screen agree. */
  lemma {:induction false} EditorAndScreenAgree(t: Terminal, keys: seq<Key>)
    requires t.Valid()
    requires forall i :: 0 <= i < |keys| ==> !Ends(keys[i])
    ensures IsLine(EditAll(keys))
    ensures ShowsLine(t, t.Run(EchoAll(keys)), EditAll(keys))
    decreases |keys|
  {
    hide ShowsLine, Terminal.Putc, Terminal.Valid;
    if keys == [] {
      NothingTyped(t);
    } else {
      var n := |keys| - 1;
      var init, c := keys[..n], keys[n];
      EditorAndScreenAgree(t, init);
      var line, u := EditAll(init), t.Run(EchoAll(init));
      RunAppend(t, EchoAll(init), EchoOf(line, c));
      if IsErase(c) && line != [] {
        EchoErased(t, u, line);
      } else if c >= 0x20 && |line| < BUFLEN - 1 {
        EchoTyped(t, u, line, c);
      }
      RunOne(u, EchoOf(line, c));
    }
  }

  /** The next key: what it does to the line, to the echo and so to the screen. */
  lemma NextKey(t: Terminal, keys: seq<Key>, n: nat)
    requires n < |keys|
    ensures var line := EditAll(keys[..n]);
            && EditAll(keys[..n + 1]) == Edit(line, keys[n])
            && t.Run(EchoAll(keys[..n + 1]))
               == (if EchoOf(line, keys[n]) == [] then t.Run(EchoAll(keys[..n]))
                   else t.Run(EchoAll(keys[..n])).Putc(EchoOf(line, keys[n])[0]))
  {
    assert keys[..n + 1][..n] == keys[..n];
    var line := EditAll(keys[..n]);
    RunAppend(t, EchoAll(keys[..n]), EchoOf(line, keys[n]));
    RunOne(t.Run(EchoAll(keys[..n])), EchoOf(line, keys[n]));
  }

  lemma NothingTyped(t: Terminal)
    requires t.Valid()
    ensures ShowsLine(t, t, []) && t.Run([]) == t
  {
  }

  lemma NothingTypedYet(t: Terminal, keys: seq<Key>)
    ensures EditAll(keys[..0]) == [] && t.Run(EchoAll(keys[..0])) == t == t.Run([])
  {
  }

  lemma RunOne(u: Terminal, cs: seq<int>)
    requires |cs| <= 1
    ensures u.Run(cs) == if cs == [] then u else u.Putc(cs[0])
  {
  }

  // ---------- What each key does ----------

  lemma EditLast(keys: seq<Key>, c: Key)
    ensures EditAll(keys + [c]) == Edit(EditAll(keys), c)
  {
    assert (keys + [c])[..|keys|] == keys;
  }

  /** Backspace and delete both take the last byte of a line back; on an empty line a delete is typed. */
  lemma EraseKeys(keys: seq<Key>)
    ensures var line := EditAll(keys);
            if line != [] then EditAll(keys + [8]) == EditAll(keys + [0x7f]) == line[..|line| - 1]
            else EditAll(keys + [8]) == [] && EditAll(keys + [0x7f]) == [0x7f]
  {
    EditLast(keys, 8);
    EditLast(keys, 0x7f);
  }

  /** Any other code below a space leaves the line alone, and so does every byte that does not fit any more. */
  lemma IgnoredKeys(keys: seq<Key>, c: Key)
    requires (c < 0x20 && c != 8) || (|EditAll(keys)| >= 1023 && c != 8 && c != 0x7f)
    ensures EditAll(keys + [c]) == EditAll(keys)
  {
    EditLast(keys, c);
  }

  /** Text edits to itself, and every erase key after it takes one byte back. */
  lemma {:induction false} TextAndErases(text: seq<Key>, erases: seq<Key>)
    requires |erases| <= |text| <= 1023
    requires forall i :: 0 <= i < |text| ==> 0x20 <= text[i] < 0x100 && text[i] != 0x7f
    requires forall i :: 0 <= i < |erases| ==> erases[i] == 8 || erases[i] == 0x7f
    ensures EditAll(text + erases) == text[..|text| - |erases|]
    decreases |erases|, |text|
  {
    hide EditAll;
    if erases != [] {
      var n := |erases| - 1;
      TextAndErases(text, erases[..n]);
      assert text + erases == text + erases[..n] + [erases[n]];
      EraseKeys(text + erases[..n]);
    } else {
      assert text + erases == text;
      if text == [] {
        NothingTypedYet(Terminal(map[], 0, 0), text);
        assert text[..0] == text;
      } else {
        var n := |text| - 1;
        TextAndErases(text[..n], []);
        assert text[..n] + [] == text[..n] && text == text[..n] + [text[n]];
        EditLast(text[..n], text[n]);
      }
    }
  }

  /**
   * On a screen that is blank from the cursor on, a line typed with any number
   * of corrections looks like the same line typed straight away.
   */
  lemma CorrectionsLeaveNoTrace(t: Terminal, keys: seq<Key>)
    requires t.Valid()
    requires forall k: nat :: t.cur <= k ==> t.At(k) == BLANK
    requires forall i :: 0 <= i < |keys| ==> !Ends(keys[i])
    ensures var typed, straight := t.Run(EchoAll(keys)), t.Run(EditAll(keys));
            typed.cur == straight.cur && forall k: nat :: typed.At(k) == straight.At(k)
  {
    hide Terminal.Run, Terminal.Putc, EditAll, EchoAll, Terminal.Valid;
    EditorAndScreenAgree(t, keys);
    var line := EditAll(keys);
    assert forall c :: c in line ==> Printable(c);
    RunText(t, line);
    var typed, straight := t.Run(EchoAll(keys)), t.Run(line);
    forall k: nat
      ensures typed.At(k) == straight.At(k)
    {
      if t.cur <= k < t.cur + |line| {
        assert straight.At(t.cur + (k - t.cur)) == Coloured(line[k - t.cur]);
        assert typed.At(t.cur + (k - t.cur)) == Coloured(line[k - t.cur]);
      }
    }
  }

  // ---------- readline ----------

  /** The argument lists of the two `cprintf` calls. */
  function PromptArgs(prompt: Text): VaList {
    VaList(_ => 1, _ => prompt)
  }

  function ErrorArgs(c: Key): VaList {
    VaList(_ => if c < 0 then c + WORD_LIMIT else c, _ => [])
  }

  const PROMPT_FORMAT: seq<Byte> := [0x25, 0x73, 0]
  const ERROR_FORMAT: seq<Byte> :=
    [0x72, 0x65, 0x61, 0x64, 0x20, 0x65, 0x72, 0x72, 0x6f, 0x72, 0x3a, 0x20, 0x25, 0x65, 0x0a, 0]

  function Prompt(prompt: Option<Text>): seq<int> {
    match prompt
    case None => []
    case Some(text) => Format(PROMPT_FORMAT, 0, PromptArgs(text), 0)
  }

  function ErrorMessage(c: Key): seq<int> {
    Format(ERROR_FORMAT, 0, ErrorArgs(c), 0)
  }

  /** The prompt is printed as it is, byte for byte. */
  lemma PromptPrints(text: Text)
    ensures |Prompt(Some(text))| == |text| && D.PrintedAs(Prompt(Some(text)), text, false)
  {
    hide Format, D.PrintedAs;
    var fmt, va := PROMPT_FORMAT, PromptArgs(text);
    var a := D.Asked(' ' as int, false, D.Absent, D.Absent, 0);
    assert a.Bytes() == [] && fmt[0..2] == ['%' as int] + (a.Bytes() + ['s' as int]);
    var chars := D.StringDirective(fmt, 0, a, va, 0);
    FormatStep(fmt, 2, va, 1);
    assert D.Justified(chars, -1, ' ' as int) == chars;
    assert chars + [] == chars && Prompt(Some(text)) == chars;
    assert D.StringArg(va, 0) == text;
  }

  /** A failing device is reported by its error. */
  lemma ErrorMessageIs(c: Key)
    requires c < 0
    ensures ErrorMessage(c) == Ascii("read error: ") + ErrorText(c) + [10]
  {
    hide Format, ErrorText;
    var fmt, va := ERROR_FORMAT, ErrorArgs(c);
    var a := D.Asked(' ' as int, false, D.Absent, D.Absent, 0);
    assert a.Bytes() == [] && fmt[12..14] == ['%' as int] + (a.Bytes() + ['e' as int]);
    FormatLiteral(fmt, 0, 12, va, 0);
    assert fmt[0..12] == Ascii("read error: ");
    D.OtherDirectives(fmt, 12, a, 'e' as int, va, 0);
    FormatStep(fmt, 14, va, 1);
    FormatStep(fmt, 15, va, 1);
  }

  /** None of these keys ended the line, and the buffer starts with the line they edited. */
  predicate Typed(keys: seq<Key>, buf: seq<Byte>) {
    && (forall i :: 0 <= i < |keys| ==> !Ends(keys[i]))
    && EditAll(keys) <= buf
  }

  /** The terminal after the prompt and the echo of these keys. */
  function Echoed(t: Terminal, prompt: Option<Text>, keys: seq<Key>): Terminal {
    t.Run(Prompt(prompt)).Run(EchoAll(keys))
  }

  /** `used` keys were read; without an ending key the call goes on waiting for more. */
  datatype Outcome = Line(used: nat) | ReadError(used: nat) | Waiting

  class Editor {
    const buf: array<Byte>

    constructor ()
      ensures fresh(buf) && buf.Length == BUFLEN
    {
      buf := new Byte[BUFLEN](_ => 0);
    }

    /**
     * `readline`, on the keys `getchar` will deliver.  Up to the ending key, at
     * every moment the buffer is the edited line and the screen has seen the
     * prompt and the line's echo; the line comes back NUL-terminated.
     */
    method Readline(prompt: Option<Text>, keys: seq<Key>, crt: Crt) returns (r: Outcome)
      requires buf.Length == BUFLEN && buf != crt.crtBuf as object && crt.Valid()
      modifies crt, crt.crtBuf, buf
      ensures crt.Valid()
      ensures r.Waiting? ==> forall i :: 0 <= i < |keys| ==> keys[i] > 0 && keys[i] != 10 && keys[i] != 13
      ensures !r.Waiting? ==>
                && 0 < r.used <= |keys|
                && forall i :: 0 <= i < r.used - 1 ==> keys[i] > 0 && keys[i] != 10 && keys[i] != 13
      ensures r.Waiting? ==> Typed(keys, buf[..]) && crt.term == Echoed(old(crt.term), prompt, keys)
      ensures r.Line? ==>
                && 0 < r.used <= |keys| && (keys[r.used - 1] == 10 || keys[r.used - 1] == 13)
                && Typed(keys[..r.used - 1], buf[..])
                && EditAll(keys[..r.used - 1]) + [0] <= buf[..]
                && crt.term == Echoed(old(crt.term), prompt, keys[..r.used - 1]).Putc(10)
      ensures r.ReadError? ==>
                && 0 < r.used <= |keys| && keys[r.used - 1] < 0
                && Typed(keys[..r.used - 1], buf[..])
                && crt.term == Echoed(old(crt.term), prompt, keys[..r.used - 1]).Run(ErrorMessage(keys[r.used - 1]))
    {
      hide Terminal.Run, Terminal.Putc, EditAll, EchoAll, Format, Crt.Valid;
      NothingTypedYet(crt.term, keys);
      if prompt.Some? {
        var text := Vprintfmt(PROMPT_FORMAT, PromptArgs(prompt.value));
        crt.PutAll(text);
      }
      ghost var start := crt.term;
      NothingTypedYet(start, keys);
      var i, used := 0, 0;
      while used < |keys|
        invariant 0 <= used <= |keys| && 0 <= i < BUFLEN
        invariant crt.Valid()
        invariant forall j :: 0 <= j < used ==> !Ends(keys[j])
        invariant buf[..i] == EditAll(keys[..used])
        invariant crt.term == start.Run(EchoAll(keys[..used]))
      {
        var c := keys[used];
        NextKey(start, keys, used);
        if c < 0 {
          var text := Vprintfmt(ERROR_FORMAT, ErrorArgs(c));
          crt.PutAll(text);
          return ReadError(used + 1);
        } else if (c == 8 || c == 0x7f) && i > 0 {
          crt.ConsPutc(8);
          i := i - 1;
        } else if c >= 0x20 && i < BUFLEN - 1 {
          crt.ConsPutc(c);
          buf[i] := c;
          i := i + 1;
        } else if c == 10 || c == 13 {
          crt.ConsPutc(10);
          buf[i] := 0;
          return Line(used + 1);
        }
        used := used + 1;
      }
      assert keys[..used] == keys;
      return Waiting;
    }
  }
}
