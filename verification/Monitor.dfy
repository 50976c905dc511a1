/** One round of the kernel monitor (kern/monitor.c, `monitor`): read a line, then run it. */
module Monitor {
  import opened Machine
  import opened CStrings
  import opened PrintFormat
  import opened Screen
  import opened LineEditor
  import CommandLine

  /** "K> ". */
  const PROMPT: Text := [0x4b, 0x3e, 0x20]

  /** The buffer that `readline` returns is the edited line as a NUL-terminated string. */
  lemma LineIsString(line: seq<Byte>, buf: seq<Byte>)
    requires IsLine(line) && line + [0] <= buf
    ensures HasNul(buf, 0) && CStr(buf, 0) == line
  {
    assert (line + [0])[|line|] == 0 && buf[0..][|line|] == 0;
    assert forall k :: 0 <= k < |line| ==> (line + [0])[k] == line[k];
    assert StrEnd(buf, 0) == |line|;
  }

  /**
   * What the keys typed ask for is what the line they leave after all
   * corrections asks for, and that line was on the screen when it was ended.
   */
  method ReadAndRun(editor: Editor, crt: Crt, keys: seq<Key>)
    returns (read: LineEditor.Outcome, ran: CommandLine.Outcome)
    requires editor.buf.Length == BUFLEN && editor.buf != crt.crtBuf as object && crt.Valid()
    modifies crt, crt.crtBuf, editor.buf
    ensures read.Line? ==>
              && 0 < read.used <= |keys|
              && var line, start := EditAll(keys[..read.used - 1]), old(crt.term).Run(Prompt(Some(PROMPT)));
                 && ran == CommandLine.Meaning(line)
                 && ShowsLine(start, start.Run(EchoAll(keys[..read.used - 1])), line)
                 && crt.term == start.Run(EchoAll(keys[..read.used - 1])).Putc(10)
    ensures !read.Line? ==> ran == CommandLine.NoCommand
  {
    hide ShowsLine, EditAll, EchoAll, Terminal.Run, Terminal.Putc, CommandLine.Meaning, CStr, HasNul, Prompt, IsLine;
    ghost var start := crt.term.Run(Prompt(Some(PROMPT)));
    RunKeepsScrollback(crt.term, Prompt(Some(PROMPT)));
    read := editor.Readline(Some(PROMPT), keys, crt);
    ran := CommandLine.NoCommand;
    if read.Line? {
      ghost var typed := keys[..read.used - 1];
      EditorAndScreenAgree(start, typed);
      LineIsString(EditAll(typed), editor.buf[..]);
      ran := CommandLine.RunCmd(editor.buf);
    }
  }
}
