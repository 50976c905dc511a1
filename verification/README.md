# Verified models of the JOS kernel's lab-1 code

This project models, in Dafny, the finished algorithms of a small teaching
kernel and proves what they do. Each module follows one part of the source:

| module | part of the kernel |
|---|---|
| `StabSearch`, `DebugInfo` | symbol lookup in the STABS debugging table (kern/kdebug.c) |
| `Screen`, `InputRing`, `Keyboard` | text screen, input buffer and scan-code machine (kern/console.c) |
| `LineEditor` | the line editor (lib/readline.c) |
| `PrintFormat`, `Directives`, `Numerals`, `RoundTrip` | formatted output and number parsing (lib/printfmt.c, lib/string.c) |
| `PageList` | the list of free pages (kern/pmap.c) |
| `Memory`, `CStrings` | memory and string primitives (lib/string.c) |
| `BootLoader` | the loader of the kernel image (boot/main.c) |
| `CommandLine`, `Monitor` | the command interpreter and its loop (kern/monitor.c) |
| `StreamSplitters` | line and packet extraction (gradelib.py) |
| `Machine` | integer ranges of the 32-bit target |

Code that changes state is modelled by classes and methods with loops, each
proved against a specification function or an abstract state; the lemmas then
say what that specification means over all inputs and all runs.

The main results:

* **Symbol search.** On every table the search ends and stays in bounds, and
  each round halves the range or is an exact hit. On a sorted table it agrees
  with a linear scan unless it meets a second exact hit after it has bumped its
  own address, a condition stated on a plain binary search; then it disagrees.
  At the last two addresses, where the bump wraps to 0, the search can be right
  by luck all the same, on an exact condition of its own. The header comment
  (kern/kdebug.c:31-35) is not what the code does in two cases: when every entry
  is above the address the answer still looks like a match, and two entries one
  apart can make it answer with the wrong one. `debuginfo_eip` built on it agrees
  with linear scans, down to the case in which a file's own entry is taken for a
  function, and to the line number that is read one region too late.
* **Console.** The 25x80 screen is at all times a window of a terminal of
  unbounded height, on which nothing ever moves. The line editor's buffer is what
  that terminal shows after every key, and corrections leave no trace. The input
  ring keeps bytes in order exactly as long as it was never overrun. The
  keyboard's state word is characterised by the history of scan codes.
* **Formatting.** `vprintfmt`, with its jumps and its step back on an unknown
  directive, prints what a directive-by-directive reading prescribes, and that
  reading undoes the writing of a directive, for every combination of modifiers
  (but `%.0s` prints the whole string, its zero being taken for a pad character).
  Numbers come back through `strtol` under an exact condition on every pad
  character and width: they fit into a `long`, and no padding but zeros stands
  after a sign or a prefix or is itself taken for a sign (one dash before a zero
  does no harm). So `%-2d` of 5, which prints "-5", does not come back, and
  neither does `%8p` of a short pointer.
* **Free list.** The loop over pointers to links is a stable partition in place.
* **Memory and boot.** Word-wise and byte-wise copies satisfy one specification
  for every overlap. Segments loaded in whole sectors are all intact, if none is
  empty, exactly if each starts at the same place in a sector in memory and on
  disk and none spoils an earlier one; the exact condition with empty segments is
  stated as well.
* **Splitters.** How a stream is cut into reads does not matter.

## Model

| member | source | states |
|---|---|---|
| StabSearch.StabBinsearch | kern/kdebug.c:51-94 | bounds on every table; on a sorted one, agreement with the linear scan if the search does not stray, disagreement if it does, and at the last two addresses the answer just before an entry at 2^32 - 1 with the condition for it to be right; rounds at most floor(log2 n) + 1 plus the exact hits, of which there is at most one without a collision |
| StabSearch.WalkBack | kern/kdebug.c:59-61 | the inner loop finds the last entry of the type in the range |
| StabSearch.BracketMeaning | kern/kdebug.c:31-48 | what the scan's answer says in its three cases, one of which the comment leaves out |
| StabSearch.CollisionNeedsNeighbours | kern/kdebug.c:75-80 | a collision needs entries of the type at the address and at the address plus one |
| StabSearch.CollisionExample | kern/kdebug.c:75-80 | two entries one apart collide: the search for the first one goes wrong |
| StabSearch.HarmlessNeighboursExample | kern/kdebug.c:72-74 | entries one apart need not collide |
| StabSearch.NextSound | kern/kdebug.c:56-82 | what one round keeps on a sorted table: until a second hit the range closes in on the address itself, afterwards an entry above it stays in the answer, unless the address wrapped to 0 |
| StabSearch.NextBudget | kern/kdebug.c:57-81 | a round halves the open range or is an exact hit |
| StabSearch.NextProgress | kern/kdebug.c:56-82 | the measure by which the search ends although an exact hit may leave its range as it is |
| StabSearch.NoMatchAnswer | kern/kdebug.c:84-85 | without an entry of the type the answer is the empty region |
| StabSearch.WrappedAnswer | kern/kdebug.c:75-93 | once the bumped address is 0 the answer is the place before an entry at 2^32 - 1, right only if the address is not that one and the match stands right there |
| StabSearch.SoundAnswer | kern/kdebug.c:86-93 | the last loop turns the closed range into the scan's answer, or not, as the hits say |
| DebugInfo.DebuginfoEip | kern/kdebug.c:104-202 | stays in bounds on every table; on a well-formed one returns and records exactly what the linear-scan description says, also when it fails |
| DebugInfo.UncoveredFile | kern/kdebug.c:138-148 | the search for the file leaves a sorted table if and only if the first entry is a source file above the address |
| DebugInfo.LocateBounds | kern/kdebug.c:138-177 | the three regions are nested inside the table |
| DebugInfo.FoundFunction | kern/kdebug.c:138-160 | file and function are the last ones at or below the address, each up to the next one; lines count from the function's start |
| DebugInfo.PhantomFunction | kern/kdebug.c:150-160 | functions that all start above the address make the file's own entry pass for the function |
| DebugInfo.PhantomExample | kern/kdebug.c:150-160 | a table whose only function starts further on is answered with the file's name |
| DebugInfo.LineEntry | kern/kdebug.c:170-178 | the line matched is the last at or below the offset; the number is read just before the next line entry, and the entry read for its number is a line entry exactly if the next entry is one or the region ends |
| DebugInfo.WrongLineExample | kern/kdebug.c:178 | a table on which the number comes from another kind of entry |
| DebugInfo.FoundFile | kern/kdebug.c:180-190 | the file name comes from the nearest preceding entry that names a file |
| DebugInfo.FoundParameters | kern/kdebug.c:193-199 | the parameters counted are the unbroken run strictly before the region's last entry |
| DebugInfo.FoundNameLength | kern/kdebug.c:167-168 | the name's length left behind runs to its colon or else to its NUL, and is 9 for the unknown name, also when no line was found |
| DebugInfo.FoundIff | kern/kdebug.c:121-177 | an answer is found exactly when the string table is valid, a file starts at or below the address and the region searched has a line entry |
| DebugInfo.NothingFound | kern/kdebug.c:111-144 | without an answer no line, file or parameters are recorded, and without a file nothing is |
| DebugInfo.NoFunction | kern/kdebug.c:160-166 | without functions in the file the whole file is searched for the line |
| DebugInfo.FindFileName | kern/kdebug.c:185-188 | the walk back stops at the last entry that names a file |
| DebugInfo.CountParameters | kern/kdebug.c:196-199 | the count is the length of the run of parameter entries |
| DebugInfo.NameLengthOf | kern/kdebug.c:167-168 | a name's length excludes what follows its colon |
| Screen.Crt.constructor | kern/console.c:126-151 | any initial screen is a window of some terminal |
| Screen.Crt.CgaPutc | kern/console.c:155-201 | the screen after a character is the window of the terminal after that character, the tab's re-entry included |
| Screen.Crt.Scroll | kern/console.c:186-194 | one row up with a blank row at the bottom |
| Screen.ShowsFollow | kern/console.c:186-194 | scrolling the screen is moving the window one row down |
| Screen.Crt.PutAll | kern/console.c:436-439 | the same for whole runs |
| Screen.RunKeepsScrollback | kern/console.c:155-201 | over every run the cursor stays in the window and what scrolled out never changes |
| Screen.RunText | kern/console.c:181-183 | text goes to consecutive cells and nowhere else, however often the screen scrolls |
| Screen.TabIsFiveSpaces | kern/console.c:174-180 | a tab is five spaces, whatever the column: five blank cells, the cursor five further on, nothing else changed, also across a scroll |
| Screen.RowControls | kern/console.c:168-173 | a newline goes to the start of the next row, a carriage return to the start of this one, and neither changes a cell |
| Screen.BackspaceLaw | kern/console.c:162-167 | a backspace blanks the cell before the cursor, unless the cursor is at the start of the window |
| Screen.WindowMoves | kern/console.c:186-194 | the window moves by one row, and only when the cursor leaves it |
| LineEditor.EditorAndScreenAgree | lib/readline.c:14-35 | after all keys the screen shows exactly the buffer from where the prompt left the cursor, all of it inside the window |
| LineEditor.EchoErased | lib/readline.c:21-24 | the screen's guard never holds back an erase |
| LineEditor.EchoTyped | lib/readline.c:25-28 | a line within the limit never scrolls its own start away |
| LineEditor.CorrectionsLeaveNoTrace | lib/readline.c:14-35 | a corrected line looks like the same line typed straight away |
| LineEditor.EraseKeys | lib/readline.c:21-24 | 8 and 0x7f take the last byte back; on an empty line 0x7f is typed |
| LineEditor.IgnoredKeys | lib/readline.c:21-28 | other codes below a space, and bytes beyond 1023, leave the line alone |
| LineEditor.TextAndErases | lib/readline.c:21-28 | text edits to itself, and n erase keys of either kind take its last n bytes back |
| LineEditor.PromptPrints | lib/readline.c:11-12 | the prompt is printed byte for byte |
| LineEditor.ErrorMessageIs | lib/readline.c:18-20 | a device error is printed with its message |
| LineEditor.Editor.Readline | lib/readline.c:7-36 | buffer and screen after any keys, up to the first that is negative, 10 or 13; the NUL-terminated line returned |
| InputRing.Console.ConsIntr | kern/console.c:380-391 | the readable bytes are the last (p + k) mod 512 of the p pending and k new ones |
| InputRing.Console.ConsGetc | kern/console.c:394-412 | the bytes of both devices join the pending ones, the oldest of all is returned, and 0 means that there is none |
| InputRing.Console.Serve | kern/console.c:372-412 | over a whole run of interrupts and reads: what was read and is pending is the history's, in the order fed if and only if the ring was never overrun, and no byte is unaccounted for |
| InputRing.KeptAppend | kern/console.c:387-389 | feeding in pieces keeps what feeding at once keeps |
| InputRing.FedByRead | kern/console.c:394-402 | a read takes in the bytes of the serial port and then those of the keyboard |
| InputRing.BytesConserved | kern/console.c:380-412 | bytes read, pending and lost by overruns of 512 add up over every run |
| InputRing.InOrderUnlessOverrun | kern/console.c:380-412 | reads and pending bytes are the bytes fed in order if and only if there was no overrun |
| Keyboard.Controller.KbdProcData | kern/console.c:307-352 | the state word follows the history of scan codes; the result is the key's character, and the reboot keys are control, alternate and delete |
| Keyboard.Scan | kern/console.c:316-351 | one byte: the new state word describes the history with the byte added, and the result is the character of the key pressed, nothing, or the reboot |
| Keyboard.HeldNext | kern/console.c:322-333 | a modifier is held exactly if its last event was a make |
| Keyboard.TracksBreak | kern/console.c:322-326 | a release keeps the state word and the history in step |
| Keyboard.TracksMake | kern/console.c:327-334 | so does a press |
| Keyboard.MapsAgree | kern/console.c:235-294 | the key maps agree about letters, and one key deletes |
| Keyboard.LetterCase | kern/console.c:336-342 | a letter is upper case exactly if shift differs from caps lock; control gives its code |
| Keyboard.CapsOnlyOnLetters | kern/console.c:337-342 | caps lock changes nothing else |
| Keyboard.AnswerMeaning | kern/console.c:316-351 | by scan codes: nothing for a release, letters by control, shift and caps lock, a reboot for control, alternate and the extended 0x53 |
| Keyboard.StateWord | kern/console.c:206-233 | each bit of the state word and the keys it stands for |
| Keyboard.DigitKeys | kern/console.c:235-275 | the keys of the digits' row give their characters, plain and with shift |
| Keyboard.UpperKeys | kern/console.c:235-275 | so do the keys from the tabulator to enter |
| Keyboard.HomeKeys | kern/console.c:235-275 | and those of the home row |
| Keyboard.LowerKeys | kern/console.c:235-275 | and those of the lowest row |
| Keyboard.NumberPadKeys | kern/console.c:235-275 | and those of the number pad, while the function keys give nothing |
| Keyboard.ControlKeys | kern/console.c:277-290 | the keys besides letters that give a code with control |
| Keyboard.ExtendedKeys | kern/console.c:248-294 | the codes of the arrow keys, their neighbours and the pad's enter and slash, in each map |
| Numerals.Printnum | lib/printfmt.c:37-51 | the digits in the base, padded on the left to the width, a 32-bit integer that is counted down |
| Numerals.DigitsValue | lib/printfmt.c:40-50 | the digits denote the number |
| Numerals.HexDigit | lib/printfmt.c:50 | digits are printed as 0 to 9 and the small letters a to f |
| Numerals.DigitAt | lib/printfmt.c:40-50 | each digit is the number divided by a power of the base, modulo the base, and no zero leads |
| Numerals.Strtol | lib/string.c:227-271 | blanks, sign, prefix and the longest digit string give the value and the end; the value wraps to 32 bits |
| Numerals.ReadDigits | lib/string.c:250-266 | the digit loop reads the longest run and its value |
| RoundTrip.DirectiveRoundTrip | lib/printfmt.c:100-230 | any numeric directive of any format comes back through `strtol` if and only if its number fits into a `long` and its padding is readable |
| RoundTrip.DirectivePads | lib/printfmt.c:93-152 | no directive pads with anything but a space, a zero or a dash |
| RoundTrip.IntRoundTrip | lib/printfmt.c:193-230 | `%d` comes back if and only if the number fits and there is no padding but zeros, or blanks before a number without a sign, or one dash before a zero |
| RoundTrip.UnsignedRoundTrip | lib/printfmt.c:203-230 | `%u`, `%o` and `%x` come back in their base if and only if the number is below 2^31 and no dash is taken for its sign; larger ones come back modulo 2^32 |
| RoundTrip.PointerRoundTrip | lib/printfmt.c:215-230 | `%p` comes back with base 16 or 0 if and only if it is below 2^31 and only zeros follow its prefix |
| RoundTrip.DashExample | lib/printfmt.c:110-112 | `%-2d` prints 5 as "-5", which reads back as -5 |
| RoundTrip.HarmfulPadding | lib/string.c:232-270 | what `strtol` reads instead: the negated number after one dash, nothing after a sign and more padding |
| RoundTrip.ZeroPaddedFormatRoundTrip | lib/printfmt.c:114-153 | the same through a whole format with any width written into it |
| RoundTrip.NumeralRead | lib/string.c:232-270 | what `strtol` makes of blanks, a sign and digits |
| RoundTrip.StrtolReads | lib/string.c:227-271 | spaces and tabs, either sign, the prefixes 0x and 0, digits of either case and anything behind them: value and end |
| PrintFormat.Vprintfmt | lib/printfmt.c:84-245 | for every format the characters are those of the directive-by-directive specification, and nothing past the NUL is read |
| PrintFormat.ReadModifiers | lib/printfmt.c:100-158 | the jumps among the modifiers compute the directive's flags |
| Directives.ModifiersDecode | lib/printfmt.c:100-158 | the modifiers read are those written, for every combination of pad character, number sign, width, precision and long flags, each number written out or taken from an argument |
| Directives.UnknownDirective | lib/printfmt.c:237-242 | with any other conversion they are printed as they stand, and the asterisks' arguments stay taken |
| Directives.StringDirective | lib/printfmt.c:177-191 | `%s` anywhere in a format: which bytes are printed, how they are justified, and which argument is next |
| Directives.PrecisionArgument | lib/printfmt.c:141-150 | `%.*s` prints the first min(n, length) bytes and goes on behind both arguments |
| Directives.PrecisionWritten | lib/printfmt.c:118-144 | so does a precision written out, unless it is 0 |
| Directives.PrecisionZero | lib/printfmt.c:114-116 | `%.0s` prints the whole string, because the zero is taken for the pad character |
| Directives.NumberDirective | lib/printfmt.c:193-230 | the numeric conversions with any modifiers: the words taken, the sign, the base |
| Directives.OtherDirectives | lib/printfmt.c:160-235 | the other conversions |
| Directives.PlainNumberReads | lib/printfmt.c:193-230 | `%d`, `%u`, `%o`, `%x` and `%p` come back through `strtol` in bases 10, 10, 8, 16 and 0 |
| Directives.ErrorMessages | lib/printfmt.c:23-31 | the messages of `%e` |
| PrintFormat.Convert | lib/printfmt.c:160-235 | each conversion prints its rendering and takes its arguments |
| PrintFormat.FormatRewound | lib/printfmt.c:237-242 | stepping back after an unknown conversion prints the directive literally, its asterisk arguments staying taken |
| PrintFormat.TruncatedDirective | lib/printfmt.c:237-242 | a format that ends inside a directive prints it as it stands |
| PrintFormat.PrintString | lib/printfmt.c:177-191 | `%s` prints the string cut to the precision and padded to the width |
| PrintFormat.StringWidth | lib/printfmt.c:177-191 | it contributes max(width, min(length, precision)) characters, but width + 2^32 if counting the width down passes -2^31 |
| PrintFormat.NumberWidth | lib/printfmt.c:37-51 | a number contributes max(width, digits) characters, with the same exception |
| PrintFormat.NestedErrorFormats | lib/printfmt.c:165-174 | the two formats nested in `%e` print what the conversion writes |
| PrintFormat.SprintBuf.Sprintputch | lib/printfmt.c:262-267 | counts every character and stores it while there is room |
| PrintFormat.Vsnprintf | lib/printfmt.c:269-283 | stores the first n - 1 bytes of the output and a NUL, touches no other cell, returns the full length as a 32-bit integer |
| PageList.FreeList.PageInit | kern/pmap.c:168-173 | links all pages in front of the list, the last one first |
| PageList.FreeList.MoveLowPagesFirst | kern/pmap.c:237-246 | relinks any acyclic list in place into its low pages and then its high pages, each in their order |
| PageList.FreeList.ReorderForCheck | kern/pmap.c:224-247 | panics on the empty list and reorders only while low memory alone is mapped |
| PageList.MoveOne | kern/pmap.c:239-243 | one round appends a page to its list and disturbs neither the other list nor the pages to come |
| PageList.Join | kern/pmap.c:244-246 | the three final stores give one list, also if either part is empty |
| PageList.LowFirstSamePages | kern/pmap.c:237-246 | no page is lost or repeated |
| PageList.OrderAfterInit | kern/pmap.c:168-173 | after initialisation: low pages descending, then high pages descending |
| Memory.Memmove | lib/string.c:135-162 | the bytes arrive for every overlap, by words or by bytes |
| Memory.MemmoveBytes | lib/string.c:179-196 | the plain C loops give the same memory |
| Memory.MovedUp | lib/string.c:154-159 | upward copying reads original bytes |
| Memory.MovedDown | lib/string.c:142-150 | downward copying reads original bytes |
| Memory.Memset | lib/string.c:116-133 | filling by words equals filling by bytes |
| Memory.MemsetBytes | lib/string.c:166-177 | the plain C loop fills the same up to and including 2 GB and nothing beyond |
| CStrings.Strcmp | lib/string.c:74-79 | the difference at the first differing byte |
| CStrings.Strncmp | lib/string.c:81-89 | the comparison of the two strings cut to n bytes |
| CStrings.CompareMeaning | lib/string.c:74-79 | the sign is the order by unsigned bytes; zero means equal; the order is antisymmetric |
| CStrings.CompareTransitive | lib/string.c:74-79 | and transitive |
| CStrings.Strfind | lib/string.c:107-113 | the first occurrence or the end of the string |
| BootLoader.ReadSeg | boot/main.c:72-95 | writes whole sectors around the bytes asked for and nothing else |
| BootLoader.Bootmain | boot/main.c:38-66 | memory at the jump, byte by byte: the last segment that wrote there counts |
| BootLoader.SparedIsIntact | boot/main.c:49-55 | segments that spare each other are intact despite the reads at both ends |
| BootLoader.IntactIffConsistent | boot/main.c:84-86 | segments that are not empty are all intact if and only if each is congruent modulo 512 in memory and on disk and none spoils an earlier one |
| BootLoader.IntactIffRecoverable | boot/main.c:72-95 | the exact condition for any segments: all that are not empty are congruent, and wherever one is spoilt a later one writes once more |
| BootLoader.ConsistentIsRecoverable | boot/main.c:49-55 | segments that are congruent and spare each other meet it, and without empty segments it says just that |
| BootLoader.SourceCongruent | boot/main.c:80-86 | loading in sectors keeps every byte's place in its sector |
| BootLoader.SeparateSectorsSpare | boot/main.c:84-86 | segments that end before the sector of a later one satisfy it |
| BootLoader.KernelLoaded | boot/main.c:42-59 | then every segment is in memory as it is on disk |
| BootLoader.RestOfMemory | boot/main.c:42-44 | elsewhere there is the image's first page at 0x10000, and what was there before |
| BootLoader.HeaderDecodes | inc/elf.h:6-22 | the header's fields are taken from where the structure has them |
| BootLoader.TableDecodes | inc/elf.h:24-33 | so are those of the program headers, in their order |
| BootLoader.MagicBytes | inc/elf.h:4 | the magic number is 0x7f and the letters ELF |
| CommandLine.RunCmd | kern/monitor.c:97-133 | which command is called with which arguments, and that only whitespace is overwritten |
| CommandLine.ParseArguments | kern/monitor.c:103-122 | argc and argv are the maximal runs of other characters, or there are 16 or more |
| CommandLine.ArgumentIsWord | kern/monitor.c:118-120 | in the overwritten line each argument is a NUL-terminated copy of its run |
| CommandLine.SplitUndoesJoin | kern/monitor.c:103-122 | words joined by whitespace, however much, come apart as those words |
| CommandLine.MeaningOfWords | kern/monitor.c:103-132 | the first word chooses among help, kerninfo and backtrace, argc is the number of words, argv points to each and ends in a null pointer; 16 words are too many |
| CommandLine.FindCommand | kern/monitor.c:127-130 | the command is the one of that name, or none has it |
| Monitor.ReadAndRun | kern/monitor.c:143-148 | the command run is the one the edited line on the screen asks for |
| Monitor.LineIsString | lib/readline.c:29-33 | the returned buffer is the edited line |
| StreamSplitters.LineMonitor.HandleOutput | gradelib.py:531-537 | one read delivers the lines completed by it and keeps the rest |
| StreamSplitters.LineMonitor.HandleAll | gradelib.py:525-539 | over all reads the lines are those of the whole stream |
| StreamSplitters.LinesAppend | gradelib.py:531-537 | splitting early loses nothing |
| StreamSplitters.LinesRoundTrip | gradelib.py:531-537 | what was printed as lines comes out as those lines, and an unfinished one stays |
| StreamSplitters.GdbClient.HandleRead | gradelib.py:326-346 | one read takes out the packets it completes, up to a breakpoint |
| StreamSplitters.GdbClient.HandleAll | gradelib.py:326-346 | over all reads the packets are those of the whole stream up to the first breakpoint |
| StreamSplitters.SearchExtends | gradelib.py:338 | the leftmost packet in a prefix is the leftmost in every extension |
| StreamSplitters.DrainAppend | gradelib.py:337-346 | draining early loses nothing |
| StreamSplitters.PacketRead | gradelib.py:338-342 | a packet comes out whole when no dollar sign stands before it |
| StreamSplitters.PacketShape | gradelib.py:338-342 | whatever comes out stood between a dollar sign and a hash with two letters or digits, and nothing comes out only if nothing stands so |
| StreamSplitters.DrainStops | gradelib.py:337-346 | packets are taken out up to the first that starts with T05 |
| StreamSplitters.PacketsRoundTrip | gradelib.py:337-346 | what was sent as packets comes out as those packets |

## Left out

- DebugInfo.DebuginfoEip: on a table that is not well-formed, requires that the first entry is neither a source file nor a line entry, as the header entry the assembler puts there; on a well-formed one only that it is not a source file above the address, in which case the code reads the entry before the table.
- Screen.Crt.CgaPutc: the copies sent to the serial and the parallel port and the cursor registers are not modelled, and the initial cursor is assumed to be on the screen.
- LineEditor.Editor.Readline: the keys are given as a sequence; the polling of `getchar` is not modelled, and `iscons` is the constant it returns.
- InputRing.Console.ConsIntr: the device routine is the sequence of bytes it returns before its -1; whether a serial port exists is the caller's choice of an empty sequence.
- Keyboard.Controller.KbdProcData: the status port is the absence of a byte, and the message and the port write of a reboot are one result.
- PrintFormat.Vprintfmt: `putch` appears as the sequence of characters handed to it; arguments are the words of an i386 stack, and strings are shorter than 1 GB and formats shorter than 2 GB.
- PrintFormat.Convert: negating the smallest 32-bit number in `%e` is undefined in C, would look before the table of messages, and here gives the mathematical value; other signed overflow wraps, that of a width counted down below -2^31 and of the count of characters included, though C leaves it undefined.
- Directives.StringDirective: requires a width of at least -2^30; below that counting it down may wrap, as `PrintFormat.StringWidth` states.
- Numerals.Strtol: overflow is undefined in C and here wraps as on the machine.
- Memory.Memmove: a word move is one step that reads four bytes before it writes them; addresses do not wrap.
- Memory.MemsetBytes: at exactly 2^31 bytes the counter's overflow is undefined in C and here wraps as on the machine.
- BootLoader.ReadSect: a sector read is one copy; sector numbers above 28 bits and the wait for the disk are not modelled.
- BootLoader.Bootmain: requires that the program headers lie in the header page and that loading a segment writes neither over that page nor past the end of memory.
- CommandLine.RunCmd: what the commands do and the messages printed are not modelled.
- StreamSplitters.LineMonitor.HandleOutput: decoding is left out, and the regular expression is any predicate on lines; a callback that raises an exception is not modelled.
- StreamSplitters.GdbClient.HandleRead: decoding to ASCII works byte by byte and is left out; so are socket errors, which the code treats like the end of the stream.
- The page allocator's unfilled functions, memory detection, port I/O and device setup, the backtrace, the panic and trap paths, the page table, the build scripts and the control of QEMU and GDB.
- The return count of `vcprintf`, which advances a pointer instead of the counter.
