# JOS lab 1 kernel: a Dafny model

This project models the algorithms of a small teaching kernel and proves what they
promise. It covers eight source files, in the order of difficulty of their proofs.

- `StabSearch.dfy`, `DebugInfo.dfy`: the symbol search of `kern/kdebug.c`. A binary
  search over interleaved record types that scans backwards in each probe and raises
  its own key on an exact hit; two such searches are nested to describe an address.
- `Keymaps.dfy`, `Keyboard.dfy`, `InputRing.dfy`, `Polling.dfy`, `Terminal.dfy`,
  `Screen.dfy`, `LineEditor.dfy`, `Console.dfy`, `Session.dfy`: the console path of
  `kern/console.c`, `lib/readline.c` and `kern/monitor.c`, from scan codes through the
  512-byte ring and the line editor to the 80x25 screen in video memory and to the
  commands of the monitor's loop.
- `FormatSpec.dfy`, `Printfmt.dfy`, `FormatLaws.dfy`, `FormatMeaning.dfy`: the format
  interpreter of `lib/printfmt.c` on its two sinks, the bounded buffer of `vsnprintf` and the screen
  behind `kern/printf.c`'s `cprintf`. A `va_list` is a sequence of 32-bit words, 64-bit
  words and strings; a call whose arguments do not match is `Undefined`.
- `Strings.dfy`: C strings and character codes, and the functions of `lib/string.c`
  that measure, compare and search strings.
- `Strtol.dfy`, `NumberMeaning.dfy`, `RoundTrip.dfy`: the number parser of
  `lib/string.c`, and exactly when it reads back what the formatter printed.
- `Memory.dfy`: `memmove` and `memset` of `lib/string.c` on the string instructions,
  with byte memory and the direction flag. The screen scrolls with this `memmove`.
- `Bootloader.dfy`: the sector-rounded segment loading of `boot/main.c`.
- `Monitor.dfy`: the in-place tokenizer and command lookup of `kern/monitor.c`.

Code that changes state in place is a class or a method over arrays, proved against a
specification function; the laws are lemmas about those functions. `CTypes.dfy` has
the fixed-width integers.

## Where the code and its comments differ

- `stab_binsearch` says that left > right means the address is in no record. The code
  gives left > right only when there is no record of the type at all; if all of them
  lie above the address it answers left <= right (`StabSearch.ContainedTest`, and
  `AllAboveExample`).
- After an exact hit on an address the search goes on for the next address, and a
  record there may be taken instead. `StabSearch.Overrun` says when: plain bisection
  lands on the address while a record at the next one is still in the window. The key
  is also a 32-bit integer: a hit on the last address makes it wrap to 0, and the
  result is then the index before that record. On a sorted table the documented result
  comes out if and only if `StabSearch.Kept` holds: the address is not a recorded last
  address, and there is no overrun. One overrun undoes itself: from the last address
  but one, if bisection goes on to land directly behind a record at the address.
  `OverrunExample` and `UndoneExample` are searches of either kind.
- `debuginfo_eip` reads the record before the table when record 0 is a source file
  that starts above the address: the model's outcome `OutOfTable`, for which
  `DebuginfoEip` states the exact condition. If every function of a file starts above
  the address, it reports the file's own record as the function (`FunctionGenuine`).
  `OutOfTableExample` and `FileAsFunctionExample` are addresses where this happens.
- Printing a number and parsing it back is the identity only for numbers that fit
  `strtol`'s long and padding that it skips or absorbs; the `PrintThenParse...` members
  say which, in both directions.
- A precision of 0 cannot be written in a format: its '0' is taken as the flag for zero
  padding, so `%.0s` prints the whole string (`FormatMeaning.ZeroPrecision`).
- `cprintf` returns 0: its `putch` advances the pointer to the count instead of the
  count (`Printfmt.Vcprintf`).
- A DEL on an empty line is stored, not ignored (`LineEditor.DelOnEmptyIsStored`).
- The control-key table has HOME at 0x97, the other two at 0xC7 (`Keymaps.CtlMap`).

## Model

| member | source | states |
|---|---|---|
| StabSearch.StabBinsearch | kern/kdebug.c:50-94 | terminates on every table, sorted or not, within floor(log2 n) + 1 probes plus one per exact hit; left > right exactly when no record has the type; right is just before a record of the type, and none stands between left and right; on a sorted table the documented result comes out if and only if the guard Kept holds, and otherwise a later record reached through consecutive addresses or the index before a record at the last address |
| StabSearch.SearchLoop | kern/kdebug.c:56-82 | the loop ends on every table, with the invariants of the general and of the sorted case |
| StabSearch.Probe | kern/kdebug.c:57-81 | one iteration, as a function of the window and the last record of the type in its lower half |
| StabSearch.ScanBack | kern/kdebug.c:59-61 | the backward scan stops at the last record of the type, or just below the range |
| StabSearch.AfterPass | kern/kdebug.c:84-93 | after the loop, on any table, left is the last record of the type up to right, unless it stays at the region's start or is right itself; or right is below left if no record was seen |
| StabSearch.EmptyWindow | kern/kdebug.c:84-93 | before a wrap of the key, the after-pass turns an empty window into the documented result after at most one hit, and into an overshoot after more |
| StabSearch.AnswerIffKept | kern/kdebug.c:30-34 | on a sorted table the way the search ends is the documented result if and only if the guard holds |
| StabSearch.LandingsSettled | kern/kdebug.c:74-81 | without a wrap, there is more than one hit exactly on an overrun |
| StabSearch.NextWrapped | kern/kdebug.c:70-81 | once the key has wrapped to 0, every probe moves the right end down to before a record at the last address, and none hits |
| StabSearch.BelowTopAnswer | kern/kdebug.c:74-81 | from the last address but one, the result of a wrapped key is the documented one exactly if it is a record at the address |
| StabSearch.BelowTopIsNoAnswer | kern/kdebug.c:74-81 | for any other address, the last one included, the result of a wrapped key is never the documented one |
| StabSearch.Step | kern/kdebug.c:67-81 | every probe keeps the invariants and either halves the window or raises the key towards an absent value |
| StabSearch.OvershotIsNoAnswer | kern/kdebug.c:30-34 | an overshot result is never the documented one |
| StabSearch.AnswerUnique | kern/kdebug.c:30-34 | the documented result is unique |
| StabSearch.NoNeighbourNoOverrun | kern/kdebug.c:74-80 | no record at addr + 1 beside one at addr is enough to exclude an overrun |
| StabSearch.OverrunExample | kern/kdebug.c:74-80 | the search for the first of two neighbouring records returns the second, while the bracket of the first exists |
| StabSearch.UndoneExample | kern/kdebug.c:74-80 | the same search at the very top of memory wraps its key and returns the bracket |
| StabSearch.ContainedTest | kern/kdebug.c:30-34 | the exact test on the result for whether any record contains the address, which left <= right is not |
| StabSearch.AllAboveExample | kern/kdebug.c:30-34 | on one record above the address the search returns -1, -1, so left <= right although nothing contains it |
| DebugInfo.DebuginfoEip | kern/kdebug.c:104-206 | every table access is in bounds unless the outcome is OutOfTable; on a table searchable for files, found exactly if a file other than record 0 starts at or below addr, and OutOfTable exactly if record 0 is a file above it; nested brackets, name, file, and argument count |
| DebugInfo.DescribeFunction | kern/kdebug.c:146-203 | the function search inside the file's region and the five fields it decides, with the default answers when there is no function |
| DebugInfo.FileAt | kern/kdebug.c:184-194 | the nearest record at or before the start, inside the file, that is N_SOL or a non-zero N_SO, names the file |
| DebugInfo.CountParameters | kern/kdebug.c:199-203 | narg is the run of N_PSYM after the function, strictly before its end |
| Strings.Strfind | lib/string.c:111-118 | the first occurrence, or the terminating NUL |
| DebugInfo.SearchableIfNoNeighbour | kern/kdebug.c:50-94 | sorted, below the top of memory and without a neighbour suffices for the documented result |
| DebugInfo.FunctionGenuine | kern/kdebug.c:150-162 | the reported function contains addr exactly if some function of the file starts at or below it; otherwise it is the file's record |
| DebugInfo.OutOfTableExample | kern/kdebug.c:139-144 | with the first file above the address the lookup goes on with record -1 |
| DebugInfo.FileAsFunctionExample | kern/kdebug.c:150-162 | with every function of the file above the address, the file's own address is reported as the function's |
| DebugInfo.LookupExample | kern/kdebug.c:139-203 | on a table and strings given by their bytes: the included file, the function's name and length, its address and its two parameters |
| DebugInfo.OtherExamples | kern/kdebug.c:121-133 | a file record of value 0 names no file; addresses below 0xef800000 panic |
| Memory.Machine.Memmove | lib/string.c:141-169 | for every overlap and alignment the target holds the old source, nothing else changes, and the direction flag ends clear |
| Memory.Machine.MemmovePortable | lib/string.c:187-205 | the plain byte loops compute the same move |
| Memory.Machine.RepMovs | lib/string.c:153-166 | the repeated string move is unit-by-unit copying in the direction of the flag |
| Memory.MovePieces | lib/string.c:141-169 | the target is the old source, what stands before and after it is as it was |
| Memory.FillPieces | lib/string.c:121-139 | the filled part is n copies of the byte, what stands before and after it is as it was |
| Memory.MoveUp | lib/string.c:160-167 | upward copying by bytes or words is a move unless the target starts inside the source |
| Memory.MoveDown | lib/string.c:149-157 | downward copying is a move unless the source starts inside the target |
| Memory.Machine.Memset | lib/string.c:121-139 | fills exactly n bytes with the low byte of c on both the word and the byte path |
| Memory.ReplicatedWord | lib/string.c:129-130 | the shifted and or-ed word is four copies of the byte |
| Terminal.HistoryIsFinal | kern/console.c:195-202 | over any character sequence, lines that have scrolled off never change or come back |
| Terminal.TextOnTape | kern/console.c:189-202 | plain text of any length stands on the tape in order, however often it scrolls |
| Terminal.EraseUndoesGlyph | kern/console.c:170-175 | backspace after a glyph returns the cursor and changes only that cell, to a blank |
| Terminal.LineMoves | kern/console.c:176-181 | line feed and carriage return move to the start of the next and of this line and write no cell |
| Terminal.TabIsFiveSpaces | kern/console.c:182-188 | a tab leaves five blanks from the cursor on and moves the cursor by five, whatever scrolls |
| Terminal.CellContents | kern/console.c:165-167 | a character without attribute stands in its cell with attribute 0x07, one with an attribute as it is |
| Terminal.ScreenSize | kern/console.c:170-175 | 25 lines of 80 cells; backspace at the top does nothing, elsewhere it blanks the cell before |
| Terminal.LineFeedAtTheEdge | kern/console.c:195-202 | a line feed scrolls exactly on the last line, and the new line is blank |
| Terminal.GlyphAtTheEdge | kern/console.c:195-202 | a glyph scrolls exactly in the last cell |
| Screen.Display.CgaPutc | kern/console.c:162-209 | video memory stays the window of the unbounded terminal at its scroll offset and crt_pos the cursor in it, below CRT_SIZE; memory outside the cells is untouched |
| Screen.Display.ScrollUp | kern/console.c:195-200 | the cells move up one line by memmove and the last line becomes blank |
| Screen.ScrolledCells | kern/console.c:198 | moving the bytes by 160 moves the cells by one line |
| Screen.CellBytes | kern/console.c:190 | a cell is two bytes in memory, the character below the attribute |
| Screen.Display.Erase | kern/console.c:170-175 | backspace on the cells matches the terminal's, and stops at position 0 |
| Screen.Display.constructor | kern/console.c:132-158 | a fresh display is the terminal whose tape is what video memory holds |
| Keymaps.LetterKeys | kern/console.c:243-302 | on letter keys the three tables differ by case and control bits only, and no other key gives a letter |
| Keymaps.DeleteKey | kern/console.c:243-302 | KEY_DEL comes from code 0xD3 only, in all three tables |
| Keyboard.KeyboardDriver.KbdProcData | kern/console.c:315-365 | keeps every flag at its meaning over the whole byte history; the character; reboots exactly on prefixed 0x53 with control and alt held |
| Keyboard.FlagStep | kern/console.c:331-347 | each flag's update matches its history: last make without a later break, parity of unprefixed lock presses, last byte 0xE0 |
| Keyboard.LetterCase | kern/console.c:349-355 | without control, a letter is upper case exactly when shift differs from caps lock; with control it is the control code |
| Keyboard.CapsOnlyLetters | kern/console.c:350-355 | caps lock turns the case of letters and changes no other character |
| Keyboard.SilentCodes | kern/console.c:331-342 | breaks, the prefix and the lock key type nothing |
| Keyboard.SilentKeys | kern/console.c:243-302 | nor do the function keys, the flag keys and unused codes |
| Keyboard.PrefixedKeys | kern/console.c:256-261 | the characters of the keys behind the prefix |
| Keyboard.ControlKeys | kern/console.c:286-302 | what the keys other than letters type with control held |
| Polling.NumberKeys | kern/console.c:243-280 | the number keys type 1234567890-= and, with shift, !@#$%^&*()_+ |
| Polling.TopRow | kern/console.c:243-280 | the keys of the top row of letters, with and without shift |
| Polling.HomeRow | kern/console.c:243-280 | the keys of the middle row |
| Polling.BottomRow | kern/console.c:243-280 | the keys of the bottom row |
| Polling.Keypad | kern/console.c:243-280 | the keys of the keypad |
| Polling.OtherKeys | kern/console.c:243-280 | escape, backspace, tab, Enter, the keypad's star and the space bar |
| InputRing.Ring.Store | kern/console.c:400-406 | appends a non-zero byte to the queue, or empties it when 511 are unread, and adds the arrival to the history that the laws speak of |
| InputRing.Ring.Take | kern/console.c:421-428 | delivers the oldest byte, 0 exactly when the queue is empty |
| InputRing.Capacity | kern/console.c:395-407 | 511 bytes are held, the next one empties the ring, zeros are not stored |
| InputRing.LossExact | kern/console.c:395-429 | over every run, delivered plus unread plus 512 per overflow is all that arrived |
| InputRing.FifoIffNoOverflow | kern/console.c:395-429 | over every run, delivery is exact first-in-first-out if and only if no overflow happens |
| InputRing.Account | kern/console.c:395-429 | both laws for the history of any ring of the program |
| InputRing.RoomIsEnough | kern/console.c:385-429 | unread and arriving bytes together below 512 exclude an overflow |
| LineEditor.PlainTextKept | lib/readline.c:26-29 | plain text is returned as typed, cut at 1023 |
| LineEditor.OneMoreCharacter | lib/readline.c:22-29 | backspace and DEL take the last character if there is one; another character from 0x20 on is appended below 1023; anything else changes nothing |
| LineEditor.ControlIgnored | lib/readline.c:26 | control characters other than backspace are ignored |
| LineEditor.NoControls | lib/readline.c:26 | no byte of the line is ever below 0x20 |
| LineEditor.BackspacesErase | lib/readline.c:22-25 | n backspaces take back the last n kept characters of any input and stop at an empty line |
| LineEditor.TypeAndErase | lib/readline.c:22-29 | typing text that fits and erasing it with either key leaves the line as it was |
| LineEditor.DelOnEmptyIsStored | lib/readline.c:22-29 | DEL on an empty line is kept, backspace is not |
| LineEditor.EchoKeepsShown | lib/readline.c:22-29 | every echo keeps the line after the prompt on the tape and wholly on screen, and what was before it unchanged |
| LineEditor.GlyphKeepsShown | lib/readline.c:26-29 | a stored character keeps the whole line on screen through a scroll, since it is shorter than 1024 |
| LineEditor.EchoKeepsBlank | lib/readline.c:22-29 | every echo, an erasure in particular, leaves the cells behind the cursor blank |
| LineEditor.RunKeepsBlank | kern/console.c:170-202 | so does any output without carriage returns, through tabs, line feeds and scrolls |
| Console.ConsoleDriver.Readline | lib/readline.c:7-37 | the line is the fold of the characters taken from getchar, NUL-terminated, at most 1023 long and without control characters; whenever it stops, exactly the line stands after the prompt with the cursor behind it, and blanks from there on if they were there before; its inputs are the first of the stream that the polls bring, overflows included; it stops without a line only if that stream is exhausted or a poll reboots |
| Console.ConsoleDriver.EditChar | lib/readline.c:22-29 | one turn of the loop: buffer and screen change together |
| Console.ConsoleDriver.GetChar | kern/console.c:461-469 | never returns 0; returns the next byte of the stream that the ring and the polls to come hold, after as many polls as it takes; waits for ever only if that stream is empty |
| Console.ConsoleDriver.ConsGetc | kern/console.c:410-429 | polls both devices, which brings their bytes in order and advances the keyboard's flags, then delivers one byte or 0 |
| Console.ConsoleDriver.KbdIntr | kern/console.c:395-407 | stores exactly the characters typed by the pending scan codes, in order |
| Console.ConsoleDriver.SerialIntr | kern/console.c:58-63 | stores exactly the non-zero serial bytes |
| Polling.LettersArrive | kern/console.c:331-364 | pressing and releasing letter keys one after another types those letters and leaves the flags as they were |
| Polling.PolledMeans | kern/console.c:410-429 | after polls without a reboot, a first part of the schedule is gone, the flags are those after its codes, and exactly what it brings has arrived |
| Polling.PollsDoNotMatter | kern/console.c:395-429 | on a keyboard alone only the scan codes in a row matter, not how the polls cut them |
| Polling.SerialInOrder | kern/console.c:395-407 | serial bytes without a zero arrive as they are, in order |
| Polling.ZeroSkipped | kern/console.c:401-402 | a zero among them is left out |
| Polling.SerialThenKeyboard | kern/console.c:418-419 | in one poll the serial bytes come first, and then what the keyboard types |
| Polling.SerialArrives | kern/console.c:50-63 | on the serial line alone only the bytes in a row matter, not how the polls cut them |
| Polling.DeliveredIffRoom | kern/console.c:395-429 | over a whole schedule, with one read after each poll, what getchar delivers is what was unread and what arrives, in order, if and only if every poll finds room in the ring |
| Polling.FewFindRoom | kern/console.c:395-429 | fewer than 512 bytes in all always find room |
| Session.MonitorTurn | kern/monitor.c:119-124 | the prompt "K> " and then the edited line stand on the screen; its words decide the command, and its characters are the first of the stream; nothing is left behind the cursor if nothing was |
| Session.MonitorLoop | kern/monitor.c:119-124 | over a whole schedule of polls, the outcomes are decided in order, one for each complete line of the stream, by the words of the edited line; the loop ends in waiting, or in a reboot only if a poll brings one |
| Session.LinesOfFlat | kern/monitor.c:119-124 | texts with a line end after each are the lines of the stream |
| Session.LineRuns | kern/monitor.c:119-124 | the first line of the stream decides the command, and the rest of the stream is left for later turns |
| Session.LettersRun | kern/monitor.c:119-124 | from scan codes to command: letter keys and Enter, however the polls cut the codes as long as each finds room, look up the command named by these letters in the case the flags give, and leave nothing over |
| Session.HelpRuns | kern/monitor.c:23-26 | on a console just switched on, the scan codes of "help" and Enter run the first command |
| Session.SerialRun | kern/console.c:50-63 | from the serial line: text and a line end decide the command by the words of the edited text |
| Session.SerialHelpRuns | kern/console.c:50-63 | on a console just switched on, "help" and a carriage return on the serial line run the first command |
| Session.LineInVideo | kern/console.c:189-202 | while a line is shown, the cells of video memory hold its characters with attribute 0x07, crt_pos is behind the last, and the cells from there on are blank if nothing stands there |
| Console.PromptIsPercentS | lib/readline.c:12-13 | printing the prompt with "%s" sends its sign-extended characters |
| Printfmt.Vprintfmt | lib/printfmt.c:82-244 | on either sink, terminates on every format with matching arguments, reads nothing past the NUL, and puts exactly the specified text |
| Printfmt.RunEscape | lib/printfmt.c:98-242 | one escape: its text, or for an unknown one a '%' and a rewind to just after the introducing '%' |
| Printfmt.Rewind | lib/printfmt.c:236-241 | the backward scan stops just after the introducing '%' |
| Printfmt.PutConversion | lib/printfmt.c:158-234 | each conversion puts its text and takes its arguments |
| Printfmt.PutError | lib/printfmt.c:164-172 | the nested calls for %e terminate and print the error's text |
| Printfmt.ReadNumber | lib/printfmt.c:118-133 | reads the maximal run of digits and its value |
| Printfmt.PrintNum | lib/printfmt.c:35-50 | padding, then the digits, most significant first |
| Printfmt.PutString | lib/printfmt.c:174-188 | width, precision, alignment and '?' substitution |
| Strings.Strnlen | lib/string.c:21-29 | the length, cut at the size |
| Printfmt.Sink.Putch | lib/printfmt.c:262-268 | counts every character and stores it only while there is room; on the console, prints it |
| Printfmt.Vsnprintf | lib/printfmt.c:270-285 | the first min(n - 1, len) bytes and a NUL; returns the full length; -E_INVAL for NULL or n < 1, with memory unchanged |
| Printfmt.Vcprintf | kern/printf.c:17-24 | the terminal ends as it would after the characters of the whole text; the count returned is 0 |
| Printfmt.SnprintedBytes | lib/printfmt.c:270-285 | byte by byte what is stored, and that nothing else changes, in particular nothing at or past buf + n |
| FormatSpec.ErrorFormatText | lib/printfmt.c:168-169 | the nested "error %d" prints the number after "error " and contains no further %e |
| FormatSpec.LiteralPrefix | lib/printfmt.c:92-96 | text without '%' is printed as it stands |
| FormatLaws.Homomorphism | lib/printfmt.c:91-243 | a format that ends outside any escape, followed by another, prints both in turn on the left-over arguments |
| FormatLaws.HomomorphismIffClosed | lib/printfmt.c:91-243 | ending outside any escape is exactly the condition for that |
| FormatLaws.ArgumentFrame | lib/printfmt.c:82-244 | arguments that are not needed change nothing and are left over |
| FormatLaws.JoinCalls | lib/printfmt.c:91-243 | two complete calls equal one on the concatenated formats and arguments |
| FormatLaws.UnknownIsVerbatim | lib/printfmt.c:236-241 | an unknown escape is printed as it stands, flags included; only its '*'s have taken arguments |
| FormatLaws.DoubledPrintsItself | lib/printfmt.c:231-234 | doubling every '%' of any string gives a format that prints the string |
| FormatLaws.FieldWidths | lib/printfmt.c:35-50 | a string fills max(width, min(length, precision)) columns and a number max(width, digits), padded in front |
| FormatLaws.StringField | lib/printfmt.c:174-188 | where in its field the text of a string stands, and what surrounds it |
| FormatMeaning.StarPrecision | lib/printfmt.c:135-151 | %.*s prints the first characters of the string, as many as the precision |
| FormatMeaning.WrittenPrecision | lib/printfmt.c:117-151 | so does a precision written in the format |
| FormatMeaning.WidthAndPrecision | lib/printfmt.c:117-151 | a padding flag, a width and a precision: these characters in a field of at least the width, at the right behind padding or at the left before spaces |
| FormatMeaning.ZeroPrecision | lib/printfmt.c:113-115 | %.0s prints the whole string |
| FormatMeaning.LeftAdjusted | lib/printfmt.c:108-110 | %-*s: the string and then spaces up to the width |
| FormatMeaning.HashString | lib/printfmt.c:179-183 | %#s: a question mark for every character outside 0x20 to 0x7E |
| FormatMeaning.NullString | lib/printfmt.c:175-176 | the null pointer prints as "(null)" |
| FormatMeaning.CharPrints | lib/printfmt.c:159-161 | %c puts the int it is given |
| FormatMeaning.ErrorsByName | lib/printfmt.c:164-172 | %e prints the text of the six errors, for either sign, and "error" with the number for any other |
| FormatMeaning.PlainNumbers | lib/printfmt.c:200-229 | %u, %x and %p without flags print the digits, behind 0x for %p |
| FormatMeaning.PlainDecimal | lib/printfmt.c:190-198 | %d prints the digits, behind a minus sign if the int is negative |
| FormatMeaning.LongLong | lib/printfmt.c:55-76 | two l flags read 64 bits, for %x, %u and %d |
| FormatMeaning.DecimalField | lib/printfmt.c:35-50 | a written width and padding flag: padding and then the digits, but a minus sign before both |
| FormatMeaning.HexField | lib/printfmt.c:35-50 | the same for %x |
| FormatMeaning.DigitAlphabet | lib/printfmt.c:49 | the digits are 0123456789abcdef |
| FormatMeaning.OctalStub | lib/printfmt.c:206-212 | %o prints XXX |
| Strtol.Strtol | lib/string.c:239-284 | blanks, sign, prefix and digits give the specified value and end, without overflow when the value fits |
| Strtol.DigitLoop | lib/string.c:263-279 | reads the maximal run of digits of the base; no intermediate value exceeds the result |
| Strtol.ValueGrows | lib/string.c:277-278 | the value of leading digits never exceeds that of the whole run |
| NumberMeaning.DigitTable | lib/string.c:266-273 | the value of every digit and letter of either case; nothing else has one |
| NumberMeaning.BlanksAndSign | lib/string.c:244-252 | spaces and tabs in any number, then perhaps a sign, and the digits of a number read as it or its negative |
| NumberMeaning.OctalPrefix | lib/string.c:257-258 | in base 0 a leading zero means octal |
| NumberMeaning.HexPrefix | lib/string.c:255-256 | in base 0 and 16, 0x is skipped |
| NumberMeaning.DecimalWithoutPrefix | lib/string.c:259-260 | in base 0 any other digit means decimal |
| NumberMeaning.ZeroIsADigit | lib/string.c:257-278 | in another base a leading zero is a digit |
| NumberMeaning.UpperCaseDigits | lib/string.c:270-271 | digits above 9 may be in upper case |
| NumberMeaning.RestIsLeft | lib/string.c:272-276 | the number ends at the first character that is no digit of the base |
| RoundTrip.PrintThenParse | lib/printfmt.c:270-285 | prints with vsnprintf into memory and reads the stored string back with strtol: the number and the end of the text come back if and only if the padding is one that disappears |
| RoundTrip.PrintThenParseDecimal | lib/printfmt.c:191-198 | for every int, width and padding flag of %d, strtol in base 10 is defined and gives the number back with nothing left exactly if it fits a long that can be negated and a condition on sign, width and padding holds |
| RoundTrip.PrintThenParseUnsigned | lib/printfmt.c:201-204 | the same for %u in base 10 and %x in base 16, where only numbers below 2^31 fit |
| RoundTrip.PrintThenParsePointer | lib/printfmt.c:215-221 | the same for %p in base 0 and 16 |
| RoundTrip.NumeralValue | lib/printfmt.c:39-49 | printed digits are digits of the base and their value is the number |
| RoundTrip.LiteralWidth | lib/printfmt.c:117-151 | a width written in the format means the same as one passed for '*' |
| RoundTrip.AbsentWidth | lib/printfmt.c:98-105 | no width means the same as -1 passed for '*' |
| RoundTrip.StoredString | lib/printfmt.c:279-284 | text that fits the buffer and has no NUL is the C string that the buffer then holds |
| Bootloader.ReadSect | boot/main.c:106-124 | one sector of the disk into memory, nothing else changed |
| Bootloader.ReadSeg | boot/main.c:71-96 | whole sectors from the one that holds pa up to the one that holds the last byte, and nothing else |
| Bootloader.LoadsRightIffCongruent | boot/main.c:78-82 | every image is loaded right exactly if address and file offset agree modulo the sector size |
| Bootloader.LastWriterWins | boot/main.c:50-56 | every byte comes from the last segment whose sectors cover it |
| Bootloader.SegmentsLoaded | boot/main.c:84-86 | in increasing order every overshoot is repaired: each segment byte is its image byte |
| Bootloader.UntouchedKept | boot/main.c:84-95 | bytes outside all sector-rounded footprints are unchanged |
| Bootloader.LoadSegments | boot/main.c:50-56 | the loop makes one turn for each header, which it reads from the memory it is filling |
| Bootloader.TableLoaded | boot/main.c:50-56 | unless a segment covers the header page, it loads the segments of the table it started with, and stays in bounds |
| Bootloader.AllInPlace | boot/main.c:50-56 | after loading increasing, congruent segments every segment byte is its image byte |
| Bootloader.Bootmain | boot/main.c:38-67 | rejects a wrong magic number with only the header page read, else runs the segment loop and enters at the e_entry then in memory; if no segment covers the header page, these are the table's segments and entry, all in place if they are increasing and congruent |
| Bootloader.KernelBoots | boot/main.c:38-67 | for any ELF file given by its bytes, with its program headers fitting, congruent, increasing and off the header page: it is entered at its e_entry, and each segment has p_memsz bytes from p_offset of the file at its p_pa |
| Bootloader.BootExample | boot/main.c:38-67 | one file byte by byte, whose p_va, p_pa, p_filesz and p_memsz differ |
| Bootloader.ElfHeader | inc/elf.h:6-22 | the fields of the file's header are read at their places, least significant byte first |
| Bootloader.ElfTable | inc/elf.h:24-33 | and so are those of its program headers |
| Monitor.RunCmd | kern/monitor.c:71-108 | up to 15 words: each argv[k] read as a C string in the final buffer is word k, argv[argc] is null, whitespace is NUL and the rest unchanged, and the first command named by word 0 is chosen; 16 or more: none, with a beginning of the line zeroed in the same way |
| Monitor.ParseArgs | kern/monitor.c:78-97 | finds exactly the words of the line, or that there are too many |
| Monitor.Lookup | kern/monitor.c:102-107 | the first command with that name, or none |
| Monitor.WordReadable | kern/monitor.c:93-97 | in the zeroed buffer each word ends at a NUL |
| Monitor.SplitAtWhite | kern/monitor.c:82-96 | whitespace separates: the words of a line are those of its parts |
| Monitor.SplitIsClean | kern/monitor.c:82-96 | words are non-empty and free of whitespace |
| Monitor.SplitJoin | kern/monitor.c:82-96 | joining words with spaces and splitting again gives them back |
| Monitor.SplitMixed | kern/monitor.c:82-96 | any whitespace before, between and after words leaves these words |
| Monitor.WhiteIs | kern/monitor.c:68 | whitespace is tab, carriage return, line feed and space |
| Monitor.CommandNames | kern/monitor.c:23-26 | the commands are help and kerninfo |
| Monitor.ArgumentLimit | kern/monitor.c:89-92 | 16 words are too many, 15 are not |
| Strings.Strcmp | lib/string.c:79-85 | the difference at the first differing byte; 0 exactly for equal strings |
| Strings.CompareZero | lib/string.c:79-85 | the comparison is 0 exactly for equal strings |
| Strings.CompareAt | lib/string.c:79-85 | after a common beginning the first difference decides, the end of a string counting as 0 |
| Strings.Strchr | lib/string.c:100-107 | the first occurrence, or none |

## Left out

- Port I/O and device set-up (serial, parallel, display controller, disk wait): a poll schedule, a sector-indexed disk and byte memory stand in for the devices.
- Console.ConsoleDriver.GetChar: after the last poll of the modelled schedule the devices are silent; where the code then polls for ever, the outcome is Waiting.
- Console.ConsoleDriver.Readline: the branch for a negative character is absent, since getchar never returns one; the echo to the serial and parallel ports is not modelled.
- Console.ConsoleDriver.KbdIntr: Ctrl-Alt-Del ends the run with the outcome of a reboot; the message it prints is not put on the screen.
- Keyboard.KeyboardDriver.KbdProcData: the status port is not modelled; a poll without data, or with mouse data, reads no byte.
- Screen.Display.constructor: a hardware cursor position off the screen is excluded.
- Printfmt.Vprintfmt: the function pointer stands for one of the kernel's two sinks; int overflow of a width or of the character count is not modelled.
- Printfmt.PutConversion: %e of the smallest int and %lld of the smallest long long count as mismatched arguments, since negating them overflows.
- RoundTrip.PrintThenParse: text that vsnprintf cuts short, and numbers on which strtol overflows, are excluded.
- Strtol.Strtol: numbers that do not fit a long are excluded; the code does not detect them.
- Bootloader.ReadSect: the commands to the disk controller and the wait for it are an array copy.
- Bootloader.ReadSeg: addresses that wrap at 4 GB are excluded.
- Bootloader.LoadSegments: headers outside memory, and segments that do not fit memory and image, are excluded.
- Bootloader.Bootmain: the same.
- DebugInfo.DebuginfoEip: eip_line stays 0, as in the code, which has no line search yet.
- Session.MonitorLoop: the two lines that greet the user before the loop are left out.
- Session.MonitorTurn: what the commands print is not modelled, nor is their return value.
- The `%o` stub's number and the backtrace stub: the code does not compute them.
- strcpy, strcat, strncpy, strlcpy, strncmp, memcmp, memfind: they would add only easy members.
- Page tables, memory-layout constants, assembly start-up code and build scripts.
