/** One turn of the kernel monitor: from scan codes through the ring, the line editor and the tokenizer to a command. */
module Session {
  import opened CTypes
  import opened Strings
  import opened InputRing
  import opened Polling
  import opened LineEditor
  import opened Console
  import opened Keyboard
  import opened Keymaps
  import Screen
  import opened Terminal
  import Monitor

  /** "K> " */
  const PROMPT: CString := Ascii("K> ")

  /**
    While the line is shown, its characters stand in video memory from the prompt's end on,
    with the cursor behind the last; and if nothing stands behind the line, the rest is blank.
   */
  lemma LineInVideo(display: Screen.Display, before: seq<uint16>, line: seq<uint8>)
    requires display.Valid() && Shown(display.term, before, line)
    ensures var at := |before| - CRT_COLS * display.term.top;
            && 0 <= at && at + |line| == display.crtPos < CRT_SIZE
            && (forall i :: 0 <= i < |line| ==> display.Cells()[at + i] == PlainCell(line[i]))
            && (BlankAfter(display.term) ==>
                  forall i :: at + |line| <= i < CRT_SIZE ==> display.Cells()[i] == 0x0720)
  {
    var t := display.term;
    var top := CRT_COLS * t.top;
    var at := |before| - top;
    forall i | 0 <= i < |line|
      ensures display.Cells()[at + i] == PlainCell(line[i])
    {
      assert t.tape[|before| + i] == Cell(line[i]) && display.Cells()[at + i] == t.tape[top + (at + i)];
    }
    forall i | BlankAfter(t) && at + |line| <= i < CRT_SIZE
      ensures display.Cells()[i] == 0x0720
    {
      assert display.Cells()[i] == t.tape[top + i];
    }
  }

  /** A character in attribute 0x07. */
  function PlainCell(c: uint8): uint16 {
    var x: int := c;
    0x0700 + x
  }

  datatype Turn = Ran(outcome: Monitor.Outcome) | NoCommand | Restarted

  /** A prompt that leaves nothing behind the cursor. */
  predicate Tidy(prompt: CString) {
    forall i :: 0 <= i < |prompt| ==> KeepsBlank(SignExtend(prompt[i]))
  }

  lemma PromptKeepsBlank(t: Term, prompt: CString)
    requires t.Valid() && BlankAfter(t) && Tidy(prompt)
    ensures BlankAfter(Prompted(t, Some(prompt)))
  {
    RunKeepsBlank(t, SignExtended(prompt));
  }

  /** Characters up to and including the first that ends a line. */
  predicate OneLine(inputs: seq<uint8>) {
    |inputs| > 0 && EndsLine(inputs[|inputs| - 1]) && forall k :: 0 <= k < |inputs| - 1 ==> !EndsLine(inputs[k])
  }

  function TextOf(inputs: seq<uint8>): seq<uint8>
    requires OneLine(inputs)
  {
    inputs[..|inputs| - 1]
  }

  /** Every turn uses up a poll or an unread byte. */
  predicate Progress(polls: seq<Poll>, q: seq<uint8>, polls': seq<Poll>, q': seq<uint8>) {
    |polls'| < |polls| || (|polls'| == |polls| && |q'| < |q|)
  }

  /** readline, with what its prompt and its echo leave behind the cursor. */
  method ReadTidy(console: ConsoleDriver, prompt: CString)
    returns (r: LineResult, ghost inputs: seq<uint8>, ghost before: seq<uint16>, ghost shown: Term)
    requires console.Valid() && Tidy(prompt)
    modifies console`polls, console.kbd, console.ring, console.ring.buf, console.lineBuf
    modifies console.display, console.display.machine, console.display.machine.mem
    ensures console.Valid()
    ensures console.ring.delivered == old(console.ring.delivered) + inputs
    ensures r.Reset? ==> RebootsIn(old(console.kbd.shift), Codes(old(console.polls))) == true
    ensures !r.Reset? ==> Polled(old(console.Input()), console.Input(), console.serialExists) == true
    ensures !r.Reset? ==> old(console.Stream()) == inputs + console.Stream()
    ensures r.NoLine? ==> NoLineEnd(inputs) && console.Stream() == []
    ensures r.Line? ==> console.Finished(inputs, r.length, before, shown) == true
    ensures var t := Prompted(old(console.display.term), Some(prompt)); before == t.tape[..t.cursor]
    ensures r.Line? ==> Progress(old(console.polls), old(console.ring.Queue()), console.polls, console.ring.Queue())
    ensures BlankAfter(old(console.display.term)) ==> BlankAfter(console.display.term)
  {
    if BlankAfter(console.display.term) { PromptKeepsBlank(console.display.term, prompt); }
    r, inputs, before, shown := console.Readline(Some(prompt));
  }

  method TurnWith(console: ConsoleDriver, prompt: CString)
    returns (r: Turn, ghost inputs: seq<uint8>, ghost before: seq<uint16>, ghost shown: Term)
    requires console.Valid() && Tidy(prompt)
    modifies console`polls, console.kbd, console.ring, console.ring.buf, console.lineBuf
    modifies console.display, console.display.machine, console.display.machine.mem
    ensures console.Valid()
    ensures console.ring.delivered == old(console.ring.delivered) + inputs
    ensures r.Restarted? ==> RebootsIn(old(console.kbd.shift), Codes(old(console.polls))) == true
    ensures !r.Restarted? ==> Polled(old(console.Input()), console.Input(), console.serialExists) == true
    ensures !r.Restarted? ==> old(console.Stream()) == inputs + console.Stream()
    ensures r.NoCommand? ==> NoLineEnd(inputs) && console.Stream() == []
    ensures r.Ran? ==> OneLine(inputs) && LineDecides(TextOf(inputs), r.outcome) == true
    ensures var t := Prompted(old(console.display.term), Some(prompt)); before == t.tape[..t.cursor]
    ensures r.Ran? ==> Shown(shown, before, EditAll(TextOf(inputs))) == true && console.display.term == Put(shown, 10)
    ensures r.Ran? ==> Progress(old(console.polls), old(console.ring.Queue()), console.polls, console.ring.Queue())
    ensures BlankAfter(old(console.display.term)) ==> BlankAfter(console.display.term)
  {
    var line: LineResult;
    line, inputs, before, shown := ReadTidy(console, prompt);
    match line {
      case NoLine => r := NoCommand;
      case Reset => r := Restarted;
      case Line(length) =>
        var outcome := RunLine(console, length, inputs, before, shown);
        r := Ran(outcome);
    }
  }

  /**
    The body of monitor()'s loop. inputs are the characters it took, the first of the
    stream that the polls bring; the command is decided by the words of the edited line.
   */
  method MonitorTurn(console: ConsoleDriver)
    returns (r: Turn, ghost inputs: seq<uint8>, ghost before: seq<uint16>, ghost shown: Term)
    requires console.Valid()
    modifies console`polls, console.kbd, console.ring, console.ring.buf, console.lineBuf
    modifies console.display, console.display.machine, console.display.machine.mem
    ensures console.Valid()
    ensures console.ring.delivered == old(console.ring.delivered) + inputs
    ensures r.Restarted? ==> RebootsIn(old(console.kbd.shift), Codes(old(console.polls))) == true
    ensures !r.Restarted? ==> Polled(old(console.Input()), console.Input(), console.serialExists) == true
    ensures !r.Restarted? ==> old(console.Stream()) == inputs + console.Stream()
    ensures r.NoCommand? ==> NoLineEnd(inputs) && console.Stream() == []
    ensures r.Ran? ==> OneLine(inputs) && LineDecides(TextOf(inputs), r.outcome) == true
    ensures var t := Prompted(old(console.display.term), Some([0x4B, 0x3E, 0x20])); before == t.tape[..t.cursor]
    ensures r.Ran? ==> Shown(shown, before, EditAll(TextOf(inputs))) == true && console.display.term == Put(shown, 10)
    ensures r.Ran? ==> Progress(old(console.polls), old(console.ring.Queue()), console.polls, console.ring.Queue())
    ensures BlankAfter(old(console.display.term)) ==> BlankAfter(console.display.term)
  {
    assert PROMPT == [0x4B, 0x3E, 0x20];
    r, inputs, before, shown := TurnWith(console, PROMPT);
  }

  /** runcmd on the line that readline returned. */
  method RunLine(console: ConsoleDriver, length: nat, ghost inputs: seq<uint8>, ghost before: seq<uint16>, ghost shown: Term)
    returns (r: Monitor.Outcome)
    requires console.Valid() && console.Finished(inputs, length, before, shown)
    modifies console.lineBuf
    ensures console.Valid()
    ensures OneLine(inputs) && LineDecides(TextOf(inputs), r) == true
    ensures Shown(shown, before, EditAll(TextOf(inputs))) == true && console.display.term == Put(shown, 10)
  {
    r := Monitor.Execute(console.lineBuf, length, EditAll(inputs[..|inputs| - 1]));
  }

  function LineLength(s: seq<uint8>): (n: nat)
    ensures n <= |s|
    ensures n < |s| ==> EndsLine(s[n])
    ensures forall k :: 0 <= k < n ==> !EndsLine(s[k])
  {
    if s == [] || EndsLine(s[0]) then 0 else 1 + LineLength(s[1..])
  }

  /** The complete lines of a stream of characters. */
  function Lines(s: seq<uint8>): seq<seq<uint8>>
    decreases |s|
  {
    var n := LineLength(s);
    if n == |s| then [] else [s[..n]] + Lines(s[n + 1..])
  }

  /** A line that has been taken is the first line of the stream. */
  lemma LineTaken(inputs: seq<uint8>, rest: seq<uint8>)
    requires OneLine(inputs)
    ensures Lines(inputs + rest) == [TextOf(inputs)] + Lines(rest)
  {
    var s, n := inputs + rest, |inputs| - 1;
    assert EndsLine(s[n]) && forall k :: 0 <= k < n ==> s[k] == inputs[k];
    assert LineLength(s) == n;
    assert s[..n] == TextOf(inputs) && s[n + 1..] == rest;
  }

  lemma NoLineLeft(s: seq<uint8>)
    requires NoLineEnd(s)
    ensures Lines(s) == []
  {
    assert LineLength(s) == |s|;
  }

  function Flat(texts: seq<seq<uint8>>, ends: seq<uint8>): seq<uint8>
    requires |texts| == |ends|
  {
    if texts == [] then [] else texts[0] + [ends[0]] + Flat(texts[1..], ends[1..])
  }

  /** Texts with a line end after each are the lines. */
  lemma {:induction false} LinesOfFlat(texts: seq<seq<uint8>>, ends: seq<uint8>)
    requires |texts| == |ends| && forall i :: 0 <= i < |texts| ==> NoLineEnd(texts[i]) && EndsLine(ends[i])
    ensures Lines(Flat(texts, ends)) == texts
  {
    if texts == [] {
      NoLineLeft([]);
    } else {
      LinesOfFlat(texts[1..], ends[1..]);
      LineTaken(texts[0] + [ends[0]], Flat(texts[1..], ends[1..]));
      assert (texts[0] + [ends[0]])[..|texts[0]|] == texts[0];
    }
  }

  /** The words of the edited line decide the outcome. */
  ghost predicate LineDecides(line: seq<uint8>, outcome: Monitor.Outcome) {
    Monitor.Decides(Monitor.Split(EditAll(line)), outcome)
  }

  /** Each outcome is decided by the line with its number. */
  ghost predicate Answers(lines: seq<seq<uint8>>, outcomes: seq<Monitor.Outcome>) {
    |lines| == |outcomes| && forall i :: 0 <= i < |lines| ==> LineDecides(lines[i], outcomes[i])
  }

  lemma OneMoreLine(lines: seq<seq<uint8>>, outcomes: seq<Monitor.Outcome>, text: seq<uint8>, outcome: Monitor.Outcome)
    requires Answers(lines, outcomes) && LineDecides(text, outcome) == true
    ensures Answers(lines + [text], outcomes + [outcome]) == true
  {
    forall i | 0 <= i <= |lines| ensures LineDecides((lines + [text])[i], (outcomes + [outcome])[i]) {
      assert i < |lines| ==> (lines + [text])[i] == lines[i] && (outcomes + [outcome])[i] == outcomes[i];
    }
  }

  /**
    The loop of monitor(), over a whole schedule of polls. It ends in waiting for ever, or
    in a reboot if one of the polls brings it; the commands run are decided, in order, by
    the lines of the stream of characters that the polls bring.
   */
  method MonitorLoop(console: ConsoleDriver) returns (outcomes: seq<Monitor.Outcome>, stop: Turn)
    requires console.Valid()
    modifies console`polls, console.kbd, console.ring, console.ring.buf, console.lineBuf
    modifies console.display, console.display.machine, console.display.machine.mem
    ensures console.Valid() && !stop.Ran?
    ensures stop.Restarted? ==> RebootsIn(old(console.kbd.shift), Codes(old(console.polls))) == true
    ensures stop.NoCommand? ==> Answers(Lines(old(console.Stream())), outcomes) == true
    ensures BlankAfter(old(console.display.term)) ==> BlankAfter(console.display.term)
  {
    outcomes := [];
    ghost var start, all, done := console.Input(), Lines(console.Stream()), [];
    assert all == done + Lines(console.Stream());
    while true
      invariant console.Valid() && Polled(start, console.Input(), console.serialExists)
      invariant Answers(done, outcomes) && all == done + Lines(console.Stream())
      invariant BlankAfter(old(console.display.term)) ==> BlankAfter(console.display.term)
      decreases |console.polls|, |console.ring.Queue()|
      modifies console`polls, console.kbd, console.ring, console.ring.buf, console.lineBuf
      modifies console.display, console.display.machine, console.display.machine.mem
    {
      ghost var inputs, before;
      before := console.Input();
      ghost var stream := console.Stream();
      ghost var line, shown;
      stop, inputs, line, shown := MonitorTurn(console);
      match stop {
        case Restarted =>
          RebootLater(start, before, console.serialExists);
          return;
        case NoCommand =>
          assert stream == inputs + [] == inputs;
          NoLineLeft(inputs);
          assert all == done;
          return;
        case Ran(outcome) =>
          PolledTwice(start, before, console.Input(), console.serialExists);
          LineTaken(inputs, console.Stream());
          OneMoreLine(done, outcomes, TextOf(inputs), outcome);
          MoveOver(done, Lines(stream), TextOf(inputs), Lines(console.Stream()));
          done, outcomes := done + [TextOf(inputs)], outcomes + [outcome];
      }
    }
  }

  /** Input that starts with a line is taken up to that line's end. */
  lemma FirstLine(inputs: seq<uint8>, later: seq<uint8>, text: seq<uint8>, e: uint8, rest: seq<uint8>)
    requires inputs + later == text + [e] + rest && NoLineEnd(text) && EndsLine(e)
    ensures later == [] ==> !NoLineEnd(inputs)
    ensures OneLine(inputs) ==> TextOf(inputs) == text && later == rest
  {
    var all := inputs + later;
    assert all[|text|] == e && forall k :: 0 <= k < |text| ==> all[k] == text[k];
    assert forall k :: 0 <= k < |inputs| ==> all[k] == inputs[k];
    if OneLine(inputs) {
      assert |inputs| == |text| + 1;
      assert all[|inputs|..] == later && all[|text| + 1..] == rest;
    }
  }

  /** From the stream to one command: the first line decides it, and the rest of the stream is left for later turns. */
  method LineRuns(console: ConsoleDriver, ghost text: seq<uint8>, ghost e: uint8, ghost rest: seq<uint8>)
    returns (outcome: Monitor.Outcome)
    requires console.Valid() && !RebootsIn(console.kbd.shift, Codes(console.polls))
    requires console.Stream() == text + [e] + rest && NoLineEnd(text) && EndsLine(e)
    modifies console`polls, console.kbd, console.ring, console.ring.buf, console.lineBuf
    modifies console.display, console.display.machine, console.display.machine.mem
    ensures console.Valid() && LineDecides(text, outcome)
    ensures console.Stream() == rest && !RebootsIn(console.kbd.shift, Codes(console.polls))
  {
    ghost var a := console.Input();
    var r;
    ghost var inputs;
    ghost var before, shown;
    r, inputs, before, shown := MonitorTurn(console);
    if !r.Restarted? {
      FirstLine(inputs, console.Stream(), text, e, rest);
      if RebootsIn(console.kbd.shift, Codes(console.polls)) {
        RebootLater(a, console.Input(), console.serialExists);
      }
    }
    outcome := r.outcome;
  }

  predicate LetterCodes(ds: seq<uint8>) {
    forall i :: 0 <= i < |ds| ==> ds[i] < 0x60 && Lower(NormalMap(ds[i]))
  }

  predicate Lettered(s: seq<uint8>) {
    forall i :: 0 <= i < |s| ==> 0x41 <= s[i] <= 0x7A
  }

  lemma LettersKept(s: seq<uint8>)
    requires Lettered(s) && |s| < BUFLEN
    ensures NoLineEnd(s) && EditAll(s) == s
  {
    PlainTextKept(s);
    assert s[..|s|] == s;
  }

  /** A line of letters is one word. */
  lemma LettersAreAWord(s: seq<uint8>)
    requires Lettered(s)
    ensures Monitor.Split(s) == if s == [] then [] else [s]
  {
    if s != [] {
      assert Monitor.Clean(s);
      Monitor.SplitWord(s);
    }
  }

  lemma WordDecides(word: seq<uint8>, outcome: Monitor.Outcome)
    requires Lettered(word) && |word| < BUFLEN && LineDecides(word, outcome)
    ensures if word == [] then outcome == Monitor.Empty else Monitor.IsLookup(word, outcome)
  {
    LettersKept(word);
    LettersAreAWord(word);
  }

  /** The stream of letter keys and Enter, typed on a keyboard alone without an overflow. */
  lemma LetterStream(console: ConsoleDriver, ds: seq<uint8>, word: seq<uint8>)
    requires console.Valid() && console.ring.Queue() == []
    requires Room(0, console.kbd.shift, console.serialExists, console.polls)
    requires E0ESC !in console.kbd.shift && CTL !in console.kbd.shift
    requires LetterCodes(ds)
    requires !console.serialExists || forall i :: 0 <= i < |console.polls| ==> console.polls[i].serial == []
    requires Codes(console.polls) == Strokes(ds) + ENTER
    requires word == Letters(ds, (SHIFT in console.kbd.shift) != (CAPSLOCK in console.kbd.shift))
    ensures console.Stream() == word + [LF] && !RebootsIn(console.kbd.shift, Codes(console.polls))
  {
    var flags := console.kbd.shift;
    LettersArrive(flags, ds);
    EnterStroke(flags);
    TypedConcat(flags, Strokes(ds), ENTER);
    RebootsConcat(flags, Strokes(ds), ENTER);
    PollsDoNotMatter(flags, console.serialExists, console.polls);
    DeliveredIffRoom([], flags, console.serialExists, console.polls);
    assert [] + (word + [LF]) == word + [LF];
  }

  /**
    From scan codes: pressing letter keys and then Enter, however the polls cut the codes,
    looks up the command of these letters and leaves nothing over.
   */
  method LettersRun(console: ConsoleDriver, ghost ds: seq<uint8>) returns (outcome: Monitor.Outcome)
    requires console.Valid() && console.ring.Queue() == []
    requires Room(0, console.kbd.shift, console.serialExists, console.polls)
    requires E0ESC !in console.kbd.shift && CTL !in console.kbd.shift
    requires LetterCodes(ds)
    requires |ds| < BUFLEN
    requires !console.serialExists || forall i :: 0 <= i < |console.polls| ==> console.polls[i].serial == []
    requires Codes(console.polls) == Strokes(ds) + ENTER
    modifies console`polls, console.kbd, console.ring, console.ring.buf, console.lineBuf
    modifies console.display, console.display.machine, console.display.machine.mem
    ensures console.Valid() && console.Stream() == []
    ensures var word := Letters(ds, (SHIFT in old(console.kbd.shift)) != (CAPSLOCK in old(console.kbd.shift)));
            if ds == [] then outcome == Monitor.Empty else Monitor.IsLookup(word, outcome)
  {
    ghost var word := Letters(ds, (SHIFT in console.kbd.shift) != (CAPSLOCK in console.kbd.shift));
    LetterStream(console, ds, word);
    assert word + [LF] == word + [LF] + [];
    LettersKept(word);
    outcome := LineRuns(console, word, LF, []);
    WordDecides(word, outcome);
  }

  /** Few letters find room, however they are cut. */
  lemma FewLettersFindRoom(flags: set<Flag>, serialExists: bool, polls: seq<Poll>, ds: seq<uint8>)
    requires E0ESC !in flags && CTL !in flags && |ds| < CONSBUFSIZE - 1
    requires LetterCodes(ds)
    requires !serialExists || forall i :: 0 <= i < |polls| ==> polls[i].serial == []
    requires Codes(polls) == Strokes(ds) + ENTER
    ensures Room(0, flags, serialExists, polls)
  {
    LettersArrive(flags, ds);
    EnterStroke(flags);
    TypedConcat(flags, Strokes(ds), ENTER);
    PollsDoNotMatter(flags, serialExists, polls);
    FewFindRoom(0, flags, serialExists, polls);
  }

  /** The make and break codes of h, e, l, p and Enter in three pieces that cut two strokes apart. */
  const HELP_POLLS: seq<Poll> := [Poll([], [0x23, 0xA3, 0x12]), Poll([], [0x92, 0x26, 0xA6, 0x19]), Poll([], [0x99, 0x1C, 0x9C])]

  lemma MoreCodes(poll: Poll, polls: seq<Poll>, codes: seq<uint8>)
    requires Codes(polls) == codes
    ensures Codes([poll] + polls) == poll.codes + codes
  {
    assert ([poll] + polls)[1..] == polls;
  }

  lemma MoreStrokes(ds: seq<uint8>, rest: seq<uint8>, strokes: seq<uint8>)
    requires ds != [] && ds[1..] == rest && (forall i :: 0 <= i < |ds| ==> ds[i] < 0x60) && Strokes(rest) == strokes
    ensures Strokes(ds) == [ds[0], ds[0] + 0x80] + strokes
  {
  }

  lemma MoreLetters(ds: seq<uint8>, c: uint8, rest: seq<uint8>, letters: seq<uint8>)
    requires LetterCodes(rest) && Letters(rest, false) == letters
    requires ds != [] && ds[1..] == rest && ds[0] < 0x60 && NormalMap(ds[0]) == c && Lower(c)
    ensures LetterCodes(ds) && Letters(ds, false) == [c] + letters
  {
    assert forall i :: 0 < i < |ds| ==> ds[i] == rest[i - 1];
  }

  lemma HelpKeys()
    ensures NormalMap(0x23) == 0x68 && NormalMap(0x12) == 0x65 && NormalMap(0x26) == 0x6C && NormalMap(0x19) == 0x70
  {
  }

  lemma HelpLetters(ds: seq<uint8>)
    requires ds == [0x23, 0x12, 0x26, 0x19]
    ensures LetterCodes(ds) && Letters(ds, false) == [0x68, 0x65, 0x6C, 0x70]
  {
    HelpKeys();
    MoreLetters([0x19], 0x70, [], []);
    MoreLetters([0x26, 0x19], 0x6C, [0x19], [0x70]);
    MoreLetters([0x12, 0x26, 0x19], 0x65, [0x26, 0x19], [0x6C, 0x70]);
    MoreLetters(ds, 0x68, [0x12, 0x26, 0x19], [0x65, 0x6C, 0x70]);
  }

  lemma HelpCodes(ds: seq<uint8>)
    requires ds == [0x23, 0x12, 0x26, 0x19]
    ensures Codes(HELP_POLLS) == Strokes(ds) + ENTER
  {
    MoreCodes(Poll([], [0x99, 0x1C, 0x9C]), [], []);
    MoreCodes(Poll([], [0x92, 0x26, 0xA6, 0x19]), [Poll([], [0x99, 0x1C, 0x9C])], [0x99, 0x1C, 0x9C]);
    MoreCodes(HELP_POLLS[0], HELP_POLLS[1..], [0x92, 0x26, 0xA6, 0x19, 0x99, 0x1C, 0x9C]);
    MoreStrokes([0x19], [], []);
    MoreStrokes([0x26, 0x19], [0x19], [0x19, 0x99]);
    MoreStrokes([0x12, 0x26, 0x19], [0x26, 0x19], [0x26, 0xA6, 0x19, 0x99]);
    MoreStrokes(ds, [0x12, 0x26, 0x19], [0x12, 0x92, 0x26, 0xA6, 0x19, 0x99]);
  }

  /** The first of the command names. */
  lemma HelpIsFirst(outcome: Monitor.Outcome)
    requires Monitor.IsLookup([0x68, 0x65, 0x6C, 0x70], outcome)
    ensures outcome == Monitor.Invoke(0)
  {
    assert Monitor.Commands()[0] == [0x68, 0x65, 0x6C, 0x70];
  }

  /** On a console just switched on, typing "help" runs the first command. */
  method HelpRuns(display: Screen.Display, serialExists: bool) returns (outcome: Monitor.Outcome)
    requires display.Valid()
    modifies display, display.machine, display.machine.mem
    ensures outcome == Monitor.Invoke(0)
  {
    var console := new ConsoleDriver(display, serialExists, HELP_POLLS);
    ghost var ds: seq<uint8> := [0x23, 0x12, 0x26, 0x19];
    HelpCodes(ds);
    HelpLetters(ds);
    FewLettersFindRoom({}, serialExists, HELP_POLLS, ds);
    outcome := LettersRun(console, ds);
    HelpIsFirst(outcome);
  }

  /** The stream of bytes from the serial line alone, as long as each poll finds room. */
  lemma SerialStream(console: ConsoleDriver)
    requires console.Valid() && console.ring.Queue() == [] && console.serialExists
    requires Room(0, console.kbd.shift, true, console.polls)
    requires forall i :: 0 <= i < |console.polls| ==> console.polls[i].codes == []
    requires 0 !in SerialBytes(console.polls)
    ensures console.Stream() == SerialBytes(console.polls) && !RebootsIn(console.kbd.shift, Codes(console.polls))
  {
    SerialArrives(console.kbd.shift, console.polls);
    DeliveredIffRoom([], console.kbd.shift, true, console.polls);
    assert [] + SerialBytes(console.polls) == SerialBytes(console.polls);
  }

  /** From the serial line: text and a line end, however the polls cut them, decide the command by the words of the edited text. */
  method SerialRun(console: ConsoleDriver, ghost text: seq<uint8>, ghost e: uint8) returns (outcome: Monitor.Outcome)
    requires console.Valid() && console.ring.Queue() == [] && console.serialExists
    requires Room(0, console.kbd.shift, true, console.polls)
    requires forall i :: 0 <= i < |console.polls| ==> console.polls[i].codes == []
    requires SerialBytes(console.polls) == text + [e] && 0 !in text && NoLineEnd(text) && EndsLine(e)
    modifies console`polls, console.kbd, console.ring, console.ring.buf, console.lineBuf
    modifies console.display, console.display.machine, console.display.machine.mem
    ensures console.Valid() && console.Stream() == []
    ensures LineDecides(text, outcome)
  {
    SerialStream(console);
    assert text + [e] == text + [e] + [];
    outcome := LineRuns(console, text, e, []);
  }

  /** "help" and a carriage return on the serial line, cut in two. */
  const SERIAL_HELP: seq<Poll> := [Poll([0x68, 0x65], []), Poll([0x6C, 0x70, 0x0D], [])]

  lemma MoreSerial(poll: Poll, polls: seq<Poll>, bytes: seq<uint8>)
    requires SerialBytes(polls) == bytes
    ensures SerialBytes([poll] + polls) == poll.serial + bytes
  {
    assert ([poll] + polls)[1..] == polls;
  }

  lemma SerialHelpBytes(polls: seq<Poll>, word: seq<uint8>)
    requires polls == SERIAL_HELP && word == [0x68, 0x65, 0x6C, 0x70]
    ensures SerialBytes(polls) == word + [0x0D]
    ensures Lettered(word)
  {
    MoreSerial(Poll([0x6C, 0x70, 0x0D], []), [], []);
    MoreSerial(Poll([0x68, 0x65], []), [Poll([0x6C, 0x70, 0x0D], [])], [0x6C, 0x70, 0x0D]);
  }

  lemma FewSerialFindRoom(polls: seq<Poll>)
    requires forall i :: 0 <= i < |polls| ==> polls[i].codes == []
    requires 0 !in SerialBytes(polls) && |SerialBytes(polls)| < CONSBUFSIZE
    ensures Room(0, {}, true, polls)
  {
    SerialArrives({}, polls);
    FewFindRoom(0, {}, true, polls);
  }

  method SerialWord(display: Screen.Display, polls: seq<Poll>, ghost word: seq<uint8>) returns (outcome: Monitor.Outcome)
    requires display.Valid() && Lettered(word) && |word| < CONSBUFSIZE - 1
    requires SerialBytes(polls) == word + [0x0D]
    requires forall i :: 0 <= i < |polls| ==> polls[i].codes == []
    modifies display, display.machine, display.machine.mem
    ensures if word == [] then outcome == Monitor.Empty else Monitor.IsLookup(word, outcome)
  {
    FewSerialFindRoom(polls);
    var console := new ConsoleDriver(display, true, polls);
    LettersKept(word);
    outcome := SerialRun(console, word, 0x0D);
    WordDecides(word, outcome);
  }

  /** On a console just switched on, "help" on the serial line runs the first command too. */
  method SerialHelpRuns(display: Screen.Display) returns (outcome: Monitor.Outcome)
    requires display.Valid()
    modifies display, display.machine, display.machine.mem
    ensures outcome == Monitor.Invoke(0)
  {
    ghost var word: seq<uint8> := [0x68, 0x65, 0x6C, 0x70];
    SerialHelpBytes(SERIAL_HELP, word);
    outcome := SerialWord(display, SERIAL_HELP, word);
    HelpIsFirst(outcome);
  }
}
