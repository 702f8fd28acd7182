/**
  The console as a whole: key presses and serial bytes go through the input ring to
  getchar, and readline edits and echoes them. The devices are a schedule of what each
  poll finds; serial and parallel output are not modelled.
 */
module Console {
  import opened CTypes
  import opened Strings
  import opened Keyboard
  import opened Keymaps
  import opened InputRing
  import opened Polling
  import opened Terminal
  import opened LineEditor
  import Screen
  import Printfmt
  import FormatSpec

  /** getchar returns a character, or is still waiting when the schedule ends, or Ctrl-Alt-Del reboots. */
  datatype Input = Char(c: uint8) | Waiting | Rebooted

  datatype LineResult = Line(length: nat) | NoLine | Reset

  class ConsoleDriver {
    const kbd: KeyboardDriver
    const ring: Ring
    const display: Screen.Display
    const serialExists: bool
    /** The static line buffer of lib/readline.c. */
    const lineBuf: array<uint8>
    var polls: seq<Poll>

    ghost predicate InputValid()
      reads kbd, ring, ring.buf
    {
      kbd.Valid() && ring.Valid()
    }

    ghost predicate Valid()
      reads this, kbd, ring, ring.buf, display, display.machine, display.machine.mem
    {
      && InputValid() && display.Valid()
      && lineBuf.Length == BUFLEN
      && lineBuf != ring.buf && lineBuf != display.machine.mem && ring.buf != display.machine.mem
    }

    constructor (display: Screen.Display, serialExists: bool, polls: seq<Poll>)
      requires display.Valid()
      ensures Valid() && this.display == display && this.polls == polls && this.serialExists == serialExists
      ensures fresh(kbd) && fresh(ring) && fresh(ring.buf) && fresh(lineBuf)
      ensures kbd.shift == {} && ring.Queue() == [] && ring.arrived == [] && ring.delivered == [] && ring.overflows == 0
    {
      this.kbd := new KeyboardDriver();
      this.ring := new Ring();
      this.display, this.serialExists, this.polls := display, serialExists, polls;
      this.lineBuf := new uint8[BUFLEN];
    }

    ghost function Input(): Inflow
      reads this, kbd, ring
    {
      Inflow(kbd.shift, ring.arrived, polls)
    }

    /** All that getchar will deliver, if nothing reboots. */
    ghost function Stream(): seq<uint8>
      requires InputValid()
      reads this, kbd, ring, ring.buf
    {
      Delivered(ring.Queue(), kbd.shift, serialExists, polls)
    }

    /** cons_intr on the serial port. */
    method SerialIntr(serial: seq<uint8>)
      requires InputValid()
      modifies ring, ring.buf
      ensures InputValid() && ring.delivered == old(ring.delivered)
      ensures ring.arrived == old(ring.arrived) + NonZero(serial)
      ensures ring.Queue() == PushAll(old(ring.Queue()), NonZero(serial))
    {
      var i := 0;
      while i < |serial|
        invariant i <= |serial|
        invariant InputValid() && ring.delivered == old(ring.delivered)
        invariant ring.arrived + NonZero(serial[i..]) == old(ring.arrived) + NonZero(serial)
        invariant PushAll(ring.Queue(), NonZero(serial[i..])) == PushAll(old(ring.Queue()), NonZero(serial))
        modifies ring, ring.buf
      {
        ghost var a := ring.arrived;
        PushFirst(ring.Queue(), serial[i], NonZero(serial[i + 1..]));
        ring.Store(serial[i]);
        ThenMore(a, ring.arrived, ring.arrived + NonZero(serial[i + 1..]), NonZeroByte(serial[i]), NonZero(serial[i + 1..]));
        assert serial[i..][1..] == serial[i + 1..];
        i := i + 1;
      }
    }

    /** One turn of cons_intr's loop on the keyboard. */
    method KeyStep(code: uint8) returns (reboot: bool)
      requires InputValid()
      modifies kbd, ring, ring.buf
      ensures InputValid() && ring.delivered == old(ring.delivered)
      ensures kbd.history == old(kbd.history) + [code] && kbd.shift == NextFlags(old(kbd.shift), code)
      ensures reboot <==> Reboots(old(kbd.shift), code)
      ensures reboot ==> ring.arrived == old(ring.arrived)
      ensures !reboot ==> ring.arrived == old(ring.arrived) + NonZeroByte(CharOf(old(kbd.shift), code))
      ensures !reboot ==> ring.Queue() == Push(old(ring.Queue()), CharOf(old(kbd.shift), code))
    {
      var c;
      c, reboot := kbd.KbdProcData(code);
      if !reboot {
        ring.Store(c);
      }
    }

    /** The codes up to i have been read: what they typed, and what the rest will type, is what all of them type. */
    ghost predicate KeysRead(codes: seq<uint8>, i: int, start: KeyState)
      requires InputValid()
      reads kbd, ring, ring.buf
    {
      && 0 <= i <= |codes| && |start.queue| < CONSBUFSIZE
      && kbd.history == start.history + codes[..i]
      && ring.arrived + Typed(kbd.shift, codes[i..]) == start.arrived + Typed(start.flags, codes)
      && PushAll(ring.Queue(), Typed(kbd.shift, codes[i..])) == PushAll(start.queue, Typed(start.flags, codes))
      && FlagsAfter(kbd.shift, codes[i..]) == FlagsAfter(start.flags, codes)
      && RebootsIn(kbd.shift, codes[i..]) == RebootsIn(start.flags, codes)
    }

    method NextKey(codes: seq<uint8>, i: nat, ghost start: KeyState) returns (reboot: bool)
      requires InputValid() && i < |codes| && KeysRead(codes, i, start)
      modifies kbd, ring, ring.buf
      ensures InputValid() && ring.delivered == old(ring.delivered)
      ensures reboot ==> RebootsIn(start.flags, codes) == true
      ensures !reboot ==> KeysRead(codes, i + 1, start) == true
    {
      ghost var h := kbd.history;
      TypedStep(kbd.shift, codes, i, ring.arrived);
      PushStep(kbd.shift, codes, i, ring.Queue());
      reboot := KeyStep(codes[i]);
      NextPrefix(start.history, codes, i, h);
    }

    /** cons_intr on the keyboard. A reboot ends everything. */
    method KbdIntr(codes: seq<uint8>) returns (reboot: bool)
      requires InputValid()
      modifies kbd, ring, ring.buf
      ensures InputValid() && ring.delivered == old(ring.delivered)
      ensures reboot <==> RebootsIn(old(kbd.shift), codes)
      ensures !reboot ==> ring.arrived == old(ring.arrived) + Typed(old(kbd.shift), codes)
      ensures !reboot ==> kbd.history == old(kbd.history) + codes && kbd.shift == FlagsAfter(old(kbd.shift), codes)
      ensures !reboot ==> ring.Queue() == PushAll(old(ring.Queue()), Typed(old(kbd.shift), codes))
    {
      ghost var start := KeyState(kbd.shift, ring.Queue(), ring.arrived, kbd.history);
      var i := 0;
      assert codes[..0] == [] && codes[0..] == codes && start.history + [] == start.history;
      while i < |codes|
        invariant InputValid() && ring.delivered == old(ring.delivered) && KeysRead(codes, i, start)
        modifies kbd, ring, ring.buf
      {
        reboot := NextKey(codes, i, start);
        if reboot {
          return;
        }
        i := i + 1;
      }
      reboot := false;
      assert codes[i..] == [] && codes[..i] == codes && ring.arrived + [] == ring.arrived;
    }

    /** The two polls of cons_getc. */
    method PollDevices(poll: Poll) returns (reboot: bool)
      requires InputValid()
      modifies kbd, ring, ring.buf
      ensures InputValid() && ring.delivered == old(ring.delivered)
      ensures reboot <==> RebootsIn(old(kbd.shift), poll.codes)
      ensures !reboot ==> kbd.shift == FlagsAfter(old(kbd.shift), poll.codes)
      ensures !reboot ==> ring.arrived == old(ring.arrived) + Brought(old(kbd.shift), serialExists, poll)
      ensures !reboot ==> ring.Queue() == PushAll(old(ring.Queue()), Brought(old(kbd.shift), serialExists, poll))
    {
      ghost var a, q, flags := ring.arrived, ring.Queue(), kbd.shift;
      if serialExists {
        SerialIntr(poll.serial);
      }
      ghost var a' := ring.arrived;
      reboot := KbdIntr(poll.codes);
      if serialExists && !reboot {
        ThenMore(a, a', ring.arrived, NonZero(poll.serial), Typed(flags, poll.codes));
        PushConcat(q, NonZero(poll.serial), Typed(flags, poll.codes));
      }
    }

    /** cons_getc: poll both devices, then take one byte or 0. */
    method ConsGetc(poll: Poll) returns (c: uint8, reboot: bool)
      requires InputValid()
      modifies kbd, ring, ring.buf
      ensures InputValid()
      ensures reboot <==> RebootsIn(old(kbd.shift), poll.codes)
      ensures reboot ==> ring.delivered == old(ring.delivered)
      ensures !reboot ==> ring.delivered == old(ring.delivered) + NonZeroByte(c) && (c == 0 ==> ring.Queue() == [])
      ensures !reboot ==> kbd.shift == FlagsAfter(old(kbd.shift), poll.codes)
      ensures !reboot ==> ring.arrived == old(ring.arrived) + Brought(old(kbd.shift), serialExists, poll)
      ensures !reboot ==> PushAll(old(ring.Queue()), Brought(old(kbd.shift), serialExists, poll)) == NonZeroByte(c) + ring.Queue()
    {
      c := 0;
      reboot := PollDevices(poll);
      if !reboot {
        c := ring.Take();
      }
    }

    /** The cons_getc calls that find nothing new at either device. */
    method Drain() returns (c: uint8)
      requires Valid()
      modifies kbd, ring, ring.buf
      ensures Valid() && Input() == old(Input())
      ensures ring.delivered == old(ring.delivered) + NonZeroByte(c)
      ensures c == 0 ==> ring.Queue() == []
      ensures old(ring.Queue()) == NonZeroByte(c) + ring.Queue()
    {
      var reboot;
      assert Brought(kbd.shift, serialExists, SILENT) == [];
      c, reboot := ConsGetc(SILENT);
    }

    /** cons_getc, with the next poll of the schedule. */
    method NextPoll() returns (c: uint8, reboot: bool)
      requires Valid() && polls != []
      modifies this`polls, kbd, ring, ring.buf
      ensures Valid() && polls == old(polls)[1..]
      ensures reboot <==> RebootsIn(old(kbd.shift), old(polls)[0].codes)
      ensures reboot ==> ring.delivered == old(ring.delivered)
      ensures !reboot ==> Input() == AfterPoll(old(Input()), serialExists)
      ensures !reboot ==> ring.delivered == old(ring.delivered) + NonZeroByte(c)
      ensures !reboot ==> old(Stream()) == NonZeroByte(c) + Stream()
    {
      var poll := polls[0];
      polls := polls[1..];
      ghost var q' := PushAll(ring.Queue(), Brought(kbd.shift, serialExists, poll));
      c, reboot := ConsGetc(poll);
      if !reboot {
        FirstOf(q', c, ring.Queue());
      }
    }

    /**
      getchar: it never returns 0. After the last poll of the schedule the devices stay
      silent; then it waits for ever once the ring is empty.
     */
    method GetChar() returns (r: Input)
      requires Valid()
      modifies this`polls, kbd, ring, ring.buf
      ensures Valid()
      ensures r.Char? ==> r.c != 0 && ring.delivered == old(ring.delivered) + NonZeroByte(r.c)
      ensures r.Char? ==> |polls| < |old(polls)| || (|polls| == |old(polls)| && |ring.Queue()| < |old(ring.Queue())|)
      ensures !r.Char? ==> ring.delivered == old(ring.delivered)
      ensures r.Waiting? ==> polls == [] && ring.Queue() == []
      ensures r.Rebooted? ==> RebootsIn(old(kbd.shift), Codes(old(polls))) == true
      ensures !r.Rebooted? ==> Polled(old(Input()), Input(), serialExists) == true
      ensures r.Char? ==> old(Stream()) == [r.c] + Stream()
      ensures r.Waiting? ==> old(Stream()) == Stream()
    {
      while polls != []
        invariant Valid() && ring.delivered == old(ring.delivered) && |polls| <= |old(polls)|
        invariant Polled(old(Input()), Input(), serialExists)
        invariant |polls| == |old(polls)| ==> ring.Queue() == old(ring.Queue())
        invariant Stream() == old(Stream())
        decreases |polls|
        modifies this`polls, kbd, ring, ring.buf
      {
        ghost var before := Input();
        var c, reboot := NextPoll();
        if reboot {
          RebootNow(before.flags, before.polls);
          RebootLater(old(Input()), before, serialExists);
          return Rebooted;
        }
        PolledOnce(old(Input()), before, serialExists);
        if c != 0 {
          return Char(c);
        }
      }
      var c := Drain();
      r := if c == 0 then Waiting else Char(c);
    }

    /** getchar, with an account of all the input since start: inputs is what it has delivered after d0, the first part of all. */
    method NextChar(ghost start: Inflow, ghost d0: seq<uint8>, ghost all: seq<uint8>, ghost inputs: seq<uint8>) returns (r: Input)
      requires Valid() && Polled(start, Input(), serialExists) && ring.delivered == d0 + inputs && all == inputs + Stream()
      modifies this`polls, kbd, ring, ring.buf
      ensures Valid()
      ensures r.Char? ==> r.c != 0 && ring.delivered == d0 + (inputs + [r.c])
      ensures r.Char? ==> |polls| < |old(polls)| || (|polls| == |old(polls)| && |ring.Queue()| < |old(ring.Queue())|)
      ensures !r.Char? ==> ring.delivered == d0 + inputs
      ensures r.Waiting? ==> polls == [] && ring.Queue() == []
      ensures r.Rebooted? ==> RebootsIn(start.flags, Codes(start.polls)) == true
      ensures !r.Rebooted? ==> Polled(start, Input(), serialExists) == true
      ensures !r.Rebooted? ==> all == (if r.Char? then inputs + [r.c] else inputs) + Stream()
    {
      ghost var before, stream := Input(), Stream();
      r := GetChar();
      if r.Rebooted? {
        RebootLater(start, before, serialExists);
      } else {
        PolledTwice(start, before, Input(), serialExists);
      }
      if r.Char? {
        ThenMore(d0, d0 + inputs, ring.delivered, inputs, [r.c]);
        MoveOver(inputs, stream, r.c, Stream());
      }
    }

    /** cputchar, as far as the screen goes. */
    method Cputchar(c: uint32)
      requires Valid()
      modifies display, display.machine, display.machine.mem
      ensures Valid() && display.term == Put(old(display.term), c)
    {
      display.CgaPutc(c);
    }

    /** The state between two turns of readline's loop: inputs so far, and the tape before the line. */
    ghost predicate Editing(inputs: seq<uint8>, i: int, before: seq<uint16>, clean: bool)
      reads lineBuf, display, display.machine, display.machine.mem
    {
      && lineBuf.Length == BUFLEN && display.Valid() && NoLineEnd(inputs)
      && i == |EditAll(inputs)| && lineBuf[..i] == EditAll(inputs)
      && Shown(display.term, before, EditAll(inputs)) && (clean ==> BlankAfter(display.term))
    }

    /** One turn of readline's loop, for a character that does not end the line. */
    method EditChar(c: uint8, i0: nat, ghost inputs: seq<uint8>, ghost before: seq<uint16>, ghost clean: bool) returns (i: nat)
      requires Valid() && Editing(inputs, i0, before, clean) && !EndsLine(c)
      modifies lineBuf, display, display.machine, display.machine.mem
      ensures Valid() && Editing(inputs + [c], i, before, clean) == true
    {
      i := i0;
      EditAllStep(inputs, c);
      ghost var line := EditAll(inputs);
      EchoKeepsShown(display.term, before, line, c);
      if clean { EchoKeepsBlank(display.term, line, c); }
      RunOne(display.term, if Erases(line, c) then BS else c);
      if (c == BS || c == DEL) && i > 0 {
        Cputchar(BS);
        i := i - 1;
      } else if c >= SPACE && i < BUFLEN - 1 {
        Cputchar(c);
        StoreChar(i, c, line);
        i := i + 1;
      }
    }

    /** buf[i] = c */
    method StoreChar(i: nat, c: uint8, ghost line: seq<uint8>)
      requires i == |line| < lineBuf.Length && lineBuf[..i] == line
      modifies lineBuf
      ensures lineBuf[..i + 1] == line + [c]
    {
      lineBuf[i] := c;
    }

    /** A line has been read: the last of its inputs ended it, and shown is the terminal before that. */
    ghost predicate Finished(inputs: seq<uint8>, length: nat, before: seq<uint16>, shown: Term)
      requires lineBuf.Length == BUFLEN && display.Valid()
      reads lineBuf, display, display.machine, display.machine.mem
    {
      && |inputs| > 0 && EndsLine(inputs[|inputs| - 1])
      && var typed := inputs[..|inputs| - 1];
         var line := EditAll(typed);
         && NoLineEnd(typed)
         && length == |line| && lineBuf[..length] == line && lineBuf[length] == 0
         && Shown(shown, before, line) && display.term == Put(shown, LF)
    }

    method EndLine(i: nat, ghost c: uint8, ghost inputs: seq<uint8>, ghost before: seq<uint16>, ghost clean: bool)
      requires Valid() && Editing(inputs, i, before, clean) && EndsLine(c)
      modifies lineBuf, display, display.machine, display.machine.mem
      ensures Valid() && Finished(inputs + [c], i, before, old(display.term)) == true
      ensures clean ==> BlankAfter(display.term)
    {
      assert (inputs + [c])[..|inputs|] == inputs;
      if clean { PutKeepsBlank(display.term, LF); }
      Cputchar(LF);
      lineBuf[i] := 0;
    }

    /** The line has no control characters. */
    lemma FinishedIsPlain(inputs: seq<uint8>, length: nat, before: seq<uint16>, shown: Term)
      requires lineBuf.Length == BUFLEN && display.Valid() && Finished(inputs, length, before, shown)
      ensures length <= 1023 && forall k :: 0 <= k < length ==> lineBuf[k] >= 0x20
      ensures |inputs| > 0 && (inputs[|inputs| - 1] == 10 || inputs[|inputs| - 1] == 13)
    {
      NoControls(inputs[..|inputs| - 1]);
      assert forall k :: 0 <= k < length ==> lineBuf[..length][k] == lineBuf[k];
    }

    /** cprintf("%s", prompt) */
    method PrintPrompt(prompt: Option<CString>)
      requires Valid()
      modifies display, display.machine, display.machine.mem
      ensures Valid() && display.term == Prompted(old(display.term), prompt)
    {
      if prompt.Some? {
        PromptIsPercentS(prompt.value);
        var cnt := Printfmt.Vcprintf(display, FormatSpec.STRING_FORMAT, [FormatSpec.Str(prompt.value)]);
      }
    }

    /** readline after its prompt. */
    method EditLoop(ghost before: seq<uint16>, ghost clean: bool)
      returns (r: LineResult, i: nat, ghost inputs: seq<uint8>, ghost shown: Term)
      requires Valid() && Editing([], 0, before, clean)
      modifies this`polls, kbd, ring, ring.buf, lineBuf, display, display.machine, display.machine.mem
      ensures Valid() && ring.delivered == old(ring.delivered) + inputs
      ensures r.Reset? ==> RebootsIn(old(kbd.shift), Codes(old(polls))) == true
      ensures !r.Reset? ==> Polled(old(Input()), Input(), serialExists) == true
      ensures !r.Reset? ==> old(Stream()) == inputs + Stream()
      ensures r.Line? ==> |polls| < |old(polls)| || (|polls| == |old(polls)| && |ring.Queue()| < |old(ring.Queue())|)
      ensures r.NoLine? ==> polls == [] && ring.Queue() == []
      ensures r.Line? ==> Finished(inputs, r.length, before, shown) == true
      ensures r.Line? && clean ==> BlankAfter(shown) && BlankAfter(display.term)
      ensures !r.Line? ==> Editing(inputs, i, before, clean) == true && display.term == shown
    {
      inputs, i := [], 0;
      assert ring.delivered + [] == ring.delivered && [] + Stream() == Stream();
      while true
        invariant Valid() && Editing(inputs, i, before, clean)
        invariant ring.delivered == old(ring.delivered) + inputs
        invariant Polled(old(Input()), Input(), serialExists) && old(Stream()) == inputs + Stream()
        invariant |polls| < |old(polls)| || (|polls| == |old(polls)| && |ring.Queue()| <= |old(ring.Queue())|)
        modifies this`polls, kbd, ring, ring.buf, lineBuf, display, display.machine, display.machine.mem
        decreases |polls|, |ring.Queue()|
      {
        var input := NextChar(old(Input()), old(ring.delivered), old(Stream()), inputs);
        shown := display.term;
        match input {
          case Waiting => return NoLine, i, inputs, shown;
          case Rebooted => return Reset, i, inputs, shown;
          case Char(c) =>
            if EndsLine(c) {
              EndLine(i, c, inputs, before, clean);
              return Line(i), i, inputs + [c], shown;
            }
            i := EditChar(c, i, inputs, before, clean);
            inputs := inputs + [c];
        }
      }
    }

    /**
      readline. inputs are the characters it took from getchar, and before is the tape up
      to the end of the prompt. At any stop, the whole line so far stands on screen after
      the prompt, and nothing behind it if nothing stood there before. The line returned is
      the fold of its inputs, NUL-terminated.
     */
    method Readline(prompt: Option<CString>)
      returns (r: LineResult, ghost inputs: seq<uint8>, ghost before: seq<uint16>, ghost shown: Term)
      requires Valid()
      modifies this`polls, kbd, ring, ring.buf, lineBuf, display, display.machine, display.machine.mem
      ensures Valid()
      ensures ring.delivered == old(ring.delivered) + inputs
      ensures r.Reset? ==> RebootsIn(old(kbd.shift), Codes(old(polls))) == true
      ensures !r.Reset? ==> Polled(old(Input()), Input(), serialExists) == true
      ensures !r.Reset? ==> old(Stream()) == inputs + Stream()
      ensures r.Line? ==> |polls| < |old(polls)| || (|polls| == |old(polls)| && |ring.Queue()| < |old(ring.Queue())|)
      ensures r.NoLine? ==> polls == [] && ring.Queue() == []
      ensures var t := Prompted(old(display.term), prompt);
              before == t.tape[..t.cursor] && (BlankAfter(t) ==> BlankAfter(shown) && BlankAfter(display.term))
      ensures r.Line? ==> Finished(inputs, r.length, before, shown) == true
      ensures r.Line? ==> r.length <= 1023 && forall k :: 0 <= k < r.length ==> lineBuf[k] >= 0x20
      ensures r.Line? ==> |inputs| > 0 && (inputs[|inputs| - 1] == 10 || inputs[|inputs| - 1] == 13)
      ensures !r.Line? ==> NoLineEnd(inputs) && display.term == shown && Shown(shown, before, EditAll(inputs))
    {
      PrintPrompt(prompt);
      before := display.term.tape[..display.term.cursor];
      var i;
      r, i, inputs, shown := EditLoop(before, BlankAfter(display.term));
      if r.Line? { FinishedIsPlain(inputs, r.length, before, shown); }
    }
  }

  lemma CharToScreen(c: uint8)
    ensures FormatSpec.StrChar(c, false) % TWO_TO_THE_32 == SignExtend(c)
  {
  }

  lemma CharsToScreen(s: CString, t: seq<int>)
    requires t == FormatSpec.StrChars(s, |s|, false)
    ensures Printfmt.ToScreen(t) == SignExtended(s)
  {
    forall i | 0 <= i < |s| ensures Printfmt.ToScreen(t)[i] == SignExtended(s)[i] {
      CharToScreen(s[i]);
    }
  }

  /** What readline's cprintf("%s", prompt) puts on the screen is the prompt, sign-extended. */
  lemma PromptIsPercentS(prompt: CString)
    ensures var r := FormatSpec.Format(FormatSpec.STRING_FORMAT, [FormatSpec.Str(prompt)]);
            r.Printed? && Printfmt.ToScreen(r.text) == SignExtended(prompt)
  {
    FormatSpec.StringFormatText(prompt);
    CharsToScreen(prompt, FormatSpec.StrText(prompt, FormatSpec.NO_FLAGS));
  }

  /** The terminal once the prompt, if any, has been printed. */
  function Prompted(t: Term, prompt: Option<CString>): (t': Term)
    requires t.Valid()
    ensures t'.Valid()
  {
    if prompt.None? then t else Run(t, SignExtended(prompt.value))
  }

  /** A char is signed: from 0x80 on it reaches cputchar as a negative int. */
  function SignExtend(c: uint8): uint32 {
    if c < 0x80 then c else c + 0xffff_ff00
  }

  function SignExtended(s: seq<uint8>): seq<uint32> {
    seq(|s|, i requires 0 <= i < |s| => SignExtend(s[i]))
  }
}
