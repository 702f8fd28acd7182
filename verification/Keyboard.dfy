/** kern/console.c, the keyboard: kbd_proc_data and what its flags mean over a whole scan-code history. */
module Keyboard {
  import opened CTypes
  import opened Keymaps

  datatype Flag = SHIFT | CTL | ALT | CAPSLOCK | NUMLOCK | SCROLLLOCK | E0ESC

  function ShiftCode(d: uint8): set<Flag> {
    match d
    case 0x1D => {CTL}
    case 0x2A => {SHIFT}
    case 0x36 => {SHIFT}
    case 0x38 => {ALT}
    case 0x9D => {CTL}
    case 0xB8 => {ALT}
    case _ => {}
  }

  function ToggleCode(d: uint8): set<Flag> {
    match d
    case 0x3A => {CAPSLOCK}
    case 0x45 => {NUMLOCK}
    case 0x46 => {SCROLLLOCK}
    case _ => {}
  }

  /** charcode[shift & (CTL | SHIFT)] */
  function CharCode(flags: set<Flag>, d: uint8): uint8 {
    if CTL in flags then CtlMap(d) else if SHIFT in flags then ShiftMap(d) else NormalMap(d)
  }

  type History = seq<uint8>

  /** Byte i came directly after 0xE0. */
  predicate Prefixed(h: History, i: int)
    requires 0 <= i <= |h|
  {
    i > 0 && h[i - 1] == 0xE0
  }

  /** A key with one code on either side of the keyboard is down: its last make has no later break. */
  ghost predicate DownEither(h: History, make: uint8, release: uint8) {
    exists i :: 0 <= i < |h| && h[i] == make && forall j :: i < j < |h| ==> h[j] != release
  }

  predicate ShiftMake(h: History, i: int)
    requires 0 <= i < |h|
  {
    (h[i] == 0x2A || h[i] == 0x36) && !Prefixed(h, i)
  }

  predicate ShiftRelease(h: History, i: int)
    requires 0 <= i < |h|
  {
    (h[i] == 0xAA || h[i] == 0xB6) && !Prefixed(h, i)
  }

  /** A shift key went down, un-prefixed, and no un-prefixed release of either came later. */
  ghost predicate ShiftDown(h: History) {
    exists i :: 0 <= i < |h| && ShiftMake(h, i) && forall j :: i < j < |h| ==> !ShiftRelease(h, j)
  }

  /** How often a lock key was pressed: its code, not directly after 0xE0. */
  function Presses(h: History, code: uint8): nat {
    if h == [] then 0
    else Presses(h[..|h| - 1], code) + (if h[|h| - 1] == code && !Prefixed(h, |h| - 1) then 1 else 0)
  }

  /** What each flag means. */
  ghost predicate Holds(f: Flag, h: History) {
    match f
    case SHIFT => ShiftDown(h)
    case CTL => DownEither(h, 0x1D, 0x9D)
    case ALT => DownEither(h, 0x38, 0xB8)
    case CAPSLOCK => Presses(h, 0x3A) % 2 == 1
    case NUMLOCK => Presses(h, 0x45) % 2 == 1
    case SCROLLLOCK => Presses(h, 0x46) % 2 == 1
    case E0ESC => |h| > 0 && h[|h| - 1] == 0xE0
  }

  /** The flags after one more byte, as kbd_proc_data sets them. */
  function NextFlags(flags: set<Flag>, data: uint8): set<Flag> {
    if data == 0xE0 then flags + {E0ESC}
    else if data >= 0x80 then
      flags - (ShiftCode(if E0ESC in flags then data else data - 0x80) + {E0ESC})
    else
      var d := if E0ESC in flags then data + 0x80 else data;
      var down := flags - {E0ESC} + ShiftCode(d);
      (down - ToggleCode(d)) + (ToggleCode(d) - down)
  }

  lemma DownEitherStep(h: History, data: uint8, make: uint8, release: uint8)
    requires make != release
    ensures DownEither(h + [data], make, release) <==> data == make || (data != release && DownEither(h, make, release))
  {
    var h' := h + [data];
    if data == make {
      assert h'[|h|] == make;
    } else {
      if DownEither(h', make, release) {
        var i :| 0 <= i < |h'| && h'[i] == make && forall j :: i < j < |h'| ==> h'[j] != release;
        assert h[i] == make && h'[|h|] == data;
        forall j | i < j < |h| ensures h[j] != release { assert h'[j] == h[j]; }
      }
      if data != release && DownEither(h, make, release) {
        var i :| 0 <= i < |h| && h[i] == make && forall j :: i < j < |h| ==> h[j] != release;
        assert h'[i] == make;
      }
    }
  }

  lemma ShiftDownStep(h: History, data: uint8)
    ensures var h' := h + [data];
            ShiftDown(h') <==> ShiftMake(h', |h|) || (!ShiftRelease(h', |h|) && ShiftDown(h))
  {
    var h' := h + [data];
    if ShiftDown(h') && !ShiftMake(h', |h|) {
      var i :| 0 <= i < |h'| && ShiftMake(h', i) && forall j :: i < j < |h'| ==> !ShiftRelease(h', j);
      assert ShiftMake(h, i);
      forall j | i < j < |h| ensures !ShiftRelease(h, j) { assert !ShiftRelease(h', j); }
    }
    if !ShiftRelease(h', |h|) && ShiftDown(h) {
      var i :| 0 <= i < |h| && ShiftMake(h, i) && forall j :: i < j < |h| ==> !ShiftRelease(h, j);
      assert ShiftMake(h', i);
      forall j | i < j < |h'| ensures !ShiftRelease(h', j) { assert j < |h| ==> !ShiftRelease(h, j); }
    }
  }

  /** Every step keeps every flag at its meaning over the history. */
  lemma FlagStep(h: History, flags: set<Flag>, data: uint8, f: Flag)
    requires forall g :: g in flags <==> Holds(g, h)
    ensures f in NextFlags(flags, data) <==> Holds(f, h + [data])
  {
    assert (h + [data])[..|h|] == h;
    match f {
      case SHIFT => ShiftDownStep(h, data);
      case CTL => DownEitherStep(h, data, 0x1D, 0x9D);
      case ALT => DownEitherStep(h, data, 0x38, 0xB8);
      case _ =>
    }
  }

  /** The character a make code gives with these (already updated) flags. */
  function CharFor(flags: set<Flag>, d: uint8): uint8 {
    var c := CharCode(flags, d);
    if CAPSLOCK !in flags then c
    else if Lower(c) then c - 0x20
    else if Upper(c) then c + 0x20
    else c
  }

  /** The character one byte gives, or 0. */
  function CharOf(flags: set<Flag>, data: uint8): uint8 {
    if data >= 0x80 then 0
    else CharFor(NextFlags(flags, data), if E0ESC in flags then data + 0x80 else data)
  }

  class KeyboardDriver {
    var shift: set<Flag>
    /** Every byte read from the data port so far. */
    ghost var history: History

    ghost predicate Valid()
      reads this
    {
      forall f :: f in shift <==> Holds(f, history)
    }

    constructor ()
      ensures Valid() && history == [] && shift == {}
    {
      shift, history := {}, [];
    }

    /** kbd_proc_data, given a byte that is not from the mouse: the character, or 0, and whether it reboots. */
    method KbdProcData(data0: uint8) returns (c: uint8, reboot: bool)
      requires Valid()
      modifies this
      ensures Valid() && history == old(history) + [data0] && shift == NextFlags(old(shift), data0)
      ensures c == CharOf(old(shift), data0)
      ensures reboot <==> data0 == 0x53 && Holds(E0ESC, old(history)) && Holds(CTL, old(history)) && Holds(ALT, old(history))
    {
      ghost var before, h := shift, history;
      var data := data0;
      history := history + [data];
      forall f ensures f in NextFlags(before, data) <==> Holds(f, history) {
        FlagStep(h, before, data, f);
      }
      if data == 0xE0 {
        shift := shift + {E0ESC};
        return 0, false;
      } else if data >= 0x80 {
        data := if E0ESC in shift then data else data - 0x80;
        shift := shift - (ShiftCode(data) + {E0ESC});
        return 0, false;
      } else if E0ESC in shift {
        data := data + 0x80;
        shift := shift - {E0ESC};
      }

      shift := shift + ShiftCode(data);
      shift := (shift - ToggleCode(data)) + (ToggleCode(data) - shift);
      assert shift == NextFlags(before, data0);

      c := CharCode(shift, data);
      if CAPSLOCK in shift {
        if Lower(c) {
          c := c - 0x20;
        } else if Upper(c) {
          c := c + 0x20;
        }
      }
      reboot := CTL in shift && ALT in shift && c == KEY_DEL;
      DeleteKey(data);
    }
  }

  /**
    A letter key, with neither control key held, gives its letter: upper case exactly when
    shift is held or caps lock is on but not both. With a control key it gives the control code.
   */
  lemma LetterCase(h: History, flags: set<Flag>, d: uint8)
    requires forall f :: f in flags <==> Holds(f, h)
    requires !Holds(E0ESC, h) && Lower(NormalMap(d))
    ensures var c := CharOf(flags, d);
            if Holds(CTL, h) then c == NormalMap(d) - 0x60
            else c == if Holds(SHIFT, h) != Holds(CAPSLOCK, h) then NormalMap(d) - 0x20 else NormalMap(d)
  {
    LetterKeys(d);
    assert ShiftCode(d) == {} && ToggleCode(d) == {};
    assert NextFlags(flags, d) == flags;
  }

  /** Caps lock turns letters round and touches no other character. */
  lemma CapsOnlyLetters(flags: set<Flag>, data: uint8)
    requires CAPSLOCK !in flags && data != 0x3A
    ensures var c, c' := CharOf(flags, data), CharOf(flags + {CAPSLOCK}, data);
            if 0x61 <= c <= 0x7A then c' == c - 0x20 else if 0x41 <= c <= 0x5A then c' == c + 0x20 else c' == c
  {
    if data < 0x80 {
      var d := if E0ESC in flags then data + 0x80 else data;
      CapsFlag(flags, data, d);
    }
  }

  lemma CapsFlag(flags: set<Flag>, data: uint8, d: uint8)
    requires CAPSLOCK !in flags && data < 0x80 && data != 0x3A && d == if E0ESC in flags then data + 0x80 else data
    ensures CAPSLOCK !in NextFlags(flags, data) && NextFlags(flags + {CAPSLOCK}, data) == NextFlags(flags, data) + {CAPSLOCK}
  {
  }

  /** The lock key itself, breaks and the prefix type nothing. */
  lemma SilentCodes(flags: set<Flag>, data: uint8)
    requires data >= 0x80 || data == 0x3A
    ensures CharOf(flags, data) == 0
  {
  }

  /** With the prefix the arrow and editing keys give their own codes; the keypad's Enter and slash are those of the main keys. */
  lemma PrefixedKeys()
    ensures CharOf({E0ESC}, 0x48) == 0xE2 && CharOf({E0ESC, SHIFT}, 0x48) == 0xE2
    ensures CharOf({E0ESC}, 0x50) == 0xE3 && CharOf({E0ESC, SHIFT}, 0x50) == 0xE3
    ensures CharOf({E0ESC}, 0x4B) == 0xE4 && CharOf({E0ESC, SHIFT}, 0x4B) == 0xE4
    ensures CharOf({E0ESC}, 0x4D) == 0xE5 && CharOf({E0ESC, SHIFT}, 0x4D) == 0xE5
    ensures CharOf({E0ESC}, 0x47) == 0xE0 && CharOf({E0ESC, SHIFT}, 0x47) == 0xE0
    ensures CharOf({E0ESC}, 0x4F) == 0xE1 && CharOf({E0ESC, SHIFT}, 0x4F) == 0xE1
    ensures CharOf({E0ESC}, 0x49) == 0xE6 && CharOf({E0ESC, SHIFT}, 0x49) == 0xE6
    ensures CharOf({E0ESC}, 0x51) == 0xE7 && CharOf({E0ESC, SHIFT}, 0x51) == 0xE7
    ensures CharOf({E0ESC}, 0x52) == 0xE8 && CharOf({E0ESC, SHIFT}, 0x52) == 0xE8
    ensures CharOf({E0ESC}, 0x53) == 0xE9 && CharOf({E0ESC, SHIFT}, 0x53) == 0xE9
    ensures CharOf({E0ESC}, 0x1C) == 0x0A && CharOf({E0ESC, SHIFT}, 0x1C) == 0x0A
    ensures CharOf({E0ESC}, 0x35) == 0x2F && CharOf({E0ESC, SHIFT}, 0x35) == 0x2F
  {
    PrefixedKey(0x48, 0xE2);
    PrefixedKey(0x50, 0xE3);
    PrefixedKey(0x4B, 0xE4);
    PrefixedKey(0x4D, 0xE5);
    PrefixedKey(0x47, 0xE0);
    PrefixedKey(0x4F, 0xE1);
    PrefixedKey(0x49, 0xE6);
    PrefixedKey(0x51, 0xE7);
    PrefixedKey(0x52, 0xE8);
    PrefixedKey(0x53, 0xE9);
    PrefixedKey(0x1C, 0x0A);
    PrefixedKey(0x35, 0x2F);
  }

  lemma PrefixedKey(d: uint8, c: uint8)
    requires d < 0x80 && NormalMap(d + 0x80) == c && ShiftMap(d + 0x80) == c && d !in {0x1D, 0x38} && !Lower(c) && !Upper(c)
    ensures CharOf({E0ESC}, d) == c && CharOf({E0ESC, SHIFT}, d) == c
  {
    assert ShiftCode(d + 0x80) == {} && ToggleCode(d + 0x80) == {};
    assert NextFlags({E0ESC}, d) == {} && NextFlags({E0ESC, SHIFT}, d) == {SHIFT};
  }

  /** The function keys, the flag keys and the codes of no key type nothing. */
  lemma SilentKeys(flags: set<Flag>, d: uint8)
    requires E0ESC !in flags
    requires d == 0 || 0x3A <= d <= 0x46 || 0x54 <= d < 0x80 || d in {0x1D, 0x2A, 0x36, 0x38}
    ensures CharOf(flags, d) == 0
  {
  }

  /**
    With control, Enter types a carriage return, the backslash key 0x1C and the slash key
    0xEF, and no other key but a letter types anything.
   */
  lemma ControlKeys(d: uint8)
    requires d < 0x80 && !Lower(NormalMap(d)) && d !in {0x1D, 0x2A, 0x36, 0x38, 0x3A, 0x45, 0x46}
    ensures CharOf({CTL}, d) == if d == 0x1C then 0x0D else if d == 0x2B then 0x1C else if d == 0x35 then 0xEF else 0
  {
    assert ShiftCode(d) == {} && ToggleCode(d) == {};
    assert NextFlags({CTL}, d) == {CTL};
  }
}
