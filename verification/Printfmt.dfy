/** lib/printfmt.c: the format interpreter, digit printing and the bounded sink of vsnprintf. */
module Printfmt {
  import opened CTypes
  import opened Strings
  import opened FormatSpec
  import opened Terminal
  import opened Screen

  /** before, with the first bytes of out stored from start on, as many as room allows. */
  function Rendered(before: seq<uint8>, start: nat, room: nat, out: seq<int>): (m: seq<uint8>)
    requires start + room <= |before|
    ensures |m| == |before|
    ensures forall i :: 0 <= i < |before| ==>
              m[i] == if start <= i < start + Min(|out|, room) then out[i - start] % 0x100 else before[i]
  {
    seq(|before|, i requires 0 <= i < |before| =>
      if start <= i < start + Min(|out|, room) then out[i - start] % 0x100 else before[i])
  }

  /** The ints given to putch as they reach cputchar. */
  function ToScreen(s: seq<int>): seq<uint32> {
    seq(|s|, i requires 0 <= i < |s| => s[i] % TWO_TO_THE_32)
  }

  /** What the function pointer putch and its putdat stand for: a struct sprintbuf, or kern/printf.c's console. */
  datatype Target = Buffer(mem: array<uint8>, ebuf: nat) | OnScreen(display: Display)

  /** putch and putdat, with everything that was ever put. */
  class Sink {
    const target: Target
    var buf: nat
    var cnt: nat
    ghost const start: nat
    ghost const before: seq<uint8>
    ghost const term0: Option<Term>
    ghost const Repr: set<object>
    ghost var out: seq<int>

    ghost predicate Valid()
      reads this, Repr
    {
      this in Repr &&
      match target
      case Buffer(mem, ebuf) =>
        && Repr == {this, mem}
        && start <= ebuf < mem.Length && |before| == mem.Length
        && cnt == |out| && buf == start + Min(|out|, ebuf - start)
        && mem[..] == Rendered(before, start, ebuf - start, out)
      case OnScreen(display) =>
        && Repr == {this, display, display.machine, display.machine.mem}
        && cnt == 0
        && term0.Some? && term0.value.Valid() && display.Valid() && display.term == Run(term0.value, ToScreen(out))
    }

    constructor ToBuffer(mem: array<uint8>, buf: nat, ebuf: nat)
      requires buf <= ebuf < mem.Length
      ensures Valid() && target == Buffer(mem, ebuf) && Repr == {this, mem}
      ensures start == buf && before == mem[..] && out == []
    {
      target, this.buf, cnt := Buffer(mem, ebuf), buf, 0;
      start, before, term0, out := buf, mem[..], None, [];
      Repr := {this, mem};
    }

    constructor ToConsole(display: Display)
      requires display.Valid()
      ensures Valid() && target == OnScreen(display) && Repr == {this, display, display.machine, display.machine.mem}
      ensures term0 == Some(display.term) && out == []
    {
      target, buf, cnt := OnScreen(display), 0, 0;
      start, before, term0, out := 0, [], Some(display.term), [];
      Repr := {this, display, display.machine, display.machine.mem};
    }

    /** sprintputch, or kern/printf.c's putch, whose *cnt++ advances the pointer and counts nothing. */
    method Putch(ch: int)
      requires Valid()
      modifies Repr
      ensures Valid() && out == old(out) + [ch]
    {
      match target {
        case Buffer(mem, ebuf) =>
          cnt := cnt + 1;
          if buf < ebuf {
            mem[buf] := ch % 0x100;
            buf := buf + 1;
          }
        case OnScreen(display) =>
          OneMore(term0.value, out, ch);
          display.CgaPutc(ch % TWO_TO_THE_32);
      }
      out := out + [ch];
    }

    /** A run of one character, as every padding loop puts it. */
    method Pad(padc: uint8, n: int)
      requires Valid()
      modifies Repr
      ensures Valid() && out == old(out) + Repeat(padc as int, n)
    {
      var width := n;
      while width > 0
        invariant Valid() && width <= Max(n, 0)
        invariant out == old(out) + Repeat(padc as int, n - Max(width, 0))
        invariant n <= 0 ==> width == n && out == old(out)
        decreases width
      {
        Putch(padc);
        width := width - 1;
      }
    }
  }

  lemma OneMore(t: Term, out: seq<int>, ch: int)
    requires t.Valid()
    ensures Run(t, ToScreen(out + [ch])) == Put(Run(t, ToScreen(out)), ch % TWO_TO_THE_32)
  {
    assert ToScreen(out + [ch]) == ToScreen(out) + [ch % TWO_TO_THE_32];
    RunLast(t, ToScreen(out), ch % TWO_TO_THE_32);
  }

  lemma PaddedStep(num: nat, base: nat, width: int, padc: uint8)
    requires 2 <= base <= 16 && num >= base
    ensures Padded(num, base, width, padc) == Padded(num / base, base, width - 1, padc) + [DigitChar(num % base)]
  {
    var high: seq<int>, last: seq<int> := Digits(num / base, base), [DigitChar(num % base)];
    assert Digits(num, base) == high + last;
    var pads := Repeat(padc as int, width - |high| - 1);
    assert pads + (high + last) == (pads + high) + last;
  }

  lemma Multiplied(base: nat, q: nat)
    requires base >= 2
    ensures base * q >= 2 * q
  {
    assert base * q == 2 * q + (base - 2) * q;
  }

  lemma DivSmaller(num: nat, base: nat)
    requires 2 <= base <= num
    ensures 0 <= num / base < num && 0 <= num % base < base
  {
    var q := num / base;
    assert num == base * q + num % base;
    Multiplied(base, q);
  }

  lemma PaddedLast(num: nat, base: nat, width: int, padc: uint8)
    requires 2 <= base <= 16 && num < base
    ensures num % base == num
    ensures Padded(num, base, width, padc) == Repeat(padc as int, width - 1) + [DigitChar(num)]
  {
    assert num % base == num;
  }

  /** The last line of printnum, which completes a text of which all but the last character is out. */
  method PutLast(b: Sink, ch: uint8, ghost out: seq<int>, ghost pre: seq<int>)
    requires b.Valid() && b.out == out + pre
    modifies b.Repr
    ensures b.Valid() && b.out == out + (pre + [ch as int])
  {
    b.Putch(ch);
    assert (out + pre) + [ch as int] == out + (pre + [ch as int]);
  }

  /** printnum: recursion for the more significant digits, padding before the first one. */
  method PrintNum(b: Sink, num: nat, base: nat, width: int, padc: uint8)
    requires b.Valid() && 2 <= base <= 16
    modifies b.Repr
    ensures b.Valid() && b.out == old(b.out) + Padded(num, base, width, padc)
    decreases num
  {
    ghost var out := b.out;
    if num >= base {
      DivSmaller(num, base);
      PaddedStep(num, base, width, padc);
      PrintNum(b, num / base, base, width - 1, padc);
      PutLast(b, DigitChar(num % base), out, Padded(num / base, base, width - 1, padc));
    } else {
      PaddedLast(num, base, width, padc);
      b.Pad(padc, width - 1);
      PutLast(b, DigitChar(num % base), out, Repeat(padc as int, width - 1));
    }
  }

  /** The character loop of case 's'; n characters are put. */
  method PutChars(b: Sink, p: CString, e: Flags) returns (n: nat)
    requires b.Valid()
    modifies b.Repr
    ensures b.Valid() && n == Shown(p, e.precision)
    ensures b.out == old(b.out) + StrChars(p, n, e.alt)
  {
    var precision := e.precision;
    ghost var out := b.out;
    n := 0;
    assert out + StrChars(p, 0, e.alt) == out;
    while true
      invariant b.Valid() && n <= Shown(p, e.precision)
      invariant if e.precision < 0 then precision == e.precision else precision == e.precision - n
      invariant b.out == out + StrChars(p, n, e.alt)
      decreases |p| - n
    {
      var c := CharAt(p, n);
      if c == 0 {
        break;
      }
      if precision >= 0 {
        precision := precision - 1;
        if precision < 0 {
          break;
        }
      }
      OneMoreChar(p, n, e.alt, out);
      b.Putch(StrChar(c, e.alt));
      n := n + 1;
    }
  }

  lemma OneMoreChar(p: CString, n: nat, alt: bool, out: seq<int>)
    requires n < |p|
    ensures (out + StrChars(p, n, alt)) + [StrChar(p[n], alt)] == out + StrChars(p, n + 1, alt)
  {
  }

  /** The padding in front, if any, and the width that is left for the padding behind. */
  method PutFront(b: Sink, p: CString, e: Flags) returns (width: int)
    requires b.Valid()
    modifies b.Repr
    ensures b.Valid() && b.out == old(b.out) + PadBefore(Shown(p, e.precision), e)
    ensures Repeat(SPACE as int, width - Shown(p, e.precision)) == PadAfter(Shown(p, e.precision), e)
  {
    ghost var out := b.out;
    assert out + [] == out;
    width := e.width;
    if width > 0 && e.padc != MINUS {
      var len := Strnlen(p, e.precision);
      b.Pad(e.padc, width - len);
      width := Min(width - len, 0);
    }
  }

  /** case 's' */
  method PutString(b: Sink, p: CString, e: Flags)
    requires b.Valid()
    modifies b.Repr
    ensures b.Valid() && b.out == old(b.out) + StrText(p, e)
  {
    ghost var out := b.out;
    var width := PutFront(b, p, e);
    var n := PutChars(b, p, e);
    b.Pad(SPACE, width - n);
    Assemble(out, PadBefore(n, e), StrChars(p, n, e.alt), PadAfter(n, e));
  }

  lemma Assemble(out: seq<int>, front: seq<int>, chars: seq<int>, back: seq<int>)
    ensures ((out + front) + chars) + back == out + (front + chars + back)
  {
  }

  /** case 'e', through a nested printfmt */
  method PutError(b: Sink, err: nat)
    requires b.Valid() && err < TWO_TO_THE_31
    modifies b.Repr
    ensures b.Valid() && b.out == old(b.out) + ErrorText(err)
    decreases 1, 0
  {
    if err >= MAXERROR || err == 0 {
      ErrorFormatText(err);
      Vprintfmt(b, ERROR_FORMAT, [W32(err)]);
    } else {
      StringFormatText(ErrorString(err));
      ErrorStringAscii(err);
      Vprintfmt(b, STRING_FORMAT, [Str(ErrorString(err))]);
    }
  }

  /** case 'd', after the argument was read */
  method PutSigned(b: Sink, n: int, width: int, padc: uint8)
    requires b.Valid()
    modifies b.Repr
    ensures b.Valid() && b.out == old(b.out) + SignedText(n, width, padc)
  {
    ghost var out := b.out;
    var num := n;
    if num < 0 {
      b.Putch(MINUS);
      num := -num;
    }
    PrintNum(b, num, 10, width, padc);
    AfterSign(out, n, num, width, padc);
  }

  lemma AfterSign(out: seq<int>, n: int, num: nat, width: int, padc: uint8)
    requires num == if n < 0 then 0 - n else n
    ensures (if n < 0 then out + [MINUS as int] else out) + Padded(num, 10, width, padc) == out + SignedText(n, width, padc)
  {
    var digits := Padded(num, 10, width, padc);
    assert (out + [MINUS as int]) + digits == out + ([MINUS as int] + digits);
  }

  /** case 'o', which is not finished in the source */
  method PutOctal(b: Sink)
    requires b.Valid()
    modifies b.Repr
    ensures b.Valid() && b.out == old(b.out) + Repeat('X' as int, 3)
  {
    b.Putch('X' as int);
    b.Putch('X' as int);
    b.Putch('X' as int);
  }

  /** case 'p', after the argument was read */
  method PutPointer(b: Sink, p: uint32, width: int, padc: uint8)
    requires b.Valid()
    modifies b.Repr
    ensures b.Valid() && b.out == old(b.out) + ([ZERO as int, LOWER_X as int] + Padded(p, 16, width, padc))
  {
    ghost var out := b.out;
    b.Putch(ZERO);
    b.Putch(LOWER_X);
    PrintNum(b, p, 16, width, padc);
    AfterPrefix(out, Padded(p, 16, width, padc));
  }

  lemma AfterPrefix(out: seq<int>, digits: seq<int>)
    ensures ((out + [ZERO as int]) + [LOWER_X as int]) + digits == out + ([ZERO as int, LOWER_X as int] + digits)
  {
  }

  /** The conversion cases of the switch; k is false in the default case. */
  method PutConversion(b: Sink, ch: uint8, ap: seq<Arg>, e: Flags) returns (known: bool, ap': seq<Arg>)
    requires b.Valid() && !Convert(ch, ap, e).Mismatch?
    modifies b.Repr
    ensures b.Valid() && known == !Convert(ch, ap, e).NoSuch?
    ensures if known then b.out == old(b.out) + Convert(ch, ap, e).text && ap' == Convert(ch, ap, e).args
            else b.out == old(b.out) && ap' == ap
    decreases if ch == 'e' as int then 1 else 0, 1
  {
    known, ap' := true, ap;
    if ch == 'c' as int {
      b.Putch(Signed32(ap[0].word));
      ap' := ap[1..];
    } else if ch == 'e' as int {
      var err := Signed32(ap[0].word);
      if err < 0 {
        err := -err;
      }
      PutError(b, err);
      ap' := ap[1..];
    } else if ch == 's' as int {
      PutString(b, if ap[0].NullStr? then Ascii("(null)") else ap[0].chars, e);
      ap' := ap[1..];
    } else if ch == 'd' as int {
      PutSigned(b, GetInt(ap, e.lflag).value, e.width, e.padc);
      ap' := ap[1..];
    } else if ch == 'u' as int {
      PrintNum(b, GetUint(ap, e.lflag).value, 10, e.width, e.padc);
      ap' := ap[1..];
    } else if ch == 'o' as int {
      PutOctal(b);
    } else if ch == 'p' as int {
      PutPointer(b, ap[0].word, e.width, e.padc);
      ap' := ap[1..];
    } else if ch == 'x' as int {
      PrintNum(b, GetUint(ap, e.lflag).value, 16, e.width, e.padc);
      ap' := ap[1..];
    } else if ch == PERCENT {
      b.Putch(ch);
    } else {
      known := false;
    }
  }

  /** The digit loop of the width and precision fields, entered after its first digit was read at k0. */
  method ReadNumber(fmt: CString, k0: nat) returns (n: int, k: nat)
    requires k0 < |fmt| && IsDigit(fmt[k0])
    ensures k == k0 + DigitRun(fmt[k0..]) && k0 < k <= |fmt|
    ensures n == Value(fmt[k0..k])
    ensures forall i :: k0 <= i < k ==> IsDigit(fmt[i])
  {
    n, k := 0, k0;
    var ch := fmt[k];
    while true
      invariant k0 <= k < |fmt| && ch == fmt[k]
      invariant n == Value(fmt[k0..k])
      invariant forall i :: k0 <= i <= k ==> IsDigit(fmt[i])
      decreases |fmt| - k
    {
      n := n * 10 + ch - ZERO;
      assert fmt[k0..k + 1][..k - k0] == fmt[k0..k];
      k := k + 1;
      ch := CharAt(fmt, k);
      if !IsDigit(ch) {
        break;
      }
    }
    DigitRunIs(fmt[k0..], k - k0);
  }

  /** Output, remaining format and remaining arguments after an escape whose text g starts after the '%'. */
  ghost predicate AfterEscape(r: Escape, out: seq<int>, g: seq<uint8>, out': seq<int>, g': seq<uint8>, left': seq<Arg>) {
    match r
    case Wrong => false
    case Unknown(left) => g' == g && left' == left && out' == out + [PERCENT as int]
    case Done(text, rest, left) => g' == rest && left' == left && out' == out + text
  }

  lemma EscapeStep(f: seq<uint8>, a: seq<Arg>, out: seq<int>, out': seq<int>, g': seq<uint8>, a': seq<Arg>)
    requires |f| > 0 && f[0] == PERCENT
    requires AfterEscape(ScanEscape(f[1..], a, NO_FLAGS), out, f[1..], out', g', a')
    ensures Prepend(out, Format(f, a)) == Prepend(out', Format(g', a'))
  {
    match ScanEscape(f[1..], a, NO_FLAGS) {
      case Unknown(_) => PrependTwice(out, [PERCENT as int], Format(g', a'));
      case Done(text, _, _) => PrependTwice(out, text, Format(g', a'));
    }
  }

  lemma LiteralStep(f: seq<uint8>, a: seq<Arg>, out: seq<int>)
    requires |f| > 0 && f[0] != PERCENT
    ensures Prepend(out, Format(f, a)) == Prepend(out + [f[0] as int], Format(f[1..], a))
  {
    PrependTwice(out, [f[0] as int], Format(f[1..], a));
  }

  /** One character of an escape, read in place. */
  lemma ScanStep(fmt: CString, k: nat, a: seq<Arg>, e: Flags)
    requires k <= |fmt|
    ensures k == |fmt| ==> ScanEscape(fmt[k..], a, e) == Unknown(a)
    ensures k < |fmt| && Simple(fmt[k], e).Some? ==> ScanEscape(fmt[k..], a, e) == ScanEscape(fmt[k + 1..], a, Simple(fmt[k], e).value)
    ensures k < |fmt| && fmt[k] == STAR ==>
              ScanEscape(fmt[k..], a, e) ==
                if HasWord(a) then ScanEscape(fmt[k + 1..], a[1..], SetNumber(e, Signed32(a[0].word))) else Wrong
    ensures k < |fmt| && Simple(fmt[k], e).None? && !IsDigit(fmt[k]) && fmt[k] != STAR ==>
              ScanEscape(fmt[k..], a, e) == match Convert(fmt[k], a, e)
                                            case NoSuch => Unknown(a)
                                            case Mismatch => Wrong
                                            case Converted(text, a') => Done(text, fmt[k + 1..], a')
  {
    if k < |fmt| {
      assert fmt[k..][0] == fmt[k] && fmt[k..][1..] == fmt[k + 1..];
    }
  }

  lemma ScanNumber(fmt: CString, k: nat, k': nat, a: seq<Arg>, e: Flags)
    requires k < k' <= |fmt| && IsDigit(fmt[k]) && Simple(fmt[k], e).None? && k' == k + DigitRun(fmt[k..])
    ensures ScanEscape(fmt[k..], a, e) == ScanEscape(fmt[k'..], a, SetNumber(e, Value(fmt[k..k'])))
  {
    assert fmt[k..][k' - k..] == fmt[k'..] && fmt[k..][..k' - k] == fmt[k..k'];
  }

  /** The backward scan of the default case stops just after the introducing '%'. */
  method Rewind(fmt: CString, k0: nat, from: nat) returns (k: nat)
    requires 0 < k0 <= from <= |fmt| && fmt[k0 - 1] == PERCENT
    requires forall i :: k0 <= i < from ==> fmt[i] != PERCENT
    ensures k == k0
  {
    k := from;
    while CharAt(fmt, k - 1) != PERCENT
      invariant k0 <= k <= from
      decreases k
    {
      k := k - 1;
    }
  }

  /** The character that ends an escape: a conversion, or none. */
  method EndEscape(b: Sink, fmt: CString, k0: nat, at: nat, ap0: seq<Arg>, e: Flags) returns (k: nat, ap: seq<Arg>)
    requires b.Valid() && 0 < k0 <= at <= |fmt| && fmt[k0 - 1] == PERCENT
    requires forall i :: k0 <= i < at ==> fmt[i] != PERCENT
    requires at < |fmt| ==> Simple(fmt[at], e).None? && !IsDigit(fmt[at]) && fmt[at] != STAR
    requires !ScanEscape(fmt[at..], ap0, e).Wrong?
    modifies b.Repr
    ensures b.Valid() && k0 <= k <= |fmt|
    ensures AfterEscape(ScanEscape(fmt[at..], ap0, e), old(b.out), fmt[k0..], b.out, fmt[k..], ap) == true
    decreases if MayPrintError(fmt) then 1 else 0, 2, 0
  {
    ScanStep(fmt, at, ap0, e);
    var known;
    known, ap := PutConversion(b, CharAt(fmt, at), ap0, e);
    if known {
      k := at + 1;
    } else {
      b.Putch(PERCENT);
      k := Rewind(fmt, k0, at);
    }
  }

  /** The cases that go back to reswitch: a flag, a number or a '*'. done means that the escape ends at k. */
  method ReadFlag(fmt: CString, k0: nat, ap0: seq<Arg>, e0: Flags) returns (done: bool, k: nat, ap: seq<Arg>, e: Flags)
    requires k0 <= |fmt| && !ScanEscape(fmt[k0..], ap0, e0).Wrong?
    ensures k0 <= k <= |fmt| && (k == k0 <==> done)
    ensures ScanEscape(fmt[k..], ap, e) == ScanEscape(fmt[k0..], ap0, e0)
    ensures forall i :: k0 <= i < k ==> fmt[i] != PERCENT
    ensures done && k < |fmt| ==> Simple(fmt[k], e).None? && !IsDigit(fmt[k]) && fmt[k] != STAR
  {
    done, k, ap, e := false, k0, ap0, e0;
    var ch := CharAt(fmt, k);
    ScanStep(fmt, k, ap, e);
    if k < |fmt| && Simple(ch, e).Some? {
      k, e := k + 1, Simple(ch, e).value;
    } else if IsDigit(ch) {
      var n, k' := ReadNumber(fmt, k);
      ScanNumber(fmt, k, k', ap, e);
      k, e := k', SetNumber(e, n);
    } else if ch == STAR {
      k, ap, e := k + 1, ap[1..], SetNumber(e, Signed32(ap[0].word));
    } else {
      done := true;
    }
  }

  /** From reswitch to the end of the switch, starting just after a '%' at k0 - 1. */
  method RunEscape(b: Sink, fmt: CString, k0: nat, ap0: seq<Arg>) returns (k: nat, ap: seq<Arg>)
    requires b.Valid() && 0 < k0 <= |fmt| && fmt[k0 - 1] == PERCENT
    requires !ScanEscape(fmt[k0..], ap0, NO_FLAGS).Wrong?
    modifies b.Repr
    ensures b.Valid() && k0 <= k <= |fmt|
    ensures AfterEscape(ScanEscape(fmt[k0..], ap0, NO_FLAGS), old(b.out), fmt[k0..], b.out, fmt[k..], ap) == true
    decreases if MayPrintError(fmt) then 1 else 0, 2, 1
  {
    k, ap := k0, ap0;
    var e, done := NO_FLAGS, false;
    while !done
      invariant k0 <= k <= |fmt| && b.Valid() && b.out == old(b.out)
      invariant ScanEscape(fmt[k..], ap, e) == ScanEscape(fmt[k0..], ap0, NO_FLAGS)
      invariant forall i :: k0 <= i < k ==> fmt[i] != PERCENT
      invariant done && k < |fmt| ==> Simple(fmt[k], e).None? && !IsDigit(fmt[k]) && fmt[k] != STAR
      decreases |fmt| - k, !done
    {
      done, k, ap, e := ReadFlag(fmt, k, ap, e);
    }
    k, ap := EndEscape(b, fmt, k0, k, ap, e);
  }

  /** The output so far and that of the format from index k on make up the whole output. */
  ghost predicate Ahead(out: seq<int>, fmt: CString, k: nat, ap: seq<Arg>, goal: Result) {
    k <= |fmt| && Prepend(out, Format(fmt[k..], ap)) == goal
  }

  lemma Start(fmt: CString, args: seq<Arg>, out: seq<int>) returns (goal: Result)
    requires Format(fmt, args).Printed?
    ensures Ahead(out, fmt, 0, args, goal) == true && goal.Printed? && goal.text == out + Format(fmt, args).text
  {
    assert fmt[0..] == fmt;
    goal := Prepend(out, Format(fmt, args));
  }

  lemma LiteralAhead(fmt: CString, k: nat, ap: seq<Arg>, out: seq<int>, goal: Result)
    requires k < |fmt| && fmt[k] != PERCENT && Ahead(out, fmt, k, ap, goal)
    ensures Ahead(out + [fmt[k] as int], fmt, k + 1, ap, goal) == true
  {
    assert fmt[k..][0] == fmt[k] && fmt[k..][1..] == fmt[k + 1..];
    LiteralStep(fmt[k..], ap, out);
  }

  lemma EscapeAhead(fmt: CString, at: nat, ap: seq<Arg>, out: seq<int>, out': seq<int>, k: nat, ap': seq<Arg>, goal: Result)
    requires at < k <= |fmt| && fmt[at] == PERCENT && Ahead(out, fmt, at, ap, goal)
    requires AfterEscape(ScanEscape(fmt[at + 1..], ap, NO_FLAGS), out, fmt[at + 1..], out', fmt[k..], ap')
    ensures Ahead(out', fmt, k, ap', goal) == true
  {
    assert fmt[at..][0] == fmt[at] && fmt[at..][1..] == fmt[at + 1..];
    EscapeStep(fmt[at..], ap, out, out', fmt[k..], ap');
  }

  lemma NotWrong(fmt: CString, at: nat, ap: seq<Arg>, out: seq<int>, goal: Result)
    requires at < |fmt| && fmt[at] == PERCENT && Ahead(out, fmt, at, ap, goal) && goal.Printed?
    ensures !ScanEscape(fmt[at + 1..], ap, NO_FLAGS).Wrong?
  {
    assert fmt[at..][0] == fmt[at] && fmt[at..][1..] == fmt[at + 1..];
  }

  lemma NothingAhead(fmt: CString, ap: seq<Arg>, out: seq<int>, goal: Result)
    requires Ahead(out, fmt, |fmt|, ap, goal)
    ensures goal == Printed(out, ap)
  {
    assert fmt[|fmt|..] == [] && out + [] == out;
  }

  /** The inner loop of vprintfmt: plain text up to the '%' or the NUL at index `at`. */
  method PutText(b: Sink, fmt: CString, k0: nat, ghost ap: seq<Arg>, ghost goal: Result) returns (end: bool, k: nat, ghost at: nat)
    requires b.Valid() && Ahead(b.out, fmt, k0, ap, goal)
    modifies b.Repr
    ensures b.Valid() && k0 <= at <= |fmt| && k == at + 1 && Ahead(b.out, fmt, at, ap, goal) == true
    ensures if end then at == |fmt| else at < |fmt| && fmt[at] == PERCENT
  {
    at, k := k0, k0 + 1;
    var ch := CharAt(fmt, k0);
    while ch != PERCENT
      invariant k0 <= at <= |fmt| && k == at + 1 && ch == CharAt(fmt, at) && b.Valid() && Ahead(b.out, fmt, at, ap, goal)
      decreases |fmt| - at
    {
      if ch == 0 {
        return true, k, at;
      }
      LiteralAhead(fmt, at, ap, b.out, goal);
      b.Putch(ch);
      ch := CharAt(fmt, k);
      at, k := k, k + 1;
    }
    end := false;
  }

  /** One escape, starting just after its '%'. */
  method NextEscape(b: Sink, fmt: CString, k0: nat, ap0: seq<Arg>, ghost goal: Result) returns (k: nat, ap: seq<Arg>)
    requires b.Valid() && 0 < k0 <= |fmt| && fmt[k0 - 1] == PERCENT && goal.Printed?
    requires Ahead(b.out, fmt, k0 - 1, ap0, goal)
    modifies b.Repr
    ensures b.Valid() && k0 <= k <= |fmt| && Ahead(b.out, fmt, k, ap, goal) == true
    decreases if MayPrintError(fmt) then 1 else 0, 2, 2
  {
    ghost var out := b.out;
    NotWrong(fmt, k0 - 1, ap0, out, goal);
    k, ap := RunEscape(b, fmt, k0, ap0);
    EscapeAhead(fmt, k0 - 1, ap0, out, b.out, k, ap, goal);
  }

  /** The outer loop of vprintfmt. goal is the whole output. */
  method PutAhead(b: Sink, fmt: CString, args: seq<Arg>, ghost goal: Result)
    requires b.Valid() && goal.Printed? && Ahead(b.out, fmt, 0, args, goal)
    modifies b.Repr
    ensures b.Valid() && b.out == goal.text
    decreases if MayPrintError(fmt) then 1 else 0, 3, 0
  {
    var k, ap := 0, args;
    while true
      invariant b.Valid() && Ahead(b.out, fmt, k, ap, goal)
      decreases |fmt| - k
    {
      var end;
      ghost var at;
      end, k, at := PutText(b, fmt, k, ap, goal);
      if end {
        NothingAhead(fmt, ap, b.out, goal);
        return;
      }
      k, ap := NextEscape(b, fmt, k, ap, goal);
    }
  }

  /** vprintfmt: it ends on every format whose arguments match, having put exactly the specified text. */
  method Vprintfmt(b: Sink, fmt: CString, args: seq<Arg>)
    requires b.Valid() && Format(fmt, args).Printed?
    modifies b.Repr
    ensures b.Valid() && b.out == old(b.out) + Format(fmt, args).text
    decreases if MayPrintError(fmt) then 1 else 0, 3, 1
  {
    ghost var goal := Start(fmt, args, b.out);
    PutAhead(b, fmt, args, goal);
  }

  const E_INVAL: int := 3

  /** What vsnprintf leaves in memory: as much of the text as fits, then NUL; every other byte as it was. */
  function Snprinted(before: seq<uint8>, buf: nat, n: nat, text: seq<int>): seq<uint8>
    requires n >= 1 && buf + n <= |before|
  {
    var m := Min(n - 1, |text|);
    Rendered(before, buf, n - 1, text)[buf + m := 0]
  }

  /** vsnprintf on a buffer at `buf` (None is NULL). It returns the length of the whole text. */
  method Vsnprintf(mem: array<uint8>, buf: Option<nat>, n: int, fmt: CString, ap: seq<Arg>) returns (r: int)
    requires buf.Some? && n >= 1 ==> buf.value + n <= mem.Length && Format(fmt, ap).Printed?
    modifies mem
    ensures buf.None? || n < 1 ==> r == -3 && mem[..] == old(mem[..])
    ensures buf.Some? && n >= 1 ==>
              var text := Format(fmt, ap).text;
              r == |text| && mem[..] == Snprinted(old(mem[..]), buf.value, n, text)
  {
    if buf.None? || n < 1 {
      return -E_INVAL;
    }
    var b := new Sink.ToBuffer(mem, buf.value, buf.value + n - 1);
    Vprintfmt(b, fmt, ap);
    mem[b.buf] := 0;
    r := b.cnt;
    assert b.out == Format(fmt, ap).text;
  }

  /** vcprintf: the display shows the whole text after what it showed. The count it returns is always 0. */
  method Vcprintf(display: Display, fmt: CString, ap: seq<Arg>) returns (cnt: int)
    requires display.Valid() && Format(fmt, ap).Printed?
    modifies display, display.machine, display.machine.mem
    ensures display.Valid() && display.term == Run(old(display.term), ToScreen(Format(fmt, ap).text))
    ensures cnt == 0
  {
    var b := new Sink.ToConsole(display);
    Vprintfmt(b, fmt, ap);
    cnt := b.cnt;
    assert b.out == Format(fmt, ap).text;
  }

  /** The C99 promise, byte by byte. */
  lemma SnprintedBytes(before: seq<uint8>, buf: nat, n: nat, text: seq<int>)
    requires n >= 1 && buf + n <= |before|
    ensures var after := Snprinted(before, buf, n, text);
            var m := Min(n - 1, |text|);
            && (forall i :: 0 <= i < m ==> after[buf + i] == text[i] % 0x100)
            && after[buf + m] == 0
            && (forall i :: 0 <= i < |before| && !(buf <= i <= buf + m) ==> after[i] == before[i])
            && (forall i :: buf + n <= i < |before| ==> after[i] == before[i])
  {
  }
}
