/**
  What lib/printfmt.c prints, as a function of the format and its arguments. A va_list is
  a sequence of machine words and strings; output is the sequence of ints given to putch.
 */
module FormatSpec {
  import opened CTypes
  import opened Strings

  /** An argument in its passed form; int, unsigned, long and void * are 32-bit words. */
  datatype Arg = W32(word: uint32) | W64(dword: uint64) | Str(chars: CString) | NullStr

  /** padc, width, precision, lflag and altflag; negative means absent. */
  datatype Flags = Flags(padc: uint8, width: int, precision: int, lflag: nat, alt: bool)

  const NO_FLAGS := Flags(SPACE, -1, -1, 0, false)

  function Signed32(w: uint32): int {
    if w < TWO_TO_THE_31 then w else w - TWO_TO_THE_32
  }

  function Signed64(w: uint64): int {
    if w < 0x8000_0000_0000_0000 then w else w - 0x1_0000_0000_0000_0000
  }

  function DigitChar(d: nat): uint8
    requires d < 16
  {
    if d < 10 then ZERO + d else LOWER_A + (d - 10)
  }

  /** The digits of a number, most significant first. */
  function Digits(n: nat, base: nat): (ds: seq<int>)
    requires 2 <= base <= 16
    ensures |ds| > 0
    decreases n
  {
    if n < base then [DigitChar(n)] else Digits(n / base, base) + [DigitChar(n % base)]
  }

  /** printnum: padding goes before the most significant digit. */
  function Padded(n: nat, base: nat, width: int, padc: uint8): seq<int>
    requires 2 <= base <= 16
  {
    Repeat(padc as int, width - |Digits(n, base)|) + Digits(n, base)
  }

  function SignedText(n: int, width: int, padc: uint8): seq<int> {
    if n < 0 then [MINUS as int] + Padded(-n, 10, width, padc) else Padded(n, 10, width, padc)
  }

  /** A char is signed; with the # flag, anything outside ' ' to '~' prints as '?'. */
  function StrChar(c: uint8, alt: bool): int {
    var ch := if c < 0x80 then c else c - 0x100;
    if alt && (ch < SPACE || ch > TILDE) then QUESTION else ch
  }

  /** How many characters of s a precision lets through. */
  function Shown(s: CString, precision: int): nat {
    if precision < 0 then |s| else Min(|s|, precision)
  }

  /** The first n characters of s as they are put. */
  function StrChars(s: CString, n: nat, alt: bool): (t: seq<int>)
    requires n <= |s|
    ensures |t| == n && forall i :: 0 <= i < n ==> t[i] == StrChar(s[i], alt)
  {
    seq(n, i requires 0 <= i < n => StrChar(s[i], alt))
  }

  /** What stands before and after the characters in a wider field. */
  function PadBefore(n: nat, e: Flags): seq<int> {
    if e.padc != MINUS then Repeat(e.padc as int, if e.width > 0 then e.width - n else 0) else []
  }

  function PadAfter(n: nat, e: Flags): seq<int> {
    if e.padc == MINUS then Repeat(SPACE as int, e.width - n) else []
  }

  function StrText(s: CString, e: Flags): seq<int> {
    var n := Shown(s, e.precision);
    PadBefore(n, e) + StrChars(s, n, e.alt) + PadAfter(n, e)
  }

  const MAXERROR: nat := 7

  function ErrorString(err: nat): (s: CString)
    requires 0 < err < MAXERROR
    ensures forall i :: 0 <= i < |s| ==> s[i] < 0x80
  {
    match err
    case 1 => Ascii("unspecified error")
    case 2 => Ascii("bad environment")
    case 3 => Ascii("invalid parameter")
    case 4 => Ascii("out of memory")
    case 5 => Ascii("out of environments")
    case 6 => Ascii("segmentation fault")
  }

  /** The bytes of a C string as ints. */
  function Ints(s: seq<uint8>): seq<int> {
    seq(|s|, i requires 0 <= i < |s| => s[i] as int)
  }

  function ErrorText(err: nat): seq<int> {
    if 0 < err < MAXERROR then Ints(ErrorString(err)) else Ints(Ascii("error ")) + Digits(err, 10)
  }

  /** Undefined: the C call has no matching argument, or negates the smallest number of a type. */
  datatype Result = Undefined | Printed(text: seq<int>, args: seq<Arg>)

  function Prepend(text: seq<int>, r: Result): Result {
    match r
    case Undefined => Undefined
    case Printed(t, a) => Printed(text + t, a)
  }

  /** One conversion: its text and the remaining arguments. */
  datatype Conversion = NoSuch | Mismatch | Converted(text: seq<int>, args: seq<Arg>)

  /** getint: the l flags select the width. */
  function GetInt(a: seq<Arg>, lflag: nat): Option<int> {
    if a == [] then None
    else match a[0]
      case W32(w) => if lflag < 2 then Some(Signed32(w)) else None
      case W64(w) => if lflag >= 2 then Some(Signed64(w)) else None
      case _ => None
  }

  function GetUint(a: seq<Arg>, lflag: nat): Option<nat> {
    if a == [] then None
    else match a[0]
      case W32(w) => if lflag < 2 then Some(w) else None
      case W64(w) => if lflag >= 2 then Some(w) else None
      case _ => None
  }

  predicate HasWord(a: seq<Arg>) {
    |a| > 0 && a[0].W32?
  }

  /** The smallest long long, which %d cannot negate. */
  const SMALLEST: int := -0x8000_0000_0000_0000

  function Convert(ch: uint8, a: seq<Arg>, e: Flags): Conversion {
    if ch == 'c' as int then
      if HasWord(a) then Converted([Signed32(a[0].word)], a[1..]) else Mismatch
    else if ch == 'e' as int then
      if HasWord(a) && a[0].word != TWO_TO_THE_31 then
        var err := Signed32(a[0].word);
        Converted(ErrorText(if err < 0 then -err else err), a[1..])
      else Mismatch
    else if ch == 's' as int then
      if |a| > 0 && a[0].Str? then Converted(StrText(a[0].chars, e), a[1..])
      else if |a| > 0 && a[0].NullStr? then Converted(StrText(Ascii("(null)"), e), a[1..])
      else Mismatch
    else if ch == 'd' as int then
      match GetInt(a, e.lflag)
      case None => Mismatch
      case Some(n) => if n == SMALLEST then Mismatch else Converted(SignedText(n, e.width, e.padc), a[1..])
    else if ch == 'u' as int || ch == 'x' as int then
      match GetUint(a, e.lflag)
      case None => Mismatch
      case Some(n) => Converted(Padded(n, if ch == 'u' as int then 10 else 16, e.width, e.padc), a[1..])
    else if ch == 'o' as int then Converted(Repeat('X' as int, 3), a)
    else if ch == 'p' as int then
      if HasWord(a) then Converted([ZERO as int, LOWER_X as int] + Padded(a[0].word, 16, e.width, e.padc), a[1..]) else Mismatch
    else if ch == PERCENT then Converted([PERCENT as int], a)
    else NoSuch
  }

  /** process_precision: the first number is the width, a later one the precision. */
  function SetNumber(e: Flags, n: int): Flags {
    if e.width < 0 then e.(width := n, precision := -1) else e.(precision := n)
  }

  predicate IsDigit(c: uint8) {
    ZERO <= c <= NINE
  }

  /** The length of the run of digits at the start of g. */
  function DigitRun(g: seq<uint8>): (n: nat)
    ensures n <= |g|
    ensures n < |g| ==> !IsDigit(g[n])
    ensures forall i :: 0 <= i < n ==> IsDigit(g[i])
  {
    if g == [] || !IsDigit(g[0]) then 0 else 1 + DigitRun(g[1..])
  }

  lemma {:induction false} DigitRunIs(g: seq<uint8>, n: nat)
    requires n <= |g| && (n < |g| ==> !IsDigit(g[n])) && forall i :: 0 <= i < n ==> IsDigit(g[i])
    ensures DigitRun(g) == n
  {
    if n == 0 {
    } else {
      DigitRunIs(g[1..], n - 1);
    }
  }

  function Value(ds: seq<uint8>): int {
    if ds == [] then 0 else Value(ds[..|ds| - 1]) * 10 + ds[|ds| - 1] - ZERO
  }

  /** What follows a '%': an unknown escape, or a conversion's text and the rest of the format. */
  datatype Escape = Wrong | Unknown(left: seq<Arg>) | Done(text: seq<int>, rest: seq<uint8>, args: seq<Arg>)

  function Simple(c: uint8, e: Flags): Option<Flags> {
    if c == MINUS then Some(e.(padc := MINUS))
    else if c == ZERO then Some(e.(padc := ZERO))
    else if c == DOT then Some(if e.width < 0 then e.(width := 0) else e)
    else if c == HASH then Some(e.(alt := true))
    else if c == LONG then Some(e.(lflag := e.lflag + 1))
    else None
  }

  function ScanEscape(g: seq<uint8>, a: seq<Arg>, e: Flags): (r: Escape)
    ensures r.Done? ==> |r.rest| < |g|
    decreases |g|
  {
    if g == [] then Unknown(a)
    else if Simple(g[0], e).Some? then ScanEscape(g[1..], a, Simple(g[0], e).value)
    else if IsDigit(g[0]) then
      var n := DigitRun(g);
      ScanEscape(g[n..], a, SetNumber(e, Value(g[..n])))
    else if g[0] == STAR then
      if HasWord(a) then ScanEscape(g[1..], a[1..], SetNumber(e, Signed32(a[0].word))) else Wrong
    else match Convert(g[0], a, e)
      case NoSuch => Unknown(a)
      case Mismatch => Wrong
      case Converted(text, a') => Done(text, g[1..], a')
  }

  /** The whole output. After an unknown escape the format is read again from just after its '%', as plain text. */
  function Format(f: seq<uint8>, a: seq<Arg>): Result
    decreases |f|
  {
    if f == [] then Printed([], a)
    else if f[0] != PERCENT then Prepend([f[0] as int], Format(f[1..], a))
    else match ScanEscape(f[1..], a, NO_FLAGS)
      case Wrong => Undefined
      case Unknown(a') => Prepend([PERCENT as int], Format(f[1..], a'))
      case Done(text, rest, a') => Prepend(text, Format(rest, a'))
  }

  /** An 'e' stands somewhere after a '%': needed for a format to reach %e, and untrue of the two %e itself prints with. */
  ghost predicate MayPrintError(f: seq<uint8>) {
    exists i, j :: 0 <= j < i < |f| && f[j] == PERCENT && f[i] == 'e' as int
  }

  const ERROR_FORMAT: CString := Ascii("error %d")
  const STRING_FORMAT: CString := Ascii("%s")

  lemma {:induction false} LiteralPrefix(lit: seq<uint8>, g: seq<uint8>, a: seq<Arg>)
    requires PERCENT !in lit
    ensures Format(lit + g, a) == Prepend(Ints(lit), Format(g, a))
  {
    if lit == [] {
      assert lit + g == g;
      PrependNothing(Format(g, a));
    } else {
      assert (lit + g)[1..] == lit[1..] + g;
      LiteralPrefix(lit[1..], g, a);
      assert Ints(lit) == [lit[0] as int] + Ints(lit[1..]);
      PrependTwice([lit[0] as int], Ints(lit[1..]), Format(g, a));
    }
  }

  lemma PrependNothing(r: Result)
    ensures Prepend([], r) == r
  {
    assert r.Printed? ==> [] + r.text == r.text;
  }

  lemma PrependTwice(x: seq<int>, y: seq<int>, r: Result)
    ensures Prepend(x, Prepend(y, r)) == Prepend(x + y, r)
  {
    assert r.Printed? ==> x + (y + r.text) == (x + y) + r.text;
  }

  /** A format that is just one flagless conversion. */
  lemma OneConversion(ch: uint8, a: seq<Arg>)
    requires Convert(ch, a, NO_FLAGS).Converted? && Simple(ch, NO_FLAGS).None? && !IsDigit(ch) && ch != STAR
    ensures Format([PERCENT, ch], a) == Printed(Convert(ch, a, NO_FLAGS).text, Convert(ch, a, NO_FLAGS).args)
  {
    var c := Convert(ch, a, NO_FLAGS);
    assert [PERCENT, ch][1..] == [ch] && [ch][1..] == [];
    assert ScanEscape([ch], a, NO_FLAGS) == Done(c.text, [], c.args);
    assert c.text + [] == c.text;
  }

  lemma ErrorFormatText(err: uint32)
    requires err < TWO_TO_THE_31
    ensures Format(ERROR_FORMAT, [W32(err)]) == Printed(Ints(Ascii("error ")) + Digits(err, 10), [])
    ensures !MayPrintError(ERROR_FORMAT)
  {
    assert ERROR_FORMAT == Ascii("error ") + [PERCENT, 'd' as int];
    assert PERCENT !in Ascii("error ");
    LiteralPrefix(Ascii("error "), [PERCENT, 'd' as int], [W32(err)]);
    OneConversion('d' as int, [W32(err)]);
    assert Padded(err, 10, -1, SPACE) == Digits(err, 10);
  }

  lemma StringFormatText(s: CString)
    ensures Format(STRING_FORMAT, [Str(s)]) == Printed(StrText(s, NO_FLAGS), [])
    ensures StrText(s, NO_FLAGS) == StrChars(s, |s|, false)
    ensures !MayPrintError(STRING_FORMAT)
  {
    assert STRING_FORMAT == [PERCENT, 's' as int];
    OneConversion('s' as int, [Str(s)]);
  }

  lemma ErrorStringAscii(err: nat)
    requires 0 < err < MAXERROR
    ensures StrText(ErrorString(err), NO_FLAGS) == Ints(ErrorString(err))
  {
    StringFormatText(ErrorString(err));
  }
}
