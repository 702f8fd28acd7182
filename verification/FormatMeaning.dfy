/**
  What the formats of lib/printfmt.c print, from the text of the format on: strings with
  width and precision, characters, error codes, and numbers of both sizes.
 */
module FormatMeaning {
  import opened CTypes
  import opened Strings
  import opened FormatSpec
  import opened RoundTrip

  /** A char is signed. */
  function SignedChar(c: uint8): int {
    var x: int := c;
    if x < 0x80 then x else x - 0x100
  }

  /** The characters of s. */
  function SignedChars(s: seq<uint8>): (t: seq<int>)
    ensures |t| == |s| && forall i :: 0 <= i < |s| ==> t[i] == SignedChar(s[i])
  {
    seq(|s|, i requires 0 <= i < |s| => SignedChar(s[i]))
  }

  /** n characters of padding. */
  function Spaces(n: int): (t: seq<int>)
    ensures |t| == Max(n, 0) && forall i :: 0 <= i < |t| ==> t[i] == 0x20
  {
    Repeat(0x20, n)
  }

  lemma CharsAre(s: CString, n: nat)
    requires n <= |s|
    ensures StrChars(s, n, false) == SignedChars(s)[..n]
  {
  }

  lemma ScanFlag(c: uint8, g: seq<uint8>, a: seq<Arg>, e: Flags)
    requires Simple(c, e).Some?
    ensures ScanEscape([c] + g, a, e) == ScanEscape(g, a, Simple(c, e).value)
  {
    assert ([c] + g)[1..] == g;
  }

  lemma ScanConversion(c: uint8, a: seq<Arg>, e: Flags)
    requires Convert(c, a, e).Converted? && Simple(c, e).None? && !IsDigit(c) && c != STAR
    ensures ScanEscape([c], a, e) == Done(Convert(c, a, e).text, [], Convert(c, a, e).args)
  {
    assert [c][1..] == [];
  }

  /** A format that is one escape. */
  lemma OneEscape(f: seq<uint8>, g: seq<uint8>, a: seq<Arg>, text: seq<int>, left: seq<Arg>)
    requires |f| > 0 && f[0] == PERCENT && f[1..] == g && ScanEscape(g, a, NO_FLAGS) == Done(text, [], left)
    ensures Format(f, a) == Printed(text, left)
  {
    assert text + [] == text;
  }

  /** case 's' with the flags that its escape has set, no # and no left adjustment among them. */
  lemma ScanString(s: CString, e: Flags, w: int, p: int)
    requires e == Flags(SPACE, w, p, 0, false) && p >= 0
    ensures var m := Min(|s|, p);
            ScanEscape(['s' as int], [Str(s)], e) == Done(Spaces(w - m) + SignedChars(s)[..m], [], [])
  {
    var m := Min(|s|, p);
    ScanConversion('s' as int, [Str(s)], e);
    CharsAre(s, m);
    assert [Str(s)][1..] == [];
    assert PadBefore(m, e) == Spaces(w - m) && PadAfter(m, e) == [];
    assert StrText(s, e) == Spaces(w - m) + SignedChars(s)[..m] + [];
  }

  /** %.*s prints the first characters of the string, as many as the precision says. */
  lemma StarPrecision(s: CString, p: uint32)
    requires p < 0x8000_0000
    ensures Format(Ascii("%.*s"), [W32(p), Str(s)]) == Printed(SignedChars(s)[..Min(|s|, p)], [])
  {
    var e := Flags(SPACE, 0, -1, 0, false);
    var g: seq<uint8> := [DOT] + ([STAR] + ['s' as int]);
    ScanFlag(DOT, [STAR] + ['s' as int], [W32(p), Str(s)], NO_FLAGS);
    assert [W32(p)] + [Str(s)] == [W32(p), Str(s)];
    ScanStar(p, ['s' as int], [Str(s)], e);
    ScanString(s, Flags(SPACE, 0, p, 0, false), 0, p);
    NoSpaces(0 - Min(|s|, p), SignedChars(s)[..Min(|s|, p)]);
    assert Ascii("%.*s")[0] == PERCENT && Ascii("%.*s")[1..] == g;
    OneEscape(Ascii("%.*s"), g, [W32(p), Str(s)], SignedChars(s)[..Min(|s|, p)], []);
  }

  lemma NoSpaces(n: int, t: seq<int>)
    requires n <= 0
    ensures Spaces(n) + t == t
  {
  }

  /** So does a precision that is written in the format. */
  lemma WrittenPrecision(s: CString, p: nat)
    requires 0 < p < 0x8000_0000
    ensures Format(Ascii("%.") + (Numeral(p, 10) + Ascii("s")), [Str(s)]) == Printed(SignedChars(s)[..Min(|s|, p)], [])
  {
    var e := Flags(SPACE, 0, -1, 0, false);
    var f, digits := Ascii("%.") + (Numeral(p, 10) + Ascii("s")), Numeral(p, 10) + ['s' as int];
    assert Ascii("s") == ['s' as int] && f[0] == PERCENT && f[1..] == [DOT] + digits;
    ScanFlag(DOT, digits, [Str(s)], NO_FLAGS);
    WidthLiteral(p, ['s' as int], [Str(s)], e);
    ScanString(s, Flags(SPACE, 0, p, 0, false), 0, p);
    NoSpaces(0 - Min(|s|, p), SignedChars(s)[..Min(|s|, p)]);
    OneEscape(f, [DOT] + digits, [Str(s)], SignedChars(s)[..Min(|s|, p)], []);
  }

  /** A string of m characters in a field: at the right behind padding, or with '-' at the left before spaces. */
  function Field(chars: seq<int>, w: int, padc: uint8): seq<int> {
    if padc == 0x2D then chars + Spaces(w - |chars|) else Repeat(padc as int, w - |chars|) + chars
  }

  lemma ScanField(s: CString, e: Flags, w: nat, p: nat, padc: uint8)
    requires e == Flags(padc, w, p, 0, false) && w > 0
    ensures ScanEscape(['s' as int], [Str(s)], e) == Done(Field(SignedChars(s)[..Min(|s|, p)], w, padc), [], [])
  {
    var m := Min(|s|, p);
    ScanConversion('s' as int, [Str(s)], e);
    CharsAre(s, m);
    assert [Str(s)][1..] == [];
    var chars := SignedChars(s)[..m];
    FieldParts(chars, w, padc, PadBefore(m, e), PadAfter(m, e));
  }

  lemma FieldParts(chars: seq<int>, w: int, padc: uint8, before: seq<int>, after: seq<int>)
    requires before == if padc != MINUS then Repeat(padc as int, w - |chars|) else []
    requires after == if padc == MINUS then Repeat(SPACE as int, w - |chars|) else []
    ensures before + chars + after == Field(chars, w, padc)
  {
  }

  /** A padding flag, a width and a precision: the first characters of the string, in a field of at least the width. */
  lemma WidthAndPrecision(padc: uint8, s: CString, w: nat, p: nat)
    requires padc == 0x30 || padc == 0x2D || padc == 0x20
    requires 0 < w && 0 < p
    ensures Format(FlagText(padc) + (Numeral(w, 10) + (Ascii(".") + (Numeral(p, 10) + Ascii("s")))), [Str(s)])
            == Printed(Field(SignedChars(s)[..Min(|s|, p)], w, padc), [])
  {
    var precision := Numeral(p, 10) + ['s' as int];
    var f := FlagText(padc) + (Numeral(w, 10) + (Ascii(".") + (Numeral(p, 10) + Ascii("s"))));
    var g := Numeral(w, 10) + ([DOT] + precision);
    assert Ascii("s") == ['s' as int] && Ascii(".") == [DOT] && f[0] == PERCENT && f[1..] == PadFlag(padc) + g;
    ScanPadFlag(padc, g, [Str(s)]);
    WidthLiteral(w, [DOT] + precision, [Str(s)], NO_FLAGS.(padc := padc));
    ScanPrecision(s, Flags(padc, w, -1, 0, false), w, p, padc);
    OneEscape(f, PadFlag(padc) + g, [Str(s)], Field(SignedChars(s)[..Min(|s|, p)], w, padc), []);
  }

  lemma ScanPrecision(s: CString, e: Flags, w: nat, p: nat, padc: uint8)
    requires e == Flags(padc, w, -1, 0, false) && w > 0 && p > 0
    ensures ScanEscape([DOT] + (Numeral(p, 10) + ['s' as int]), [Str(s)], e)
            == Done(Field(SignedChars(s)[..Min(|s|, p)], w, padc), [], [])
  {
    ScanFlag(DOT, Numeral(p, 10) + ['s' as int], [Str(s)], e);
    WidthLiteral(p, ['s' as int], [Str(s)], e);
    ScanField(s, Flags(padc, w, p, 0, false), w, p, padc);
  }

  /** A precision of 0 cannot be written out: its '0' is the flag for zero padding, and the whole string is printed. */
  lemma ZeroPrecision(s: CString)
    ensures Format(Ascii("%.0s"), [Str(s)]) == Printed(SignedChars(s), [])
  {
    var g: seq<uint8> := [DOT] + ([ZERO] + ['s' as int]);
    var e := Flags(ZERO, 0, -1, 0, false);
    ScanFlag(DOT, [ZERO] + ['s' as int], [Str(s)], NO_FLAGS);
    ScanFlag(ZERO, ['s' as int], [Str(s)], Flags(SPACE, 0, -1, 0, false));
    ScanConversion('s' as int, [Str(s)], e);
    CharsAre(s, |s|);
    assert [Str(s)][1..] == [] && StrText(s, e) == [] + SignedChars(s)[..|s|] + [];
    assert SignedChars(s)[..|s|] == SignedChars(s);
    assert Ascii("%.0s")[0] == PERCENT && Ascii("%.0s")[1..] == g;
    OneEscape(Ascii("%.0s"), g, [Str(s)], SignedChars(s), []);
  }

  /** %-*s: at the left of its field. */
  lemma LeftAdjusted(s: CString, w: uint32)
    requires w < 0x8000_0000
    ensures Format(Ascii("%-*s"), [W32(w), Str(s)]) == Printed(SignedChars(s) + Spaces(w - |s|), [])
  {
    var g: seq<uint8> := [MINUS] + ([STAR] + ['s' as int]);
    var e := Flags(MINUS, w, -1, 0, false);
    ScanFlag(MINUS, [STAR] + ['s' as int], [W32(w), Str(s)], NO_FLAGS);
    assert [W32(w)] + [Str(s)] == [W32(w), Str(s)];
    ScanStar(w, ['s' as int], [Str(s)], Flags(MINUS, -1, -1, 0, false));
    ScanConversion('s' as int, [Str(s)], e);
    CharsAre(s, |s|);
    assert [Str(s)][1..] == [] && PadBefore(|s|, e) == [] && PadAfter(|s|, e) == Spaces(w - |s|);
    assert SignedChars(s)[..|s|] == SignedChars(s);
    assert StrText(s, e) == [] + SignedChars(s) + Spaces(w - |s|) == SignedChars(s) + Spaces(w - |s|);
    assert Ascii("%-*s")[0] == PERCENT && Ascii("%-*s")[1..] == g;
    OneEscape(Ascii("%-*s"), g, [W32(w), Str(s)], SignedChars(s) + Spaces(w - |s|), []);
  }

  /** %#s: anything but the printable characters of ASCII becomes a question mark. */
  lemma HashString(s: CString)
    ensures var r := Format(Ascii("%#s"), [Str(s)]);
            r.Printed? && r.args == [] && |r.text| == |s|
            && forall i :: 0 <= i < |s| ==> r.text[i] == if 0x20 <= s[i] <= 0x7E then s[i] else 0x3F
  {
    var g: seq<uint8> := [HASH] + ['s' as int];
    var e := Flags(SPACE, -1, -1, 0, true);
    ScanFlag(HASH, ['s' as int], [Str(s)], NO_FLAGS);
    ScanConversion('s' as int, [Str(s)], e);
    assert [Str(s)][1..] == [] && StrText(s, e) == [] + StrChars(s, |s|, true) + [];
    assert Ascii("%#s")[0] == PERCENT && Ascii("%#s")[1..] == g;
    OneEscape(Ascii("%#s"), g, [Str(s)], StrText(s, e), []);
  }

  /** The null pointer. */
  lemma NullString()
    ensures Format(Ascii("%s"), [NullStr]) == Printed(Ints(Ascii("(null)")), [])
  {
    var s := Ascii("(null)");
    ScanConversion('s' as int, [NullStr], NO_FLAGS);
    CharsAre(s, |s|);
    assert [NullStr][1..] == [] && StrText(s, NO_FLAGS) == [] + SignedChars(s)[..|s|] + [] == Ints(s);
    OneEscape(Ascii("%s"), ['s' as int], [NullStr], Ints(s), []);
  }

  /** %c puts the int it is given. */
  lemma CharPrints(n: uint32)
    ensures Format(Ascii("%c"), [W32(n)]) == Printed([if n < 0x8000_0000 then n else n - 0x1_0000_0000], [])
  {
    ScanConversion('c' as int, [W32(n)], NO_FLAGS);
    assert [W32(n)][1..] == [];
    OneEscape(Ascii("%c"), ['c' as int], [W32(n)], [Signed32(n)], []);
  }

  lemma ErrorPrints(n: uint32, err: nat)
    requires 0 < err < 0x8000_0000 && (n == err || n == 0x1_0000_0000 - err)
    ensures Format(Ascii("%e"), [W32(n)]) == Printed(ErrorText(err), [])
  {
    ScanConversion('e' as int, [W32(n)], NO_FLAGS);
    assert [W32(n)][1..] == [];
    OneEscape(Ascii("%e"), ['e' as int], [W32(n)], ErrorText(err), []);
  }

  function ErrorNames(): seq<CString> {
    [Ascii("unspecified error"), Ascii("bad environment"), Ascii("invalid parameter"), Ascii("out of memory"),
     Ascii("out of environments"), Ascii("segmentation fault")]
  }

  /** %e names the six errors, with either sign, and gives the number of any other. */
  lemma ErrorsByName(err: nat)
    requires err < 0x8000_0000
    ensures forall n: uint32 :: 0 < err && (n == err || n == 0x1_0000_0000 - err) ==>
              Format(Ascii("%e"), [W32(n)])
              == Printed(if 1 <= err <= 6 then Ints(ErrorNames()[err - 1]) else Ints(Ascii("error ")) + Digits(err, 10), [])
    ensures Format(Ascii("%e"), [W32(0)]) == Printed(Ints(Ascii("error 0")), [])
  {
    forall n: uint32 | 0 < err && (n == err || n == 0x1_0000_0000 - err)
      ensures Format(Ascii("%e"), [W32(n)]) == Printed(ErrorText(err), [])
    {
      ErrorPrints(n, err);
    }
    ErrorZero();
    if 1 <= err <= 6 { SixNames(err); }
  }

  lemma SixNames(err: nat)
    requires 1 <= err <= 6
    ensures ErrorString(err) == ErrorNames()[err - 1]
  {
  }

  lemma ErrorZero()
    ensures Format(Ascii("%e"), [W32(0)]) == Printed(Ints(Ascii("error 0")), [])
  {
    ScanConversion('e' as int, [W32(0)], NO_FLAGS);
    assert [W32(0)][1..] == [];
    assert Digits(0, 10) == ['0' as int];
    assert Ints(Ascii("error ")) + ['0' as int] == Ints(Ascii("error 0"));
    OneEscape(Ascii("%e"), ['e' as int], [W32(0)], ErrorText(0), []);
  }

  lemma NoPadding(n: nat, base: nat)
    requires 2 <= base <= 16
    ensures Padded(n, base, -1, SPACE) == Digits(n, base)
  {
    assert Repeat(SPACE as int, -1 - |Digits(n, base)|) == [];
  }

  /** Two l flags read 64 bits; the digits are those of the whole number, behind a minus sign if it is negative. */
  lemma LongLong(n: uint64)
    ensures Format(Ascii("%llx"), [W64(n)]) == Printed(Digits(n, 16), [])
    ensures Format(Ascii("%llu"), [W64(n)]) == Printed(Digits(n, 10), [])
    ensures n < 0x8000_0000_0000_0000 ==> Format(Ascii("%lld"), [W64(n)]) == Printed(Digits(n, 10), [])
    ensures n > 0x8000_0000_0000_0000 ==>
              Format(Ascii("%lld"), [W64(n)]) == Printed(['-' as int] + Digits(0x1_0000_0000_0000_0000 - n, 10), [])
  {
    LongLongScan('x' as int, n);
    LongLongScan('u' as int, n);
    assert Ascii("%llx") == [PERCENT, LONG, LONG, 'x' as int] && Ascii("%llu") == [PERCENT, LONG, LONG, 'u' as int];
    NoPadding(n, 16);
    NoPadding(n, 10);
    if n != 0x8000_0000_0000_0000 { SignedLongLong(n); }
  }

  lemma SignedDigits(n: uint64)
    requires n != 0x8000_0000_0000_0000
    ensures SignedText(Signed64(n), -1, SPACE)
            == if n < 0x8000_0000_0000_0000 then Digits(n, 10) else ['-' as int] + Digits(0x1_0000_0000_0000_0000 - n, 10)
  {
    NoPadding(if n < 0x8000_0000_0000_0000 then n else 0x1_0000_0000_0000_0000 - n, 10);
  }

  lemma SignedLongLong(n: uint64)
    requires n != 0x8000_0000_0000_0000
    ensures Format(Ascii("%lld"), [W64(n)])
            == Printed(if n < 0x8000_0000_0000_0000 then Digits(n, 10)
                       else ['-' as int] + Digits(0x1_0000_0000_0000_0000 - n, 10), [])
  {
    LongLongText(n, SignedText(Signed64(n), -1, SPACE));
    SignedDigits(n);
  }

  lemma LongLongText(n: uint64, text: seq<int>)
    requires n != 0x8000_0000_0000_0000 && text == SignedText(Signed64(n), -1, SPACE)
    ensures Format(Ascii("%lld"), [W64(n)]) == Printed(text, [])
  {
    LongLongScan('d' as int, n);
    assert Ascii("%lld") == [PERCENT, LONG, LONG, 'd' as int];
  }

  lemma LongLongScan(ch: uint8, n: uint64)
    requires ch == 'x' as int || ch == 'u' as int || (ch == 'd' as int && n != 0x8000_0000_0000_0000)
    ensures Format([PERCENT, LONG, LONG, ch], [W64(n)])
            == Printed(Convert(ch, [W64(n)], Flags(SPACE, -1, -1, 2, false)).text, [])
  {
    var e := Flags(SPACE, -1, -1, 2, false);
    ScanFlag(LONG, [LONG] + [ch], [W64(n)], NO_FLAGS);
    ScanFlag(LONG, [ch], [W64(n)], Flags(SPACE, -1, -1, 1, false));
    ScanConversion(ch, [W64(n)], e);
    assert [W64(n)][1..] == [];
    assert [PERCENT, LONG, LONG, ch][1..] == [LONG] + ([LONG] + [ch]);
    OneEscape([PERCENT, LONG, LONG, ch], [LONG] + ([LONG] + [ch]), [W64(n)], Convert(ch, [W64(n)], e).text, []);
  }

  /** The digits are those of the usual alphabet, in lower case. */
  lemma DigitAlphabet(d: nat)
    requires d < 16
    ensures DigitChar(d) == Ascii("0123456789abcdef")[d]
  {
  }

  /** A flag for padding, as it is written. */
  function FlagText(padc: uint8): seq<uint8> {
    if padc == 0x30 then Ascii("%0") else if padc == 0x2D then Ascii("%-") else Ascii("%")
  }

  lemma SignedField(padc: uint8, w: nat, n: uint32, m: nat)
    requires m == if n < 0x8000_0000 then n else 0x1_0000_0000 - n
    ensures SignedText(Signed32(n), w, padc)
            == (if n < 0x8000_0000 then [] else [0x2D]) + (Repeat(padc as int, w - |Digits(m, 10)|) + Digits(m, 10))
  {
    assert [] + Padded(m, 10, w, padc) == Padded(m, 10, w, padc);
  }

  /** A number in a field with a written width: padding first and then the digits, but a minus sign before both. */
  lemma DecimalField(padc: uint8, w: nat, n: uint32, m: nat)
    requires padc == 0x30 || padc == 0x2D || padc == 0x20
    requires 0 < w < 0x8000_0000 && m == if n < 0x8000_0000 then n else 0x1_0000_0000 - n
    ensures Format(FlagText(padc) + (Numeral(w, 10) + Ascii("d")), [W32(n)])
            == Printed((if n < 0x8000_0000 then [] else [0x2D]) + (Repeat(padc as int, w - |Digits(m, 10)|) + Digits(m, 10)), [])
  {
    DecimalFieldText(padc, w, n);
    SignedField(padc, w, n, m);
  }

  lemma DecimalFieldText(padc: uint8, w: nat, n: uint32)
    requires padc == 0x30 || padc == 0x2D || padc == 0x20
    requires 0 < w < 0x8000_0000
    ensures Format(FlagText(padc) + (Numeral(w, 10) + Ascii("d")), [W32(n)]) == Printed(SignedText(Signed32(n), w, padc), [])
  {
    var f := FlagText(padc) + (Numeral(w, 10) + Ascii("d"));
    assert Ascii("d") == ['d' as int] && f == [PERCENT] + (PadFlag(padc) + (Numeral(w, 10) + ['d' as int]));
    ScanConversion('d' as int, [W32(n)], SetNumber(NO_FLAGS.(padc := padc), w));
    LiteralWidth(padc, 'd' as int, w, [W32(n)]);
    assert [W32(w)] + [W32(n)] == [W32(w), W32(n)];
    DecimalText(w, n, padc);
  }

  lemma HexField(padc: uint8, w: nat, n: uint32)
    requires padc == 0x30 || padc == 0x2D || padc == 0x20
    requires 0 < w < 0x8000_0000
    ensures Format(FlagText(padc) + (Numeral(w, 10) + Ascii("x")), [W32(n)])
            == Printed(Repeat(padc as int, w - |Digits(n, 16)|) + Digits(n, 16), [])
  {
    HexFieldFormat(padc, w, n);
    UnsignedText('x' as int, 16, w, n, padc);
  }

  lemma HexFieldFormat(padc: uint8, w: nat, n: uint32)
    requires padc == 0x30 || padc == 0x2D || padc == 0x20
    requires 0 < w < 0x8000_0000
    ensures Format(FlagText(padc) + (Numeral(w, 10) + Ascii("x")), [W32(n)]) == Format(StarFormat(padc, 'x' as int), [W32(w), W32(n)])
  {
    var f := FlagText(padc) + (Numeral(w, 10) + Ascii("x"));
    assert Ascii("x") == ['x' as int] && f == [PERCENT] + (PadFlag(padc) + (Numeral(w, 10) + ['x' as int]));
    ScanConversion('x' as int, [W32(n)], SetNumber(NO_FLAGS.(padc := padc), w));
    LiteralWidth(padc, 'x' as int, w, [W32(n)]);
    assert [W32(w)] + [W32(n)] == [W32(w), W32(n)];
  }

  lemma PlainScan(ch: uint8, n: uint32)
    requires ch == 'd' as int || ch == 'u' as int || ch == 'x' as int || ch == 'p' as int
    ensures Format([PERCENT, ch], [W32(n)]) == Printed(Convert(ch, [W32(n)], NO_FLAGS).text, [])
  {
    ScanConversion(ch, [W32(n)], NO_FLAGS);
    assert [PERCENT, ch][1..] == [ch] && [W32(n)][1..] == [];
    OneEscape([PERCENT, ch], [ch], [W32(n)], Convert(ch, [W32(n)], NO_FLAGS).text, []);
  }

  /** Numbers without flags: the digits and nothing else, but a minus sign or the prefix of a pointer. */
  lemma PlainNumbers(n: uint32)
    ensures Format(Ascii("%u"), [W32(n)]) == Printed(Digits(n, 10), [])
    ensures Format(Ascii("%x"), [W32(n)]) == Printed(Digits(n, 16), [])
    ensures Format(Ascii("%p"), [W32(n)]) == Printed([0x30, 0x78] + Digits(n, 16), [])
  {
    assert Ascii("%u") == [PERCENT, 'u' as int] && Ascii("%x") == [PERCENT, 'x' as int] && Ascii("%p") == [PERCENT, 'p' as int];
    PlainScan('u' as int, n);
    PlainScan('x' as int, n);
    PlainScan('p' as int, n);
    NoPadding(n, 10);
    NoPadding(n, 16);
  }

  lemma PlainDecimal(n: uint32)
    ensures Format(Ascii("%d"), [W32(n)])
            == Printed(if n < 0x8000_0000 then Digits(n, 10) else [0x2D] + Digits(0x1_0000_0000 - n, 10), [])
  {
    assert Ascii("%d") == [PERCENT, 'd' as int];
    PlainScan('d' as int, n);
    NoPadding(if n < 0x8000_0000 then n else 0x1_0000_0000 - n, 10);
  }

  /** The %o conversion is not finished in the source. */
  lemma OctalStub(a: seq<Arg>)
    ensures Format(Ascii("%o"), a) == Printed(Ints(Ascii("XXX")), a)
  {
    ScanConversion('o' as int, a, NO_FLAGS);
    assert Repeat('X' as int, 3) == Ints(Ascii("XXX"));
    OneEscape(Ascii("%o"), ['o' as int], a, Ints(Ascii("XXX")), a);
  }
}
