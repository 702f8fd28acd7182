/** Printing a number with lib/printfmt.c and parsing it back with lib/string.c's strtol. */
module RoundTrip {
  import opened CTypes
  import opened Strings
  import opened FormatSpec
  import opened Strtol
  import opened Printfmt

  /** Output stored into memory, as sprintputch does. */
  function Bytes(t: seq<int>): seq<uint8> {
    seq(|t|, i requires 0 <= i < |t| => t[i] % 0x100)
  }

  lemma BytesConcat(x: seq<int>, y: seq<int>)
    ensures Bytes(x + y) == Bytes(x) + Bytes(y)
  {
  }

  lemma DigitCharValue(d: nat)
    requires d < 16
    ensures DigitOf(DigitChar(d)) == d && DigitChar(d) != 0 && DigitChar(d) != LOWER_X
  {
  }

  predicate AllDigits(s: seq<uint8>, base: int) {
    forall i :: 0 <= i < |s| ==> DigitIn(s[i], base)
  }

  /** The digits of n in memory. */
  function Numeral(n: nat, base: nat): seq<uint8>
    requires base == 8 || base == 10 || base == 16
  {
    Bytes(Digits(n, base))
  }

  lemma NumeralStep(n: nat, base: nat)
    requires base == 8 || base == 10 || base == 16
    ensures n < base ==> Numeral(n, base) == [] + [DigitChar(n)]
    ensures n >= base ==> Numeral(n, base) == Numeral(n / base, base) + [DigitChar(n % base)]
  {
    if n >= base {
      BytesConcat(Digits(n / base, base), [DigitChar(n % base)]);
    }
  }

  lemma DivMod(n: nat, base: nat)
    requires base == 8 || base == 10 || base == 16
    ensures n == Times(n / base, base) + n % base && 0 <= n % base < base
    ensures n >= base ==> 0 <= n / base < n
  {
    TimesIsProduct(n / base, base);
  }

  lemma {:induction false} NumeralIsDigits(n: nat, base: nat)
    requires base == 8 || base == 10 || base == 16
    ensures AllDigits(Numeral(n, base), base) && Numeral(n, base) != []
    decreases n
  {
    NumeralStep(n, base);
    DivMod(n, base);
    if n < base {
      DigitCharValue(n);
    } else {
      DigitCharValue(n % base);
      NumeralIsDigits(n / base, base);
    }
  }

  lemma {:induction false} NumeralValue(n: nat, base: nat)
    requires base == 8 || base == 10 || base == 16
    ensures ValueOf(Numeral(n, base), 0, |Numeral(n, base)|, base) == n
    decreases n
  {
    var ds := Numeral(n, base);
    NumeralStep(n, base);
    DivMod(n, base);
    DigitCharValue(n % base);
    if n < base {
      assert ValueOf(ds, 0, 0, base) == 0 && Times(0, base) == 0;
    } else {
      var front := Numeral(n / base, base);
      NumeralValue(n / base, base);
      ValueShift([], front, [DigitChar(n % base)], |front|, base);
      assert [] + front + [DigitChar(n % base)] == ds;
    }
  }

  /** The value of digits does not depend on what stands around them. */
  lemma {:induction false} ValueShift(pre: seq<uint8>, ds: seq<uint8>, post: seq<uint8>, j: nat, base: int)
    requires j <= |ds|
    ensures ValueOf(pre + ds + post, |pre|, |pre| + j, base) == ValueOf(ds, 0, j, base)
    decreases j
  {
    if j == 0 {
    } else {
      ValueShift(pre, ds, post, j - 1, base);
      assert (pre + ds + post)[|pre| + j - 1] == ds[j - 1];
    }
  }

  lemma {:induction false} ZerosAreZero(t: seq<uint8>, i: nat, j: nat, base: nat)
    requires i <= j <= |t| && forall k :: i <= k < j ==> t[k] == ZERO
    ensures ValueOf(t, i, j, base) == 0
    decreases j - i
  {
    if i >= j {
    } else {
      ZerosAreZero(t, i, j - 1, base);
      TimesIsProduct(0, base);
    }
  }

  /** Zeros in front of digits are absorbed. */
  lemma {:induction false} ZerosKeepValue(t: seq<uint8>, i: nat, k: nat, j: nat, base: nat)
    requires i <= k <= j <= |t| && forall l :: i <= l < k ==> t[l] == ZERO
    ensures ValueOf(t, i, j, base) == ValueOf(t, k, j, base)
    decreases j - k
  {
    if k < j {
      ZerosKeepValue(t, i, k, j - 1, base);
    } else {
      ZerosAreZero(t, i, k, base);
    }
  }

  lemma {:induction false} AllDigitsEnd(t: seq<uint8>, k: nat, base: int)
    requires k <= |t| && forall i :: k <= i < |t| ==> DigitIn(t[i], base)
    ensures DigitsEnd(t, k, base) == |t|
    decreases |t| - k
  {
    if k >= |t| {
    } else {
      AllDigitsEnd(t, k + 1, base);
    }
  }

  lemma ZerosThenDigits(pre: seq<uint8>, z: nat, ds: seq<uint8>, base: nat)
    requires (base == 8 || base == 10 || base == 16) && AllDigits(ds, base) && ds != []
    ensures var t := pre + (Repeat(ZERO, z) + ds);
            && (forall i :: |pre| <= i < |t| ==> DigitIn(t[i], base))
            && DigitsEnd(t, |pre|, base) == |t| && PrefixEnd(t, |pre|, base) == (base, |pre|)
  {
    var t := pre + (Repeat(ZERO, z) + ds);
    assert DigitIn(ZERO, base) && !DigitIn(LOWER_X, base);
    forall i | |pre| <= i < |t| ensures DigitIn(t[i], base) {
      assert i >= |pre| + z ==> t[i] == ds[i - |pre| - z];
    }
    AllDigitsEnd(t, |pre|, base);
  }

  lemma ZerosThenValue(pre: seq<uint8>, z: nat, ds: seq<uint8>, base: nat)
    ensures var t := pre + (Repeat(ZERO, z) + ds);
            ValueOf(t, |pre|, |t|, base) == ValueOf(ds, 0, |ds|, base)
  {
    var t := pre + (Repeat(ZERO, z) + ds);
    ZerosKeepValue(t, |pre|, |pre| + z, |t|, base);
    ValueShift(pre + Repeat(ZERO, z), ds, [], |ds|, base);
    assert pre + Repeat(ZERO, z) + ds + [] == t;
  }

  /** pre, then zeros, then the number: from the end of pre on, all of it is read as the number. */
  lemma DigitsAfter(pre: seq<uint8>, z: nat, n: nat, base: nat)
    requires base == 8 || base == 10 || base == 16
    ensures var t := pre + (Repeat(ZERO, z) + Numeral(n, base));
            && |t| > |pre| && DigitIn(t[|pre|], base)
            && PrefixEnd(t, |pre|, base) == (base, |pre|) && ParseAt(t, |pre|, base) == Parsed(n, |t|)
  {
    NumeralIsDigits(n, base);
    NumeralValue(n, base);
    ZerosThenDigits(pre, z, Numeral(n, base), base);
    ZerosThenValue(pre, z, Numeral(n, base), base);
  }

  /** Something that is neither digit nor part of a prefix: no digits at all. */
  lemma NoDigits(t: seq<uint8>, k: nat, base: nat)
    requires (base == 8 || base == 10 || base == 16) && k < |t| && !DigitIn(t[k], base)
    ensures PrefixEnd(t, k, base) == (base, k) && ParseAt(t, k, base) == Parsed(0, k)
  {
    assert DigitIn(ZERO, base);
  }

  lemma {:induction false} BlanksEndIs(t: seq<uint8>, k: nat, e: nat)
    requires k <= e <= |t| && (forall i :: k <= i < e ==> IsBlank(t[i])) && (e < |t| ==> !IsBlank(t[e]))
    ensures BlanksEnd(t, k) == e
    decreases e - k
  {
    if k >= e {
    } else {
      BlanksEndIs(t, k + 1, e);
    }
  }

  /** Blanks and then a digit: there is no sign. */
  lemma ParseAfterBlanks(t: seq<uint8>, e: nat, base: nat)
    requires e < |t| && (forall i :: 0 <= i < e ==> IsBlank(t[i])) && DigitIn(t[e], base)
    ensures ParseLong(t, base) == ParseAt(t, e, base)
  {
    BlanksEndIs(t, 0, e);
  }

  /** A minus sign in front is a sign. */
  lemma ParseAfterMinus(t: seq<uint8>, base: nat)
    requires t != [] && t[0] == MINUS
    ensures ParseLong(t, base) == Parsed(0 - ParseAt(t, 1, base).value, ParseAt(t, 1, base).end)
  {
    BlanksEndIs(t, 0, 0);
  }

  lemma PaddedBytes(n: nat, base: nat, width: int, padc: uint8)
    requires base == 8 || base == 10 || base == 16
    ensures Bytes(Padded(n, base, width, padc)) == Repeat(padc, width - |Digits(n, base)|) + Numeral(n, base)
  {
    var p := width - |Digits(n, base)|;
    BytesConcat(Repeat(padc as int, p), Digits(n, base));
    assert Bytes(Repeat(padc as int, p)) == Repeat(padc, p);
  }

  /** strtol's val is a 32-bit long, and negates a number only after reading it. */
  predicate FitsLong(n: int) {
    -TWO_TO_THE_31 < n < TWO_TO_THE_31
  }

  /** All that strtol can make of a printed n, with any padding. */
  ghost predicate Near(v: int, n: int) {
    v == n || v == 0 - n || v == 0
  }

  /** The whole of t denotes n. */
  ghost predicate ReadsAs(t: seq<uint8>, base: int, n: int) {
    ParseLong(t, base) == Parsed(n, |t|)
  }

  /** Padding in front of a non-negative number: zeros and blanks disappear, minus signs do not. */
  ghost predicate PadParses(n: nat, pads: int, padc: uint8) {
    pads <= 0 || padc == ZERO || padc == SPACE || (padc == MINUS && n == 0 && pads == 1)
  }

  ghost predicate UnsignedParses(n: nat, base: nat, width: int, padc: uint8)
    requires base == 8 || base == 10 || base == 16
  {
    PadParses(n, width - |Digits(n, base)|, padc)
  }

  /** In front of a negative number or a pointer the sign or 0x comes first, so only zeros disappear. */
  ghost predicate PrefixedParses(n: nat, base: nat, width: int, padc: uint8)
    requires base == 8 || base == 10 || base == 16
  {
    width - |Digits(n, base)| <= 0 || padc == ZERO
  }

  /** %d with any padding and width, parsed in base 10. */
  ghost predicate DecimalParses(n: int, width: int, padc: uint8) {
    if n < 0 then PrefixedParses(-n, 10, width, padc) else UnsignedParses(n, 10, width, padc)
  }

  lemma UnsignedRoundTrip(n: nat, base: nat, width: int, padc: uint8)
    requires base == 8 || base == 10 || base == 16
    requires padc == ZERO || padc == SPACE || padc == MINUS
    ensures var t := Bytes(Padded(n, base, width, padc));
            ReadsAs(t, base, n) == UnsignedParses(n, base, width, padc) && Near(ParseLong(t, base).value, n)
  {
    PaddedBytes(n, base, width, padc);
    UnsignedPadded(width - |Digits(n, base)|, n, base, padc);
  }

  lemma UnsignedPadded(p: int, n: nat, base: nat, padc: uint8)
    requires base == 8 || base == 10 || base == 16
    requires padc == ZERO || padc == SPACE || padc == MINUS
    ensures ReadsAs(Repeat(padc, p) + Numeral(n, base), base, n) == PadParses(n, p, padc)
    ensures Near(ParseLong(Repeat(padc, p) + Numeral(n, base), base).value, n)
  {
    var t := Repeat(padc, p) + Numeral(n, base);
    if p <= 0 || padc == ZERO {
      assert t == [] + (Repeat(ZERO, Max(p, 0)) + Numeral(n, base));
      DigitsAfter([], Max(p, 0), n, base);
      ParseAfterBlanks(t, 0, base);
    } else if padc == SPACE {
      assert t == Repeat(SPACE, p) + (Repeat(ZERO, 0) + Numeral(n, base));
      DigitsAfter(Repeat(SPACE, p), 0, n, base);
      ParseAfterBlanks(t, p, base);
    } else {
      MinusPadded(t, p, n, base);
    }
  }

  /** Minus signs in front of a number: one is a sign, a second one stops the parse. */
  lemma MinusPadded(t: seq<uint8>, p: nat, n: nat, base: nat)
    requires (base == 8 || base == 10 || base == 16) && p > 0 && t == Repeat(MINUS, p) + Numeral(n, base)
    ensures ReadsAs(t, base, n) == (n == 0 && p == 1) && Near(ParseLong(t, base).value, n)
  {
    ParseAfterMinus(t, base);
    if p == 1 {
      assert t == [MINUS] + (Repeat(ZERO, 0) + Numeral(n, base));
      DigitsAfter([MINUS], 0, n, base);
    } else {
      assert t[1] == MINUS;
      NoDigits(t, 1, base);
    }
  }

  /** After a sign or a prefix, blanks and minus signs stop the parse before any digit. */
  lemma PaddedAfter(pre: seq<uint8>, p: int, n: nat, base: nat, padc: uint8)
    requires (base == 8 || base == 10 || base == 16) && (padc == ZERO || padc == SPACE || padc == MINUS)
    ensures var t := pre + (Repeat(padc, p) + Numeral(n, base));
            && |t| > |pre| && PrefixEnd(t, |pre|, base) == (base, |pre|)
            && (if p <= 0 || padc == ZERO then ParseAt(t, |pre|, base) == Parsed(n, |t|) else ParseAt(t, |pre|, base) == Parsed(0, |pre|))
  {
    var t := pre + (Repeat(padc, p) + Numeral(n, base));
    if p <= 0 || padc == ZERO {
      assert Repeat(padc, p) == Repeat(ZERO, Max(p, 0));
      DigitsAfter(pre, Max(p, 0), n, base);
    } else {
      assert t[|pre|] == padc;
      NoDigits(t, |pre|, base);
    }
  }

  lemma NegativeBytes(n: int, width: int, padc: uint8)
    requires n < 0
    ensures Bytes(SignedText(n, width, padc)) == [MINUS] + (Repeat(padc, width - |Digits(-n, 10)|) + Numeral(-n, 10))
  {
    PaddedBytes(-n, 10, width, padc);
    BytesConcat([MINUS as int], Padded(-n, 10, width, padc));
    assert Bytes([MINUS as int]) == [MINUS];
  }

  lemma SignPadded(t: seq<uint8>, p: int, n: nat, padc: uint8)
    requires n > 0 && (padc == ZERO || padc == SPACE || padc == MINUS)
    requires t == [MINUS] + (Repeat(padc, p) + Numeral(n, 10))
    ensures ReadsAs(t, 10, 0 - n) == (p <= 0 || padc == ZERO) && Near(ParseLong(t, 10).value, n)
  {
    ParseAfterMinus(t, 10);
    PaddedAfter([MINUS], p, n, 10, padc);
  }

  /** The format '%', an optional padding flag, '*' and a conversion. */
  function StarFormat(padc: uint8, ch: uint8): seq<uint8> {
    [PERCENT] + (PadFlag(padc) + [STAR, ch])
  }

  /** The optional padding flag of a StarFormat. */
  function PadFlag(padc: uint8): seq<uint8> {
    if padc == SPACE then [] else [padc]
  }

  lemma StarFormatText(padc: uint8, ch: uint8, w: uint32, n: uint32)
    requires padc == ZERO || padc == SPACE || padc == MINUS
    requires ch == 'd' as int || ch == 'u' as int || ch == 'x' as int || ch == 'p' as int
    ensures var e := Flags(padc, Signed32(w), -1, 0, false);
            Format(StarFormat(padc, ch), [W32(w), W32(n)]) == Printed(Convert(ch, [W32(n)], e).text, [])
    ensures Convert(ch, [W32(n)], Flags(padc, Signed32(w), -1, 0, false)).Converted?
  {
    var e := Flags(padc, Signed32(w), -1, 0, false);
    var f, a := StarFormat(padc, ch), [W32(w), W32(n)];
    assert a[1..] == [W32(n)] && [W32(n)][1..] == [];
    var text := Convert(ch, [W32(n)], e).text;
    assert [ch][1..] == [] && [STAR, ch][1..] == [ch];
    assert ScanEscape([ch], [W32(n)], e) == Done(text, [], []);
    assert ScanEscape([STAR, ch], a, NO_FLAGS.(padc := padc)) == Done(text, [], []);
    assert f[1..] == PadFlag(padc) + [STAR, ch];
    ScanPadFlag(padc, [STAR, ch], a);
    assert ScanEscape(f[1..], a, NO_FLAGS) == Done(text, [], []);
    assert text + [] == text;
  }

  /** In front of a negative number the sign comes first, so only zeros disappear. */
  lemma NegativeRoundTrip(n: int, m: nat, width: int, padc: uint8, t: seq<uint8>)
    requires n == 0 - m < 0 && (padc == ZERO || padc == SPACE || padc == MINUS)
    requires t == Bytes(SignedText(n, width, padc))
    ensures ReadsAs(t, 10, n) == PrefixedParses(m, 10, width, padc) && Near(ParseLong(t, 10).value, m)
  {
    NegativeBytes(n, width, padc);
    SignPadded(t, width - |Digits(m, 10)|, m, padc);
  }

  lemma DecimalRoundTrip(n: int, width: int, padc: uint8, t: seq<uint8>)
    requires padc == ZERO || padc == SPACE || padc == MINUS
    requires t == Bytes(SignedText(n, width, padc))
    ensures ReadsAs(t, 10, n) == DecimalParses(n, width, padc) && Near(ParseLong(t, 10).value, n)
  {
    if n < 0 {
      NegativeRoundTrip(n, -n, width, padc, t);
    } else {
      UnsignedRoundTrip(n, 10, width, padc);
    }
  }

  lemma DecimalText(w: uint32, n: uint32, padc: uint8)
    requires padc == ZERO || padc == SPACE || padc == MINUS
    ensures Format(StarFormat(padc, 'd' as int), [W32(w), W32(n)]) == Printed(SignedText(Signed32(n), Signed32(w), padc), [])
  {
    StarFormatText(padc, 'd' as int, w, n);
  }

  lemma UnsignedText(ch: uint8, base: nat, w: uint32, n: uint32, padc: uint8)
    requires padc == ZERO || padc == SPACE || padc == MINUS
    requires (ch == 'u' as int && base == 10) || (ch == 'x' as int && base == 16)
    ensures Format(StarFormat(padc, ch), [W32(w), W32(n)]) == Printed(Padded(n, base, Signed32(w), padc), [])
  {
    StarFormatText(padc, ch, w, n);
  }

  /** strtol is defined on t, since what it reads fits its long, and gives n with nothing left. */
  ghost predicate StrtolGives(t: seq<uint8>, base: int, n: int) {
    FitsLong(ParseLong(t, base).value) && ReadsAs(t, base, n)
  }

  /** Print then parse is the identity exactly when the number fits a long and the padding is one that strtol skips or absorbs. */
  lemma PrintThenParseDecimal(w: uint32, n: uint32, padc: uint8, r: Result)
    requires padc == ZERO || padc == SPACE || padc == MINUS
    requires r == Format(StarFormat(padc, 'd' as int), [W32(w), W32(n)])
    ensures r.Printed?
    ensures StrtolGives(Bytes(r.text), 10, Signed32(n)) == (FitsLong(Signed32(n)) && DecimalParses(Signed32(n), Signed32(w), padc))
    ensures FitsLong(Signed32(n)) ==> FitsLong(ParseLong(Bytes(r.text), 10).value)
  {
    DecimalText(w, n, padc);
    DecimalRoundTrip(Signed32(n), Signed32(w), padc, Bytes(r.text));
  }

  lemma PrintThenParseUnsigned(ch: uint8, base: nat, w: uint32, n: uint32, padc: uint8, r: Result)
    requires padc == ZERO || padc == SPACE || padc == MINUS
    requires (ch == 'u' as int && base == 10) || (ch == 'x' as int && base == 16)
    requires r == Format(StarFormat(padc, ch), [W32(w), W32(n)])
    ensures r.Printed?
    ensures StrtolGives(Bytes(r.text), base, n) == (FitsLong(n) && UnsignedParses(n, base, Signed32(w), padc))
    ensures FitsLong(n) ==> FitsLong(ParseLong(Bytes(r.text), base).value)
  {
    UnsignedText(ch, base, w, n, padc);
    UnsignedRoundTrip(n, base, Signed32(w), padc);
  }

  lemma PointerBytes(n: nat, width: int, padc: uint8)
    ensures Bytes([ZERO as int, LOWER_X as int] + Padded(n, 16, width, padc))
            == [ZERO, LOWER_X] + (Repeat(padc, width - |Digits(n, 16)|) + Numeral(n, 16))
  {
    PaddedBytes(n, 16, width, padc);
    BytesConcat([ZERO as int, LOWER_X as int], Padded(n, 16, width, padc));
    assert Bytes([ZERO as int, LOWER_X as int]) == [ZERO, LOWER_X];
  }

  lemma PrefixPadded(t: seq<uint8>, p: int, n: nat, padc: uint8, base: int)
    requires (padc == ZERO || padc == SPACE || padc == MINUS) && (base == 0 || base == 16)
    requires t == [ZERO, LOWER_X] + (Repeat(padc, p) + Numeral(n, 16))
    ensures ReadsAs(t, base, n) == (p <= 0 || padc == ZERO) && Near(ParseLong(t, base).value, n)
  {
    BlanksEndIs(t, 0, 0);
    assert PrefixEnd(t, 0, base) == (16, 2);
    PaddedAfter([ZERO, LOWER_X], p, n, 16, padc);
  }

  /** A pointer's 0x comes before the padding, so only zeros disappear; base 0 finds the prefix by itself. */
  lemma PointerRoundTrip(n: nat, width: int, padc: uint8, base: int, t: seq<uint8>)
    requires padc == ZERO || padc == SPACE || padc == MINUS
    requires base == 0 || base == 16
    requires t == Bytes([ZERO as int, LOWER_X as int] + Padded(n, 16, width, padc))
    ensures ReadsAs(t, base, n) == PrefixedParses(n, 16, width, padc) && Near(ParseLong(t, base).value, n)
  {
    PointerBytes(n, width, padc);
    PrefixPadded(t, width - |Digits(n, 16)|, n, padc, base);
  }

  lemma PointerText(w: uint32, n: uint32, padc: uint8)
    requires padc == ZERO || padc == SPACE || padc == MINUS
    ensures Format(StarFormat(padc, 'p' as int), [W32(w), W32(n)])
            == Printed([ZERO as int, LOWER_X as int] + Padded(n, 16, Signed32(w), padc), [])
  {
    StarFormatText(padc, 'p' as int, w, n);
  }

  lemma PrintThenParsePointer(w: uint32, n: uint32, padc: uint8, base: int, r: Result)
    requires padc == ZERO || padc == SPACE || padc == MINUS
    requires base == 0 || base == 16
    requires r == Format(StarFormat(padc, 'p' as int), [W32(w), W32(n)])
    ensures r.Printed?
    ensures StrtolGives(Bytes(r.text), base, n) == (FitsLong(n) && PrefixedParses(n, 16, Signed32(w), padc))
    ensures FitsLong(n) ==> FitsLong(ParseLong(Bytes(r.text), base).value)
  {
    PointerText(w, n, padc);
    PointerRoundTrip(n, Signed32(w), padc, base, Bytes(r.text));
  }

  lemma {:induction false} DecimalDigits(n: nat)
    ensures forall i :: 0 <= i < |Numeral(n, 10)| ==> IsDigit(Numeral(n, 10)[i])
    ensures Value(Numeral(n, 10)) == n
    ensures n > 0 ==> Numeral(n, 10)[0] != ZERO
    decreases n
  {
    NumeralStep(n, 10);
    var ds, front, last := Numeral(n, 10), Numeral(n / 10, 10), DigitChar(n % 10);
    if n < 10 {
      assert ds == [last] && ds[..0] == [];
      assert Value([]) == 0;
    } else {
      DecimalDigits(n / 10);
      assert ds[..|front|] == front && ds[|front|] == last;
      NumeralIsDigits(n / 10, 10);
      assert ds[0] == front[0];
    }
  }

  /** A width written in the format means the same as one passed for '*'. */
  lemma WidthLiteral(w: nat, g: seq<uint8>, a: seq<Arg>, e: Flags)
    requires w > 0 && (g != [] ==> !IsDigit(g[0]))
    ensures ScanEscape(Numeral(w, 10) + g, a, e) == ScanEscape(g, a, SetNumber(e, w))
  {
    var ds := Numeral(w, 10);
    var f := ds + g;
    DecimalDigits(w);
    NumeralIsDigits(w, 10);
    assert f[0] == ds[0];
    DigitRunIs(f, |ds|);
    assert f[..|ds|] == ds && f[|ds|..] == g;
  }

  lemma ScanPadFlag(padc: uint8, g: seq<uint8>, a: seq<Arg>)
    requires padc == ZERO || padc == SPACE || padc == MINUS
    ensures ScanEscape(PadFlag(padc) + g, a, NO_FLAGS) == ScanEscape(g, a, NO_FLAGS.(padc := padc))
  {
    if padc == SPACE {
      assert PadFlag(padc) + g == g;
    } else {
      assert (PadFlag(padc) + g)[1..] == g;
    }
  }

  lemma ScanStar(w: uint32, g: seq<uint8>, a: seq<Arg>, e: Flags)
    ensures ScanEscape([STAR] + g, [W32(w)] + a, e) == ScanEscape(g, a, SetNumber(e, Signed32(w)))
  {
    assert ([STAR] + g)[1..] == g && ([W32(w)] + a)[1..] == a;
  }

  lemma SameEscape(g: seq<uint8>, a: seq<Arg>, g': seq<uint8>, a': seq<Arg>)
    requires ScanEscape(g, a, NO_FLAGS) == ScanEscape(g', a', NO_FLAGS) && !ScanEscape(g, a, NO_FLAGS).Unknown?
    ensures Format([PERCENT] + g, a) == Format([PERCENT] + g', a')
  {
    assert ([PERCENT] + g)[1..] == g && ([PERCENT] + g')[1..] == g';
  }

  /** So a literal width in a format means the same as '*', and print-then-parse holds for it too. */
  lemma LiteralWidth(padc: uint8, ch: uint8, w: uint32, a: seq<Arg>)
    requires padc == ZERO || padc == SPACE || padc == MINUS
    requires 0 < w < TWO_TO_THE_31 && !IsDigit(ch)
    requires !ScanEscape([ch], a, SetNumber(NO_FLAGS.(padc := padc), w)).Unknown?
    ensures Format([PERCENT] + (PadFlag(padc) + (Numeral(w, 10) + [ch])), a) == Format(StarFormat(padc, ch), [W32(w)] + a)
  {
    var e := NO_FLAGS.(padc := padc);
    WidthLiteral(w, [ch], a, e);
    ScanStar(w, [ch], a, e);
    assert [STAR] + [ch] == [STAR, ch];
    ScanPadFlag(padc, Numeral(w, 10) + [ch], a);
    ScanPadFlag(padc, [STAR, ch], [W32(w)] + a);
    SameEscape(PadFlag(padc) + (Numeral(w, 10) + [ch]), a, PadFlag(padc) + [STAR, ch], [W32(w)] + a);
  }

  /** And no width at all means the same as '*' with -1. */
  lemma AbsentWidth(padc: uint8, ch: uint8, a: seq<Arg>)
    requires padc == ZERO || padc == SPACE || padc == MINUS
    requires !ScanEscape([ch], a, NO_FLAGS.(padc := padc)).Unknown?
    ensures Format([PERCENT] + (PadFlag(padc) + [ch]), a) == Format(StarFormat(padc, ch), [W32(TWO_TO_THE_32 - 1)] + a)
  {
    var w: uint32 := TWO_TO_THE_32 - 1;
    var e := NO_FLAGS.(padc := padc);
    assert Signed32(w) == -1 && SetNumber(e, -1) == e;
    ScanStar(w, [ch], a, e);
    assert [STAR] + [ch] == [STAR, ch];
    ScanPadFlag(padc, [ch], a);
    ScanPadFlag(padc, [STAR, ch], [W32(w)] + a);
    SameEscape(PadFlag(padc) + [ch], a, PadFlag(padc) + [STAR, ch], [W32(w)] + a);
  }

  /** No conversion of a number puts a NUL. */
  lemma PaddedHasNoNul(n: nat, base: nat, width: int, padc: uint8)
    requires (base == 8 || base == 10 || base == 16) && padc != 0
    ensures 0 !in Bytes(Padded(n, base, width, padc))
  {
    PaddedBytes(n, base, width, padc);
    NumeralIsDigits(n, base);
    assert DigitOf(0) == -1;
  }

  /** The four ways to print a number, with a base to parse it in. */
  predicate Matching(ch: uint8, base: int) {
    || ((ch == 'd' as int || ch == 'u' as int) && base == 10)
    || (ch == 'x' as int && base == 16)
    || (ch == 'p' as int && (base == 0 || base == 16))
  }

  /** The number that the conversion shows. */
  function Meant(ch: uint8, n: uint32): int {
    if ch == 'd' as int then Signed32(n) else n
  }

  /** The padding disappears again. */
  ghost predicate Survives(ch: uint8, n: uint32, width: int, padc: uint8) {
    if ch == 'd' as int then DecimalParses(Signed32(n), width, padc)
    else if ch == 'p' as int then PrefixedParses(n, 16, width, padc)
    else UnsignedParses(n, if ch == 'u' as int then 10 else 16, width, padc)
  }

  /** What print-then-parse needs to know of the printed text. */
  lemma PrintedText(ch: uint8, base: int, w: uint32, n: uint32, padc: uint8, r: Result)
    requires padc == ZERO || padc == SPACE || padc == MINUS
    requires Matching(ch, base) && FitsLong(Meant(ch, n))
    requires r == Format(StarFormat(padc, ch), [W32(w), W32(n)])
    ensures r.Printed? && 0 !in Bytes(r.text)
    ensures FitsLong(ParseLong(Bytes(r.text), base).value)
    ensures ReadsAs(Bytes(r.text), base, Meant(ch, n)) == Survives(ch, n, Signed32(w), padc)
  {
    if ch == 'd' as int {
      DecimalText(w, n, padc);
      PrintThenParseDecimal(w, n, padc, r);
      SignedHasNoNul(Signed32(n), Signed32(w), padc);
    } else if ch == 'p' as int {
      PointerText(w, n, padc);
      PrintThenParsePointer(w, n, padc, base, r);
      PointerHasNoNul(n, Signed32(w), padc);
    } else {
      UnsignedText(ch, base, w, n, padc);
      PrintThenParseUnsigned(ch, base, w, n, padc, r);
      PaddedHasNoNul(n, base, Signed32(w), padc);
    }
  }

  lemma PrefixHasNoNul(x: seq<int>, y: seq<int>)
    requires 0 !in Bytes(x) && 0 !in Bytes(y)
    ensures 0 !in Bytes(x + y)
  {
    BytesConcat(x, y);
  }

  lemma SignedHasNoNul(n: int, width: int, padc: uint8)
    requires padc != 0
    ensures 0 !in Bytes(SignedText(n, width, padc))
  {
    if n < 0 {
      PaddedHasNoNul(-n, 10, width, padc);
      PrefixHasNoNul([MINUS as int], Padded(-n, 10, width, padc));
    } else {
      PaddedHasNoNul(n, 10, width, padc);
    }
  }

  lemma PointerHasNoNul(n: nat, width: int, padc: uint8)
    requires padc != 0
    ensures 0 !in Bytes([ZERO as int, LOWER_X as int] + Padded(n, 16, width, padc))
  {
    PaddedHasNoNul(n, 16, width, padc);
    PrefixHasNoNul([ZERO as int, LOWER_X as int], Padded(n, 16, width, padc));
  }

  /** The text that vsnprintf stored, read back as a C string. */
  lemma StoredString(before: seq<uint8>, buf: nat, size: nat, text: seq<int>, m: seq<uint8>)
    requires buf + size <= |before| && |text| < size && 0 !in Bytes(text)
    requires m == Snprinted(before, buf, size, text)[..buf + |text| + 1]
    ensures m[buf + |text|] == 0 && StringAt(m, buf) == Bytes(text)
  {
    SnprintedBytes(before, buf, size, text);
    assert m[buf..buf + |text|] == Bytes(text);
    StringAtIs(m, buf, Bytes(text));
  }

  /**
    Prints a number into memory with vsnprintf and reads it back with strtol. The format is
    any that means the same as padding flag, '*' and conversion. The number and all of the
    text come back exactly if the padding disappears.
   */
  method PrintThenParse(mem: array<uint8>, buf: nat, size: nat, fmt: CString, args: seq<Arg>, base: int,
                        ghost ch: uint8, ghost w: uint32, ghost n: uint32, ghost padc: uint8)
    returns (len: nat, val: int, end: nat)
    requires padc == ZERO || padc == SPACE || padc == MINUS
    requires Matching(ch, base) && FitsLong(Meant(ch, n))
    requires Format(fmt, args) == Format(StarFormat(padc, ch), [W32(w), W32(n)])
    requires buf + size <= mem.Length && (Format(fmt, args).Printed? ==> |Format(fmt, args).text| < size)
    modifies mem
    ensures Format(fmt, args).Printed? && len == |Format(fmt, args).text| && mem[buf + len] == 0
    ensures val == Meant(ch, n) && end == buf + len <==> Survives(ch, n, Signed32(w), padc)
  {
    ghost var r := Format(fmt, args);
    PrintedText(ch, base, w, n, padc, r);
    len := Vsnprintf(mem, Some(buf), size, fmt, args);
    StoredString(old(mem[..]), buf, size, r.text, Text(mem, buf + len));
    val, end := Strtol.Strtol(StringAt(Text(mem, buf + len), buf), base);
    end := buf + end;
  }
}
