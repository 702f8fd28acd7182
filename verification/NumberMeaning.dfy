/** What strtol makes of a number's text: blanks, signs, prefixes, digits of either case, and what follows. */
module NumberMeaning {
  import opened CTypes
  import opened Strings
  import opened FormatSpec
  import opened Strtol
  import opened RoundTrip

  /** The digits of every base up to 36, and nothing else has a value. */
  lemma DigitTable(c: uint8)
    ensures 0x30 <= c <= 0x39 ==> DigitOf(c) == c - 0x30
    ensures 0x61 <= c <= 0x7A ==> DigitOf(c) == c - 0x61 + 10
    ensures 0x41 <= c <= 0x5A ==> DigitOf(c) == c - 0x41 + 10
    ensures DigitOf(c) >= 0 ==> 0x30 <= c <= 0x39 || 0x61 <= c <= 0x7A || 0x41 <= c <= 0x5A
  {
  }

  /** Blanks and tabs, perhaps a sign, and then a digit. */
  lemma SignStands(t: seq<uint8>, k: nat, sign: seq<uint8>, base: nat)
    requires k + |sign| < |t| && (forall i :: 0 <= i < k ==> t[i] == 0x20 || t[i] == 0x09)
    requires sign == [] || (sign == [0x2B] && t[k] == 0x2B) || (sign == [0x2D] && t[k] == 0x2D)
    requires DigitIn(t[k + |sign|], base)
    ensures var d := ParseAt(t, k + |sign|, base);
            ParseLong(t, base) == Parsed(if sign == [0x2D] then 0 - d.value else d.value, d.end)
  {
    DigitTable(t[k + |sign|]);
    BlanksEndIs(t, 0, k);
  }

  /** The text of a number: blanks and tabs, perhaps a sign, and digits. */
  lemma BlanksAndSign(blanks: seq<uint8>, sign: seq<uint8>, n: nat, base: nat)
    requires base == 8 || base == 10 || base == 16
    requires forall i :: 0 <= i < |blanks| ==> blanks[i] == 0x20 || blanks[i] == 0x09
    requires sign == [] || sign == [0x2B] || sign == [0x2D]
    ensures var t := blanks + sign + Numeral(n, base);
            ParseLong(t, base) == Parsed(if sign == [0x2D] then 0 - n else n, |t|)
  {
    var pre, t := blanks + sign, blanks + sign + Numeral(n, base);
    assert t == pre + (Repeat(ZERO, 0) + Numeral(n, base));
    DigitsAfter(pre, 0, n, base);
    assert forall i :: 0 <= i < |blanks| ==> t[i] == blanks[i];
    SignStands(t, |blanks|, sign, base);
  }

  /** In base 0 a leading zero means octal, 0x hexadecimal, and any other digit decimal. */
  lemma OctalPrefix(n: nat)
    ensures var t := [0x30] + Numeral(n, 8); ParseLong(t, 0) == Parsed(n, |t|)
  {
    var t := [ZERO] + Numeral(n, 8);
    assert t == [ZERO] + (Repeat(ZERO, 0) + Numeral(n, 8));
    DigitsAfter([ZERO], 0, n, 8);
    DigitTable(t[1]);
    BlanksEndIs(t, 0, 0);
    assert PrefixEnd(t, 0, 0) == (8, 1);
  }

  lemma HexPrefix(n: nat, base: int)
    requires base == 0 || base == 16
    ensures var t := [0x30, 0x78] + Numeral(n, 16); ParseLong(t, base) == Parsed(n, |t|)
  {
    var t := [ZERO, LOWER_X] + Numeral(n, 16);
    assert t == [ZERO, LOWER_X] + (Repeat(ZERO, 0) + Numeral(n, 16));
    PrefixPadded(t, 0, n, ZERO, base);
  }

  lemma DecimalWithoutPrefix(n: nat)
    requires n > 0
    ensures ParseLong(Numeral(n, 10), 0) == Parsed(n, |Numeral(n, 10)|)
  {
    var t := Numeral(n, 10);
    assert t == [] + (Repeat(ZERO, 0) + t);
    DigitsAfter([], 0, n, 10);
    DecimalDigits(n);
    DigitTable(t[0]);
    BlanksEndIs(t, 0, 0);
    assert PrefixEnd(t, 0, 0) == (10, 0);
  }

  /** Without base 0, a leading zero is a digit like any other. */
  lemma ZeroIsADigit(n: nat, base: nat)
    requires base == 8 || base == 10 || base == 16
    ensures var t := [0x30] + Numeral(n, base); ParseLong(t, base) == Parsed(n, |t|)
  {
    var t := [ZERO] + Numeral(n, base);
    assert t == [] + (Repeat(ZERO, 1) + Numeral(n, base));
    DigitsAfter([], 1, n, base);
    ParseAfterBlanks(t, 0, base);
  }

  function UpperCase(s: seq<uint8>): (u: seq<uint8>)
    ensures |u| == |s|
    ensures forall i :: 0 <= i < |s| ==> u[i] == if 0x61 <= s[i] <= 0x7A then s[i] - 0x20 else s[i]
  {
    seq(|s|, i requires 0 <= i < |s| => if 0x61 <= s[i] <= 0x7A then s[i] - 0x20 else s[i])
  }

  lemma {:induction false} SameValue(s: seq<uint8>, u: seq<uint8>, j: nat, base: int)
    requires |s| == |u| && j <= |s| && forall i :: 0 <= i < |s| ==> DigitOf(s[i]) == DigitOf(u[i])
    ensures ValueOf(s, 0, j, base) == ValueOf(u, 0, j, base)
  {
    if j == 0 {
    } else {
      SameValue(s, u, j - 1, base);
    }
  }

  /** Digits above 9 may be written in upper case. */
  lemma UpperCaseDigits(n: nat)
    ensures var t := UpperCase(Numeral(n, 16)); ParseLong(t, 16) == Parsed(n, |t|)
  {
    var s, t := Numeral(n, 16), UpperCase(Numeral(n, 16));
    NumeralIsDigits(n, 16);
    NumeralValue(n, 16);
    forall i | 0 <= i < |s| ensures DigitOf(s[i]) == DigitOf(t[i]) && DigitIn(t[i], 16) {
      assert DigitIn(s[i], 16);
    }
    SameValue(s, t, |s|, 16);
    AllDigitsEnd(t, 0, 16);
    ParseAfterBlanks(t, 0, 16);
    assert PrefixEnd(t, 0, 16) == (16, 0);
  }

  lemma {:induction false} DigitsEndIs(t: seq<uint8>, k: nat, e: nat, base: int)
    requires k <= e <= |t| && (forall i :: k <= i < e ==> DigitIn(t[i], base)) && (e < |t| ==> !DigitIn(t[e], base))
    ensures DigitsEnd(t, k, base) == e
    decreases e - k
  {
    if k == e {
    } else {
      DigitsEndIs(t, k + 1, e, base);
    }
  }

  lemma ValueThen(n: nat, rest: seq<uint8>, base: nat, t: seq<uint8>)
    requires base == 8 || base == 10 || base == 16
    requires t == Numeral(n, base) + rest
    ensures ValueOf(t, 0, |Numeral(n, base)|, base) == n
  {
    NumeralValue(n, base);
    ValueShift([], Numeral(n, base), rest, |Numeral(n, base)|, base);
    assert [] + Numeral(n, base) + rest == t;
  }

  lemma EndThen(ds: seq<uint8>, rest: seq<uint8>, base: nat, t: seq<uint8>)
    requires AllDigits(ds, base) && ds != [] && t == ds + rest && rest != [] && !DigitIn(rest[0], base)
    ensures DigitsEnd(t, 0, base) == |ds|
    ensures DigitIn(t[0], base) && (t[1] == rest[0] || DigitIn(t[1], base))
  {
    forall i | 0 <= i < |ds| ensures DigitIn(t[i], base) {
      assert DigitIn(ds[i], base) && t[i] == ds[i];
    }
    DigitsEndIs(t, 0, |ds|, base);
  }

  lemma NumeralThen(n: nat, rest: seq<uint8>, base: nat, t: seq<uint8>)
    requires base == 8 || base == 10 || base == 16
    requires t == Numeral(n, base) + rest && rest != [] && !DigitIn(rest[0], base)
    ensures DigitsEnd(t, 0, base) == |Numeral(n, base)| && ValueOf(t, 0, |Numeral(n, base)|, base) == n
    ensures DigitIn(t[0], base) && (t[1] == rest[0] || DigitIn(t[1], base))
  {
    NumeralIsDigits(n, base);
    EndThen(Numeral(n, base), rest, base, t);
    ValueThen(n, rest, base, t);
  }

  /** The number ends at the first character that is not a digit of its base, and the rest is left. */
  lemma RestIsLeft(n: nat, rest: seq<uint8>, base: nat)
    requires base == 8 || base == 10 || (base == 16 && rest != [] && rest[0] != 0x78)
    requires rest != [] && !DigitIn(rest[0], base)
    ensures ParseLong(Numeral(n, base) + rest, base) == Parsed(n, |Numeral(n, base)|)
  {
    var t := Numeral(n, base) + rest;
    NumeralThen(n, rest, base, t);
    ParseAfterBlanks(t, 0, base);
    assert PrefixEnd(t, 0, base) == (base, 0);
  }
}
