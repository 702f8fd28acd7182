/** lib/string.c: strtol. */
module Strtol {
  import opened CTypes
  import opened Strings

  /** The value of a digit or letter in the widest base, or -1. */
  function DigitOf(c: uint8): int {
    if ZERO <= c <= NINE then c - ZERO
    else if LOWER_A <= c <= 'z' as int then c - LOWER_A + 10
    else if 'A' as int <= c <= 'Z' as int then c - 'A' as int + 10
    else -1
  }

  predicate DigitIn(c: uint8, base: int) {
    0 <= DigitOf(c) < base
  }

  predicate IsBlank(c: uint8) {
    c == SPACE || c == TAB
  }

  /** The index of the first non-blank from k on. */
  function BlanksEnd(s: seq<uint8>, k: nat): (e: nat)
    requires k <= |s|
    ensures k <= e <= |s|
    decreases |s| - k
  {
    if k < |s| && IsBlank(s[k]) then BlanksEnd(s, k + 1) else k
  }

  function SignEnd(s: seq<uint8>, k: nat): (e: nat)
    requires k <= |s|
    ensures k <= e <= |s|
  {
    if k < |s| && (s[k] == PLUS || s[k] == MINUS) then k + 1 else k
  }

  /** The base the digits are read in, and the index after a prefix such as 0x. */
  function PrefixEnd(s: seq<uint8>, k: nat, base: int): (r: (int, nat))
    requires k <= |s|
    ensures k <= r.1 <= |s|
  {
    if (base == 0 || base == 16) && k + 1 < |s| && s[k] == ZERO && s[k + 1] == LOWER_X then (16, k + 2)
    else if base == 0 && k < |s| && s[k] == ZERO then (8, k + 1)
    else if base == 0 then (10, k)
    else (base, k)
  }

  /** The index of the first character from k on that is not a digit of the base. */
  function DigitsEnd(s: seq<uint8>, k: nat, base: int): (e: nat)
    requires k <= |s|
    ensures k <= e <= |s|
    ensures forall i :: k <= i < e ==> DigitIn(s[i], base)
    decreases |s| - k
  {
    if k < |s| && DigitIn(s[k], base) then DigitsEnd(s, k + 1, base) else k
  }

  /** x * k for k >= 0, as repeated addition; TimesIsProduct turns it into the product where that is wanted. */
  function Times(x: int, k: int): int {
    if k <= 0 then 0 else x + Times(x, k - 1)
  }

  lemma {:induction false} TimesIsProduct(x: int, k: nat)
    ensures Times(x, k) == x * k
  {
    if k == 0 {
    } else {
      TimesIsProduct(x, k - 1);
      assert x * k == x + x * (k - 1);
    }
  }

  lemma {:induction false} TimesGrows(x: int, k: int)
    requires x >= 0 && k >= 1
    ensures Times(x, k) >= x
    decreases k
  {
    if k == 1 {
    } else {
      TimesGrows(x, k - 1);
    }
  }

  /** The number that the digits from index i up to j denote. */
  function ValueOf(s: seq<uint8>, i: nat, j: nat, base: int): int
    requires i <= j <= |s|
    decreases j - i
  {
    if j == i then 0 else Times(ValueOf(s, i, j - 1, base), base) + DigitOf(s[j - 1])
  }

  /** The number, and the index of the first character that is not part of it. */
  datatype Parsed = Parsed(value: int, end: nat)

  /** The number without blanks and sign, from index k on. */
  function ParseAt(s: seq<uint8>, k: nat, base: int): Parsed
    requires k <= |s|
  {
    var (b, k') := PrefixEnd(s, k, base);
    var e := DigitsEnd(s, k', b);
    Parsed(ValueOf(s, k', e, b), e)
  }

  function ParseLong(s: seq<uint8>, base: int): Parsed {
    var k1 := BlanksEnd(s, 0);
    var k2 := SignEnd(s, k1);
    var d := ParseAt(s, k2, base);
    Parsed(if k2 > k1 && s[k1] == MINUS then 0 - d.value else d.value, d.end)
  }

  /** The value of leading digits never exceeds that of more of them, so no step overflows unless the number does. */
  lemma {:induction false} ValueGrows(s: seq<uint8>, i: nat, j: nat, e: nat, base: int)
    requires i <= j <= e <= |s| && forall k :: i <= k < e ==> DigitIn(s[k], base)
    ensures 0 <= ValueOf(s, i, j, base) <= ValueOf(s, i, e, base)
    decreases e - i
  {
    if i >= e {
    } else {
      assert DigitIn(s[e - 1], base);
      ValueGrows(s, i, Min(j, e - 1), e - 1, base);
      TimesGrows(ValueOf(s, i, e - 1, base), base);
    }
  }

  /** The digit loop of strtol, from index k0 on. */
  method DigitLoop(s: CString, k0: nat, base: int) returns (val: int, k: nat)
    requires k0 <= |s| && ValueOf(s, k0, DigitsEnd(s, k0, base), base) < TWO_TO_THE_31
    ensures k == DigitsEnd(s, k0, base)
    ensures val == ValueOf(s, k0, k, base)
  {
    val, k := 0, k0;
    while true
      invariant k0 <= k <= |s| && val == ValueOf(s, k0, k, base)
      invariant DigitsEnd(s, k, base) == DigitsEnd(s, k0, base)
      decreases |s| - k
    {
      var c := CharAt(s, k);
      var dig := DigitOf(c);
      if dig < 0 || dig >= base {
        break;
      }
      TimesIsProduct(val, base);
      val := val * base + dig;
      k := k + 1;
      ValueGrows(s, k0, k, DigitsEnd(s, k0, base), base);
      assert 0 <= val < TWO_TO_THE_31;
    }
  }

  method SkipBlanks(s: CString) returns (k: nat)
    ensures k == BlanksEnd(s, 0)
  {
    k := 0;
    while CharAt(s, k) == SPACE || CharAt(s, k) == TAB
      invariant k <= |s| && BlanksEnd(s, k) == BlanksEnd(s, 0)
      decreases |s| - k
    {
      k := k + 1;
    }
  }

  /** "hex or octal base prefix" */
  method SkipPrefix(s: CString, k0: nat, base0: int) returns (k: nat, base: int)
    requires k0 <= |s|
    ensures (base, k) == PrefixEnd(s, k0, base0)
  {
    k, base := k0, base0;
    if (base == 0 || base == 16) && CharAt(s, k) == ZERO && CharAt(s, k + 1) == LOWER_X {
      k, base := k + 2, 16;
    } else if base == 0 && CharAt(s, k) == ZERO {
      k, base := k + 1, 8;
    } else if base == 0 {
      base := 10;
    }
  }

  /** strtol, as long as the number fits a long. */
  method Strtol(s: CString, base0: int) returns (val: int, end: nat)
    requires -TWO_TO_THE_31 < ParseLong(s, base0).value < TWO_TO_THE_31
    ensures val == ParseLong(s, base0).value && end == ParseLong(s, base0).end
  {
    var k := SkipBlanks(s);
    var neg := false;
    if CharAt(s, k) == PLUS {
      k := k + 1;
    } else if CharAt(s, k) == MINUS {
      k, neg := k + 1, true;
    }
    var base;
    k, base := SkipPrefix(s, k, base0);
    ValueGrows(s, k, k, DigitsEnd(s, k, base), base);
    val, end := DigitLoop(s, k, base);
    val := if neg then -val else val;
  }
}
