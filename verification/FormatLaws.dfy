/** Laws of the format language: concatenation, argument framing, unknown escapes, doubling, field widths. */
module FormatLaws {
  import opened CTypes
  import opened Strings
  import opened FormatSpec

  /** A character that ScanEscape passes over on its way to the conversion character. */
  predicate IsFlag(c: uint8) {
    c == MINUS || c == DOT || c == HASH || c == LONG || c == STAR || IsDigit(c)
  }

  /** The text after a '%' reaches a conversion character. */
  predicate Reaches(g: seq<uint8>) {
    g != [] && (!IsFlag(g[0]) || Reaches(g[1..]))
  }

  /** Run with these arguments, the format ends outside any escape. */
  predicate Closed(f: seq<uint8>, a: seq<Arg>)
    decreases |f|
  {
    if f == [] then true
    else if f[0] != PERCENT then Closed(f[1..], a)
    else match ScanEscape(f[1..], a, NO_FLAGS)
      case Wrong => true
      case Unknown(left) => Reaches(f[1..]) && Closed(f[1..], left)
      case Done(_, rest, left) => Closed(rest, left)
  }

  function Extend(r: Escape, h: seq<uint8>): Escape {
    match r
    case Done(text, rest, left) => Done(text, rest + h, left)
    case _ => r
  }

  lemma {:induction false} DigitRunAppend(g: seq<uint8>, h: seq<uint8>)
    requires DigitRun(g) < |g|
    ensures DigitRun(g + h) == DigitRun(g)
  {
    if !IsDigit(g[0]) {
    } else {
      assert (g + h)[1..] == g[1..] + h;
      DigitRunAppend(g[1..], h);
    }
  }

  lemma {:induction false} ReachesPastDigits(g: seq<uint8>)
    requires Reaches(g)
    ensures DigitRun(g) < |g| && Reaches(g[DigitRun(g)..])
  {
    if IsDigit(g[0]) {
      ReachesPastDigits(g[1..]);
      assert g[DigitRun(g)..] == g[1..][DigitRun(g[1..])..];
    } else {
      assert g[0..] == g;
    }
  }

  /** A complete escape does not look at what follows it. */
  lemma {:induction false} ScanAppend(g: seq<uint8>, h: seq<uint8>, a: seq<Arg>, e: Flags)
    requires Reaches(g)
    ensures ScanEscape(g + h, a, e) == Extend(ScanEscape(g, a, e), h)
    decreases |g|
  {
    assert (g + h)[1..] == g[1..] + h;
    if Simple(g[0], e).Some? {
      ScanAppend(g[1..], h, a, Simple(g[0], e).value);
    } else if IsDigit(g[0]) {
      var n := DigitRun(g);
      ReachesPastDigits(g);
      DigitRunAppend(g, h);
      assert (g + h)[n..] == g[n..] + h && (g + h)[..n] == g[..n];
      ScanAppend(g[n..], h, a, SetNumber(e, Value(g[..n])));
    } else if g[0] == STAR && HasWord(a) {
      ScanAppend(g[1..], h, a[1..], SetNumber(e, Signed32(a[0].word)));
    }
  }

  /** Only a complete escape produces text. */
  lemma {:induction false} DoneReaches(g: seq<uint8>, a: seq<Arg>, e: Flags)
    requires ScanEscape(g, a, e).Done?
    ensures Reaches(g)
    decreases |g|
  {
    if Simple(g[0], e).Some? {
      DoneReaches(g[1..], a, Simple(g[0], e).value);
    } else if IsDigit(g[0]) {
      var n := DigitRun(g);
      DoneReaches(g[n..], a, SetNumber(e, Value(g[..n])));
      FlagsThenReaches(g, n);
    } else if g[0] == STAR {
      DoneReaches(g[1..], a[1..], SetNumber(e, Signed32(a[0].word)));
    }
  }

  lemma {:induction false} FlagsThenReaches(g: seq<uint8>, n: nat)
    requires n <= |g| && (forall i :: 0 <= i < n ==> IsFlag(g[i])) && Reaches(g[n..])
    ensures Reaches(g)
  {
    if n > 0 {
      assert g[1..][n - 1..] == g[n..];
      FlagsThenReaches(g[1..], n - 1);
    } else {
      assert g[0..] == g;
    }
  }

  /** What printing f1 and then f2 on the left-over arguments gives. */
  function Then(r: Result, f2: seq<uint8>): Result {
    match r
    case Undefined => Undefined
    case Printed(text, left) => Prepend(text, Format(f2, left))
  }

  lemma PrependThen(x: seq<int>, r: Result, f2: seq<uint8>)
    ensures Prepend(x, Then(r, f2)) == Then(Prepend(x, r), f2)
  {
    if r.Printed? {
      PrependTwice(x, r.text, Format(f2, r.args));
    }
  }

  /** vprintfmt is a homomorphism where the first format is closed. */
  lemma {:induction false} Homomorphism(f1: seq<uint8>, f2: seq<uint8>, a: seq<Arg>)
    requires Closed(f1, a)
    ensures Format(f1 + f2, a) == Then(Format(f1, a), f2)
    decreases |f1|
  {
    var f := f1 + f2;
    if f1 == [] {
      assert f == f2;
      PrependNothing(Format(f2, a));
    } else {
      assert f[1..] == f1[1..] + f2;
      if f1[0] != PERCENT {
        Homomorphism(f1[1..], f2, a);
        PrependThen([f1[0] as int], Format(f1[1..], a), f2);
      } else {
        match ScanEscape(f1[1..], a, NO_FLAGS) {
          case Wrong =>
            WrongAppend(f1[1..], f2, a, NO_FLAGS);
          case Unknown(left) =>
            ScanAppend(f1[1..], f2, a, NO_FLAGS);
            Homomorphism(f1[1..], f2, left);
            PrependThen([PERCENT as int], Format(f1[1..], left), f2);
          case Done(text, rest, left) =>
            DoneReaches(f1[1..], a, NO_FLAGS);
            ScanAppend(f1[1..], f2, a, NO_FLAGS);
            Homomorphism(rest, f2, left);
            PrependThen(text, Format(rest, left), f2);
        }
      }
    }
  }

  lemma {:induction false} WrongAppend(g: seq<uint8>, h: seq<uint8>, a: seq<Arg>, e: Flags)
    requires ScanEscape(g, a, e).Wrong?
    ensures ScanEscape(g + h, a, e).Wrong?
    decreases |g|
  {
    assert (g + h)[1..] == g[1..] + h;
    if Simple(g[0], e).Some? {
      WrongAppend(g[1..], h, a, Simple(g[0], e).value);
    } else if IsDigit(g[0]) {
      var n := DigitRun(g);
      assert n < |g|;
      DigitRunAppend(g, h);
      assert (g + h)[n..] == g[n..] + h && (g + h)[..n] == g[..n];
      WrongAppend(g[n..], h, a, SetNumber(e, Value(g[..n])));
    } else if g[0] == STAR && HasWord(a) {
      WrongAppend(g[1..], h, a[1..], SetNumber(e, Signed32(a[0].word)));
    }
  }

  lemma {:induction false} AllFlags(g: seq<uint8>)
    requires !Reaches(g)
    ensures PERCENT !in g
  {
    if g == [] {
    } else {
      AllFlags(g[1..]);
    }
  }

  /** Text that never reaches a conversion is all flags, and a '%' completes it. */
  lemma {:induction false} Unfinished(g: seq<uint8>, a: seq<Arg>, e: Flags)
    requires !Reaches(g) && !ScanEscape(g, a, e).Wrong?
    ensures ScanEscape(g, a, e).Unknown?
    ensures ScanEscape(g + [PERCENT], a, e) == Done([PERCENT as int], [], ScanEscape(g, a, e).left)
    decreases |g|
  {
    var h := g + [PERCENT];
    if g == [] {
      assert h[1..] == [];
    } else {
      assert h[1..] == g[1..] + [PERCENT];
      if Simple(g[0], e).Some? {
        Unfinished(g[1..], a, Simple(g[0], e).value);
      } else if IsDigit(g[0]) {
        UnfinishedDigits(g);
        DigitsThenPercent(g, a, e);
        Unfinished(g[DigitRun(g)..], a, SetNumber(e, Value(g[..DigitRun(g)])));
      } else {
        Unfinished(g[1..], a[1..], SetNumber(e, Signed32(a[0].word)));
      }
    }
  }

  lemma DigitsThenPercent(g: seq<uint8>, a: seq<Arg>, e: Flags)
    requires g != [] && IsDigit(g[0]) && Simple(g[0], e).None? && DigitRun(g + [PERCENT]) == DigitRun(g)
    ensures var n := DigitRun(g);
            ScanEscape(g + [PERCENT], a, e) == ScanEscape(g[n..] + [PERCENT], a, SetNumber(e, Value(g[..n])))
  {
    var h, n := g + [PERCENT], DigitRun(g);
    assert h[n..] == g[n..] + [PERCENT] && h[..n] == g[..n];
  }

  lemma {:induction false} UnfinishedDigits(g: seq<uint8>)
    requires !Reaches(g)
    ensures DigitRun(g + [PERCENT]) == DigitRun(g) && !Reaches(g[DigitRun(g)..])
  {
    var h := g + [PERCENT];
    if g != [] && IsDigit(g[0]) {
      assert h[1..] == g[1..] + [PERCENT];
      UnfinishedDigits(g[1..]);
      assert g[DigitRun(g)..] == g[1..][DigitRun(g[1..])..];
    } else {
      assert g[0..] == g;
    }
  }

  /** A format that is not closed swallows a following '%'. */
  lemma {:induction false} OpenSwallows(f: seq<uint8>, a: seq<Arg>)
    requires Format(f, a).Printed? && !Closed(f, a)
    ensures Format(f + [PERCENT], a).Printed?
    ensures |Format(f + [PERCENT], a).text| <= |Format(f, a).text|
    decreases |f|
  {
    var h := f + [PERCENT];
    assert h[1..] == f[1..] + [PERCENT];
    if f[0] != PERCENT {
      OpenSwallows(f[1..], a);
    } else if !Reaches(f[1..]) {
      AllFlags(f[1..]);
      Unfinished(f[1..], a, NO_FLAGS);
      assert Format(h, a).text == [PERCENT as int] + [];
    } else {
      ScanAppend(f[1..], [PERCENT], a, NO_FLAGS);
      match ScanEscape(f[1..], a, NO_FLAGS)
      case Unknown(left) => OpenSwallows(f[1..], left);
      case Done(_, rest, left) => OpenSwallows(rest, left);
    }
  }

  /** Being closed is exactly what concatenation needs. */
  lemma HomomorphismIffClosed(f1: seq<uint8>, a: seq<Arg>)
    requires Format(f1, a).Printed?
    ensures Closed(f1, a) <==> forall f2: seq<uint8> :: Format(f1 + f2, a) == Then(Format(f1, a), f2)
  {
    if Closed(f1, a) {
      forall f2: seq<uint8> ensures Format(f1 + f2, a) == Then(Format(f1, a), f2) {
        Homomorphism(f1, f2, a);
      }
    } else {
      OpenSwallows(f1, a);
      var left := Format(f1, a).args;
      assert [PERCENT][1..] == [];
      assert Format([PERCENT], left) == Prepend([PERCENT as int], Printed([], left));
      assert Format(f1 + [PERCENT], a) != Then(Format(f1, a), [PERCENT]);
    }
  }

  /** Arguments a conversion does not need pass it by. */
  lemma ConvertFrame(ch: uint8, a: seq<Arg>, b: seq<Arg>, e: Flags)
    requires Convert(ch, a, e).Converted?
    ensures Convert(ch, a + b, e) == Converted(Convert(ch, a, e).text, Convert(ch, a, e).args + b)
  {
    if a != [] {
      assert (a + b)[1..] == a[1..] + b && (a + b)[0] == a[0];
    }
  }

  lemma {:induction false} ScanFrame(g: seq<uint8>, a: seq<Arg>, b: seq<Arg>, e: Flags)
    ensures match ScanEscape(g, a, e)
            case Wrong => true
            case Unknown(left) => ScanEscape(g, a + b, e) == Unknown(left + b)
            case Done(text, rest, left) => ScanEscape(g, a + b, e) == Done(text, rest, left + b)
    decreases |g|
  {
    if g == [] {
    } else {
      if Simple(g[0], e).Some? {
        ScanFrame(g[1..], a, b, Simple(g[0], e).value);
      } else if IsDigit(g[0]) {
        ScanFrame(g[DigitRun(g)..], a, b, SetNumber(e, Value(g[..DigitRun(g)])));
      } else if g[0] == STAR {
        if HasWord(a) {
          assert (a + b)[1..] == a[1..] + b;
          ScanFrame(g[1..], a[1..], b, SetNumber(e, Signed32(a[0].word)));
        }
      } else if Convert(g[0], a, e).Converted? {
        ConvertFrame(g[0], a, b, e);
      }
    }
  }

  /** Extra arguments change nothing and are left over. */
  lemma {:induction false} ArgumentFrame(f: seq<uint8>, a: seq<Arg>, b: seq<Arg>)
    requires Format(f, a).Printed?
    ensures Format(f, a + b) == Printed(Format(f, a).text, Format(f, a).args + b)
    decreases |f|
  {
    if f == [] {
    } else {
      if f[0] != PERCENT {
        ArgumentFrame(f[1..], a, b);
      } else {
        ScanFrame(f[1..], a, b, NO_FLAGS);
        match ScanEscape(f[1..], a, NO_FLAGS)
        case Unknown(left) => ArgumentFrame(f[1..], left, b);
        case Done(_, rest, left) => ArgumentFrame(rest, left, b);
      }
    }
  }

  /** Two complete calls can be joined into one on the concatenated formats and arguments. */
  lemma JoinCalls(f1: seq<uint8>, a1: seq<Arg>, f2: seq<uint8>, a2: seq<Arg>)
    requires Format(f1, a1).Printed? && Format(f1, a1).args == [] && Closed(f1, a1 + a2)
    requires Format(f2, a2).Printed?
    ensures Format(f1 + f2, a1 + a2) == Printed(Format(f1, a1).text + Format(f2, a2).text, Format(f2, a2).args)
  {
    ArgumentFrame(f1, a1, a2);
    assert [] + a2 == a2;
    Homomorphism(f1, f2, a1 + a2);
  }

  /** How much text after a '%' an unknown escape covers. */
  function Span(g: seq<uint8>): (n: nat)
    ensures n <= |g|
  {
    if g == [] then 0 else if IsFlag(g[0]) then 1 + Span(g[1..]) else 1
  }

  lemma NoPercentIn(g: seq<uint8>, k: nat, n: nat)
    requires k + n <= |g| && PERCENT !in g[..k] && PERCENT !in g[k..][..n]
    ensures PERCENT !in g[..k + n]
  {
    assert g[..k + n] == g[..k] + g[k..][..n];
  }

  lemma {:induction false} SpanHasNoPercent(g: seq<uint8>, a: seq<Arg>, e: Flags)
    requires ScanEscape(g, a, e).Unknown?
    ensures PERCENT !in g[..Span(g)]
    decreases |g|
  {
    if g == [] {
    } else {
      if Simple(g[0], e).Some? {
        SpanHasNoPercent(g[1..], a, Simple(g[0], e).value);
        NoPercentIn(g, 1, Span(g[1..]));
      } else if IsDigit(g[0]) {
        var n := DigitRun(g);
        SpanHasNoPercent(g[n..], a, SetNumber(e, Value(g[..n])));
        SpanPastDigits(g);
        NoPercentIn(g, n, Span(g[n..]));
      } else if g[0] == STAR {
        SpanHasNoPercent(g[1..], a[1..], SetNumber(e, Signed32(a[0].word)));
        NoPercentIn(g, 1, Span(g[1..]));
      }
    }
  }

  lemma {:induction false} SpanPastDigits(g: seq<uint8>)
    ensures Span(g) == DigitRun(g) + Span(g[DigitRun(g)..])
  {
    if g != [] && IsDigit(g[0]) {
      SpanPastDigits(g[1..]);
      assert g[DigitRun(g)..] == g[1..][DigitRun(g[1..])..];
    } else {
      assert g[0..] == g;
    }
  }

  /** An unknown escape is printed as it stands, flags and all; only its '*'s have eaten their arguments. */
  lemma UnknownIsVerbatim(g: seq<uint8>, a: seq<Arg>)
    requires ScanEscape(g, a, NO_FLAGS).Unknown?
    ensures var n := Span(g);
            Format([PERCENT] + g, a) == Prepend(Ints([PERCENT] + g[..n]), Format(g[n..], ScanEscape(g, a, NO_FLAGS).left))
  {
    var f, n, left := [PERCENT] + g, Span(g), ScanEscape(g, a, NO_FLAGS).left;
    assert f[1..] == g && g == g[..n] + g[n..];
    SpanHasNoPercent(g, a, NO_FLAGS);
    LiteralPrefix(g[..n], g[n..], left);
    PrependTwice([PERCENT as int], Ints(g[..n]), Format(g[n..], left));
    assert Ints([PERCENT] + g[..n]) == [PERCENT as int] + Ints(g[..n]);
  }

  /** Every '%' written twice. */
  function Doubled(s: seq<uint8>): seq<uint8> {
    if s == [] then [] else (if s[0] == PERCENT then [PERCENT, PERCENT] else [s[0]]) + Doubled(s[1..])
  }

  lemma DoubledPercent(f: seq<uint8>, g: seq<uint8>, a: seq<Arg>)
    requires |f| > 1 && f[0] == PERCENT && f[1] == PERCENT && f[1..][1..] == g
    ensures Format(f, a) == Prepend([PERCENT as int], Format(g, a))
  {
    assert ScanEscape(f[1..], a, NO_FLAGS) == Done([PERCENT as int], g, a);
  }

  lemma {:induction false} DoubledPrintsItself(s: seq<uint8>, a: seq<Arg>)
    ensures Format(Doubled(s), a) == Printed(Ints(s), a)
  {
    if s == [] {
    } else {
      DoubledPrintsItself(s[1..], a);
      var d, rest := Doubled(s), Doubled(s[1..]);
      assert Ints(s) == [s[0] as int] + Ints(s[1..]);
      if s[0] == PERCENT {
        assert d == [PERCENT, PERCENT] + rest && d[1..][1..] == rest;
        DoubledPercent(d, rest, a);
      } else {
        assert d[1..] == rest;
      }
    }
  }

  /** Where a string stands in its field: at the end after padding, or with '-' at the start before spaces. */
  lemma StringField(s: CString, e: Flags, i: nat)
    requires i < |StrText(s, e)|
    ensures var n, text := Shown(s, e.precision), StrText(s, e);
            var at := if e.padc == MINUS then 0 else |text| - n;
            && n <= |text|
            && text[i] == if at <= i < at + n then StrChar(s[i - at], e.alt) else if e.padc == MINUS then SPACE else e.padc
  {
  }

  /** Field widths: a string fills max(width, shown) columns, a number max(width, digits). */
  lemma FieldWidths(s: CString, e: Flags, n: nat, base: nat)
    requires 2 <= base <= 16
    ensures |StrText(s, e)| == Max(e.width, Shown(s, e.precision))
    ensures |Padded(n, base, e.width, e.padc)| == Max(e.width, |Digits(n, base)|)
    ensures forall i :: 0 <= i < e.width - |Digits(n, base)| ==> Padded(n, base, e.width, e.padc)[i] == e.padc
  {
  }
}
