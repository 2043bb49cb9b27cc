/**
 The decimal printers of the listener (`formatUsdc`, `formatUnits`, `formatBtcAmount`: one text, with
 6, 6 and 8 decimals) and the exact decimal parser of the embed widget.
 */
module Decimals {
  import opened Positional
  import opened Numerals
  import opened Results

  datatype AmountError = InvalidAmount | TooPrecise

  function Pow10(k: nat): (p: nat)
    ensures 0 < p
  {
    if k == 0 then 1 else 10 * Pow10(k - 1)
  }

  /** n * 10^k, one factor at a time. */
  function Scale(n: int, k: nat): int {
    if k == 0 then n else 10 * Scale(n, k - 1)
  }

  lemma {:induction false} ScaleIsProduct(n: int, k: nat)
    ensures Scale(n, k) == n * Pow10(k)
  {
    if k > 0 {
      ScaleIsProduct(n, k - 1);
      assert 10 * (n * Pow10(k - 1)) == n * (10 * Pow10(k - 1));
    }
  }

  lemma {:induction false} ScaleZero(k: nat)
    ensures Scale(0, k) == 0
  {
    if k > 0 {
      ScaleZero(k - 1);
    }
  }

  lemma {:induction false} ScaleNonNegative(n: nat, k: nat)
    ensures 0 <= Scale(n, k) && (0 < n ==> 0 < Scale(n, k))
  {
    if k > 0 {
      ScaleNonNegative(n, k - 1);
    }
  }

  function Decimal(n: nat): string {
    Numeral(n, 10)
  }

  function PadStart(s: string, width: nat): string {
    if |s| < width then Repeat('0', width - |s|) + s else s
  }

  function StripTrailingZeros(s: string): string {
    if s != "" && s[|s| - 1] == '0' then StripTrailingZeros(s[..|s| - 1]) else s
  }

  /** Strips leading zeros but never the last digit. */
  function StripLeadingZeros(s: string): string {
    if 2 <= |s| && s[0] == '0' then StripLeadingZeros(s[1..]) else s
  }

  /** Integer base units as a decimal string without trailing zeros. */
  function Format(units: nat, decimals: nat): string {
    var per := Pow10(decimals);
    DivModSplit(units, per);
    FormatParts(units / per, units % per, decimals)
  }

  function FormatParts(whole: nat, frac: nat, decimals: nat): string {
    if frac == 0 then Decimal(whole)
    else Decimal(whole) + "." + StripTrailingZeros(PadStart(Decimal(frac), decimals))
  }

  lemma DivModSplit(n: nat, per: nat)
    requires 0 < per
    ensures 0 <= n / per && 0 <= n % per < per && n == n / per * per + n % per
  {
  }

  /** Position of the first decimal point, or the length. */
  function Point(s: string): (k: nat)
    ensures k <= |s| && (forall i | 0 <= i < k :: s[i] != '.') && (k < |s| ==> s[k] == '.')
  {
    if s == "" || s[0] == '.' then 0 else 1 + Point(s[1..])
  }

  function Whole(s: string): string {
    s[..Point(s)]
  }

  function Fraction(s: string): string {
    if Point(s) == |s| then "" else s[Point(s) + 1..]
  }

  /** The pattern `^[0-9]+(\.[0-9]+)?$`. */
  predicate IsAmount(s: string) {
    && Whole(s) != "" && IsNumeral(Whole(s), 10)
    && (Point(s) < |s| ==> Fraction(s) != "" && IsNumeral(Fraction(s), 10))
  }

  predicate DigitText(s: string) {
    s != "" && forall i | 0 <= i < |s| :: s[i] in "0123456789"
  }

  /** An amount is digits, or digits, a point and digits. */
  lemma AmountIff(s: string)
    ensures IsAmount(s) <==>
      DigitText(s) || exists whole, frac :: DigitText(whole) && DigitText(frac) && s == whole + "." + frac
  {
    hide IsNumeral, DigitText, Point, Whole, Fraction;
    SplitAtPoint(s);
    NumeralIff(s);
    NumeralIff(Whole(s));
    NumeralIff(Fraction(s));
    if DigitText(s) {
      NumeralHasNoPoint(s);
      PointOf(s, "");
    }
    if exists whole, frac :: DigitText(whole) && DigitText(frac) && s == whole + "." + frac {
      var whole, frac :| DigitText(whole) && DigitText(frac) && s == whole + "." + frac;
      NumeralIff(whole);
      NumeralIff(frac);
      NumeralHasNoPoint(whole);
      PointOf(whole, frac);
    }
  }

  lemma SplitAtPoint(s: string)
    ensures s == if Point(s) < |s| then Whole(s) + "." + Fraction(s) else Whole(s)
  {
    hide Point;
    if Point(s) < |s| {
      CutAt(s, Point(s));
    } else {
      assert s[..Point(s)] == s;
    }
  }

  lemma CutAt(s: string, k: nat)
    requires k < |s| && s[k] == '.'
    ensures s == s[..k] + "." + s[k + 1..]
  {
  }

  lemma NumeralIff(s: string)
    ensures DigitText(s) <==> s != "" && IsNumeral(s, 10)
  {
    hide CharDigit;
    forall c: char ensures 0 <= CharDigit(c) < 10 <==> c in "0123456789" {
      DigitIff(c);
    }
  }

  lemma DigitIff(c: char)
    ensures 0 <= CharDigit(c) < 10 <==> c in "0123456789"
  {
  }

  function ToBaseUnits(amount: string, decimals: nat): Result<int, AmountError> {
    if !IsAmount(amount) then Err(InvalidAmount)
    else if |Fraction(amount)| > decimals then Err(TooPrecise)
    else
      var padded := Fraction(amount) + Repeat('0', decimals - |Fraction(amount)|);
      Ok(ParseNumeral(StripLeadingZeros(Whole(amount)) + padded, 10))
  }

  // ---------------------------------------------------------------- digit strings

  lemma {:induction false} ParseConcat(a: string, b: string)
    ensures ParseNumeral(a + b, 10) == Scale(ParseNumeral(a, 10), |b|) + ParseNumeral(b, 10)
  {
    if b == "" {
      assert a + b == a;
    } else {
      var n := |b| - 1;
      assert (a + b)[..|a + b| - 1] == a + b[..n];
      ParseConcat(a, b[..n]);
    }
  }

  lemma {:induction false} ParseZeros(n: nat)
    ensures ParseNumeral(Repeat('0', n), 10) == 0
  {
    if n > 0 {
      assert Repeat('0', n)[..n - 1] == Repeat('0', n - 1);
      ParseZeros(n - 1);
    }
  }

  lemma {:induction false} ParseBound(s: string)
    requires IsNumeral(s, 10)
    ensures 0 <= ParseNumeral(s, 10) < Pow10(|s|)
  {
    if s != "" {
      ParseBound(s[..|s| - 1]);
    }
  }

  lemma {:induction false} ParseStripped(s: string)
    ensures ParseNumeral(StripLeadingZeros(s), 10) == ParseNumeral(s, 10)
  {
    if 2 <= |s| && s[0] == '0' {
      assert s == [s[0]] + s[1..];
      ParseConcat([s[0]], s[1..]);
      ScaleZero(|s| - 1);
      ParseStripped(s[1..]);
    }
  }

  lemma {:induction false} StripTrailingShape(s: string) returns (zeros: nat)
    ensures var t := StripTrailingZeros(s);
      && s == t + Repeat('0', zeros) && (t == "" || t[|t| - 1] != '0')
  {
    if s != "" && s[|s| - 1] == '0' {
      var n := |s| - 1;
      var z := StripTrailingShape(s[..n]);
      zeros := z + 1;
      assert s == s[..n] + ['0'];
      assert Repeat('0', z + 1) == Repeat('0', z) + ['0'];
    } else {
      zeros := 0;
    }
  }

  /** A text is fixed by the part before its trailing zeros. */
  lemma {:induction false} StripTrailingOf(t: string, zeros: nat)
    requires t == "" || t[|t| - 1] != '0'
    ensures StripTrailingZeros(t + Repeat('0', zeros)) == t
  {
    if zeros == 0 {
      assert t + Repeat('0', 0) == t;
    } else {
      var s := t + Repeat('0', zeros);
      assert s[..|s| - 1] == t + Repeat('0', zeros - 1);
      StripTrailingOf(t, zeros - 1);
    }
  }

  /** A longer number is at least the corresponding power of ten. */
  lemma {:induction false} ParseLower(s: string)
    requires s != "" && IsNumeral(s, 10) && s[0] != '0'
    ensures Pow10(|s| - 1) <= ParseNumeral(s, 10)
  {
    if |s| > 1 {
      ParseLower(s[..|s| - 1]);
    }
  }

  lemma ShortLength(n: nat, k: nat)
    requires n < Pow10(k) && 0 < k
    ensures |Decimal(n)| <= k
  {
    ParsePrinted(n, 10);
    if n != 0 {
      ParseLower(Decimal(n));
      if k < |Decimal(n)| {
        Pow10Grows(k, |Decimal(n)| - 1);
      }
    }
  }

  lemma {:induction false} Pow10Grows(k: nat, n: nat)
    requires k <= n
    ensures Pow10(k) <= Pow10(n)
  {
    if k < n {
      Pow10Grows(k, n - 1);
    }
  }

  // ---------------------------------------------------------------- what the parser computes

  /** Refused are texts that are no amounts, and amounts with more digits after the point than there are decimals. */
  lemma ParserAccepts(s: string, decimals: nat)
    ensures ToBaseUnits(s, decimals).Ok? <==> IsAmount(s) && |Fraction(s)| <= decimals
    ensures ToBaseUnits(s, decimals) == Err(InvalidAmount) <==> !IsAmount(s)
    ensures IsAmount(s) ==> |Fraction(s)| == if '.' in s then |s| - 1 - |Whole(s)| else 0
  {
  }

  /** The parsed units are the number read: the whole part and the fraction, each scaled exactly. */
  lemma ParserValue(s: string, decimals: nat)
    requires IsAmount(s) && |Fraction(s)| <= decimals
    ensures ToBaseUnits(s, decimals)
         == Ok(Scale(ParseNumeral(Whole(s), 10), decimals)
               + Scale(ParseNumeral(Fraction(s), 10), decimals - |Fraction(s)|))
    ensures 0 <= Scale(ParseNumeral(Fraction(s), 10), decimals - |Fraction(s)|) < Pow10(decimals)
    ensures 0 <= ParseNumeral(Whole(s), 10)
  {
    hide Numeral, Scale, Pow10, ParseNumeral, StripLeadingZeros, Repeat;
    var f := Fraction(s);
    var zeros := Repeat('0', decimals - |f|);
    ParseConcat(f, zeros);
    ParseZeros(|zeros|);
    ParseConcat(StripLeadingZeros(Whole(s)), f + zeros);
    ParseStripped(Whole(s));
    ParseBound(Whole(s));
    assert IsNumeral(f + zeros, 10);
    ParseBound(f + zeros);
  }

  lemma DivModOf(n: nat, per: nat, whole: nat, frac: nat)
    requires frac < per && n == whole * per + frac
    ensures n / per == whole && n % per == frac
  {
    DivModUnique(whole, frac, per);
  }

  lemma FormatOf(units: nat, whole: nat, frac: nat, decimals: nat)
    requires frac < Pow10(decimals) && units == Scale(whole, decimals) + frac
    ensures Format(units, decimals) == FormatParts(whole, frac, decimals)
  {
    ScaleIsProduct(whole, decimals);
    DivModOf(units, Pow10(decimals), whole, frac);
  }

  // ---------------------------------------------------------------- printing and parsing

  /** Neither part of a shortest amount has a superfluous zero. */
  predicate ShortestAmount(s: string) {
    && IsAmount(s) && Shortest(Whole(s))
    && (Point(s) < |s| ==> s[|s| - 1] != '0')
  }

  lemma PointOf(whole: string, frac: string)
    requires '.' !in whole
    ensures Point(whole + "." + frac) == |whole| && Whole(whole + "." + frac) == whole
    ensures Fraction(whole + "." + frac) == frac
    ensures Point(whole) == |whole| && Whole(whole) == whole && Fraction(whole) == ""
  {
    var s := whole + "." + frac;
    assert s[|whole|] == '.';
    assert forall i | 0 <= i < |whole| :: s[i] != '.' && whole[i] != '.';
  }

  lemma NumeralHasNoPoint(s: string)
    requires IsNumeral(s, 10)
    ensures '.' !in s
  {
    forall i | 0 <= i < |s| ensures s[i] != '.' {
      assert CharDigit('.') == -1;
    }
  }

  lemma SomeWidth(n: nat, k: nat)
    requires 0 < n < Pow10(k)
    ensures 0 < k
  {
  }

  lemma PaddedShape(rest: nat, decimals: nat)
    requires 0 < rest < Pow10(decimals)
    ensures var padded := PadStart(Decimal(rest), decimals);
      |padded| == decimals && IsNumeral(padded, 10) && ParseNumeral(padded, 10) == rest
  {
    hide Numeral, Scale, Pow10, ParseNumeral, Shortest, Repeat;
    SomeWidth(rest, decimals);
    var text := Decimal(rest);
    ShortLength(rest, decimals);
    ParsePrinted(rest, 10);
    var pad := Repeat('0', decimals - |text|);
    assert PadStart(text, decimals) == pad + text;
    ParseConcat(pad, text);
    ParseZeros(|pad|);
    ScaleZero(|text|);
  }

  /** The printed fraction: at most `decimals` digits, not ending in zero, and worth `rest`. */
  lemma FractionShape(rest: nat, decimals: nat)
    requires 0 < rest < Pow10(decimals)
    ensures var frac := StripTrailingZeros(PadStart(Decimal(rest), decimals));
      && frac != "" && IsNumeral(frac, 10) && |frac| <= decimals && frac[|frac| - 1] != '0'
      && Scale(ParseNumeral(frac, 10), decimals - |frac|) == rest
  {
    hide Numeral, Scale, Pow10, PadStart, StripTrailingZeros;
    var padded := PadStart(Decimal(rest), decimals);
    PaddedShape(rest, decimals);
    var frac := StripTrailingZeros(padded);
    var zeros := StripTrailingShape(padded);
    ParseConcat(frac, Repeat('0', zeros));
    ParseZeros(zeros);
    assert forall i | 0 <= i < |frac| :: frac[i] == padded[i];
    ScaleZero(zeros);
  }

  lemma ParseWithFraction(whole: nat, frac: string, decimals: nat)
    requires frac != "" && IsNumeral(frac, 10) && |frac| <= decimals && frac[|frac| - 1] != '0'
    ensures var s := Decimal(whole) + "." + frac;
      && ShortestAmount(s)
      && ToBaseUnits(s, decimals) == Ok(Scale(whole, decimals) + Scale(ParseNumeral(frac, 10), decimals - |frac|))
  {
    hide Numeral, Scale, Pow10, ParseNumeral, ToBaseUnits, StripLeadingZeros;
    ParsePrinted(whole, 10);
    NumeralHasNoPoint(Decimal(whole));
    PointOf(Decimal(whole), frac);
    ParserValue(Decimal(whole) + "." + frac, decimals);
  }

  lemma ParseWithoutFraction(whole: nat, decimals: nat)
    ensures ShortestAmount(Decimal(whole)) && ToBaseUnits(Decimal(whole), decimals) == Ok(Scale(whole, decimals))
  {
    hide Numeral, Scale, Pow10, ToBaseUnits, Point, StripLeadingZeros;
    ParsePrinted(whole, 10);
    NumeralHasNoPoint(Decimal(whole));
    PointOf(Decimal(whole), "");
    ParserValue(Decimal(whole), decimals);
    ScaleZero(decimals);
  }

  lemma ParseParts(whole: nat, frac: nat, decimals: nat)
    requires frac < Pow10(decimals)
    ensures ToBaseUnits(FormatParts(whole, frac, decimals), decimals) == Ok(Scale(whole, decimals) + frac)
    ensures ShortestAmount(FormatParts(whole, frac, decimals))
  {
    hide Numeral, Scale, Pow10, ParseNumeral;
    if frac == 0 {
      ParseWithoutFraction(whole, decimals);
    } else {
      FractionShape(frac, decimals);
      ParseWithFraction(whole, StripTrailingZeros(PadStart(Decimal(frac), decimals)), decimals);
    }
  }

  lemma ParseFormat(units: nat, decimals: nat)
    ensures ToBaseUnits(Format(units, decimals), decimals) == Ok(units)
    ensures ShortestAmount(Format(units, decimals))
  {
    hide ToBaseUnits, FormatParts, ShortestAmount, Pow10, Scale;
    var per := Pow10(decimals);
    DivModSplit(units, per);
    ScaleIsProduct(units / per, decimals);
    ParseParts(units / per, units % per, decimals);
  }

  /** Printing what was parsed gives the text again exactly when it has no superfluous zeros. */
  lemma FormatParse(s: string, decimals: nat)
    requires ToBaseUnits(s, decimals).Ok?
    ensures 0 <= ToBaseUnits(s, decimals).value
    ensures Format(ToBaseUnits(s, decimals).value, decimals) == s <==> ShortestAmount(s)
  {
    hide ToBaseUnits, FormatParts, ShortestAmount, Pow10, Scale, Format, ParseNumeral;
    ParserAccepts(s, decimals);
    ParserValue(s, decimals);
    var f := Fraction(s);
    var whole, frac := ParseNumeral(Whole(s), 10), Scale(ParseNumeral(f, 10), decimals - |f|);
    ScaleNonNegative(whole, decimals);
    FormatOf(ToBaseUnits(s, decimals).value, whole, frac, decimals);
    ParseParts(whole, frac, decimals);
    if ShortestAmount(s) {
      PartsOfShortest(s, decimals);
    }
  }

  lemma PartsOfShortest(s: string, decimals: nat)
    requires ShortestAmount(s) && |Fraction(s)| <= decimals
    ensures var whole := ParseNumeral(Whole(s), 10);
      var frac := Scale(ParseNumeral(Fraction(s), 10), decimals - |Fraction(s)|);
      0 <= whole && 0 <= frac && FormatParts(whole, frac, decimals) == s
  {
    hide Numeral, Scale, Pow10;
    var f := Fraction(s);
    PrintParsed(Whole(s), 10);
    if Point(s) == |s| {
      ScaleZero(decimals);
    } else {
      assert s == Whole(s) + "." + f;
      FractionText(f, decimals);
    }
  }

  /** A fraction that does not end in zero survives scaling, padding and stripping. */
  lemma FractionText(f: string, decimals: nat)
    requires f != "" && IsNumeral(f, 10) && |f| <= decimals && f[|f| - 1] != '0'
    ensures var frac := Scale(ParseNumeral(f, 10), decimals - |f|);
      0 < frac && StripTrailingZeros(PadStart(Decimal(frac), decimals)) == f
  {
    hide Numeral, Scale, Pow10;
    var zeros := Repeat('0', decimals - |f|);
    var padded := f + zeros;
    ParseConcat(f, zeros);
    ParseZeros(|zeros|);
    var frac := Scale(ParseNumeral(f, 10), decimals - |f|);
    assert ParseNumeral(padded, 10) == frac;
    ParseBound(f[..|f| - 1]);
    assert ParseNumeral(f, 10) > 0;
    ScaleNonNegative(ParseNumeral(f, 10), decimals - |f|);
    assert IsNumeral(padded, 10);
    ParseBound(padded);
    ShortLength(frac, decimals);
    PaddedUnique(padded, frac);
    StripTrailingOf(f, decimals - |f|);
  }

  /** A digit string of a given width is the padded print of its number. */
  lemma {:induction false} PaddedUnique(s: string, n: nat)
    requires s != "" && IsNumeral(s, 10) && ParseNumeral(s, 10) == n
    ensures PadStart(Decimal(n), |s|) == s
  {
    hide Numeral, Pow10;
    if |s| == 1 || s[0] != '0' {
      PrintParsed(s, 10);
    } else {
      assert s == [s[0]] + s[1..];
      ParseConcat([s[0]], s[1..]);
      ScaleZero(|s| - 1);
      PaddedUnique(s[1..], n);
      ParseBound(s[1..]);
      ShortLength(n, |s| - 1);
      assert Repeat('0', |s| - |Decimal(n)|) == ['0'] + Repeat('0', |s| - 1 - |Decimal(n)|);
    }
  }
}
