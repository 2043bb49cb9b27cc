/** `Number.prototype.toString(radix)` on naturals, and reading a digit string back. */
module Numerals {
  import opened Positional

  function DigitChar(d: int): char
    requires 0 <= d < 36
  {
    if d < 10 then '0' + d as char else 'a' + (d - 10) as char
  }

  function CharDigit(c: char): int {
    if '0' <= c <= '9' then c as int - '0' as int
    else if 'a' <= c <= 'z' then c as int - 'a' as int + 10
    else -1
  }

  /** The digits up to radix 36. */
  const DIGITS := "0123456789abcdefghijklmnopqrstuvwxyz"

  lemma DigitAt(d: int)
    requires 0 <= d < 36
    ensures |DIGITS| == 36 && DigitChar(d) == DIGITS[d] && CharDigit(DIGITS[d]) == d
  {
  }

  predicate IsNumeral(s: string, radix: int) {
    forall i | 0 <= i < |s| :: 0 <= CharDigit(s[i]) < radix
  }

  function Numeral(n: nat, radix: int): string
    requires 2 <= radix <= 36
  {
    DigitsValue(n, radix);
    ReverseAt(Digits(n, radix));
    var d := Reverse(Digits(n, radix));
    seq(|d|, i requires 0 <= i < |d| => DigitChar(d[i]))
  }

  function ParseNumeral(s: string, radix: int): int
  {
    if s == "" then 0 else radix * ParseNumeral(s[..|s| - 1], radix) + CharDigit(s[|s| - 1])
  }

  /** No superfluous zero in front. */
  predicate Shortest(s: string) {
    s != "" && (|s| == 1 || s[0] != '0')
  }

  lemma {:induction false} ParseIsValue(d: seq<int>, s: string, radix: int)
    requires |d| == |s| && forall i | 0 <= i < |s| :: d[i] == CharDigit(s[i])
    ensures ParseNumeral(s, radix) == Value(Reverse(d), radix)
  {
    if s != "" {
      var n := |s| - 1;
      ParseIsValue(d[..n], s[..n], radix);
      assert Reverse(d)[1..] == Reverse(d[..n]);
    }
  }

  lemma ParsePrinted(n: nat, radix: int)
    requires 2 <= radix <= 36
    ensures IsNumeral(Numeral(n, radix), radix) && Shortest(Numeral(n, radix))
    ensures ParseNumeral(Numeral(n, radix), radix) == n
    ensures n != 0 ==> Numeral(n, radix)[0] != '0'
  {
    var digits := Digits(n, radix);
    DigitsValue(n, radix);
    ReverseAt(digits);
    ParseIsValue(Reverse(digits), Numeral(n, radix), radix);
    ReverseTwice(digits);
  }

  /** The only shortest numeral of a number is the printed one. */
  lemma PrintParsed(s: string, radix: int)
    requires 2 <= radix <= 36 && IsNumeral(s, radix) && Shortest(s)
    ensures 0 <= ParseNumeral(s, radix) && Numeral(ParseNumeral(s, radix), radix) == s
  {
    hide Digits, Value, ParseNumeral;
    var d := seq(|s|, i requires 0 <= i < |s| => CharDigit(s[i]));
    ParseIsValue(d, s, radix);
    ReverseAt(d);
    DigitsUnique(Reverse(d), radix);
    ReverseTwice(d);
  }

  lemma NumeralInjective(m: nat, n: nat, radix: int)
    requires 2 <= radix <= 36 && Numeral(m, radix) == Numeral(n, radix)
    ensures m == n
  {
    ParsePrinted(m, radix);
    ParsePrinted(n, radix);
  }
}
