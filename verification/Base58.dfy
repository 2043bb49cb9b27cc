/**
 Base58 as the API server encodes it and the session helper decodes it: both rewrite a little-endian
 digit array in place, once per input symbol, with a running carry.
 */
module Base58 {
  import opened Positional
  import opened Results

  const FIGURES := "123456789"
  const UPPER := "ABCDEFGHJKLMNPQRSTUVWXYZ"
  const LOWER := "abcdefghijkmnopqrstuvwxyz"
  const ALPHABET := FIGURES + UPPER + LOWER
  const RADIX := 58
  const BYTE := 256

  // ---------------------------------------------------------------- radix conversion

  function LeadingZeros(s: seq<int>): (n: nat)
    ensures n <= |s| && (forall i | 0 <= i < n :: s[i] == 0) && (n < |s| ==> s[n] != 0)
  {
    if s == [] || s[0] != 0 then 0 else 1 + LeadingZeros(s[1..])
  }

  predicate AllZero(s: seq<int>) {
    forall i | 0 <= i < |s| :: s[i] == 0
  }

  /**
   Change of radix, most significant digit first. Every leading zero is kept as a leading zero and
   the rest is the shortest representation of the same number; the number zero still takes one digit.
   */
  function Convert(s: seq<int>, from: int, to: int): seq<int>
    requires 2 <= from && 2 <= to && InRange(s, from)
  {
    if s == [] then []
    else
      ReverseInRange(s, from);
      ValueNonNegative(Reverse(s), from);
      Repeat(0, LeadingZeros(s)) + Reverse(Digits(Value(Reverse(s), from), to))
  }

  lemma ReverseInRange(s: seq<int>, base: int)
    requires InRange(s, base)
    ensures InRange(Reverse(s), base)
  {
    ReverseAt(s);
  }

  lemma ReverseRepeat(x: int, n: nat)
    ensures Reverse(Repeat(x, n)) == Repeat(x, n)
  {
    ReverseAt(Repeat(x, n));
  }

  lemma ConvertInRange(s: seq<int>, from: int, to: int)
    requires 2 <= from && 2 <= to && InRange(s, from)
    ensures InRange(Convert(s, from, to), to)
  {
    if s != [] {
      ReverseInRange(s, from);
      ValueNonNegative(Reverse(s), from);
      var d := Digits(Value(Reverse(s), from), to);
      DigitsValue(Value(Reverse(s), from), to);
      ReverseInRange(d, to);
    }
  }

  /** A number that does not start with zero is the reverse of its own shortest digits. */
  lemma NoLeadingZero(rest: seq<int>, base: int)
    requires 2 <= base && InRange(rest, base) && rest != [] && rest[0] != 0
    ensures 0 < Value(Reverse(rest), base)
    ensures Reverse(Digits(Value(Reverse(rest), base), base)) == rest
  {
    var d := Reverse(rest);
    ReverseInRange(rest, base);
    ReverseAt(rest);
    DigitsUnique(d, base);
    ReverseTwice(rest);
    assert Value(d, base) != 0 by {
      assert Digits(0, base) == [0];
      assert d[|d| - 1] == rest[0];
    }
  }

  lemma ValueSkipsZeros(zeros: nat, rest: seq<int>, base: int)
    ensures Value(Reverse(Repeat(0, zeros) + rest), base) == Value(Reverse(rest), base)
  {
    ReverseAppend(Repeat(0, zeros), rest);
    ReverseRepeat(0, zeros);
    ValueOfPadded(Reverse(rest), base, zeros);
  }

  lemma LeadingZerosOf(zeros: nat, rest: seq<int>)
    requires rest != [] && rest[0] != 0
    ensures LeadingZeros(Repeat(0, zeros) + rest) == zeros
  {
    var s := Repeat(0, zeros) + rest;
    assert s[zeros] == rest[0];
    assert forall i | 0 <= i < zeros :: s[i] == 0;
  }

  lemma ConvertOf(zeros: nat, rest: seq<int>, from: int, to: int)
    requires 2 <= from && 2 <= to && InRange(rest, from) && rest != [] && rest[0] != 0
    ensures InRange(Repeat(0, zeros) + rest, from) && 0 < Value(Reverse(rest), from)
    ensures Convert(Repeat(0, zeros) + rest, from, to)
         == Repeat(0, zeros) + Reverse(Digits(Value(Reverse(rest), from), to))
  {
    LeadingZerosOf(zeros, rest);
    ValueSkipsZeros(zeros, rest, from);
    NoLeadingZero(rest, from);
  }

  lemma ConvertBack(s: seq<int>, from: int, to: int)
    requires 2 <= from && 2 <= to && InRange(s, from) && (s == [] || !AllZero(s))
    ensures InRange(Convert(s, from, to), to) && Convert(Convert(s, from, to), to, from) == s
  {
    ConvertInRange(s, from, to);
    if s != [] {
      var zeros := LeadingZeros(s);
      var rest := s[zeros..];
      assert s == Repeat(0, zeros) + rest;
      ConvertOf(zeros, rest, from, to);
      var v := Value(Reverse(rest), from);
      var d := Digits(v, to);
      DigitsValue(v, to);
      ReverseAt(d);
      ReverseInRange(d, to);
      ConvertOf(zeros, Reverse(d), to, from);
      ReverseTwice(d);
      NoLeadingZero(rest, from);
    }
  }

  lemma ZeroDigit(to: int)
    requires 2 <= to
    ensures Reverse(Digits(0, to)) == [0]
  {
    assert Digits(0, to) == [0];
    assert [0][..0] == [];
  }

  lemma ZerosAreZero(s: seq<int>, base: int)
    requires AllZero(s)
    ensures Value(Reverse(s), base) == 0 && LeadingZeros(s) == |s|
  {
    assert s == Repeat(0, |s|) + [];
    ValueSkipsZeros(|s|, [], base);
  }

  lemma ConvertZeros(s: seq<int>, from: int, to: int)
    requires 2 <= from && 2 <= to && s != [] && AllZero(s)
    ensures Convert(s, from, to) == Repeat(0, |s| + 1)
  {
    hide Value, Digits, Reverse, Repeat, LeadingZeros;
    ZerosAreZero(s, from);
    ZeroDigit(to);
    assert Repeat(0, |s|) + [0] == Repeat(0, |s| + 1);
  }

  /** Converting back gives the input again exactly when it is empty or names a nonzero number. */
  lemma ConvertBackIff(s: seq<int>, from: int, to: int)
    requires 2 <= from && 2 <= to && InRange(s, from)
    ensures InRange(Convert(s, from, to), to)
    ensures Convert(Convert(s, from, to), to, from) == s <==> s == [] || !AllZero(s)
  {
    ConvertInRange(s, from, to);
    if s == [] || !AllZero(s) {
      ConvertBack(s, from, to);
    } else {
      ConvertZeros(s, from, to);
      ConvertZeros(Convert(s, from, to), to, from);
    }
  }

  // ---------------------------------------------------------------- text

  function Text(digits: seq<int>): seq<char>
    requires InRange(digits, RADIX)
  {
    seq(|digits|, i requires 0 <= i < |digits| => Symbol(digits[i]))
  }

  function Symbol(d: int): char
    requires 0 <= d < RADIX
  {
    ALPHABET[d]
  }

  lemma SymbolZero()
    ensures Symbol(0) == '1'
  {
    assert ALPHABET[0] == FIGURES[0];
  }

  /** Position of a character in the alphabet, or -1: the lookup table of the decoder. */
  function IndexOf(c: char, from: nat := 0): (k: int)
    requires from <= |ALPHABET|
    ensures -1 <= k < |ALPHABET|
    ensures k == -1 ==> c !in ALPHABET[from..]
    ensures k != -1 ==> from <= k && ALPHABET[k] == c
    decreases |ALPHABET| - from
  {
    if from == |ALPHABET| then -1
    else if ALPHABET[from] == c then from
    else IndexOf(c, from + 1)
  }

  predicate IsBase58(s: seq<char>) {
    forall i | 0 <= i < |s| :: IndexOf(s[i]) != -1
  }

  function Indices(s: seq<char>): (d: seq<int>)
    requires IsBase58(s)
    ensures InRange(d, RADIX)
  {
    seq(|s|, i requires 0 <= i < |s| => IndexOf(s[i]))
  }

  lemma FiguresSorted(k: nat)
    requires k + 1 < 9
    ensures FIGURES[k] < FIGURES[k + 1]
  {
  }

  lemma UpperSorted(k: nat)
    requires k + 1 < 24
    ensures UPPER[k] < UPPER[k + 1]
  {
  }

  lemma LowerSorted(k: nat)
    requires k + 1 < 25
    ensures LOWER[k] < LOWER[k + 1]
  {
  }

  lemma PartsMeet()
    ensures FIGURES[8] == '9' && UPPER[0] == 'A' && UPPER[23] == 'Z' && LOWER[0] == 'a'
  {
  }

  lemma ConcatAt(a: string, b: string, c: string, k: nat)
    requires k < |a| + |b| + |c|
    ensures (a + b + c)[k]
         == if k < |a| then a[k] else if k < |a| + |b| then b[k - |a|] else c[k - |a| - |b|]
  {
  }

  lemma AlphabetStep(k: nat)
    requires k + 1 < |ALPHABET|
    ensures ALPHABET[k] < ALPHABET[k + 1]
  {
    ConcatAt(FIGURES, UPPER, LOWER, k);
    ConcatAt(FIGURES, UPPER, LOWER, k + 1);
    PartsMeet();
    if k < 8 {
      FiguresSorted(k);
    } else if 9 <= k < 32 {
      UpperSorted(k - 9);
    } else if 33 <= k {
      LowerSorted(k - 33);
    }
  }

  /** The alphabet is all ASCII digits and letters but the four that look alike. */
  lemma AlphabetIff(c: char)
    ensures |ALPHABET| == 58
    ensures c in ALPHABET <==> ('0' <= c <= '9' || 'A' <= c <= 'Z' || 'a' <= c <= 'z') && c !in "0OIl"
  {
    FiguresIff(c);
    UpperIff(c);
    LowerIff(c);
  }

  lemma FiguresIff(c: char)
    ensures c in FIGURES <==> '1' <= c <= '9'
  {
  }

  lemma UpperIff(c: char)
    ensures c in UPPER <==> 'A' <= c <= 'Z' && c != 'I' && c != 'O'
  {
  }

  lemma LowerIff(c: char)
    ensures c in LOWER <==> 'a' <= c <= 'z' && c != 'l'
  {
  }

  /** The alphabet is listed in strictly increasing character order, so no character repeats. */
  lemma {:induction false} AlphabetSorted(i: nat, j: nat)
    requires i < j < |ALPHABET|
    ensures ALPHABET[i] < ALPHABET[j]
  {
    AlphabetStep(j - 1);
    if i + 1 < j {
      AlphabetSorted(i, j - 1);
    }
  }

  lemma IndexOfAlphabet(k: nat)
    requires k < |ALPHABET|
    ensures IndexOf(ALPHABET[k]) == k
  {
    var j := IndexOf(ALPHABET[k]);
    assert ALPHABET[0..] == ALPHABET;
    if j < k {
      AlphabetSorted(j, k);
    } else if k < j {
      AlphabetSorted(k, j);
    }
  }

  lemma IndicesOfText(digits: seq<int>)
    requires InRange(digits, RADIX)
    ensures IsBase58(Text(digits)) && Indices(Text(digits)) == digits
  {
    forall i | 0 <= i < |digits| ensures IndexOf(Text(digits)[i]) == digits[i] {
      IndexOfAlphabet(digits[i]);
    }
  }

  lemma TextOfIndices(s: seq<char>)
    requires IsBase58(s)
    ensures Text(Indices(s)) == s
  {
  }

  // ---------------------------------------------------------------- encoder and decoder

  function Encode(bytes: seq<int>): seq<char>
    requires InRange(bytes, BYTE)
  {
    ConvertInRange(bytes, BYTE, RADIX);
    Text(Convert(bytes, BYTE, RADIX))
  }

  function Decode(s: seq<char>): Option<seq<int>> {
    if IsBase58(s) then Some(Convert(Indices(s), RADIX, BYTE)) else None
  }

  lemma DecodeEncode(bytes: seq<int>)
    requires InRange(bytes, BYTE)
    ensures Decode(Encode(bytes)) == Some(bytes) <==> bytes == [] || !AllZero(bytes)
  {
    ConvertInRange(bytes, BYTE, RADIX);
    IndicesOfText(Convert(bytes, BYTE, RADIX));
    ConvertBackIff(bytes, BYTE, RADIX);
  }

  /** The number a text of digits stands for, most significant digit first. */
  function BigEndian(s: seq<int>, radix: int): int {
    if s == [] then 0 else BigEndian(s[..|s| - 1], radix) * radix + s[|s| - 1]
  }

  lemma {:induction false} BigEndianIsValue(s: seq<int>, radix: int)
    ensures BigEndian(s, radix) == Value(Reverse(s), radix)
  {
    if s != [] {
      BigEndianIsValue(s[..|s| - 1], radix);
      assert Reverse(s)[1..] == Reverse(s[..|s| - 1]);
    }
  }

  /** A change of radix keeps the number, and the leading zeros unless there is nothing else. */
  lemma ConvertKeeps(s: seq<int>, from: int, to: int)
    requires 2 <= from && 2 <= to && InRange(s, from)
    ensures BigEndian(Convert(s, from, to), to) == BigEndian(s, from)
    ensures !AllZero(s) ==> LeadingZeros(Convert(s, from, to)) == LeadingZeros(s)
  {
    hide Value, Digits, Reverse, BigEndian, LeadingZeros;
    BigEndianIsValue(s, from);
    BigEndianIsValue(Convert(s, from, to), to);
    if s == [] {
      assert Convert(s, from, to) == s;
      NothingCounts(from, to);
    } else {
      ReverseInRange(s, from);
      ValueNonNegative(Reverse(s), from);
      var v := Value(Reverse(s), from);
      DigitsValue(v, to);
      ReverseTwice(Digits(v, to));
      ValueSkipsZeros(LeadingZeros(s), Reverse(Digits(v, to)), to);
      if !AllZero(s) {
        ZerosInFront(s, from, to);
      }
    }
  }

  lemma NothingCounts(from: int, to: int)
    ensures BigEndian([], from) == 0 && BigEndian([], to) == 0
  {
  }

  lemma ZerosInFront(s: seq<int>, from: int, to: int)
    requires 2 <= from && 2 <= to && InRange(s, from) && !AllZero(s)
    ensures LeadingZeros(Convert(s, from, to)) == LeadingZeros(s)
  {
    hide Value, Digits, Reverse;
    var zeros := LeadingZeros(s);
    var rest := s[zeros..];
    assert s == Repeat(0, zeros) + rest;
    ConvertOf(zeros, rest, from, to);
    var d := Digits(Value(Reverse(rest), from), to);
    DigitsValue(Value(Reverse(rest), from), to);
    ReverseAt(d);
    LeadingZerosOf(zeros, Reverse(d));
  }

  /** The text is the number of the bytes in base 58, with a `1` for every leading zero byte. */
  lemma EncodesNumber(bytes: seq<int>)
    requires InRange(bytes, BYTE)
    ensures IsBase58(Encode(bytes)) && BigEndian(Indices(Encode(bytes)), 58) == BigEndian(bytes, 256)
    ensures !AllZero(bytes) ==> LeadingZeros(Indices(Encode(bytes))) == LeadingZeros(bytes)
  {
    hide Convert, BigEndian, LeadingZeros, Text, Indices;
    ConvertInRange(bytes, BYTE, RADIX);
    IndicesOfText(Convert(bytes, BYTE, RADIX));
    ConvertKeeps(bytes, BYTE, RADIX);
  }

  /** And the bytes are the number of the text. */
  lemma DecodesNumber(s: seq<char>)
    requires IsBase58(s)
    ensures Decode(s).Some? && BigEndian(Decode(s).value, 256) == BigEndian(Indices(s), 58)
    ensures !AllZero(Indices(s)) ==> LeadingZeros(Decode(s).value) == LeadingZeros(Indices(s))
  {
    hide Convert, BigEndian, LeadingZeros, Indices;
    ConvertKeeps(Indices(s), RADIX, BYTE);
  }

  lemma OnesAreZeros(s: seq<char>)
    requires IsBase58(s)
    ensures AllZero(Indices(s)) <==> forall i | 0 <= i < |s| :: s[i] == '1'
  {
    IndexOfAlphabet(0);
    assert ALPHABET[0] == FIGURES[0] == '1';
    forall i | 0 <= i < |s| ensures Indices(s)[i] == 0 <==> s[i] == '1' {
      assert Indices(s)[i] == IndexOf(s[i]);
      assert IndexOf(s[i]) == 0 ==> ALPHABET[0] == s[i];
    }
  }

  lemma EncodeDecode(s: seq<char>)
    requires IsBase58(s)
    ensures InRange(Decode(s).value, BYTE)
    ensures Encode(Decode(s).value) == s <==> s == [] || exists i | 0 <= i < |s| :: s[i] != '1'
  {
    var d := Indices(s);
    ConvertBackIff(d, RADIX, BYTE);
    var back := Convert(Convert(d, RADIX, BYTE), BYTE, RADIX);
    ConvertInRange(Convert(d, RADIX, BYTE), BYTE, RADIX);
    TextOfIndices(s);
    IndicesOfText(back);
    OnesAreZeros(s);
  }

  // ---------------------------------------------------------------- the carry loops

  /** The number whose low digits are `low` and whose remaining high part is `high`. */
  ghost function Join(low: seq<int>, high: int, base: int): int {
    if low == [] then high else low[0] + base * Join(low[1..], high, base)
  }

  lemma {:induction false} JoinPush(low: seq<int>, d: int, high: int, base: int)
    ensures Join(low + [d], high, base) == Join(low, d + base * high, base)
  {
    if low == [] {
      assert ([d])[1..] == [];
    } else {
      assert (low + [d])[1..] == low[1..] + [d];
      JoinPush(low[1..], d, high, base);
    }
  }

  lemma {:induction false} JoinZero(low: seq<int>, base: int)
    ensures Join(low, 0, base) == Value(low, base)
  {
    if low != [] {
      JoinZero(low[1..], base);
    }
  }

  /** The two uses of the loops: bytes into base-58 digits, and base-58 symbols into bytes. */
  predicate RadixPair(factor: int, base: int) {
    (factor == BYTE && base == RADIX) || (factor == RADIX && base == BYTE)
  }

  /** `carry % 58` in the encoder, `carry & 0xff` in the decoder. */
  function Low(t: nat, base: int): nat {
    if base == RADIX then t % RADIX else t % BYTE
  }

  /** `(carry / 58) | 0` in the encoder, `carry >>> 8` in the decoder. */
  function High(t: nat, base: int): nat {
    if base == RADIX then t / RADIX else t / BYTE
  }

  lemma CarryBounds(carry: int, d: int, factor: int, base: int)
    requires RadixPair(factor, base) && 0 <= carry < factor && 0 <= d < base
    ensures var t := carry + d * factor;
      && 0 <= t < 14848
      && Low(t, base) < base && High(t, base) < factor
      && t == Low(t, base) + base * High(t, base)
      && (0 < d ==> 0 < Low(t, base) || 0 < High(t, base))
  {
  }

  lemma CarryValue(carry: int, d: int, rest: int, factor: int, base: int, r: int, q: int)
    requires carry + d * factor == r + base * q
    ensures r + base * (q + factor * rest) == carry + factor * (d + base * rest)
  {
    assert base * (q + factor * rest) == base * q + base * (factor * rest);
    assert factor * (d + base * rest) == factor * d + factor * (base * rest);
    assert base * (factor * rest) == factor * (base * rest);
  }

  /** Digits below `j` are rewritten, those from `j` on are still the old ones, and no value is lost. */
  ghost predicate Swept(digits: seq<int>, old0: seq<int>, j: nat, carry: nat, factor: int, base: int, total: int) {
    && |digits| == |old0| && j <= |digits| && carry < factor
    && InRange(digits, base) && digits[j..] == old0[j..]
    && Join(digits[..j], carry + factor * Value(old0[j..], base), base) == total
    && (j > 0 && old0[j - 1] != 0 ==> 0 < carry || digits[j - 1] != 0)
  }

  lemma SweepStep(digits: seq<int>, old0: seq<int>, j: nat, carry: nat, factor: int, base: int, total: int)
    requires RadixPair(factor, base) && j < |digits| && Swept(digits, old0, j, carry, factor, base, total)
    ensures var t := carry + digits[j] * factor;
      && 0 <= t < 14848
      && Swept(digits[j := Low(t, base)], old0, j + 1, High(t, base), factor, base, total)
  {
    assert digits[j] == digits[j..][0] == old0[j..][0];
    var low, rest := digits[..j], Value(old0[j + 1..], base);
    CarryBounds(carry, digits[j], factor, base);
    var t: nat := carry + digits[j] * factor;
    CarryValue(carry, digits[j], rest, factor, base, Low(t, base), High(t, base));
    assert old0[j..][1..] == old0[j + 1..];
    JoinPush(low, Low(t, base), High(t, base) + factor * rest, base);
    var next := digits[j := Low(t, base)];
    assert next[j + 1..] == digits[j..][1..];
    assert next[..j + 1] == low + [Low(t, base)];
  }

  /** All old digits are rewritten; what is left of the carry is pushed as new high digits. */
  ghost predicate Pushing(digits: seq<int>, carry: nat, base: int, total: int) {
    && InRange(digits, base) && digits != []
    && Join(digits, carry, base) == total
    && (0 < carry || |digits| == 1 || digits[|digits| - 1] != 0)
  }

  lemma PushStep(digits: seq<int>, carry: nat, base: int, total: int)
    requires (base == RADIX || base == BYTE) && 0 < carry && Pushing(digits, carry, base, total)
    ensures High(carry, base) < carry
    ensures Pushing(digits + [Low(carry, base)], High(carry, base), base, total)
  {
    JoinPush(digits, Low(carry, base), High(carry, base), base);
  }

  /**
   One input symbol: digits := digits * factor + symbol, in place. `factor` is the radix of the
   input and `base` that of the digits. The carry stays below the input radix, so every intermediate
   is below base * factor = 14848 and neither `<<`, `| 0`, `& 0xff` nor `>>>` ever truncates.
   */
  method Accumulate(digits0: seq<int>, symbol: int, factor: int, base: int) returns (digits: seq<int>)
    requires RadixPair(factor, base) && 0 <= symbol < factor && Canonical(digits0, base)
    ensures Canonical(digits, base)
    ensures Value(digits, base) == symbol + factor * Value(digits0, base)
  {
    digits := digits0;
    var carry: nat := symbol;
    ghost var total := symbol + factor * Value(digits0, base);
    assert digits0[0..] == digits0;
    for j := 0 to |digits|
      invariant |digits| == |digits0| && Swept(digits, digits0, j, carry, factor, base, total)
    {
      SweepStep(digits, digits0, j, carry, factor, base, total);
      carry := carry + digits[j] * factor;
      digits := digits[j := Low(carry, base)];
      carry := High(carry, base);
    }
    assert digits[..|digits|] == digits && digits0[|digits|..] == [];
    while carry > 0
      invariant Pushing(digits, carry, base, total)
    {
      PushStep(digits, carry, base, total);
      digits := digits + [Low(carry, base)];
      carry := High(carry, base);
    }
    JoinZero(digits, base);
  }

  lemma ValuePrefix(s: seq<int>, i: nat, base: int)
    requires i < |s|
    ensures Value(Reverse(s[..i + 1]), base) == s[i] + base * Value(Reverse(s[..i]), base)
  {
    assert s[..i + 1][..i] == s[..i];
    assert Reverse(s[..i + 1]) == [s[i]] + Reverse(s[..i]);
    assert ([s[i]] + Reverse(s[..i]))[1..] == Reverse(s[..i]);
  }

  lemma IndicesPrefix(s: seq<char>, i: nat)
    requires i < |s| && IsBase58(s[..i]) && IndexOf(s[i]) != -1
    ensures IsBase58(s[..i + 1])
    ensures Value(Reverse(Indices(s[..i + 1])), RADIX) == IndexOf(s[i]) + RADIX * Value(Reverse(Indices(s[..i])), RADIX)
  {
    hide Value, Reverse, IndexOf;
    var d := Indices(s[..i + 1]);
    assert d[..i] == Indices(s[..i]) && d[..i + 1] == d;
    ValuePrefix(d, i, RADIX);
  }

  lemma CanonicalDigits(digits: seq<int>, s: seq<int>, from: int, to: int)
    requires 2 <= from && 2 <= to && InRange(s, from) && s != []
    requires Canonical(digits, to) && Value(digits, to) == Value(Reverse(s), from)
    ensures Convert(s, from, to) == Repeat(0, LeadingZeros(s)) + Reverse(digits)
  {
    DigitsUnique(digits, to);
  }

  /** The digits after the loops, most significant first, in front of them one '1' per leading zero. */
  method Spell(leadingZeros: nat, digits: seq<int>) returns (out: seq<char>)
    requires InRange(digits, RADIX)
    ensures InRange(Repeat(0, leadingZeros) + Reverse(digits), RADIX)
    ensures out == Text(Repeat(0, leadingZeros) + Reverse(digits))
  {
    hide Value, Digits, Symbol;
    ReverseAt(digits);
    SymbolZero();
    ghost var full := Repeat(0, leadingZeros) + Reverse(digits);
    out := [];
    for i := 0 to leadingZeros
      invariant |out| == i && forall k | 0 <= k < i :: out[k] == Symbol(full[k])
    {
      out := out + ['1'];
    }
    for i := |digits| downto 0
      invariant |out| == leadingZeros + |digits| - i
      invariant forall k | 0 <= k < |out| :: out[k] == Symbol(full[k])
    {
      out := out + [Symbol(digits[i])];
    }
  }

  method Base58Encode(bytes: seq<int>) returns (out: seq<char>)
    requires InRange(bytes, BYTE)
    ensures out == Encode(bytes)
  {
    hide Value, Digits, Reverse;
    if |bytes| == 0 {
      return [];
    }
    var digits := [0];
    SingleZero(bytes, RADIX, BYTE);
    for i := 0 to |bytes|
      invariant Canonical(digits, RADIX) && Value(digits, RADIX) == Value(Reverse(bytes[..i]), BYTE)
    {
      ValuePrefix(bytes, i, BYTE);
      digits := Accumulate(digits, bytes[i], BYTE, RADIX);
    }
    assert bytes[..|bytes|] == bytes;
    var leadingZeros := 0;
    while leadingZeros < |bytes| && bytes[leadingZeros] == 0
      invariant leadingZeros <= LeadingZeros(bytes)
    {
      leadingZeros := leadingZeros + 1;
    }
    CanonicalDigits(digits, bytes, BYTE, RADIX);
    out := Spell(leadingZeros, digits);
  }

  lemma SingleZero(s: seq<int>, base: int, from: int)
    requires 2 <= base
    ensures Canonical([0], base) && Value([0], base) == 0 == Value(Reverse(s[..0]), from)
  {
    assert Reverse(s[..0]) == [];
    assert ([0])[1..] == [];
  }

  method LeadingOnes(s: seq<char>) returns (n: nat)
    requires IsBase58(s)
    ensures n == LeadingZeros(Indices(s))
  {
    n := 0;
    assert ALPHABET[0] == FIGURES[0] == '1';
    IndexOfAlphabet(0);
    while n < |s| && s[n] == '1'
      invariant n <= LeadingZeros(Indices(s))
    {
      assert Indices(s)[n] == 0;
      n := n + 1;
    }
    assert n < |s| ==> ALPHABET[Indices(s)[n]] == s[n];
  }

  /** Fills a zeroed buffer with the digits, most significant first, after the leading zero bytes. */
  method Layout(leadingZeros: nat, digits: seq<int>) returns (buffer: array<int>)
    ensures fresh(buffer) && buffer[..] == Repeat(0, leadingZeros) + Reverse(digits)
  {
    hide Value, Digits;
    ReverseAt(digits);
    buffer := new int[leadingZeros + |digits|](_ => 0);
    for i := 0 to |digits|
      invariant forall k | 0 <= k < leadingZeros :: buffer[k] == 0
      invariant forall k | leadingZeros <= k < leadingZeros + i :: buffer[k] == Reverse(digits)[k - leadingZeros]
    {
      buffer[leadingZeros + i] := digits[|digits| - 1 - i];
    }
    assert buffer[..] == Repeat(0, leadingZeros) + Reverse(digits);
  }

  method Base58Decode(s: seq<char>) returns (out: Option<seq<int>>)
    ensures out == Decode(s)
  {
    hide Value, Digits, Text, Reverse;
    if |s| == 0 {
      return Some([]);
    }
    var digits := [0];
    assert Indices(s[..0]) == [];
    SingleZero([], BYTE, RADIX);
    for i := 0 to |s|
      invariant IsBase58(s[..i])
      invariant Canonical(digits, BYTE) && Value(digits, BYTE) == Value(Reverse(Indices(s[..i])), RADIX)
    {
      var v := IndexOf(s[i]);
      if v == -1 {
        return None;
      }
      IndicesPrefix(s, i);
      digits := Accumulate(digits, v, RADIX, BYTE);
    }
    assert s[..|s|] == s;
    var leadingZeros := LeadingOnes(s);
    CanonicalDigits(digits, Indices(s), RADIX, BYTE);
    var buffer := Layout(leadingZeros, digits);
    out := Some(buffer[..]);
  }
}
