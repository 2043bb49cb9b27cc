/**
 Positional numbers, least significant digit first. `Digits` is the one shortest representation of
 a natural number; the codecs and printers of the other modules are stated over it.
 */
module Positional {

  function Value(digits: seq<int>, base: int): int {
    if digits == [] then 0 else digits[0] + base * Value(digits[1..], base)
  }

  predicate InRange(digits: seq<int>, base: int) {
    forall i | 0 <= i < |digits| :: 0 <= digits[i] < base
  }

  /** Every digit in range and no superfluous zero in front; zero itself is `[0]`. */
  predicate Canonical(digits: seq<int>, base: int) {
    digits != [] && InRange(digits, base) && (|digits| == 1 || digits[|digits| - 1] != 0)
  }

  function Digits(n: nat, base: int): seq<int>
    requires 2 <= base
  {
    if n < base then [n] else DivShrinks(n, base); [n % base] + Digits(n / base, base)
  }

  function Reverse<T>(s: seq<T>): (r: seq<T>)
    ensures |r| == |s|
  {
    if s == [] then [] else [s[|s| - 1]] + Reverse(s[..|s| - 1])
  }

  function Repeat<T>(x: T, n: nat): (r: seq<T>)
    ensures |r| == n && forall i | 0 <= i < n :: r[i] == x
  {
    if n == 0 then [] else [x] + Repeat(x, n - 1)
  }

  lemma MulBound(a: int, k: int)
    requires 0 < a
    ensures 1 <= k ==> a <= a * k
    ensures k <= -1 ==> a * k <= -a
    ensures 0 <= k ==> 0 <= a * k
  {
  }

  lemma DivModUnique(q: int, r: int, base: int)
    requires 0 < base && 0 <= r < base
    ensures (r + base * q) / base == q && (r + base * q) % base == r
  {
    var n := r + base * q;
    var k := n / base - q;
    assert base * k == r - n % base by {
      assert n == base * (n / base) + n % base;
      assert base * k == base * (n / base) - base * q;
    }
    MulBound(base, k);
  }

  lemma DivShrinks(n: nat, base: int)
    requires 2 <= base <= n
    ensures 0 < n / base < n && n == n % base + base * (n / base)
  {
    var q := n / base;
    assert n == n % base + base * q;
    assert base * q == 2 * q + (base - 2) * q;
    MulBound(base, q);
    if base > 2 {
      MulBound(base - 2, q);
    }
  }

  lemma {:induction false} ValueNonNegative(digits: seq<int>, base: int)
    requires 0 < base && InRange(digits, base)
    ensures 0 <= Value(digits, base)
  {
    if digits != [] {
      ValueNonNegative(digits[1..], base);
      assert 0 <= base * Value(digits[1..], base);
    }
  }

  lemma {:induction false} DigitsValue(n: nat, base: int)
    requires 2 <= base
    ensures Canonical(Digits(n, base), base) && Value(Digits(n, base), base) == n
    ensures n != 0 ==> Digits(n, base)[|Digits(n, base)| - 1] != 0
  {
    if n < base {
      assert Digits(n, base) == [n];
    } else {
      var q := n / base;
      DivShrinks(n, base);
      DigitsValue(q, base);
      var d := Digits(n, base);
      assert d == [n % base] + Digits(q, base);
      assert d[1..] == Digits(q, base);
      assert d[|d| - 1] == Digits(q, base)[|d| - 2];
    }
  }

  /** The shortest representation is unique. */
  lemma {:induction false} DigitsUnique(digits: seq<int>, base: int)
    requires 2 <= base && Canonical(digits, base)
    ensures 0 <= Value(digits, base) && Digits(Value(digits, base), base) == digits
  {
    var rest := digits[1..];
    ValueNonNegative(digits, base);
    if rest == [] {
      assert Value(digits, base) == digits[0];
    } else {
      DigitsUnique(rest, base);
      var v := Value(rest, base);
      DivModUnique(v, digits[0], base);
      assert v != 0 by {
        assert Digits(0, base) == [0];
      }
      MulBound(base, v);
      assert digits == [digits[0]] + rest;
    }
  }

  lemma {:induction false} ValueOfPadded(digits: seq<int>, base: int, n: nat)
    ensures Value(digits + Repeat(0, n), base) == Value(digits, base)
  {
    if digits != [] {
      assert (digits + Repeat(0, n))[1..] == digits[1..] + Repeat(0, n);
      ValueOfPadded(digits[1..], base, n);
    } else if n > 0 {
      assert (digits + Repeat(0, n))[1..] == [] + Repeat(0, n - 1);
      ValueOfPadded([], base, n - 1);
    } else {
      assert digits + Repeat(0, n) == [];
    }
  }

  lemma {:induction false} ReverseAppend<T>(a: seq<T>, b: seq<T>)
    ensures Reverse(a + b) == Reverse(b) + Reverse(a)
  {
    if b == [] {
      assert a + b == a;
    } else {
      var n := |b| - 1;
      assert (a + b)[..|a + b| - 1] == a + b[..n];
      ReverseAppend(a, b[..n]);
    }
  }

  lemma {:induction false} ReverseAt<T>(s: seq<T>)
    ensures forall i | 0 <= i < |s| :: Reverse(s)[i] == s[|s| - 1 - i]
  {
    if s != [] {
      ReverseAt(s[..|s| - 1]);
    }
  }

  lemma ReverseTwice<T>(s: seq<T>)
    ensures Reverse(Reverse(s)) == s
  {
    ReverseAt(s);
    ReverseAt(Reverse(s));
  }
}
