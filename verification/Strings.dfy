/** Text: `String.prototype.trim`, and splitting at a separator. */
module Strings {
  predicate IsSpace(c: char) {
    || c == ' ' || '\t' <= c <= '\r' || c == '\U{00A0}' || c == '\U{1680}' || '\U{2000}' <= c <= '\U{200A}'
    || c == '\U{2028}' || c == '\U{2029}' || c == '\U{202F}' || c == '\U{205F}' || c == '\U{3000}' || c == '\U{FEFF}'
  }

  function TrimStart(s: string): string {
    if s != "" && IsSpace(s[0]) then TrimStart(s[1..]) else s
  }

  function TrimEnd(s: string): string {
    if s != "" && IsSpace(s[|s| - 1]) then TrimEnd(s[..|s| - 1]) else s
  }

  function Trim(s: string): string {
    TrimEnd(TrimStart(s))
  }

  // ---------------------------------------------------------------- what trimming leaves

  /** Every white space and line terminator of ECMAScript. */
  const SPACES: string :=
    "\t\n\U{000B}\U{000C}\r \U{00A0}\U{1680}\U{2000}\U{2001}\U{2002}\U{2003}\U{2004}\U{2005}\U{2006}\U{2007}"
    + "\U{2008}\U{2009}\U{200A}\U{2028}\U{2029}\U{202F}\U{205F}\U{3000}\U{FEFF}"

  lemma SpaceIff(c: char)
    ensures IsSpace(c) <==> c in SPACES
  {
  }

  lemma {:induction false} StartTrimmed(s: string) returns (i: nat)
    ensures i <= |s| && TrimStart(s) == s[i..]
    ensures (forall k | 0 <= k < i :: IsSpace(s[k])) && (i < |s| ==> !IsSpace(s[i]))
  {
    hide IsSpace;
    i := 0;
    if s != "" && IsSpace(s[0]) {
      var j := StartTrimmed(s[1..]);
      i := j + 1;
    }
  }

  lemma {:induction false} EndTrimmed(s: string) returns (j: nat)
    ensures j <= |s| && TrimEnd(s) == s[..j]
    ensures (forall k | j <= k < |s| :: IsSpace(s[k])) && (j > 0 ==> !IsSpace(s[j - 1]))
  {
    hide IsSpace;
    j := |s|;
    if s != "" && IsSpace(s[|s| - 1]) {
      j := EndTrimmed(s[..|s| - 1]);
    }
  }

  /** Trimming takes off all the white space at both ends and nothing else. */
  lemma TrimKeepsInner(s: string) returns (i: nat, j: nat)
    ensures i <= j <= |s| && Trim(s) == s[i..j]
    ensures forall k | 0 <= k < i || j <= k < |s| :: s[k] in SPACES
    ensures i < j ==> s[i] !in SPACES && s[j - 1] !in SPACES
  {
    hide IsSpace;
    i := StartTrimmed(s);
    var n := EndTrimmed(s[i..]);
    j := i + n;
    forall k | 0 <= k < |s| ensures IsSpace(s[k]) <==> s[k] in SPACES {
      SpaceIff(s[k]);
    }
    assert forall k | j <= k < |s| :: s[k] == s[i..][k - i];
    assert j < |s| || n == |s[i..]|;
  }

  /** The first separator ends the first part when that part contains none. */
  lemma SplitAtColon(a: string, b: string, c: string, d: string)
    requires a + ":" + b == c + ":" + d && ':' !in c && (':' !in a || ':' !in d)
    ensures a == c && b == d
  {
    var k := a + ":" + b;
    assert k == c + ":" + d && k[|a|] == ':' && k[|c|] == ':';
    assert forall m | 0 <= m < |a| :: k[m] == a[m];
    assert forall m | 0 <= m < |c| :: k[m] == c[m];
    assert forall m | |c| < m < |k| :: k[m] == d[m - |c| - 1];
    assert a == k[..|a|] && c == k[..|c|];
    assert b == k[|a| + 1..] && d == k[|c| + 1..];
  }
}
