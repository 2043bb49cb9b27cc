/**
 Strict base64: a text is decoded by the platform's lenient decoder and accepted only if encoding the result
 gives the text again, up to trailing padding. The decoder is a parameter.
 */
module Base64 {
  import opened Results
  import opened Positional
  import opened Strings

  type Byte = b: int | 0 <= b < 256
  type Bytes = seq<Byte>
  type Decoder = string -> Bytes

  function Sextet(d: int): char
    requires 0 <= d < 64
  {
    if d < 26 then 'A' + d as char
    else if d < 52 then 'a' + (d - 26) as char
    else if d < 62 then '0' + (d - 52) as char
    else if d == 62 then '+' else '/'
  }

  const CAPITALS := "ABCDEFGHIJKLMNOPQRSTUVWXYZ"
  const SMALLS := "abcdefghijklmnopqrstuvwxyz"
  const FIGURES := "0123456789"

  /** The alphabet of section 4 of RFC 4648. */
  lemma SextetAt(d: int)
    requires 0 <= d < 64
    ensures Sextet(d) == if d < 26 then CAPITALS[d]
                         else if d < 52 then SMALLS[d - 26]
                         else if d < 62 then FIGURES[d - 52]
                         else if d == 62 then '+' else '/'
  {
    if d < 26 {
      CapitalAt(d);
    } else if d < 52 {
      SmallAt(d - 26);
    }
  }

  lemma CapitalAt(k: nat)
    requires k < 26
    ensures CAPITALS[k] == 'A' + k as char
  {
  }

  lemma SmallAt(k: nat)
    requires k < 26
    ensures SMALLS[k] == 'a' + k as char
  {
  }

  /** Four characters for three bytes, two or three for what is left. */
  function Unpadded(b: Bytes): string {
    if |b| == 0 then ""
    else if |b| == 1 then [Sextet(b[0] / 4), Sextet(b[0] % 4 * 16)]
    else if |b| == 2 then [Sextet(b[0] / 4), Sextet(b[0] % 4 * 16 + b[1] / 16), Sextet(b[1] % 16 * 4)]
    else
      [Sextet(b[0] / 4), Sextet(b[0] % 4 * 16 + b[1] / 16), Sextet(b[1] % 16 * 4 + b[2] / 64), Sextet(b[2] % 64)]
      + Unpadded(b[3..])
  }

  /** `toString('base64')`. */
  function Encode(b: Bytes): string {
    Unpadded(b) + if |b| % 3 == 1 then "==" else if |b| % 3 == 2 then "=" else ""
  }

  /** Examples of section 10 of RFC 4648. */
  lemma Examples()
    ensures Encode([102]) == "Zg==" && Encode([102, 111]) == "Zm8=" && Encode([102, 111, 111]) == "Zm9v"
  {
    assert Unpadded([102, 111, 111]) == "Zm9v" + Unpadded([]);
  }

  function StripPadding(s: string): string {
    if s != "" && s[|s| - 1] == '=' then StripPadding(s[..|s| - 1]) else s
  }

  function Decode(text: string, decoder: Decoder): Option<Bytes> {
    var trimmed := Trim(text);
    if trimmed == "" then None
    else
      var buf := decoder(trimmed);
      if |buf| == 0 || StripPadding(Encode(buf)) != StripPadding(trimmed) then None else Some(buf)
  }

  /** What is relied on: the decoder inverts the encoding and ignores padding at the end. */
  ghost predicate Inverts(decoder: Decoder) {
    forall b, n: nat :: decoder(Unpadded(b) + Repeat('=', n)) == b
  }

  /** The text spells these bytes, between white space and with any padding. */
  ghost predicate Spells(text: string, b: Bytes) {
    exists n: nat :: Trim(text) == Unpadded(b) + Repeat('=', n)
  }

  lemma {:induction false} NoPaddingInside(b: Bytes)
    ensures forall i | 0 <= i < |Unpadded(b)| :: Unpadded(b)[i] != '='
    ensures |b| > 0 ==> Unpadded(b) != ""
  {
    if |b| >= 3 {
      NoPaddingInside(b[3..]);
    }
  }

  lemma {:induction false} StripsPadding(s: string, n: nat)
    requires s == "" || s[|s| - 1] != '='
    ensures StripPadding(s + Repeat('=', n)) == s
  {
    if n == 0 {
      assert s + Repeat('=', n) == s;
    } else {
      var padded := s + Repeat('=', n);
      assert padded[..|padded| - 1] == s + Repeat('=', n - 1);
      StripsPadding(s, n - 1);
    }
  }

  lemma {:induction false} PaddingStripped(s: string) returns (n: nat)
    ensures s == StripPadding(s) + Repeat('=', n)
  {
    if s != "" && s[|s| - 1] == '=' {
      var m := PaddingStripped(s[..|s| - 1]);
      n := m + 1;
      assert Repeat('=', n) == Repeat('=', m) + ['='];
      assert s == s[..|s| - 1] + ['='];
    } else {
      n := 0;
    }
  }

  // ---------------------------------------------------------------- a decoder that inverts

  function SextetValue(c: char): (d: int)
    ensures 0 <= d < 64
  {
    if 'A' <= c <= 'Z' then (c - 'A') as int
    else if 'a' <= c <= 'z' then (c - 'a') as int + 26
    else if '0' <= c <= '9' then (c - '0') as int + 52
    else if c == '+' then 62 else 63
  }

  /** Groups of four characters, the last one possibly shorter. */
  function ReadGroups(s: string): Bytes {
    if |s| < 2 then []
    else
      var v0, v1 := SextetValue(s[0]), SextetValue(s[1]);
      var first := v0 * 4 + v1 / 16;
      if |s| == 2 then [first]
      else
        var v2 := SextetValue(s[2]);
        var second := v1 % 16 * 16 + v2 / 4;
        if |s| == 3 then [first, second]
        else [first, second, v2 % 4 * 64 + SextetValue(s[3])] + ReadGroups(s[4..])
  }

  lemma SextetRead(d: int)
    requires 0 <= d < 64
    ensures SextetValue(Sextet(d)) == d
  {
  }

  lemma ThreeBytes(x: Byte, y: Byte, z: Byte)
    ensures var v1, v2 := x % 4 * 16 + y / 16, y % 16 * 4 + z / 64;
      && 0 <= v1 < 64 && 0 <= v2 < 64
      && x / 4 * 4 + v1 / 16 == x && v1 % 16 * 16 + v2 / 4 == y && v2 % 4 * 64 + z % 64 == z
  {
  }

  lemma FirstGroup(x: Byte, y: Byte, z: Byte, rest: string)
    ensures ReadGroups([Sextet(x / 4), Sextet(x % 4 * 16 + y / 16), Sextet(y % 16 * 4 + z / 64), Sextet(z % 64)] + rest)
         == [x, y, z] + ReadGroups(rest)
  {
    hide Sextet, SextetValue;
    var v0, v1, v2, v3 := x / 4, x % 4 * 16 + y / 16, y % 16 * 4 + z / 64, z % 64;
    ThreeBytes(x, y, z);
    SextetRead(v0);
    SextetRead(v1);
    SextetRead(v2);
    SextetRead(v3);
    var s := [Sextet(v0), Sextet(v1), Sextet(v2), Sextet(v3)] + rest;
    assert s[4..] == rest;
  }

  lemma ShortGroups(x: Byte, y: Byte)
    ensures ReadGroups([Sextet(x / 4), Sextet(x % 4 * 16)]) == [x]
    ensures ReadGroups([Sextet(x / 4), Sextet(x % 4 * 16 + y / 16), Sextet(y % 16 * 4)]) == [x, y]
  {
    hide Sextet, SextetValue;
    ThreeBytes(x, 0, 0);
    ThreeBytes(x, y, 0);
    SextetRead(x / 4);
    SextetRead(x % 4 * 16);
    SextetRead(x % 4 * 16 + y / 16);
    SextetRead(y % 16 * 4);
  }

  lemma {:induction false} GroupsRead(b: Bytes)
    ensures ReadGroups(Unpadded(b)) == b
  {
    hide Sextet, ReadGroups;
    if |b| == 0 {
      assert ReadGroups("") == [] by { NoGroups(); }
    } else if |b| < 3 {
      ShortGroups(b[0], b[|b| - 1]);
      assert b == if |b| == 1 then [b[0]] else [b[0], b[1]];
    } else {
      GroupsRead(b[3..]);
      FirstGroup(b[0], b[1], b[2], Unpadded(b[3..]));
    }
  }

  lemma NoGroups()
    ensures ReadGroups("") == []
  {
  }

  /** The assumption on the platform's decoder can be met, and no text spells two byte strings. */
  lemma GroupDecoderInverts()
    ensures Inverts(s => ReadGroups(StripPadding(s)))
    ensures forall text, b, c | Spells(text, b) && Spells(text, c) :: b == c
  {
    hide Unpadded, ReadGroups, StripPadding;
    forall b, n: nat ensures ReadGroups(StripPadding(Unpadded(b) + Repeat('=', n))) == b {
      NoPaddingInside(b);
      StripsPadding(Unpadded(b), n);
      GroupsRead(b);
    }
    forall text, b, c | Spells(text, b) && Spells(text, c) ensures b == c {
      var m: nat :| Trim(text) == Unpadded(b) + Repeat('=', m);
      var n: nat :| Trim(text) == Unpadded(c) + Repeat('=', n);
      assert ReadGroups(StripPadding(Trim(text))) == b;
    }
  }

  // ---------------------------------------------------------------- what is accepted

  lemma EncodingStripped(b: Bytes)
    ensures StripPadding(Encode(b)) == Unpadded(b)
  {
    NoPaddingInside(b);
    var n := if |b| % 3 == 1 then 2 else if |b| % 3 == 2 then 1 else 0;
    assert Encode(b) == Unpadded(b) + Repeat('=', n);
    StripsPadding(Unpadded(b), n);
  }

  /** Exactly the texts that spell some bytes are accepted, as those bytes. */
  lemma DecodesIff(text: string, decoder: Decoder, b: Bytes)
    requires Inverts(decoder)
    ensures Decode(text, decoder) == Some(b) <==> b != [] && Spells(text, b)
  {
    hide Unpadded, Encode, StripPadding, Trim;
    var trimmed := Trim(text);
    EncodingStripped(b);
    NoPaddingInside(b);
    if Decode(text, decoder) == Some(b) {
      var n := PaddingStripped(trimmed);
      assert trimmed == Unpadded(b) + Repeat('=', n);
    }
    if b != [] && Spells(text, b) {
      var n: nat :| trimmed == Unpadded(b) + Repeat('=', n);
      StripsPadding(Unpadded(b), n);
      assert decoder(trimmed) == b;
    }
  }
}
