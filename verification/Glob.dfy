/**
 Path allowlists: a glob is translated to the text of a regular expression. The module parses that text
 back with the grammar of regular expressions and proves that the translation keeps the glob's meaning.
 Without the unicode flag a regular expression sees UTF-16 code units; a Dafny character is one, unless it lies
 above U+FFFF.
 */
module Glob {
  import opened Results

  // ---------------------------------------------------------------- globs

  datatype Token = DeepDir | Deep | Star | One | Lit(c: char)

  /** `**` followed by a slash, `**`, `*`, `?` and literal characters, the longest reading first. */
  function Tokens(pattern: string): seq<Token> {
    if pattern == "" then []
    else if pattern[0] == '*' && |pattern| > 1 && pattern[1] == '*' then
      if |pattern| > 2 && pattern[2] == '/' then [DeepDir] + Tokens(pattern[3..]) else [Deep] + Tokens(pattern[2..])
    else [if pattern[0] == '*' then Star else if pattern[0] == '?' then One else Lit(pattern[0])] + Tokens(pattern[1..])
  }

  /** How a token is written. */
  function Written(t: Token): string {
    match t
    case DeepDir => "**/"
    case Deep => "**"
    case Star => "*"
    case One => "?"
    case Lit(c) => [c]
  }

  function Spell(ts: seq<Token>): string {
    if ts == [] then "" else Written(ts[0]) + Spell(ts[1..])
  }

  /** Wildcards are not read as literals, and no two neighbours could be read as one longer wildcard. */
  predicate LongestFirst(ts: seq<Token>) {
    && (forall i | 0 <= i < |ts| :: ts[i] != Lit('*') && ts[i] != Lit('?'))
    && (forall i | 0 <= i < |ts| - 1 ::
          && (ts[i] == Star ==> ts[i + 1].One? || ts[i + 1].Lit?)
          && (ts[i] == Deep ==> ts[i + 1] != Lit('/')))
  }

  lemma SpellHead(ts: seq<Token>)
    requires ts != [] && LongestFirst(ts)
    ensures Spell(ts) != ""
    ensures ts[0].DeepDir? || ts[0].Deep? || ts[0].Star? <==> Spell(ts)[0] == '*'
    ensures ts[0] == Lit('/') <==> Spell(ts)[0] == '/'
  {
  }

  lemma LongestTail(ts: seq<Token>)
    requires ts != [] && LongestFirst(ts)
    ensures LongestFirst(ts[1..])
  {
    assert forall i | 0 <= i < |ts| - 1 :: ts[1..][i] == ts[i + 1];
  }

  lemma LongestPush(t: Token, ts: seq<Token>)
    requires LongestFirst(ts) && t != Lit('*') && t != Lit('?')
    requires ts != [] && t == Star ==> ts[0].One? || ts[0].Lit?
    requires ts != [] && t == Deep ==> ts[0] != Lit('/')
    ensures LongestFirst([t] + ts)
  {
    var next := [t] + ts;
    assert forall i | 0 < i < |next| :: next[i] == ts[i - 1];
  }

  lemma {:induction false} TokensSpell(pattern: string)
    ensures Spell(Tokens(pattern)) == pattern && LongestFirst(Tokens(pattern))
  {
    hide LongestFirst;
    if pattern == "" {
      assert LongestFirst([]) by { NothingRead(); }
    } else {
      var (t, n) := Head(pattern, 0);
      assert pattern[0..] == pattern;
      TokensStep(pattern, 0);
      var rest := Tokens(pattern[n..]);
      TokensSpell(pattern[n..]);
      assert pattern == Written(t) + pattern[n..];
      assert ([t] + rest)[1..] == rest;
      if rest != [] {
        SpellHead(rest);
      }
      LongestPush(t, rest);
    }
  }

  lemma NothingRead()
    ensures LongestFirst([])
  {
  }

  lemma {:induction false} SpelledTokens(ts: seq<Token>)
    requires LongestFirst(ts)
    ensures Tokens(Spell(ts)) == ts
  {
    hide LongestFirst;
    if ts != [] {
      var rest := Spell(ts[1..]);
      LongestTail(ts);
      SpelledTokens(ts[1..]);
      NextToken(ts);
      if ts[1..] != [] {
        SpellHead(ts[1..]);
      }
      var n := |Written(ts[0])|;
      assert Spell(ts)[n..] == rest && Spell(ts)[..n] == Written(ts[0]);
      assert ts == [ts[0]] + ts[1..];
    }
  }

  lemma NextToken(ts: seq<Token>)
    requires ts != [] && LongestFirst(ts)
    ensures ts[0] != Lit('*') && ts[0] != Lit('?')
    ensures |ts| > 1 && ts[0] == Star ==> ts[1].One? || ts[1].Lit?
    ensures |ts| > 1 && ts[0] == Deep ==> ts[1] != Lit('/')
  {
  }

  /** A pattern has one reading in which wildcards are as long as possible, and that one is taken. */
  lemma ReadingIff(pattern: string, ts: seq<Token>)
    ensures ts == Tokens(pattern) <==> Spell(ts) == pattern && LongestFirst(ts)
  {
    hide Tokens, Spell, LongestFirst;
    TokensSpell(pattern);
    if LongestFirst(ts) {
      SpelledTokens(ts);
    }
  }

  predicate IsLineTerminator(c: char) {
    c == '\n' || c == '\r' || c == '\U{2028}' || c == '\U{2029}'
  }

  /** Line feed, carriage return, line separator and paragraph separator. */
  lemma LineTerminatorIff(c: char)
    ensures IsLineTerminator(c) <==> c in "\n\r\U{2028}\U{2029}"
  {
  }

  predicate OneLine(s: string) {
    forall i | 0 <= i < |s| :: !IsLineTerminator(s[i])
  }

  /** What a list of tokens matches; the deep wildcards do not run across a line terminator. */
  predicate Covers(ts: seq<Token>, s: string) {
    if ts == [] then s == ""
    else
      match ts[0]
      case DeepDir =>
        || Covers(ts[1..], s)
        || exists k :: 0 <= k < |s| && s[k] == '/' && OneLine(s[..k]) && Covers(ts[1..], s[k + 1..])
      case Deep => exists k :: 0 <= k <= |s| && OneLine(s[..k]) && Covers(ts[1..], s[k..])
      case Star => exists k :: 0 <= k <= |s| && '/' !in s[..k] && Covers(ts[1..], s[k..])
      case One => s != "" && s[0] != '/' && Covers(ts[1..], s[1..])
      case Lit(c) => s != "" && s[0] == c && Covers(ts[1..], s[1..])
  }

  /** The documented meaning, where the deep wildcards stand for anything at all. */
  predicate GlobMatches(ts: seq<Token>, s: string) {
    if ts == [] then s == ""
    else
      match ts[0]
      case DeepDir => GlobMatches(ts[1..], s) || exists k :: 0 <= k < |s| && s[k] == '/' && GlobMatches(ts[1..],
        s[k + 1..])
      case Deep => exists k :: 0 <= k <= |s| && GlobMatches(ts[1..], s[k..])
      case Star => exists k :: 0 <= k <= |s| && '/' !in s[..k] && GlobMatches(ts[1..], s[k..])
      case One => s != "" && s[0] != '/' && GlobMatches(ts[1..], s[1..])
      case Lit(c) => s != "" && s[0] == c && GlobMatches(ts[1..], s[1..])
  }

  // ---------------------------------------------------------------- the translation

  predicate NeedsEscape(c: char) {
    c in ".+()|^$" || c in "[]{}\\"
  }

  function EmitToken(t: Token): string {
    match t
    case DeepDir => "(?:.*/)?"
    case Deep => ".*"
    case Star => "[^/]*"
    case One => "[^/]"
    case Lit(c) => if NeedsEscape(c) then ['\\', c] else [c]
  }

  function Emit(ts: seq<Token>): string {
    if ts == [] then "" else EmitToken(ts[0]) + Emit(ts[1..])
  }

  function Tail(pattern: string): string {
    if pattern != "" && pattern[|pattern| - 1] == '/' then ".*" else ""
  }

  function Source(pattern: string): string {
    "^" + Emit(Tokens(pattern)) + Tail(pattern)
  }

  lemma {:induction false} EmitConcat(a: seq<Token>, b: seq<Token>)
    ensures Emit(a + b) == Emit(a) + Emit(b)
  {
    if a == [] {
      assert a + b == b;
    } else {
      assert (a + b)[1..] == a[1..] + b;
      EmitConcat(a[1..], b);
    }
  }

  /** The token that starts at position `i`, and its length. */
  function Head(pattern: string, i: nat): (Token, nat)
    requires i < |pattern|
  {
    if pattern[i] == '*' && i + 1 < |pattern| && pattern[i + 1] == '*' then
      if i + 2 < |pattern| && pattern[i + 2] == '/' then (DeepDir, 3) else (Deep, 2)
    else (if pattern[i] == '*' then Star else if pattern[i] == '?' then One else Lit(pattern[i]), 1)
  }

  lemma TokensStep(pattern: string, i: nat)
    requires i < |pattern|
    ensures var (t, n) := Head(pattern, i); i + n <= |pattern| && Tokens(pattern[i..]) == [t] + Tokens(pattern[i + n..])
  {
    var (t, n) := Head(pattern, i);
    assert pattern[i..][n..] == pattern[i + n..];
  }

  lemma TokensPush(done: seq<Token>, t: Token, rest: seq<Token>)
    ensures done + ([t] + rest) == done + [t] + rest
    ensures Emit(done + [t]) == Emit(done) + EmitToken(t)
  {
    EmitConcat(done, [t]);
    assert [t][1..] == [];
    assert Emit([t]) == EmitToken(t) + "";
  }

  method GlobToRegex(pattern: string) returns (src: string)
    ensures src == Source(pattern)
    ensures src == "^" + Emit(Tokens(pattern)) + if pattern != "" && pattern[|pattern| - 1] == '/' then ".*" else ""
  {
    hide Emit, Tokens, NeedsEscape;
    src := "^";
    var i := 0;
    ghost var done: seq<Token> := [];
    assert Emit(done) == "" && pattern[0..] == pattern by { NothingDone(pattern); }
    while i < |pattern|
      invariant 0 <= i <= |pattern| && src == "^" + Emit(done) && Tokens(pattern) == done + Tokens(pattern[i..])
    {
      var c := pattern[i];
      ghost var (t, n) := Head(pattern, i);
      TokensStep(pattern, i);
      TokensPush(done, t, Tokens(pattern[i + n..]));
      done := done + [t];
      if c == '*' && i + 1 < |pattern| && pattern[i + 1] == '*' {
        if i + 2 < |pattern| && pattern[i + 2] == '/' {
          src := src + "(?:.*/)?";
          i := i + 2;
        } else {
          src := src + ".*";
          i := i + 1;
        }
      } else if c == '*' {
        src := src + "[^/]*";
      } else if c == '?' {
        src := src + "[^/]";
      } else if NeedsEscape(c) {
        src := src + ['\\', c];
      } else {
        src := src + [c];
      }
      i := i + 1;
    }
    NothingLeft(pattern);
    assert done + [] == done && src + "" == src;
    if |pattern| > 0 && pattern[|pattern| - 1] == '/' {
      src := src + ".*";
    }
  }

  lemma NothingDone(pattern: string)
    ensures Emit([]) == "" && pattern[0..] == pattern
  {
  }

  lemma NothingLeft(pattern: string)
    ensures Tokens(pattern[|pattern|..]) == []
  {
  }

  // ---------------------------------------------------------------- regular expressions

  datatype Regex =
    | Eps
    | Dot
    | Char(c: char)
    | NotChar(c: char)
    | Cat(left: Regex, right: Regex)
    | Many(body: Regex)
    | Opt(body: Regex)

  /** The whole of `s` is in the language of `r`. */
  predicate Matches(r: Regex, s: string)
    decreases |s|, r
  {
    match r
    case Eps => s == ""
    case Dot => |s| == 1 && !IsLineTerminator(s[0])
    case Char(c) => s == [c]
    case NotChar(c) => |s| == 1 && s[0] != c
    case Cat(a, b) => exists k :: 0 <= k <= |s| && Matches(a, s[..k]) && Matches(b, s[k..])
    case Many(a) => s == "" || exists k :: 0 < k <= |s| && Matches(a, s[..k]) && Matches(Many(a), s[k..])
    case Opt(a) => s == "" || Matches(a, s)
  }

  /** `test` of an expression anchored at the start only. */
  predicate Test(r: Regex, path: string) {
    exists k :: 0 <= k <= |path| && Matches(r, path[..k])
  }

  predicate IsSyntax(c: char) {
    c in "^$\\.*+?" || c in "()[]{}|"
  }

  /** `Term*`, up to the end of the text or a closing parenthesis. */
  function ParseTerms(s: string): (r: Option<(Regex, string)>)
    ensures r.Some? ==> |r.value.1| <= |s|
    decreases |s|, 2
  {
    if s == "" || s[0] == ')' then Some((Eps, s))
    else
      match ParseTerm(s)
      case None => None
      case Some((term, rest)) =>
        match ParseTerms(rest)
        case None => None
        case Some((terms, end)) => Some((Cat(term, terms), end))
  }

  /** An atom with at most one greedy quantifier; lazy quantifiers are outside this grammar. */
  function ParseTerm(s: string): (r: Option<(Regex, string)>)
    requires s != ""
    ensures r.Some? ==> |r.value.1| < |s|
    decreases |s|, 1
  {
    match ParseAtom(s)
    case None => None
    case Some((atom, rest)) =>
      if rest == "" || (rest[0] != '*' && rest[0] != '?') then Some((atom, rest))
      else if |rest| > 1 && rest[1] == '?' then None
      else Some((if rest[0] == '*' then Many(atom) else Opt(atom), rest[1..]))
  }

  function ParseAtom(s: string): (r: Option<(Regex, string)>)
    requires s != ""
    ensures r.Some? ==> |r.value.1| < |s|
    decreases |s|, 0
  {
    if s[0] == '.' then Some((Dot, s[1..]))
    else if s[0] == '\\' then if |s| > 1 && IsSyntax(s[1]) then Some((Char(s[1]), s[2..])) else None
    else if s[0] == '[' then
      if |s| >= 4 && s[1] == '^' && !IsSyntax(s[2]) && s[3] == ']' then Some((NotChar(s[2]), s[4..])) else None
    else if s[0] == '(' then
      if |s| >= 3 && s[1] == '?' && s[2] == ':' then
        match ParseTerms(s[3..])
        case None => None
        case Some((body, rest)) => if rest == "" then None else Some((body, rest[1..]))
      else None
    else if IsSyntax(s[0]) then None
    else Some((Char(s[0]), s[1..]))
  }

  /** `new RegExp` on a text anchored at its start; `None` stands for a syntax error. */
  function ParseRegex(src: string): Option<Regex> {
    if src == "" || src[0] != '^' then None
    else
      match ParseTerms(src[1..])
      case None => None
      case Some((r, rest)) => if rest == "" then Some(r) else None
  }

  // ---------------------------------------------------------------- the emitted text parses

  function RegexOf(t: Token): Regex {
    match t
    case DeepDir => Opt(Cat(Many(Dot), Cat(Char('/'), Eps)))
    case Deep => Many(Dot)
    case Star => Many(NotChar('/'))
    case One => NotChar('/')
    case Lit(c) => Char(c)
  }

  function RegexOfAll(ts: seq<Token>, tail: Regex): Regex {
    if ts == [] then tail else Cat(RegexOf(ts[0]), RegexOfAll(ts[1..], tail))
  }

  /** No quantifier can attach to what precedes this text. */
  predicate StartsTerm(s: string) {
    s == "" || (s[0] != '*' && s[0] != '?')
  }

  predicate FromGlob(ts: seq<Token>) {
    forall i | 0 <= i < |ts| :: ts[i] != Lit('*') && ts[i] != Lit('?')
  }

  lemma {:induction false} TokensFromGlob(pattern: string)
    ensures FromGlob(Tokens(pattern))
  {
    if pattern != "" {
      var n := Head(pattern, 0).1;
      TokensFromGlob(pattern[n..]);
    }
  }

  lemma EmittedStartsTerm(t: Token, more: string)
    requires t != Lit('*') && t != Lit('?')
    ensures StartsTerm(EmitToken(t) + more) && EmitToken(t) != "" && (EmitToken(t) + more)[0] != ')'
  {
    match t
    case DeepDir => assert EmitToken(t)[0] == '(';
    case Deep => assert EmitToken(t)[0] == '.';
    case Star => assert EmitToken(t)[0] == '[';
    case One => assert EmitToken(t)[0] == '[';
    case Lit(c) =>
      if NeedsEscape(c) {
        assert EmitToken(t)[0] == '\\';
      } else {
        assert EmitToken(t)[0] == c;
      }
  }

  lemma EscapesAreSyntax(c: char)
    requires c != '*' && c != '?'
    ensures NeedsEscape(c) <==> IsSyntax(c)
  {
  }

  lemma DotAtom(more: string)
    ensures ParseAtom("." + more) == Some((Dot, more))
  {
    assert ("." + more)[1..] == more;
  }

  lemma ManyDotTerm(more: string)
    requires StartsTerm(more)
    ensures ParseTerm(".*" + more) == Some((Many(Dot), more))
  {
    hide ParseAtom;
    assert ".*" + more == "." + ("*" + more);
    DotAtom("*" + more);
    assert ("*" + more)[1..] == more;
  }

  lemma NotSlashAtom(more: string)
    ensures ParseAtom("[^/]" + more) == Some((NotChar('/'), more))
  {
    assert ("[^/]" + more)[4..] == more;
  }

  lemma DirBody(more: string)
    ensures ParseTerms(".*/)" + more) == Some((Cat(Many(Dot), Cat(Char('/'), Eps)), ")" + more))
  {
    var s := "/)" + more;
    assert ".*/)" + more == ".*" + s;
    ManyDotTerm(s);
    var close := ")" + more;
    assert s[1..] == close && close[0] == ')' && s[0] == '/';
    assert ParseAtom(s) == Some((Char('/'), close));
    assert ParseTerm(s) == Some((Char('/'), close));
    assert ParseTerms(close) == Some((Eps, close));
    assert ParseTerms(s) == Some((Cat(Char('/'), Eps), close));
    assert (".*" + s)[0] == '.';
  }

  lemma DirAtom(more: string)
    ensures ParseAtom("(?:.*/)" + more) == Some((Cat(Many(Dot), Cat(Char('/'), Eps)), more))
  {
    hide ParseTerms;
    var s := "(?:.*/)" + more;
    assert s[3..] == ".*/)" + more;
    DirBody(more);
    assert (")" + more)[1..] == more;
    assert s[0] == '(' && s[1] == '?' && s[2] == ':';
  }

  lemma TokenTerm(t: Token, more: string)
    requires t != Lit('*') && t != Lit('?') && StartsTerm(more)
    ensures ParseTerm(EmitToken(t) + more) == Some((RegexOf(t), more))
  {
    hide ParseTerms, ParseAtom;
    match t
    case DeepDir =>
      assert EmitToken(t) + more == "(?:.*/)" + ("?" + more);
      DirAtom("?" + more);
      assert ("?" + more)[1..] == more;
    case Deep => ManyDotTerm(more);
    case Star =>
      assert EmitToken(t) + more == "[^/]" + ("*" + more);
      NotSlashAtom("*" + more);
      assert ("*" + more)[1..] == more;
    case One => NotSlashAtom(more);
    case Lit(c) => LiteralAtom(c, more);
  }

  lemma LiteralAtom(c: char, more: string)
    requires c != '*' && c != '?'
    ensures ParseAtom(EmitToken(Lit(c)) + more) == Some((Char(c), more))
  {
    EscapesAreSyntax(c);
    if NeedsEscape(c) {
      assert (['\\', c] + more)[2..] == more;
    } else {
      assert ([c] + more)[1..] == more;
    }
  }

  lemma {:induction false} EmittedParses(ts: seq<Token>, tail: string, end: Regex)
    requires FromGlob(ts) && StartsTerm(tail) && ParseTerms(tail) == Some((end, ""))
    ensures ParseTerms(Emit(ts) + tail) == Some((RegexOfAll(ts, end), ""))
    ensures StartsTerm(Emit(ts) + tail)
  {
    hide ParseTerm, EmitToken;
    if ts == [] {
      assert Emit(ts) + tail == tail;
    } else {
      var more := Emit(ts[1..]) + tail;
      EmittedParses(ts[1..], tail, end);
      assert Emit(ts) + tail == EmitToken(ts[0]) + more;
      EmittedStartsTerm(ts[0], more);
      TokenTerm(ts[0], more);
    }
  }

  function EndOf(pattern: string): Regex {
    if Tail(pattern) == "" then Eps else Cat(Many(Dot), Eps)
  }

  /** The translation never throws: every emitted text is a regular expression. */
  lemma SourceParses(pattern: string)
    ensures ParseRegex(Source(pattern)) == Some(RegexOfAll(Tokens(pattern), EndOf(pattern)))
  {
    hide ParseTerm, Emit;
    TokensFromGlob(pattern);
    var tail := Tail(pattern);
    if tail != "" {
      ManyDotTerm("");
      assert ".*" + "" == ".*";
    }
    EmittedParses(Tokens(pattern), tail, EndOf(pattern));
    assert Source(pattern)[1..] == Emit(Tokens(pattern)) + tail;
  }

  // ---------------------------------------------------------------- the meaning is kept

  lemma {:induction false} ManyDot(s: string)
    ensures Matches(Many(Dot), s) <==> OneLine(s)
  {
    if s != "" {
      ManyDot(s[1..]);
      if Matches(Many(Dot), s) {
        var k :| 0 < k <= |s| && Matches(Dot, s[..k]) && Matches(Many(Dot), s[k..]);
        assert k == 1 && s[..k][0] == s[0];
        assert forall i | 1 <= i < |s| :: s[i] == s[1..][i - 1];
      }
      if OneLine(s) {
        assert Matches(Dot, s[..1]);
      }
    }
  }

  lemma {:induction false} ManyNotSlash(s: string)
    ensures Matches(Many(NotChar('/')), s) <==> '/' !in s
  {
    if s != "" {
      ManyNotSlash(s[1..]);
      assert s == [s[0]] + s[1..];
      if Matches(Many(NotChar('/')), s) {
        var k :| 0 < k <= |s| && Matches(NotChar('/'), s[..k]) && Matches(Many(NotChar('/')), s[k..]);
        assert k == 1 && s[..k][0] == s[0];
      }
      if '/' !in s {
        assert Matches(NotChar('/'), s[..1]);
      }
    }
  }

  lemma SlashMatches(s: string)
    ensures Matches(Cat(Char('/'), Eps), s) <==> s == "/"
  {
    if s == "/" {
      CatIff(Char('/'), Eps, s, 1);
      assert s[..1] == "/" && s[1..] == "";
    }
    if Matches(Cat(Char('/'), Eps), s) {
      var k := CatSplit(Char('/'), Eps, s);
      assert s[k..] == "" && s == s[..k];
    }
  }

  /** `(?:.*` slash `)?` matches nothing, or one line that ends with its only required slash. */
  lemma DirMatches(s: string)
    ensures Matches(RegexOf(DeepDir), s) <==> s == "" || (s[|s| - 1] == '/' && OneLine(s[..|s| - 1]))
  {
    var slash := Cat(Char('/'), Eps);
    var body := Cat(Many(Dot), slash);
    if s != "" {
      var n := |s| - 1;
      ManyDot(s[..n]);
      SlashMatches(s[n..]);
      assert s[n..] == [s[n]];
      if s[n] == '/' && OneLine(s[..n]) {
        CatIff(Many(Dot), slash, s, n);
      }
      if Matches(body, s) {
        var k := CatSplit(Many(Dot), slash, s);
        SlashMatches(s[k..]);
        assert k == n;
      }
    }
  }

  lemma CatIff(a: Regex, b: Regex, s: string, k: nat)
    requires k <= |s|
    ensures Matches(a, s[..k]) && Matches(b, s[k..]) ==> Matches(Cat(a, b), s)
  {
  }

  lemma CatSplit(a: Regex, b: Regex, s: string) returns (k: nat)
    requires Matches(Cat(a, b), s)
    ensures k <= |s| && Matches(a, s[..k]) && Matches(b, s[k..])
  {
    k :| 0 <= k <= |s| && Matches(a, s[..k]) && Matches(b, s[k..]);
  }

  /** The words a single token stands for. */
  predicate Stands(t: Token, w: string) {
    match t
    case DeepDir => w == "" || (w[|w| - 1] == '/' && OneLine(w[..|w| - 1]))
    case Deep => OneLine(w)
    case Star => '/' !in w
    case One => |w| == 1 && w[0] != '/'
    case Lit(c) => w == [c]
  }

  lemma TokenMatches(t: Token, w: string)
    ensures Matches(RegexOf(t), w) <==> Stands(t, w)
  {
    match t
    case DeepDir => DirMatches(w);
    case Deep => ManyDot(w);
    case Star => ManyNotSlash(w);
    case One =>
    case Lit(c) =>
  }

  lemma StandsThenCovers(ts: seq<Token>, s: string, k: nat)
    requires ts != [] && k <= |s| && Stands(ts[0], s[..k]) && Covers(ts[1..], s[k..])
    ensures Covers(ts, s)
  {
    match ts[0]
    case DeepDir =>
      if k == 0 {
        assert s[0..] == s;
      } else {
        assert s[..k][..k - 1] == s[..k - 1] && s[..k][k - 1] == s[k - 1];
        assert s[k - 1 + 1..] == s[k..];
      }
    case One => assert s[..k][0] == s[0];
    case Lit(c) => assert s[..k][0] == s[0];
    case _ =>
  }

  lemma DirStands(s: string, j: nat)
    requires j < |s| && s[j] == '/' && OneLine(s[..j])
    ensures Stands(DeepDir, s[..j + 1])
  {
    assert s[..j + 1][..j] == s[..j];
  }

  lemma DirSplits(ts: seq<Token>, s: string) returns (k: nat)
    requires ts != [] && ts[0] == DeepDir && Covers(ts, s)
    ensures k <= |s| && Stands(ts[0], s[..k]) && Covers(ts[1..], s[k..])
  {
    hide OneLine;
    k := 0;
    if Covers(ts[1..], s) {
      assert s[0..] == s;
    } else {
      var j :| 0 <= j < |s| && s[j] == '/' && OneLine(s[..j]) && Covers(ts[1..], s[j + 1..]);
      DirStands(s, j);
      k := j + 1;
    }
  }

  lemma CoversSplits(ts: seq<Token>, s: string) returns (k: nat)
    requires ts != [] && Covers(ts, s)
    ensures k <= |s| && Stands(ts[0], s[..k]) && Covers(ts[1..], s[k..])
  {
    hide OneLine;
    match ts[0]
    case DeepDir => k := DirSplits(ts, s);
    case Deep => k :| 0 <= k <= |s| && OneLine(s[..k]) && Covers(ts[1..], s[k..]);
    case Star => k :| 0 <= k <= |s| && '/' !in s[..k] && Covers(ts[1..], s[k..]);
    case _ =>
      k := 1;
      assert s[..1] == [s[0]];
  }

  /** Matching the compiled tokens is matching the tokens. */
  lemma {:induction false} MeaningKept(ts: seq<Token>, s: string)
    ensures Matches(RegexOfAll(ts, Eps), s) <==> Covers(ts, s)
    decreases |ts|
  {
    hide RegexOf, Stands;
    if ts != [] {
      var head, rest := RegexOf(ts[0]), RegexOfAll(ts[1..], Eps);
      if Covers(ts, s) {
        var k := CoversSplits(ts, s);
        TokenMatches(ts[0], s[..k]);
        MeaningKept(ts[1..], s[k..]);
        CatIff(head, rest, s, k);
      }
      if Matches(Cat(head, rest), s) {
        var k := CatSplit(head, rest, s);
        TokenMatches(ts[0], s[..k]);
        MeaningKept(ts[1..], s[k..]);
        StandsThenCovers(ts, s, k);
      }
    }
  }

  lemma SlicesOfSlices(s: string, j: nat, n: nat)
    requires j + n <= |s|
    ensures s[..j + n][..j] == s[..j] && s[..j + n][j..] == s[j..][..n] && s[j + n..] == s[j..][n..]
  {
  }

  lemma SplitNothing(end: Regex, s: string)
    requires Matches(end, s)
    ensures Matches(Eps, s[..0]) && Matches(end, s[0..])
  {
    assert s[0..] == s;
  }

  lemma {:induction false} SplitEnd(ts: seq<Token>, end: Regex, s: string) returns (k: nat)
    requires Matches(RegexOfAll(ts, end), s)
    ensures k <= |s| && Matches(RegexOfAll(ts, Eps), s[..k]) && Matches(end, s[k..])
    decreases |ts|
  {
    hide RegexOf, Matches;
    if ts == [] {
      SplitNothing(end, s);
      k := 0;
    } else {
      var head, rest, plain := RegexOf(ts[0]), RegexOfAll(ts[1..], end), RegexOfAll(ts[1..], Eps);
      assert RegexOfAll(ts, end) == Cat(head, rest) && RegexOfAll(ts, Eps) == Cat(head, plain);
      var j := CatSplit(head, rest, s);
      var n := SplitEnd(ts[1..], end, s[j..]);
      k := j + n;
      SlicesOfSlices(s, j, n);
      CatIff(head, plain, s[..k], j);
    }
  }

  lemma {:induction false} JoinEnd(ts: seq<Token>, end: Regex, s: string)
    requires Matches(RegexOfAll(ts, Eps), s) && Matches(end, "")
    ensures Matches(RegexOfAll(ts, end), s)
    decreases |ts|
  {
    hide RegexOf;
    if ts != [] {
      var head, rest, plain := RegexOf(ts[0]), RegexOfAll(ts[1..], end), RegexOfAll(ts[1..], Eps);
      assert RegexOfAll(ts, end) == Cat(head, rest) && RegexOfAll(ts, Eps) == Cat(head, plain);
      var j := CatSplit(head, plain, s);
      JoinEnd(ts[1..], end, s[j..]);
      CatIff(head, rest, s, j);
    }
  }

  /** The end never narrows the test, because nothing anchors the expression there. */
  lemma EndIsOptional(end: Regex, ts: seq<Token>, path: string)
    requires end == Eps || end == Cat(Many(Dot), Eps)
    ensures Test(RegexOfAll(ts, end), path) <==> Test(RegexOfAll(ts, Eps), path)
  {
    hide RegexOf, RegexOfAll, Matches;
    var r, plain := RegexOfAll(ts, end), RegexOfAll(ts, Eps);
    if Test(r, path) {
      var k :| 0 <= k <= |path| && Matches(r, path[..k]);
      var j := SplitEnd(ts, end, path[..k]);
      assert path[..k][..j] == path[..j];
    }
    if Test(plain, path) {
      var k :| 0 <= k <= |path| && Matches(plain, path[..k]);
      EmptyEnd(end);
      JoinEnd(ts, end, path[..k]);
    }
  }

  lemma EmptyEnd(end: Regex)
    requires end == Eps || end == Cat(Many(Dot), Eps)
    ensures Matches(end, "")
  {
    CatIff(Many(Dot), Eps, "", 0);
    assert ""[..0] == "" && ""[0..] == "";
  }

  /** The expression accepts a path exactly when the glob covers some prefix of it. */
  lemma TranslationKeepsMeaning(pattern: string, path: string)
    ensures ParseRegex(Source(pattern)).Some?
    ensures Test(ParseRegex(Source(pattern)).value, path) <==>
      exists k :: 0 <= k <= |path| && Covers(Tokens(pattern), path[..k])
  {
    hide ParseTerms, Covers, RegexOfAll, Source, Matches;
    SourceParses(pattern);
    EndIsOptional(EndOf(pattern), Tokens(pattern), path);
    forall k | 0 <= k <= |path|
      ensures Matches(RegexOfAll(Tokens(pattern), Eps), path[..k]) <==> Covers(Tokens(pattern), path[..k])
    {
      MeaningKept(Tokens(pattern), path[..k]);
    }
  }

  /** On text without line terminators both readings of the deep wildcards agree. */
  lemma {:induction false} OneLineCovers(ts: seq<Token>, s: string)
    requires OneLine(s)
    ensures Covers(ts, s) <==> GlobMatches(ts, s)
    decreases |ts|
  {
    if ts != [] {
      forall k | 0 <= k <= |s|
        ensures OneLine(s[..k]) && OneLine(s[k..]) && (Covers(ts[1..], s[k..]) <==> GlobMatches(ts[1..], s[k..]))
      {
        OneLineCovers(ts[1..], s[k..]);
      }
      assert s[0..] == s;
    }
  }

  // ---------------------------------------------------------------- rules

  /** `compileRule`: a pattern whose translation threw would be dropped. */
  function CompileRule(patterns: seq<string>): seq<Regex> {
    if patterns == [] then []
    else
      var r := ParseRegex(Source(patterns[|patterns| - 1]));
      CompileRule(patterns[..|patterns| - 1]) + if r.Some? then [r.value] else []
  }

  predicate IsRuleAllowlisted(path: string, globs: seq<Regex>) {
    |globs| != 0 && exists i :: 0 <= i < |globs| && Test(globs[i], path)
  }

  predicate Allows(pattern: string, path: string) {
    exists k :: 0 <= k <= |path| && GlobMatches(Tokens(pattern), path[..k])
  }

  lemma {:induction false} AllKept(patterns: seq<string>)
    ensures |CompileRule(patterns)| == |patterns|
    ensures forall i | 0 <= i < |patterns| :: Some(CompileRule(patterns)[i]) == ParseRegex(Source(patterns[i]))
  {
    hide ParseRegex, Source;
    if patterns != [] {
      AllKept(patterns[..|patterns| - 1]);
      SourceParses(patterns[|patterns| - 1]);
    }
  }

  /** Some prefix of the path is covered by the pattern. */
  predicate CoversPrefix(pattern: string, path: string) {
    exists k :: 0 <= k <= |path| && Covers(Tokens(pattern), path[..k])
  }

  /**
   A path is exempt from a rule exactly when one of the rule's globs covers it from its start; for a path of
   one line the deep wildcards then stand for anything, as documented.
   */
  lemma AllowlistedIff(path: string, patterns: seq<string>)
    ensures IsRuleAllowlisted(path, CompileRule(patterns)) <==>
      exists i :: 0 <= i < |patterns| && CoversPrefix(patterns[i], path)
    ensures OneLine(path) ==>
      forall i | 0 <= i < |patterns| :: CoversPrefix(patterns[i], path) <==> Allows(patterns[i], path)
  {
    hide ParseRegex, Source, Test, CompileRule, Covers, GlobMatches, Tokens;
    AllKept(patterns);
    var globs := CompileRule(patterns);
    forall i | 0 <= i < |patterns| ensures Test(globs[i], path) <==> CoversPrefix(patterns[i], path) {
      assert Some(globs[i]) == ParseRegex(Source(patterns[i]));
      TranslationKeepsMeaning(patterns[i], path);
    }
    if OneLine(path) {
      forall i | 0 <= i < |patterns| ensures CoversPrefix(patterns[i], path) <==> Allows(patterns[i], path) {
        forall k | 0 <= k <= |path|
          ensures Covers(Tokens(patterns[i]), path[..k]) <==> GlobMatches(Tokens(patterns[i]), path[..k])
        {
          OneLineCovers(Tokens(patterns[i]), path[..k]);
        }
      }
    }
  }
}
