/**
 * The parser combinators the expression parser is built from, on complete
 * input (`&str`, never streaming). A parser takes the input and, on success,
 * returns a value and the input left unconsumed; a failure carries no
 * payload here.
 */
module ParserUtils {
  import opened Options

  /** The input left after a parser ran: a suffix of what it was given. */
  predicate IsSuffix(t: seq<char>, s: seq<char>)
  {
    |t| <= |s| && t == s[|s| - |t|..]
  }

  /** `t` is what is left of `s` once a possibly empty run of leading whitespace is dropped. */
  predicate DropsOnlySpace(s: seq<char>, t: seq<char>)
  {
    IsSuffix(t, s) && forall i :: 0 <= i < |s| - |t| ==> IsMultispace(s[i])
  }

  lemma SuffixTransitive(u: seq<char>, t: seq<char>, s: seq<char>)
    requires IsSuffix(u, t) && IsSuffix(t, s)
    ensures IsSuffix(u, s)
  {
    assert s[|s| - |u|..] == s[|s| - |t|..][|t| - |u|..];
  }

  // ---------------------------------------------------------------------
  // Character classes (ASCII only, as `char::is_ascii_*`)
  // ---------------------------------------------------------------------

  predicate IsAsciiAlpha(c: char)
  {
    'a' <= c <= 'z' || 'A' <= c <= 'Z'
  }

  predicate IsAsciiAlphanumeric(c: char)
  {
    IsAsciiAlpha(c) || '0' <= c <= '9'
  }

  /** The characters `multispace0` skips. */
  predicate IsMultispace(c: char)
  {
    c == ' ' || c == '\t' || c == '\r' || c == '\n'
  }

  // ---------------------------------------------------------------------
  // Primitive parsers
  // ---------------------------------------------------------------------

  /** Length of the longest prefix of `s` whose characters satisfy `p`. */
  function SpanWhile(s: seq<char>, p: char -> bool): (n: nat)
    ensures n <= |s|
    ensures forall i :: 0 <= i < n ==> p(s[i])
    ensures n == |s| || !p(s[n])
  {
    if s == [] || !p(s[0]) then 0 else 1 + SpanWhile(s[1..], p)
  }

  /** `take_while`: the longest prefix satisfying `p`, which may be empty; never fails. */
  function TakeWhile(s: seq<char>, p: char -> bool): (r: (seq<char>, seq<char>))
    ensures r.0 + r.1 == s
    ensures forall i :: 0 <= i < |r.0| ==> p(r.0[i])
    ensures r.1 == [] || !p(r.1[0])
  {
    var n := SpanWhile(s, p);
    (s[..n], s[n..])
  }

  /** `take_while1`: as `TakeWhile`, but fails when the prefix would be empty. */
  function TakeWhile1(s: seq<char>, p: char -> bool): (r: Option<(seq<char>, seq<char>)>)
    ensures r.None? <==> s == [] || !p(s[0])
    ensures r.Some? ==> r.value.0 != [] && r.value.0 + r.value.1 == s
    ensures r.Some? ==> forall i :: 0 <= i < |r.value.0| ==> p(r.value.0[i])
    ensures r.Some? ==> r.value.1 == [] || !p(r.value.1[0])
  {
    var (taken, rest) := TakeWhile(s, p);
    if taken == [] then None else Some((taken, rest))
  }

  /** `multispace0`: skips spaces, tabs, carriage returns and line feeds; never fails. */
  function SkipSpace(s: seq<char>): (r: seq<char>)
    ensures |r| <= |s|
    ensures r == [] || !IsMultispace(r[0])
  {
    if s != [] && IsMultispace(s[0]) then SkipSpace(s[1..]) else s
  }

  /** `SkipSpace` only drops characters from the front. */
  lemma {:induction false} SkipSpaceIsSuffix(s: seq<char>)
    ensures IsSuffix(SkipSpace(s), s)
  {
    if s != [] && IsMultispace(s[0]) {
      SkipSpaceIsSuffix(s[1..]);
      SuffixTransitive(SkipSpace(s[1..]), s[1..], s);
    }
  }

  /** Everything `SkipSpace` drops is whitespace. */
  lemma {:induction false} SkipSpaceDropsOnlySpace(s: seq<char>)
    ensures forall i :: 0 <= i < |s| - |SkipSpace(s)| ==> IsMultispace(s[i])
  {
    if s != [] && IsMultispace(s[0]) {
      SkipSpaceDropsOnlySpace(s[1..]);
    }
  }

  /** Skipping whitespace twice is skipping it once. */
  lemma SkipSpaceIdempotent(s: seq<char>)
    ensures SkipSpace(SkipSpace(s)) == SkipSpace(s)
  {
  }

  /** Input made of whitespace only is skipped entirely. */
  lemma {:induction false} SkipSpaceAllSpace(w: seq<char>)
    requires forall i :: 0 <= i < |w| ==> IsMultispace(w[i])
    ensures SkipSpace(w) == []
  {
    if w != [] {
      SkipSpaceAllSpace(w[1..]);
    }
  }

  /** Input that does not start with whitespace is left alone. */
  lemma SkipSpaceNoSpace(s: seq<char>)
    requires s == [] || !IsMultispace(s[0])
    ensures SkipSpace(s) == s
  {
  }

  /** `char(c)`: consumes exactly the character `c`. */
  function Char(c: char, s: seq<char>): (r: Option<seq<char>>)
    ensures r.Some? <==> s != [] && s[0] == c
    ensures r.Some? ==> [c] + r.value == s
  {
    if s != [] && s[0] == c then Some(s[1..]) else None
  }

  /** `tag(t)`: consumes exactly the text `t`. */
  function Tag(t: seq<char>, s: seq<char>): (r: Option<seq<char>>)
    ensures r.Some? <==> |t| <= |s| && s[..|t|] == t
    ensures r.Some? ==> t + r.value == s
  {
    if |t| <= |s| && s[..|t|] == t then Some(s[|t|..]) else None
  }

  /**
   * `trim(tag(t))` and `trim(char(c))`: the token `t` with any whitespace
   * around it; what is left starts with something other than whitespace.
   */
  function TrimmedTag(t: seq<char>, s: seq<char>): (r: Option<seq<char>>)
    requires t != []
    ensures r.Some? <==> Tag(t, SkipSpace(s)).Some?
    ensures r.Some? ==> |r.value| < |s|
    ensures r.Some? ==> r.value == [] || !IsMultispace(r.value[0])
    ensures r.Some? ==> DropsOnlySpace(Tag(t, SkipSpace(s)).value, r.value)
  {
    var s1 := SkipSpace(s);
    match Tag(t, s1)
    case None => None
    case Some(s2) =>
      SkipSpaceIsSuffix(s2);
      SkipSpaceDropsOnlySpace(s2);
      Some(SkipSpace(s2))
  }

  /** `char(c)` is `tag` of the one-character text. */
  lemma CharIsTag(c: char, s: seq<char>)
    ensures Char(c, s) == Tag([c], s)
  {
  }

  // ---------------------------------------------------------------------
  // Combinators of src/parsing/utils.rs
  // ---------------------------------------------------------------------

  /** `trim(inner)`: whitespace, then `inner`, then whitespace. */
  function Trim<R>(inner: seq<char> -> Option<(R, seq<char>)>, s: seq<char>): (r: Option<(R, seq<char>)>)
    ensures r.Some? <==> inner(SkipSpace(s)).Some?
    ensures r.Some? ==> r.value.0 == inner(SkipSpace(s)).value.0
    ensures r.Some? ==> r.value.1 == [] || !IsMultispace(r.value.1[0])
    ensures r.Some? ==> DropsOnlySpace(inner(SkipSpace(s)).value.1, r.value.1)
  {
    match inner(SkipSpace(s))
    case None => None
    case Some((v, rest)) =>
      SkipSpaceIsSuffix(rest);
      SkipSpaceDropsOnlySpace(rest);
      Some((v, SkipSpace(rest)))
  }

  /** `parenthesized(inner)`: `(`, the trimmed `inner`, `)`. */
  function Parenthesized<R>(inner: seq<char> -> Option<(R, seq<char>)>, s: seq<char>): (r: Option<(R, seq<char>)>)
    ensures r.Some? ==> s != [] && s[0] == '('
    ensures r.Some? ==> Trim(inner, s[1..]).Some? && r.value.0 == Trim(inner, s[1..]).value.0
    ensures r.Some? ==> [')'] + r.value.1 == Trim(inner, s[1..]).value.1
  {
    match Char('(', s)
    case None => None
    case Some(s1) =>
      match Trim(inner, s1)
      case None => None
      case Some((v, s2)) =>
        match Char(')', s2)
        case None => None
        case Some(s3) => Some((v, s3))
  }

  /**
   * `take_where(n, predicate)`: exactly `n` characters, each satisfying the
   * predicate (`take_while_m_n(n, n, …)`).
   */
  function TakeWhere(n: nat, p: char -> bool, s: seq<char>): (r: Option<(seq<char>, seq<char>)>)
    ensures r.Some? <==> n <= |s| && forall i :: 0 <= i < n ==> p(s[i])
    ensures r.Some? ==> |r.value.0| == n && r.value.0 + r.value.1 == s
  {
    if SpanWhile(s, p) >= n then Some((s[..n], s[n..])) else None
  }

  /** `exhausted(inner)`: `inner` followed by the end of the input. */
  function Exhausted<R>(inner: seq<char> -> Option<(R, seq<char>)>, s: seq<char>): (r: Option<(R, seq<char>)>)
    ensures r.Some? <==> inner(s).Some? && inner(s).value.1 == []
    ensures r.Some? ==> r.value == inner(s).value
  {
    match inner(s)
    case Some((v, rest)) => if rest == [] then Some((v, rest)) else None
    case None => None
  }

  /** `into_result`: keeps the parsed value and drops what was left. */
  function IntoResult<R>(r: Option<(R, seq<char>)>): (v: Option<R>)
    ensures v.Some? <==> r.Some?
    ensures v.Some? ==> v.value == r.value.0
  {
    match r
    case Some((value, _)) => Some(value)
    case None => None
  }

  // ---------------------------------------------------------------------
  // The combinators' own examples
  // ---------------------------------------------------------------------

  function FourLetters(s: seq<char>): Option<(seq<char>, seq<char>)>
  {
    TakeWhere(4, IsAsciiAlpha, s)
  }

  function TakeAll(s: seq<char>): Option<(seq<char>, seq<char>)>
  {
    Some(TakeWhile(s, (c: char) => true))
  }

  /** `take_where(4, …)` stops after four letters even when more input follows. */
  lemma FourLettersTakesFour(w: seq<char>, rest: seq<char>)
    requires |w| == 4 && forall i :: 0 <= i < 4 ==> IsAsciiAlpha(w[i])
    ensures FourLetters(w + rest) == Some((w, rest))
  {
    assert (w + rest)[..4] == w && (w + rest)[4..] == rest;
  }

  /** The closing parenthesis is matched once the trimmed inner parser stops right before it. */
  lemma ParenthesizedAroundTrim<R>(inner: seq<char> -> Option<(R, seq<char>)>, body: seq<char>, v: R)
    requires Trim(inner, body + ")") == Some((v, ")"))
    ensures Parenthesized(inner, "(" + body + ")") == Some((v, ""))
  {
    var s := "(" + body + ")";
    assert s[0] == '(' && s[1..] == body + ")";
    assert Char('(', s) == Some(body + ")");
    assert Char(')', ")") == Some("");
  }

  /** Four letters in parentheses parse to those letters, and nothing is left. */
  lemma ParenthesizedFourLetters(w: seq<char>)
    requires |w| == 4 && forall i :: 0 <= i < 4 ==> IsAsciiAlpha(w[i])
    ensures Parenthesized(FourLetters, "(" + w + ")") == Some((w, ""))
  {
    FourLettersTakesFour(w, ")");
    SkipSpaceNoSpace(w + ")");
    SkipSpaceNoSpace(")");
    ParenthesizedAroundTrim(FourLetters, w, w);
  }

  lemma ParenthesizedExample()
    ensures Parenthesized(FourLetters, "(test)") == Some(("test", ""))
  {
    ParenthesizedFourLetters("test");
    assert "(" + "test" + ")" == "(test)";
  }

  /** A parser that also swallows the closing parenthesis leaves none to match. */
  lemma ParenthesizedParseUntilEnd()
    ensures Parenthesized(TakeAll, "(test)").None?
  {
    var (taken, rest) := TakeWhile("test)", (c: char) => true);
    assert rest == [];
  }

  lemma ExhaustedExample()
    ensures Exhausted(FourLetters, "test") == Some(("test", ""))
  {
    assert forall i :: 0 <= i < 4 ==> IsAsciiAlpha("test"[i]);
    assert "test"[..4] == "test";
  }

  lemma ExhaustedNotExhausted()
    ensures Exhausted(FourLetters, "test ").None?
  {
    assert FourLetters("test ").value.1 == " ";
  }
}
