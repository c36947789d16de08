/**
 * The expression parser: ASCII syntax `!`, `&`, `|`, `=>`, parentheses and
 * identifiers. Every parser consumes at least one character when it succeeds,
 * which is what makes the mutual recursion terminate. Chains are built to the
 * left, one operator at a time, by `Expression`.
 */
module ExpressionParser {
  import opened Options
  import opened Operators
  import opened Expressions
  import opened ParserUtils

  type ParseResult = Option<(Expression, seq<char>)>

  /** A successful parse left less input than it was given. */
  predicate Consumes(r: ParseResult, s: seq<char>)
  {
    r.Some? ==> |r.value.1| < |s|
  }

  /** `alt((a, b))`: the first alternative that succeeds. */
  function FirstOf(a: ParseResult, b: ParseResult): ParseResult
  {
    if a.Some? then a else b
  }

  /** The characters after the first one of an identifier. */
  predicate IsIdentifierChar(c: char)
  {
    IsAsciiAlphanumeric(c) || c == '_'
  }

  /** A variable name: an ASCII letter, then letters, digits and underscores. */
  predicate IsIdentifier(name: seq<char>)
  {
    name != [] && IsAsciiAlpha(name[0]) && forall i :: 0 < i < |name| ==> IsIdentifierChar(name[i])
  }

  /**
   * A variable: one or more letters, then letters, digits and underscores;
   * the name is the whole run.
   */
  function Value(s: seq<char>): (r: ParseResult)
    ensures r.None? <==> s == [] || !IsAsciiAlpha(s[0])
    ensures r.Some? ==> r.value.0.Atomic? && IsIdentifier(r.value.0.name)
    ensures r.Some? ==> r.value.0.name + r.value.1 == s
    ensures r.Some? ==> r.value.1 == [] || !IsIdentifierChar(r.value.1[0])
    ensures Consumes(r, s)
  {
    match TakeWhile1(s, IsAsciiAlpha)
    case None => None
    case Some((first, s1)) =>
      var (rest, s2) := TakeWhile(s1, IsIdentifierChar);
      assert first + rest + s2 == s;
      Some((Atomic(first + rest), s2))
  }

  /** `left_hand_side`: a variable, a negation or a parenthesized expression. */
  function LeftHandSide(s: seq<char>): (r: ParseResult)
    ensures Consumes(r, s)
    decreases |s|, 1
  {
    FirstOf(Value(s), FirstOf(NotExpression(s), ParenthesizedExpression(s)))
  }

  /** `not_expression`: `!` immediately followed by a left-hand side. */
  function NotExpression(s: seq<char>): (r: ParseResult)
    ensures Consumes(r, s)
    decreases |s|, 0
  {
    match Char('!', s)
    case None => None
    case Some(s1) =>
      match LeftHandSide(s1)
      case None => None
      case Some((operand, s2)) => Some((Not(operand), s2))
  }

  /**
   * `parenthesized_expression`: `(`, the trimmed body, `)`. The nested `trim`s
   * skip whitespace several times at the same place; skipping it once is the
   * same (`SkipSpaceIdempotent`).
   */
  function ParenthesizedExpression(s: seq<char>): (r: ParseResult)
    ensures Consumes(r, s)
    decreases |s|, 0
  {
    match Char('(', s)
    case None => None
    case Some(s1) =>
      var s2 := SkipSpace(s1);
      match ParenthesizedBody(s2)
      case None => None
      case Some((e, s3)) =>
        var s4 := SkipSpace(s3);
        match Char(')', s4)
        case None => None
        case Some(s5) => Some((e, s5))
  }

  /**
   * What the parentheses hold: a left-hand side and at least one operator;
   * unless the closing parenthesis follows, one more operator, and no more.
   */
  function ParenthesizedBody(s: seq<char>): (r: ParseResult)
    ensures Consumes(r, s)
    decreases |s|, 2
  {
    match LeftHandSide(s)
    case None => None
    case Some((atomic, s1)) =>
      var s2 := SkipSpace(s1);
      match OperatorCombinators(atomic, s2)
      case None => None
      case Some((first, s3)) =>
        var s4 := SkipSpace(s3);
        ClosingOrOneMore(first, s4)
  }

  /**
   * After the first operator inside parentheses: stop if `)` comes next
   * (looked at, not consumed), else parse exactly one more operator.
   */
  function ClosingOrOneMore(first: Expression, s: seq<char>): (r: ParseResult)
    ensures r.Some? ==> |r.value.1| <= |s|
    ensures Char(')', s).Some? ==> r == Some((first, s))
    decreases |s|, 2
  {
    if Char(')', s).Some? then Some((first, s))
    else OperatorCombinators(first, s)
  }

  /**
   * `operator_combinators`: an implication, a disjunction or a conjunction
   * continuing `previous`, or else a negation, which does not use `previous`.
   */
  function OperatorCombinators(previous: Expression, s: seq<char>): (r: ParseResult)
    ensures Consumes(r, s)
    decreases |s|, 1
  {
    FirstOf(ImplicationExpression(previous, s),
      FirstOf(OrExpression(previous, s),
        FirstOf(AndExpression(previous, s), NotExpression(s))))
  }

  /** `and_expression`: `&` (whitespace around it allowed), then a left-hand side. */
  function AndExpression(previous: Expression, s: seq<char>): (r: ParseResult)
    ensures Consumes(r, s)
    ensures r.Some? ==> r.value.0.Binary? && r.value.0.left == previous && r.value.0.op == And
    decreases |s|, 0
  {
    match TrimmedTag("&", s)
    case None => None
    case Some(s1) =>
      match LeftHandSide(s1)
      case None => None
      case Some((right, s2)) => Some((Binary(previous, And, right), s2))
  }

  /** `complete_and`: a variable followed by a conjunction. */
  function CompleteAnd(s: seq<char>): (r: ParseResult)
    ensures Consumes(r, s)
    ensures r.Some? ==> r.value.0.Binary? && r.value.0.op == And && r.value.0.left.Atomic?
    decreases |s|, 0
  {
    match Value(s)
    case None => None
    case Some((atomic, s1)) =>
      AndExpression(atomic, s1)
  }

  /** `or_expression`: `|`, then a complete conjunction or else a left-hand side. */
  function OrExpression(previous: Expression, s: seq<char>): (r: ParseResult)
    ensures Consumes(r, s)
    ensures r.Some? ==> r.value.0.Binary? && r.value.0.left == previous && r.value.0.op == Or
    decreases |s|, 0
  {
    match TrimmedTag("|", s)
    case None => None
    case Some(s1) =>
      match FirstOf(CompleteAnd(s1), LeftHandSide(s1))
      case None => None
      case Some((right, s2)) => Some((Binary(previous, Or, right), s2))
  }

  /** `complete_or`: a variable followed by a disjunction. */
  function CompleteOr(s: seq<char>): (r: ParseResult)
    ensures Consumes(r, s)
    ensures r.Some? ==> r.value.0.Binary? && r.value.0.op == Or && r.value.0.left.Atomic?
    decreases |s|, 0
  {
    match Value(s)
    case None => None
    case Some((atomic, s1)) =>
      OrExpression(atomic, s1)
  }

  /**
   * `implication_expression`: `=>`, then a complete conjunction, a complete
   * disjunction or a left-hand side, tried in that order.
   */
  function ImplicationExpression(previous: Expression, s: seq<char>): (r: ParseResult)
    ensures Consumes(r, s)
    ensures r.Some? ==> r.value.0.Binary? && r.value.0.left == previous && r.value.0.op == Implication
    decreases |s|, 0
  {
    match TrimmedTag("=>", s)
    case None => None
    case Some(s1) =>
      match FirstOf(CompleteAnd(s1), FirstOf(CompleteOr(s1), LeftHandSide(s1)))
      case None => None
      case Some((right, s2)) => Some((Binary(previous, Implication, right), s2))
  }

  /**
   * `expression(previous)`: one operator step, repeated while input remains;
   * a step that fails anywhere fails the whole chain.
   */
  function ExpressionChain(previous: Expression, s: seq<char>): (r: ParseResult)
    ensures Consumes(r, s)
    ensures r.Some? ==> r.value.1 == []
    decreases |s|
  {
    match OperatorCombinators(previous, s)
    case None => None
    case Some((next, rest)) =>
      if rest != [] then ExpressionChain(next, rest) else Some((next, rest))
  }

  /**
   * `_parse_expression`: a left-hand side, then, optionally, an operator
   * chain; when the chain fails the left-hand side alone is the result.
   */
  function ParsePrefix(s: seq<char>): (r: ParseResult)
    ensures Consumes(r, s)
    ensures r.Some? <==> LeftHandSide(s).Some?
  {
    match LeftHandSide(s)
    case None => None
    case Some((atomic, rest)) =>
      match ExpressionChain(atomic, rest)
      case Some(chain) => Some(chain)
      case None => Some((atomic, rest))
  }

  /** `parse_expression`: the whole input must be consumed. */
  function ParseExpression(s: seq<char>): (r: Option<Expression>)
    ensures r.Some? <==> ParsePrefix(s).Some? && ParsePrefix(s).value.1 == []
    ensures r.Some? ==> r.value == ParsePrefix(s).value.0
  {
    match ParsePrefix(s)
    case Some((e, rest)) => if rest == [] then Some(e) else None
    case None => None
  }

  /** `Expression::try_from`: parsing a string is `parse_expression`. */
  function TryFrom(s: seq<char>): (r: Option<Expression>)
    ensures r.Some? ==> s != []
  {
    ParseExpression(s)
  }
}
