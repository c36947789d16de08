/**
 * What the expression parser accepts and builds: variables are whole
 * identifier runs, operator chains group to the left, every well-named tree
 * printed in fully parenthesized ASCII syntax parses back to itself, and the
 * grammar's quirks (a parenthesized lone operand, a fourth operator in one
 * pair of parentheses, surrounding whitespace, a negation right after an
 * operand).
 */
module ExpressionParserProperties {
  import opened Options
  import opened Operators
  import opened Expressions
  import opened ParserUtils
  import opened ExpressionParser

  // ---------------------------------------------------------------------
  // Variables
  // ---------------------------------------------------------------------

  /** A variable is the whole identifier run, and parsing stops right after it. */
  lemma ValueOfIdentifier(name: string, t: string)
    requires IsIdentifier(name)
    requires t == [] || !IsIdentifierChar(t[0])
    ensures Value(name + t) == Some((Atomic(name), t))
  {
    var s := name + t;
    var r := Value(s);
    assert s[0] == name[0];
    var n' := r.value.0.name;
    var k, m := |n'|, |name|;
    assert forall i :: 0 < i < m ==> IsIdentifierChar(s[i]);
    assert m == |s| || !IsIdentifierChar(s[m]);
    assert forall i :: 0 < i < k ==> IsIdentifierChar(s[i]) by {
      assert forall i :: 0 <= i < k ==> s[i] == n'[i];
    }
    assert k == |s| || !IsIdentifierChar(s[k]) by {
      assert s == n' + r.value.1;
    }
    assert k == m;
    assert n' == s[..m] == name;
  }

  lemma LeftHandSideOfIdentifier(name: string, t: string)
    requires IsIdentifier(name)
    requires t == [] || !IsIdentifierChar(t[0])
    ensures LeftHandSide(name + t) == Some((Atomic(name), t))
  {
    ValueOfIdentifier(name, t);
  }

  /** Input starting with anything but a letter is not a variable. */
  lemma ValueNeedsLetter(s: string)
    requires s == [] || !IsAsciiAlpha(s[0])
    ensures Value(s).None?
  {
  }

  // ---------------------------------------------------------------------
  // Tokens
  // ---------------------------------------------------------------------

  /** ` tok ` followed by something that is not whitespace is consumed whole. */
  lemma TrimmedTagSpaced(tok: string, u: string)
    requires tok != [] && !IsMultispace(tok[0])
    requires u == [] || !IsMultispace(u[0])
    ensures TrimmedTag(tok, " " + tok + " " + u) == Some(u)
  {
    var s := " " + tok + " " + u;
    var s1 := tok + " " + u;
    assert s[1..] == s1;
    SkipSpaceNoSpace(s1);
    assert SkipSpace(s) == s1;
    assert s1[..|tok|] == tok && s1[|tok|..] == " " + u;
    assert Tag(tok, s1) == Some(" " + u);
    assert (" " + u)[1..] == u;
    SkipSpaceNoSpace(u);
    assert SkipSpace(" " + u) == u;
  }

  /** A token that does not come next, after whitespace, is not consumed. */
  lemma TrimmedTagAbsent(tok: string, s: string)
    requires tok != []
    requires SkipSpace(s) == [] || SkipSpace(s)[0] != tok[0]
    ensures TrimmedTag(tok, s).None?
  {
  }

  /** The empty input holds no token and no operator. */
  lemma NothingOnEmpty(previous: Expression)
    ensures OperatorCombinators(previous, []).None?
    ensures ExpressionChain(previous, []).None?
    ensures LeftHandSide([]).None?
  {
  }

  // ---------------------------------------------------------------------
  // One operator step
  // ---------------------------------------------------------------------

  /** ` tok ` written with one space on each side, as the tests write it. */
  function Spaced(op: BinaryOperator): string
  {
    " " + Token(op) + " "
  }

  /** After the spaced token, the parser sits on what follows it. */
  lemma SpacedToken(op: BinaryOperator, u: string)
    requires u == [] || !IsMultispace(u[0])
    ensures SkipSpace(Spaced(op) + u) == Token(op) + " " + u
    ensures TrimmedTag(Token(op), Spaced(op) + u) == Some(u)
  {
    var tok := Token(op);
    assert tok != [] && !IsMultispace(tok[0]);
    assert Spaced(op) + u == " " + tok + " " + u;
    SpaceBeforeToken(tok, u);
    TrimmedTagSpaced(tok, u);
  }

  /** One space before a token that does not start with whitespace is all that is skipped. */
  lemma SpaceBeforeToken(tok: string, u: string)
    requires tok != [] && !IsMultispace(tok[0])
    ensures SkipSpace(" " + tok + " " + u) == tok + " " + u
  {
    var s := " " + tok + " " + u;
    assert s[1..] == tok + " " + u;
    SkipSpaceNoSpace(tok + " " + u);
  }

  /** No `!` comes next, even after whitespace. */
  predicate NoNegationNext(s: string)
  {
    SkipSpace(s) == [] || SkipSpace(s)[0] != '!'
  }

  /**
   * The binary operators skip leading whitespace themselves, so skipping it
   * first changes nothing unless a negation waits behind it.
   */
  lemma OperatorCombinatorsAfterSpace(previous: Expression, s: string)
    requires NoNegationNext(s)
    ensures OperatorCombinators(previous, SkipSpace(s)) == OperatorCombinators(previous, s)
  {
    TrimmedTagAfterSpace("=>", s);
    TrimmedTagAfterSpace("|", s);
    TrimmedTagAfterSpace("&", s);
    SameTokens(previous, SkipSpace(s), s);
    NegationAfterSpace(s);
  }

  /** Inputs on which every operator token reads alike are read alike by the binary operators. */
  lemma SameTokens(previous: Expression, w: string, s: string)
    requires TrimmedTag("=>", w) == TrimmedTag("=>", s)
    requires TrimmedTag("|", w) == TrimmedTag("|", s)
    requires TrimmedTag("&", w) == TrimmedTag("&", s)
    ensures ImplicationExpression(previous, w) == ImplicationExpression(previous, s)
    ensures OrExpression(previous, w) == OrExpression(previous, s)
    ensures AndExpression(previous, w) == AndExpression(previous, s)
  {
  }

  /** Skipping whitespace first does not change the negation parser's reading, unless `!` waits behind it. */
  lemma NegationAfterSpace(s: string)
    requires NoNegationNext(s)
    ensures NotExpression(SkipSpace(s)) == NotExpression(s)
  {
    if s != [] && s[0] == '!' {
      SkipSpaceNoSpace(s);
    }
  }

  /** A token parser skips leading whitespace itself. */
  lemma TrimmedTagAfterSpace(t: string, s: string)
    requires t != []
    ensures TrimmedTag(t, SkipSpace(s)) == TrimmedTag(t, s)
  {
    SkipSpaceIdempotent(s);
  }

  // ---------------------------------------------------------------------
  // Printing in ASCII syntax and parsing back
  // ---------------------------------------------------------------------

  /** Every variable of the tree has a name the parser accepts. */
  predicate WellNamed(e: Expression)
  {
    match e
    case Not(x) => WellNamed(x)
    case Binary(l, _, r) => WellNamed(l) && WellNamed(r)
    case Atomic(name) => IsIdentifier(name)
  }

  /**
   * The input syntax, with every binary node in parentheses and one space
   * around each operator.
   */
  function Show(e: Expression): string
  {
    match e
    case Not(x) => "!" + Show(x)
    case Binary(l, op, r) => "(" + Show(l) + Spaced(op) + Show(r) + ")"
    case Atomic(name) => name
  }

  /** How a printed tree starts: a letter, `!` or `(`. */
  lemma ShowStart(e: Expression)
    requires WellNamed(e)
    ensures Show(e) != []
    ensures e.Atomic? ==> IsAsciiAlpha(Show(e)[0])
    ensures e.Not? ==> Show(e)[0] == '!'
    ensures e.Binary? ==> Show(e)[0] == '('
  {
  }

  /** Printed text followed by anything starts with no whitespace. */
  lemma ShowThenText(e: Expression, t: string)
    requires WellNamed(e)
    ensures Show(e) + t != [] && !IsMultispace((Show(e) + t)[0])
  {
    ShowStart(e);
    assert (Show(e) + t)[0] == Show(e)[0];
  }

  /** A closing parenthesis continues no variable and starts no operator. */
  lemma ClosingParenthesis(t: string)
    ensures !IsIdentifierChar((")" + t)[0])
    ensures TrimmedTag("&", ")" + t).None? && TrimmedTag("|", ")" + t).None?
  {
    SkipSpaceNoSpace(")" + t);
  }

  /** After a spaced operator token, no negation comes next. */
  lemma SpacedNoNegation(op: BinaryOperator, u: string)
    requires u == [] || !IsMultispace(u[0])
    ensures NoNegationNext(Spaced(op) + u)
  {
    SpacedToken(op, u);
    TokenValues(op);
  }

  /** A printed compound tree is no variable, so no complete conjunction or disjunction either. */
  lemma CompoundIsNoVariable(e: Expression, t: string)
    requires WellNamed(e) && !e.Atomic?
    ensures Value(Show(e) + t).None?
    ensures CompleteAnd(Show(e) + t).None?
    ensures CompleteOr(Show(e) + t).None?
  {
    ShowStart(e);
    assert (Show(e) + t)[0] == Show(e)[0];
  }

  /** A variable with no `&` after it is no complete conjunction, and with no `|` no complete disjunction. */
  lemma LoneOperand(r: Expression, t: string)
    requires WellNamed(r)
    requires t == [] || !IsIdentifierChar(t[0])
    ensures (!r.Atomic? || TrimmedTag("&", t).None?) ==> CompleteAnd(Show(r) + t).None?
    ensures (!r.Atomic? || TrimmedTag("|", t).None?) ==> CompleteOr(Show(r) + t).None?
  {
    if r.Atomic? {
      ValueOfIdentifier(r.name, t);
    } else {
      CompoundIsNoVariable(r, t);
    }
  }

  /**
   * What each operator takes as its right operand: `&` a left-hand side, `|`
   * a complete conjunction or else a left-hand side, `=>` a complete
   * conjunction, a complete disjunction or a left-hand side.
   */
  function OperandOf(op: BinaryOperator, u: string): ParseResult
  {
    match op
    case And => LeftHandSide(u)
    case Or => FirstOf(CompleteAnd(u), LeftHandSide(u))
    case Implication => FirstOf(CompleteAnd(u), FirstOf(CompleteOr(u), LeftHandSide(u)))
  }

  /** `previous op x`, with the input left after `x`. */
  function Extend(previous: Expression, op: BinaryOperator, r: ParseResult): ParseResult
  {
    match r
    case None => None
    case Some((x, t)) => Some((Binary(previous, op, x), t))
  }

  /**
   * A spaced operator token is read by that operator's parser alone, which
   * extends `previous` by whatever the operator takes as its right operand.
   */
  lemma OperatorStep(previous: Expression, op: BinaryOperator, u: string)
    requires u == [] || !IsMultispace(u[0])
    ensures OperatorCombinators(previous, Spaced(op) + u) == Extend(previous, op, OperandOf(op, u))
    ensures op == And ==> AndExpression(previous, Spaced(op) + u) == Extend(previous, op, OperandOf(op, u))
    ensures op == Or ==> OrExpression(previous, Spaced(op) + u) == Extend(previous, op, OperandOf(op, u))
  {
    match op
    case And => AndStep(previous, u);
    case Or => OrStep(previous, u);
    case Implication => ImplicationStep(previous, u);
  }

  /** `OperatorStep` for `&`. */
  lemma AndStep(previous: Expression, u: string)
    requires u == [] || !IsMultispace(u[0])
    ensures AndExpression(previous, Spaced(And) + u) == Extend(previous, And, OperandOf(And, u))
    ensures OperatorCombinators(previous, Spaced(And) + u) == Extend(previous, And, OperandOf(And, u))
  {
    var s := Spaced(And) + u;
    SpacedToken(And, u);
    assert s[0] == ' ';
    TrimmedTagAbsent("=>", s);
    TrimmedTagAbsent("|", s);
    assert NotExpression(s).None?;
  }

  /** `OperatorStep` for `|`. */
  lemma OrStep(previous: Expression, u: string)
    requires u == [] || !IsMultispace(u[0])
    ensures OrExpression(previous, Spaced(Or) + u) == Extend(previous, Or, OperandOf(Or, u))
    ensures OperatorCombinators(previous, Spaced(Or) + u) == Extend(previous, Or, OperandOf(Or, u))
  {
    var s := Spaced(Or) + u;
    SpacedToken(Or, u);
    TrimmedTagAbsent("=>", s);
    OrStepAt(previous, s, u);
  }

  /** Where `|` and not `=>` comes next, the disjunction alone reads the input. */
  lemma OrStepAt(previous: Expression, s: string, u: string)
    requires TrimmedTag("|", s) == Some(u) && TrimmedTag("=>", s).None?
    ensures OrExpression(previous, s) == Extend(previous, Or, OperandOf(Or, u))
    ensures OperatorCombinators(previous, s) == Extend(previous, Or, OperandOf(Or, u))
  {
  }

  /** `OperatorStep` for `=>`. */
  lemma ImplicationStep(previous: Expression, u: string)
    requires u == [] || !IsMultispace(u[0])
    ensures OperatorCombinators(previous, Spaced(Implication) + u) == Extend(previous, Implication, OperandOf(Implication, u))
  {
    SpacedToken(Implication, u);
  }

  /** After a variable, a complete conjunction or disjunction is that operator's step on the variable. */
  lemma CompleteAfterVariable(name: string, v: string)
    requires IsIdentifier(name)
    requires v == [] || !IsIdentifierChar(v[0])
    ensures CompleteAnd(name + v) == AndExpression(Atomic(name), v)
    ensures CompleteOr(name + v) == OrExpression(Atomic(name), v)
  {
    ValueOfIdentifier(name, v);
  }

  /** `!` right before a left-hand side negates it. */
  lemma NegationOf(u: string, x: Expression, t: string)
    requires LeftHandSide(u) == Some((x, t))
    ensures LeftHandSide("!" + u) == Some((Not(x), t))
  {
    var s := "!" + u;
    assert s[0] == '!' && s[1..] == u;
    assert Value(s).None?;
    assert Char('!', s) == Some(u);
    assert NotExpression(s) == Some((Not(x), t));
  }

  /**
   * `(`, a left-hand side, an operator step that ends right before `)`, and
   * `)`: the parenthesized expression is that step's tree.
   */
  lemma ParenthesizedOneStep(inner: string, l: Expression, t1: string, e: Expression, t: string)
    requires inner != [] && !IsMultispace(inner[0])
    requires LeftHandSide(inner) == Some((l, t1))
    requires NoNegationNext(t1)
    requires OperatorCombinators(l, t1) == Some((e, ")" + t))
    ensures LeftHandSide("(" + inner) == Some((e, t))
  {
    OperatorCombinatorsAfterSpace(l, t1);
    SkipSpaceNoSpace(")" + t);
    assert ClosingOrOneMore(e, ")" + t) == Some((e, ")" + t));
    assert ParenthesizedBody(inner) == Some((e, ")" + t));
    ParenthesizedFromBody(inner, e, t);
  }

  /** `(`, a body that ends right before `)`, and `)`: the parenthesized expression is the body's tree. */
  lemma ParenthesizedFromBody(inner: string, e: Expression, t: string)
    requires inner != [] && !IsMultispace(inner[0])
    requires ParenthesizedBody(inner) == Some((e, ")" + t))
    ensures LeftHandSide("(" + inner) == Some((e, t))
  {
    var s := "(" + inner;
    assert s[0] == '(' && s[1..] == inner;
    assert Value(s).None? && Char('!', s).None?;
    assert Char('(', s) == Some(inner);
    SkipSpaceNoSpace(inner);
    SkipSpaceNoSpace(")" + t);
    assert (")" + t)[1..] == t;
    assert Char(')', ")" + t) == Some(t);
    assert ParenthesizedExpression(s) == Some((e, t));
  }

  /**
   * A printed tree followed by anything that cannot continue a variable
   * parses back to the tree as a left-hand side.
   */
  lemma {:induction false} LeftHandSideOfShow(e: Expression, t: string)
    requires WellNamed(e)
    requires t == [] || !IsIdentifierChar(t[0])
    ensures LeftHandSide(Show(e) + t) == Some((e, t))
    decreases Size(e), 2
  {
    match e
    case Atomic(name) =>
      LeftHandSideOfIdentifier(name, t);
    case Not(x) =>
      LeftHandSideOfShow(x, t);
      assert Show(e) + t == "!" + (Show(x) + t);
      NegationOf(Show(x) + t, x, t);
    case Binary(l, op, r) =>
      LeftHandSideOfBinary(l, op, r, t);
  }

  /** The parenthesized case of `LeftHandSideOfShow`. */
  lemma {:induction false} LeftHandSideOfBinary(l: Expression, op: BinaryOperator, r: Expression, t: string)
    requires WellNamed(l) && WellNamed(r)
    requires t == [] || !IsIdentifierChar(t[0])
    ensures LeftHandSide(Show(Binary(l, op, r)) + t) == Some((Binary(l, op, r), t))
    decreases Size(Binary(l, op, r)), 1
  {
    var u := Show(r) + (")" + t);
    var t1 := Spaced(op) + u;
    var inner := Show(l) + t1;
    assert Show(Binary(l, op, r)) + t == "(" + inner;
    ShowThenText(l, t1);
    ShowThenText(r, ")" + t);
    ClosingParenthesis(t);
    SpacedNoNegation(op, u);
    LeftHandSideOfShow(l, t1);
    OperatorStepShow(l, op, r, ")" + t);
    ParenthesizedOneStep(inner, l, t1, Binary(l, op, r), t);
  }

  /**
   * An operator followed by a printed tree extends `previous` by one node.
   * When that tree is a variable, the right operand of `|` is tried as a
   * complete conjunction first and that of `=>` as a complete conjunction or
   * disjunction, so what follows must not continue one.
   */
  lemma {:induction false} OperatorStepShow(previous: Expression, op: BinaryOperator, r: Expression, t: string)
    requires WellNamed(r)
    requires t == [] || !IsIdentifierChar(t[0])
    requires r.Atomic? && op != And ==> TrimmedTag("&", t).None?
    requires r.Atomic? && op == Implication ==> TrimmedTag("|", t).None?
    ensures OperatorCombinators(previous, Spaced(op) + (Show(r) + t)) == Some((Binary(previous, op, r), t))
    decreases Size(r), 3
  {
    var u := Show(r) + t;
    ShowThenText(r, t);
    LeftHandSideOfShow(r, t);
    LoneOperand(r, t);
    OperatorStep(previous, op, u);
  }

  /** Printing a well-named tree and parsing the text gives the tree back. */
  lemma ParseShow(e: Expression)
    requires WellNamed(e)
    ensures ParseExpression(Show(e)) == Some(e)
  {
    LeftHandSideOfShow(e, []);
    assert Show(e) + [] == Show(e);
    WholeLeftHandSide(Show(e), e);
  }

  /** A left-hand side that takes all of the input is the whole parse. */
  lemma WholeLeftHandSide(s: string, e: Expression)
    requires LeftHandSide(s) == Some((e, []))
    ensures ParseExpression(s) == Some(e)
  {
    NothingOnEmpty(e);
  }

  // ---------------------------------------------------------------------
  // Operator chains group to the left
  // ---------------------------------------------------------------------

  /** One link of a chain: an operator and the printed operand after it. */
  datatype Step = Step(op: BinaryOperator, operand: Expression)

  /** The chain's text: each operator spaced, each operand printed. */
  function Text(steps: seq<Step>): string
  {
    if steps == [] then [] else Spaced(steps[0].op) + (Show(steps[0].operand) + Text(steps[1..]))
  }

  /** The tree a left-grouping reading of the chain builds on `previous`. */
  function FoldLeft(previous: Expression, steps: seq<Step>): Expression
    decreases |steps|
  {
    if steps == [] then previous else FoldLeft(Binary(previous, steps[0].op, steps[0].operand), steps[1..])
  }

  /**
   * A variable operand of `|` followed by `&`, or of `=>` followed by `|` or
   * `&`, would be read as a complete conjunction or disjunction instead.
   */
  predicate Continues(step: Step, next: BinaryOperator)
  {
    step.operand.Atomic? ==>
      (step.op == Or ==> next != And) && (step.op == Implication ==> next == Implication)
  }

  /** Every operand well named, every link continued as `Continues` allows. */
  predicate GroupsLeft(steps: seq<Step>)
  {
    steps == [] ||
    (WellNamed(steps[0].operand) &&
     (|steps| > 1 ==> Continues(steps[0], steps[1].op)) &&
     GroupsLeft(steps[1..]))
  }

  /** A chain's text, whatever follows it, starts with a space, then its first operator token. */
  lemma TextStart(steps: seq<Step>, tail: string)
    requires steps != [] && WellNamed(steps[0].operand)
    ensures Text(steps) + tail != [] && (Text(steps) + tail)[0] == ' '
    ensures NoNegationNext(Text(steps) + tail)
    ensures SkipSpace(Text(steps) + tail) != [] && SkipSpace(Text(steps) + tail)[0] != ')'
    ensures steps[0].op != And ==> TrimmedTag("&", Text(steps) + tail).None?
    ensures steps[0].op != Or ==> TrimmedTag("|", Text(steps) + tail).None?
  {
    var u := Show(steps[0].operand) + (Text(steps[1..]) + tail);
    assert Text(steps) + tail == Spaced(steps[0].op) + u;
    ShowThenText(steps[0].operand, Text(steps[1..]) + tail);
    SpacedToken(steps[0].op, u);
    TokenValues(steps[0].op);
  }

  /** An operator chain after `previous` builds the left-grouped tree and consumes everything. */
  lemma {:induction false} ChainParses(previous: Expression, steps: seq<Step>)
    requires steps != [] && GroupsLeft(steps)
    ensures ExpressionChain(previous, Text(steps)) == Some((FoldLeft(previous, steps), []))
    decreases |steps|
  {
    var rest := steps[1..];
    var next := Binary(previous, steps[0].op, steps[0].operand);
    assert Text(steps) == Spaced(steps[0].op) + (Show(steps[0].operand) + Text(rest));
    assert FoldLeft(previous, steps) == FoldLeft(next, rest);
    if rest != [] {
      TextStart(rest, []);
      assert Text(rest) + [] == Text(rest);
      OperatorStepShow(previous, steps[0].op, steps[0].operand, Text(rest));
      ChainParses(next, rest);
      assert ExpressionChain(previous, Text(steps)) == ExpressionChain(next, Text(rest));
    } else {
      assert Text(rest) == [];
      OperatorStepShow(previous, steps[0].op, steps[0].operand, Text(rest));
    }
  }

  /**
   * A printed tree followed by a left-grouping chain parses to the chain's
   * tree, whether or not there is a chain.
   */
  lemma ParseChain(first: Expression, steps: seq<Step>)
    requires WellNamed(first) && GroupsLeft(steps)
    ensures ParsePrefix(Show(first) + Text(steps)) == Some((FoldLeft(first, steps), []))
    ensures ParseExpression(Show(first) + Text(steps)) == Some(FoldLeft(first, steps))
  {
    if steps != [] {
      TextStart(steps, []);
      assert Text(steps) + [] == Text(steps);
      ChainParses(first, steps);
    } else {
      NothingOnEmpty(first);
    }
    LeftHandSideOfShow(first, Text(steps));
  }

  /**
   * What may follow a chain's last step without changing how it is read:
   * something that continues no variable, and for a variable operand of `|`
   * or `=>` no `&`, and of `=>` no `|`.
   */
  predicate MayFollow(last: Step, tail: string)
  {
    tail != [] && !IsIdentifierChar(tail[0]) &&
    (last.operand.Atomic? && last.op != And ==> TrimmedTag("&", tail).None?) &&
    (last.operand.Atomic? && last.op == Implication ==> TrimmedTag("|", tail).None?)
  }

  /** One operator step that leaves input: the chain goes on from its result. */
  lemma ChainGoesOn(previous: Expression, s: string, next: Expression, rest: string)
    requires OperatorCombinators(previous, s) == Some((next, rest)) && rest != []
    ensures ExpressionChain(previous, s) == ExpressionChain(next, rest)
  {
  }

  /** A left-grouping chain followed by more input: the chain goes on from the chain's tree. */
  lemma {:induction false} ChainThen(previous: Expression, steps: seq<Step>, tail: string)
    requires steps != [] && GroupsLeft(steps)
    requires MayFollow(steps[|steps| - 1], tail)
    ensures ExpressionChain(previous, Text(steps) + tail) == ExpressionChain(FoldLeft(previous, steps), tail)
    decreases |steps|
  {
    var rest := steps[1..];
    var next := Binary(previous, steps[0].op, steps[0].operand);
    assert Text(steps) + tail == Spaced(steps[0].op) + (Show(steps[0].operand) + (Text(rest) + tail));
    if rest != [] {
      TextStart(rest, tail);
      OperatorStepShow(previous, steps[0].op, steps[0].operand, Text(rest) + tail);
      assert steps[|steps| - 1] == rest[|rest| - 1];
      ChainThen(next, rest, tail);
      ChainGoesOn(previous, Text(steps) + tail, next, Text(rest) + tail);
    } else {
      assert Text(rest) + tail == tail;
      OperatorStepShow(previous, steps[0].op, steps[0].operand, tail);
      ChainGoesOn(previous, Text(steps) + tail, next, tail);
    }
  }

  /** A printed tree, a left-grouping chain, and more input that a chain then reads to the end. */
  lemma ParseChainThen(first: Expression, steps: seq<Step>, tail: string, result: Expression)
    requires WellNamed(first) && GroupsLeft(steps) && steps != []
    requires MayFollow(steps[|steps| - 1], tail)
    requires ExpressionChain(FoldLeft(first, steps), tail) == Some((result, []))
    ensures ParseExpression(Show(first) + (Text(steps) + tail)) == Some(result)
  {
    TextStart(steps, tail);
    LeftHandSideOfShow(first, Text(steps) + tail);
    ChainThen(first, steps, tail);
  }

  // ---------------------------------------------------------------------
  // Complete conjunctions and disjunctions as right operands
  // ---------------------------------------------------------------------

  /** `x & y`, `x` a variable, is a complete conjunction. */
  lemma CompleteConjunction(x: string, y: Expression, t: string)
    requires IsIdentifier(x) && WellNamed(y)
    requires t == [] || !IsIdentifierChar(t[0])
    ensures CompleteAnd(x + (Spaced(And) + (Show(y) + t))) == Some((Binary(Atomic(x), And, y), t))
  {
    CompleteAfterVariable(x, Spaced(And) + (Show(y) + t));
    ShowThenText(y, t);
    OperatorStep(Atomic(x), And, Show(y) + t);
    LeftHandSideOfShow(y, t);
  }

  /**
   * `x | u`, `x` a variable, is no complete conjunction but a complete
   * disjunction, whose right side is what `|` takes from `u`.
   */
  lemma CompleteDisjunction(x: string, u: string, y: Expression, t: string)
    requires IsIdentifier(x)
    requires u == [] || !IsMultispace(u[0])
    requires OperandOf(Or, u) == Some((y, t))
    ensures CompleteAnd(x + (Spaced(Or) + u)).None?
    ensures CompleteOr(x + (Spaced(Or) + u)) == Some((Binary(Atomic(x), Or, y), t))
  {
    CompleteAfterVariable(x, Spaced(Or) + u);
    SpacedToken(Or, u);
    TokenValues(Or);
    TrimmedTagAbsent("&", Spaced(Or) + u);
    OperatorStep(Atomic(x), Or, u);
  }

  /** `=>` followed by a complete disjunction takes the whole disjunction as its right operand. */
  lemma ImplicationOfDisjunction(previous: Expression, x: string, u: string, y: Expression, t: string)
    requires IsIdentifier(x)
    requires u == [] || !IsMultispace(u[0])
    requires OperandOf(Or, u) == Some((y, t))
    ensures OperatorCombinators(previous, Spaced(Implication) + (x + (Spaced(Or) + u)))
      == Some((Binary(previous, Implication, Binary(Atomic(x), Or, y)), t))
  {
    CompleteDisjunction(x, u, y, t);
    assert (x + (Spaced(Or) + u))[0] == x[0];
    OperatorStep(previous, Implication, x + (Spaced(Or) + u));
  }

  // ---------------------------------------------------------------------
  // Parentheses hold one or two operators
  // ---------------------------------------------------------------------

  /**
   * `(`, a left-hand side, an operator step, whitespace, a second operator
   * step that ends right before `)`, and `)`.
   */
  lemma ParenthesizedTwoSteps(inner: string, l: Expression, t1: string, e1: Expression, t2: string, e2: Expression, t: string)
    requires inner != [] && !IsMultispace(inner[0])
    requires LeftHandSide(inner) == Some((l, t1))
    requires NoNegationNext(t1)
    requires OperatorCombinators(l, t1) == Some((e1, t2))
    requires NoNegationNext(t2) && SkipSpace(t2) != [] && SkipSpace(t2)[0] != ')'
    requires OperatorCombinators(e1, t2) == Some((e2, ")" + t))
    ensures LeftHandSide("(" + inner) == Some((e2, t))
  {
    BodyTwoSteps(inner, l, t1, e1, t2, e2, ")" + t);
    ParenthesizedFromBody(inner, e2, t);
  }

  /** As `ParenthesizedTwoSteps`, but what follows the second step is not `)`: no parenthesized expression. */
  lemma ParenthesizedThirdStep(inner: string, l: Expression, t1: string, e1: Expression, t2: string, e2: Expression, t3: string)
    requires inner != [] && !IsMultispace(inner[0])
    requires LeftHandSide(inner) == Some((l, t1))
    requires NoNegationNext(t1)
    requires OperatorCombinators(l, t1) == Some((e1, t2))
    requires NoNegationNext(t2) && SkipSpace(t2) != [] && SkipSpace(t2)[0] != ')'
    requires OperatorCombinators(e1, t2) == Some((e2, t3))
    requires SkipSpace(t3) != [] && SkipSpace(t3)[0] != ')'
    ensures LeftHandSide("(" + inner).None?
  {
    BodyTwoSteps(inner, l, t1, e1, t2, e2, t3);
    ParenthesizedUnclosed(inner, e2, t3);
  }

  /** A left-hand side and two operator steps make a parenthesized body. */
  lemma BodyTwoSteps(inner: string, l: Expression, t1: string, e1: Expression, t2: string, e2: Expression, t3: string)
    requires inner != [] && !IsMultispace(inner[0])
    requires LeftHandSide(inner) == Some((l, t1))
    requires NoNegationNext(t1)
    requires OperatorCombinators(l, t1) == Some((e1, t2))
    requires NoNegationNext(t2) && SkipSpace(t2) != [] && SkipSpace(t2)[0] != ')'
    requires OperatorCombinators(e1, t2) == Some((e2, t3))
    ensures ParenthesizedBody(inner) == Some((e2, t3))
  {
    OperatorCombinatorsAfterSpace(l, t1);
    OperatorCombinatorsAfterSpace(e1, t2);
    assert Char(')', SkipSpace(t2)).None?;
    assert ClosingOrOneMore(e1, SkipSpace(t2)) == Some((e2, t3));
  }

  /** A body not followed by `)`, after whitespace, makes no parenthesized expression. */
  lemma ParenthesizedUnclosed(inner: string, e: Expression, t3: string)
    requires inner != [] && !IsMultispace(inner[0])
    requires ParenthesizedBody(inner) == Some((e, t3))
    requires SkipSpace(t3) == [] || SkipSpace(t3)[0] != ')'
    ensures LeftHandSide("(" + inner).None?
  {
    var s := "(" + inner;
    assert s[0] == '(' && s[1..] == inner;
    assert Value(s).None? && Char('!', s).None?;
    assert Char('(', s) == Some(inner);
    SkipSpaceNoSpace(inner);
    assert Char(')', SkipSpace(t3)).None?;
    assert ParenthesizedExpression(s).None?;
  }

  /** A chain with one more link in front. */
  lemma StepInFront(st: Step, rest: seq<Step>, t: string)
    ensures Text([st] + rest) + t == Spaced(st.op) + (Show(st.operand) + (Text(rest) + t))
    ensures GroupsLeft([st] + rest) <==>
      WellNamed(st.operand) && (rest != [] ==> Continues(st, rest[0].op)) && GroupsLeft(rest)
  {
    var steps := [st] + rest;
    assert steps[0] == st && steps[1..] == rest;
    assert rest != [] ==> steps[1] == rest[0];
  }

  /** The first two links of a chain, and what the chain asks of them. */
  lemma FirstTwoSteps(s1: Step, s2: Step, more: seq<Step>, t: string)
    ensures Text([s1, s2] + more) + t == Spaced(s1.op) + (Show(s1.operand) + (Text([s2] + more) + t))
    ensures Text([s2] + more) + t == Spaced(s2.op) + (Show(s2.operand) + (Text(more) + t))
    ensures GroupsLeft([s1, s2] + more) ==>
      WellNamed(s1.operand) && WellNamed(s2.operand) && Continues(s1, s2.op) && GroupsLeft(more) &&
      (more != [] ==> Continues(s2, more[0].op))
  {
    assert [s1, s2] + more == [s1] + ([s2] + more);
    StepInFront(s1, [s2] + more, t);
    StepInFront(s2, more, t);
  }

  /** Reading the first two links of a chain after its first operand. */
  lemma TwoStepsRead(first: Expression, s1: Step, s2: Step, more: seq<Step>, t: string)
    requires WellNamed(first) && GroupsLeft([s1, s2] + more)
    requires more != [] || MayFollow(s2, t)
    ensures var t2 := Text([s2] + more) + t;
      var t1 := Spaced(s1.op) + (Show(s1.operand) + t2);
      var e1 := Binary(first, s1.op, s1.operand);
      OperatorCombinators(first, t1) == Some((e1, t2)) &&
      OperatorCombinators(e1, t2) == Some((Binary(e1, s2.op, s2.operand), Text(more) + t))
  {
    FirstTwoSteps(s1, s2, more, t);
    var t2 := Text([s2] + more) + t;
    TextStart([s2] + more, t);
    if more != [] {
      TextStart(more, t);
    } else {
      assert Text(more) + t == t;
    }
    OperatorStepShow(first, s1.op, s1.operand, t2);
    OperatorStepShow(Binary(first, s1.op, s1.operand), s2.op, s2.operand, Text(more) + t);
  }

  /** A chain of two steps in parentheses is the chain's tree. */
  lemma ParenthesizedPair(first: Expression, s1: Step, s2: Step, t: string)
    requires WellNamed(first) && GroupsLeft([s1, s2] + [])
    requires t == [] || !IsIdentifierChar(t[0])
    ensures LeftHandSide("(" + (Show(first) + (Text([s1, s2] + []) + (")" + t))))
      == Some((Binary(Binary(first, s1.op, s1.operand), s2.op, s2.operand), t))
  {
    ClosingParenthesis(t);
    FirstTwoSteps(s1, s2, [], ")" + t);
    TwoStepsRead(first, s1, s2, [], ")" + t);
    var t2 := Text([s2] + []) + (")" + t);
    var t1 := Text([s1, s2] + []) + (")" + t);
    assert Text([]) + (")" + t) == ")" + t;
    TextStart([s1, s2] + [], ")" + t);
    TextStart([s2] + [], ")" + t);
    ShowThenText(first, t1);
    LeftHandSideOfShow(first, t1);
    ParenthesizedTwoSteps(Show(first) + t1, first, t1, Binary(first, s1.op, s1.operand), t2,
      Binary(Binary(first, s1.op, s1.operand), s2.op, s2.operand), t);
  }

  /** A chain of three or more steps in one pair of parentheses is no left-hand side. */
  lemma ParenthesizedTooLong(first: Expression, s1: Step, s2: Step, more: seq<Step>, t: string)
    requires WellNamed(first) && GroupsLeft([s1, s2] + more) && more != []
    ensures LeftHandSide("(" + (Show(first) + (Text([s1, s2] + more) + t))).None?
  {
    var t2 := Text([s2] + more) + t;
    var t1 := Text([s1, s2] + more) + t;
    TextStart([s1, s2] + more, t);
    ShowThenText(first, t1);
    LeftHandSideOfShow(first, t1);
    FirstTwoSteps(s1, s2, more, t);
    TwoStepsRead(first, s1, s2, more, t);
    TextStart([s2] + more, t);
    TextStart(more, t);
    ParenthesizedThirdStep(Show(first) + t1, first, t1, Binary(first, s1.op, s1.operand), t2,
      Binary(Binary(first, s1.op, s1.operand), s2.op, s2.operand), Text(more) + t);
  }

  /** A lone operand in parentheses is no left-hand side: the parentheses need an operator. */
  lemma ParenthesizedLoneOperand(e: Expression, t: string)
    requires WellNamed(e)
    ensures LeftHandSide("(" + (Show(e) + (")" + t))).None?
  {
    var inner := Show(e) + (")" + t);
    ShowThenText(e, ")" + t);
    LoneOperandBody(e, t);
    ParenthesizedBodyFails(inner);
  }

  /** Inside parentheses, a tree directly followed by `)` has no operator: the body fails. */
  lemma LoneOperandBody(e: Expression, t: string)
    requires WellNamed(e)
    ensures ParenthesizedBody(Show(e) + (")" + t)).None?
  {
    ClosingParenthesis(t);
    LeftHandSideOfShow(e, ")" + t);
    SkipSpaceNoSpace(")" + t);
    TrimmedTagAbsent("=>", ")" + t);
    assert NotExpression(")" + t).None?;
    assert OperatorCombinators(e, ")" + t).None?;
  }

  /** An opening parenthesis whose body fails is no left-hand side. */
  lemma ParenthesizedBodyFails(inner: string)
    requires inner != [] && !IsMultispace(inner[0])
    requires ParenthesizedBody(inner).None?
    ensures LeftHandSide("(" + inner).None?
  {
    var s := "(" + inner;
    assert s[0] == '(' && s[1..] == inner;
    SkipSpaceNoSpace(inner);
    assert Value(s).None? && Char('!', s).None?;
  }

  // ---------------------------------------------------------------------
  // Whitespace and stray negations
  // ---------------------------------------------------------------------

  /** Nothing parses that starts with whitespace. */
  lemma LeadingSpace(s: string)
    requires s != [] && IsMultispace(s[0])
    ensures ParseExpression(s).None?
  {
    assert Value(s).None? && Char('!', s).None? && Char('(', s).None?;
    assert LeftHandSide(s).None?;
  }

  /** Nothing parses that ends with whitespace: it is left over. */
  lemma TrailingSpace(first: Expression, steps: seq<Step>, w: string)
    requires WellNamed(first) && GroupsLeft(steps)
    requires w != [] && forall i :: 0 <= i < |w| ==> IsMultispace(w[i])
    ensures ParseExpression(Show(first) + (Text(steps) + w)).None?
  {
    SkipSpaceAllSpace(w);
    assert OperatorCombinators(FoldLeft(first, steps), w).None?;
    if steps != [] {
      TextStart(steps, w);
      TrimmedTagAbsent("&", w);
      TrimmedTagAbsent("|", w);
      ChainThen(first, steps, w);
    } else {
      assert Text(steps) + w == w;
    }
    LeftHandSideOfShow(first, Text(steps) + w);
  }

  /** Where `!` comes next, only the negation alternative of the operators applies. */
  lemma NegationStep(previous: Expression, s: string)
    requires s != [] && s[0] == '!'
    ensures OperatorCombinators(previous, s) == NotExpression(s)
  {
    SkipSpaceNoSpace(s);
    TrimmedTagAbsent("=>", s);
    TrimmedTagAbsent("|", s);
    TrimmedTagAbsent("&", s);
  }

  /**
   * A negation right after an operand is read as the next operator step,
   * and that step does not use what came before: the operand is dropped.
   */
  lemma NegationAfterOperand(x: Expression, y: Expression)
    requires WellNamed(x) && WellNamed(y)
    ensures ParseExpression(Show(x) + ("!" + Show(y))) == Some(Not(y))
  {
    var s := "!" + Show(y);
    NegatedChain(x, y);
    LeftHandSideOfShow(x, s);
    assert ParsePrefix(Show(x) + s) == Some((Not(y), []));
  }

  /** A chain that starts with `!` is one negation step, whatever `previous` was. */
  lemma NegatedChain(x: Expression, y: Expression)
    requires WellNamed(y)
    ensures ExpressionChain(x, "!" + Show(y)) == Some((Not(y), []))
  {
    var s := "!" + Show(y);
    LeftHandSideOfShow(y, []);
    assert Show(y) + [] == Show(y);
    NegationOf(Show(y), y, []);
    NegationStep(x, s);
  }
}
