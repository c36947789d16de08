/**
 * The expression parser's own examples, each an instance of the general
 * lemmas: a chain of operators grouping to the left over printed operands.
 */
module ExpressionParserExamples {
  import opened Options
  import opened Operators
  import opened Expressions
  import opened ExpressionParser
  import opened ParserUtils
  import opened ExpressionParserProperties

  lemma ParseAndThenImplication()
    ensures ParseExpression("a & b => c")
      == Some(Binary(Binary(Atomic("a"), And, Atomic("b")), Implication, Atomic("c")))
  {
    var steps := [Step(And, Atomic("b")), Step(Implication, Atomic("c"))];
    assert Show(Atomic("a")) + Text(steps) == "a & b => c";
    ParseChain(Atomic("a"), steps);
  }

  lemma ParseImplicationChain()
    ensures ParseExpression("a => b => c")
      == Some(Binary(Binary(Atomic("a"), Implication, Atomic("b")), Implication, Atomic("c")))
  {
    var steps := [Step(Implication, Atomic("b")), Step(Implication, Atomic("c"))];
    assert Show(Atomic("a")) + Text(steps) == "a => b => c";
    ParseChain(Atomic("a"), steps);
  }

  lemma ParseParentheses()
    ensures ParseExpression("a & (b => c)")
      == Some(Binary(Atomic("a"), And, Binary(Atomic("b"), Implication, Atomic("c"))))
  {
    var steps := [Step(And, Binary(Atomic("b"), Implication, Atomic("c")))];
    ParenthesesText();
    ParseChain(Atomic("a"), steps);
  }

  lemma ParenthesesText()
    ensures Show(Atomic("a")) + Text([Step(And, Binary(Atomic("b"), Implication, Atomic("c")))]) == "a & (b => c)"
  {
    var steps := [Step(And, Binary(Atomic("b"), Implication, Atomic("c")))];
    assert steps[1..] == [];
    assert Show(Binary(Atomic("b"), Implication, Atomic("c"))) == "(b => c)";
    assert Text(steps) == " & " + "(b => c)";
  }

  lemma ParseNot()
    ensures ParseExpression("!a")
      == Some(Not(Atomic("a")))
  {
    var steps: seq<Step> := [];
    assert Show(Not(Atomic("a"))) + Text(steps) == "!a";
    ParseChain(Not(Atomic("a")), steps);
  }

  lemma ParseNotParentheses()
    ensures ParseExpression("!(a & b)")
      == Some(Not(Binary(Atomic("a"), And, Atomic("b"))))
  {
    var steps: seq<Step> := [];
    assert Show(Not(Binary(Atomic("a"), And, Atomic("b")))) + Text(steps) == "!(a & b)";
    ParseChain(Not(Binary(Atomic("a"), And, Atomic("b"))), steps);
  }

  lemma NotInsideAnd()
    ensures ParseExpression("a & !b")
      == Some(Binary(Atomic("a"), And, Not(Atomic("b"))))
  {
    var steps: seq<Step> := [Step(And, Not(Atomic("b")))];
    assert Show(Atomic("a")) + Text(steps) == "a & !b";
    ParseChain(Atomic("a"), steps);
  }

  lemma NotInsideOr()
    ensures ParseExpression("a | !b")
      == Some(Binary(Atomic("a"), Or, Not(Atomic("b"))))
  {
    var steps: seq<Step> := [Step(Or, Not(Atomic("b")))];
    assert Show(Atomic("a")) + Text(steps) == "a | !b";
    ParseChain(Atomic("a"), steps);
  }

  lemma NotInsideImplication()
    ensures ParseExpression("a => !b")
      == Some(Binary(Atomic("a"), Implication, Not(Atomic("b"))))
  {
    var steps: seq<Step> := [Step(Implication, Not(Atomic("b")))];
    assert Show(Atomic("a")) + Text(steps) == "a => !b";
    ParseChain(Atomic("a"), steps);
  }

  lemma NotInsideParentheses()
    ensures ParseExpression("a & !(b | c)")
      == Some(Binary(Atomic("a"), And, Not(Binary(Atomic("b"), Or, Atomic("c")))))
  {
    var steps: seq<Step> := [Step(And, Not(Binary(Atomic("b"), Or, Atomic("c"))))];
    NotInsideParenthesesText();
    ParseChain(Atomic("a"), steps);
  }

  lemma NotInsideParenthesesText()
    ensures Show(Atomic("a")) + Text([Step(And, Not(Binary(Atomic("b"), Or, Atomic("c"))))]) == "a & !(b | c)"
  {
    var steps: seq<Step> := [Step(And, Not(Binary(Atomic("b"), Or, Atomic("c"))))];
    assert steps[1..] == [];
    assert Show(Binary(Atomic("b"), Or, Atomic("c"))) == "(b | c)";
    assert Show(Not(Binary(Atomic("b"), Or, Atomic("c")))) == "!" + "(b | c)";
    assert Text(steps) == " & " + "!(b | c)";
  }

  lemma EvenNegations()
    ensures ParseExpression("!!!!a")
      == Some(Not(Not(Not(Not(Atomic("a"))))))
  {
    var steps: seq<Step> := [];
    assert Show(Not(Not(Not(Not(Atomic("a")))))) + Text(steps) == "!!!!a";
    ParseChain(Not(Not(Not(Not(Atomic("a"))))), steps);
  }

  lemma OddNegations()
    ensures ParseExpression("!!!!!a")
      == Some(Not(Not(Not(Not(Not(Atomic("a")))))))
  {
    var steps: seq<Step> := [];
    assert Show(Not(Not(Not(Not(Not(Atomic("a"))))))) + Text(steps) == "!!!!!a";
    ParseChain(Not(Not(Not(Not(Not(Atomic("a")))))), steps);
  }

  lemma ParseVariable()
    ensures ParseExpression("a")
      == Some(Atomic("a"))
  {
    var steps: seq<Step> := [];
    assert Show(Atomic("a")) + Text(steps) == "a";
    ParseChain(Atomic("a"), steps);
  }

  /** A variable name may hold underscores and digits after its first letter. */
  lemma ParseVariableNames()
    ensures ParseExpression("a_b") == Some(Atomic("a_b"))
    ensures ParseExpression("a1") == Some(Atomic("a1"))
  {
    assert IsIdentifier("a_b") by { assert IsIdentifierChar("a_b"[1]) && IsIdentifierChar("a_b"[2]); }
    assert IsIdentifier("a1") by { assert IsIdentifierChar("a1"[1]); }
    ParseIdentifier("a_b");
    ParseIdentifier("a1");
  }

  /** Any identifier alone parses to that variable. */
  lemma ParseIdentifier(name: string)
    requires IsIdentifier(name)
    ensures ParseExpression(name) == Some(Atomic(name))
  {
    var steps: seq<Step> := [];
    assert Show(Atomic(name)) + Text(steps) == name;
    ParseChain(Atomic(name), steps);
  }

  /** Six disjunctions, one after the other. */
  const OrChain: seq<Step> := [Step(Or, Atomic("b")), Step(Or, Atomic("c")), Step(Or, Atomic("d")), Step(Or, Atomic("e")), Step(Or, Atomic("f")), Step(Or, Atomic("g"))]

  lemma OrChainText()
    ensures Show(Atomic("a")) + Text(OrChain) == "a | b | c | d | e | f | g"
  {
    OrChainPieces();
    OrChainLiteral();
  }

  lemma OrChainLiteral()
    ensures "a" + (Spaced(Or) + ("b" + (Spaced(Or) + ("c" + (Spaced(Or) + ("d"
      + (Spaced(Or) + ("e" + (Spaced(Or) + ("f" + (Spaced(Or) + ("g" + []))))))))))))
      == "a | b | c | d | e | f | g"
  {
    SpacedLiterals();
  }

  lemma OrChainPieces()
    ensures Text(OrChain) == Spaced(Or) + ("b" + (Spaced(Or) + ("c" + (Spaced(Or) + ("d"
      + (Spaced(Or) + ("e" + (Spaced(Or) + ("f" + (Spaced(Or) + ("g" + [])))))))))))
  {
    var t5 := [Step(Or, Atomic("g"))] + [];
    var t4 := [Step(Or, Atomic("f"))] + t5;
    var t3 := [Step(Or, Atomic("e"))] + t4;
    var t2 := [Step(Or, Atomic("d"))] + t3;
    var t1 := [Step(Or, Atomic("c"))] + t2;
    assert OrChain == [Step(Or, Atomic("b"))] + t1;
    PrependStep(Or, Atomic("g"), [], []);
    PrependStep(Or, Atomic("f"), t5, Text(t5));
    PrependStep(Or, Atomic("e"), t4, Text(t4));
    PrependStep(Or, Atomic("d"), t3, Text(t3));
    PrependStep(Or, Atomic("c"), t2, Text(t2));
    PrependStep(Or, Atomic("b"), t1, Text(t1));
  }

  /** The three operators as they are printed between operands. */
  lemma SpacedLiterals()
    ensures Spaced(And) == " & " && Spaced(Or) == " | " && Spaced(Implication) == " => "
  {
  }

  /** One step in front of a chain prints as the spaced operator, the operand, and the rest. */
  lemma PrependStep(op: BinaryOperator, operand: Expression, rest: seq<Step>, text: string)
    requires Text(rest) == text
    ensures Text([Step(op, operand)] + rest) == Spaced(op) + (Show(operand) + text)
  {
    assert ([Step(op, operand)] + rest)[1..] == rest;
  }

  lemma OrChainGroupsLeft()
    ensures GroupsLeft(OrChain)
  {
  }

  lemma ParseOrChain()
    ensures ParseExpression("a | b | c | d | e | f | g")
      == Some(Binary(Binary(Binary(Binary(Binary(Binary(Atomic("a"), Or, Atomic("b")), Or, Atomic("c")), Or, Atomic("d")), Or, Atomic("e")), Or, Atomic("f")), Or, Atomic("g")))
  {
    OrChainText();
    OrChainGroupsLeft();
    ParseChain(Atomic("a"), OrChain);
  }

  lemma PrefixOfVariable()
    ensures ParsePrefix("a")
      == Some((Atomic("a"), ""))
  {
    var steps: seq<Step> := [];
    assert Show(Atomic("a")) + Text(steps) == "a";
    ParseChain(Atomic("a"), steps);
  }

  lemma ChainAnd()
    ensures ExpressionChain(Atomic("a"), " & b")
      == Some((Binary(Atomic("a"), And, Atomic("b")), ""))
  {
    var steps := [Step(And, Atomic("b"))];
    assert Text(steps) == " & b";
    ChainParses(Atomic("a"), steps);
  }

  lemma ChainAndOr()
    ensures ExpressionChain(Atomic("a"), " & b | c")
      == Some((Binary(Binary(Atomic("a"), And, Atomic("b")), Or, Atomic("c")), ""))
  {
    var steps := [Step(And, Atomic("b")), Step(Or, Atomic("c"))];
    assert Text(steps) == " & b | c";
    ChainParses(Atomic("a"), steps);
  }

  lemma ChainAndOrImplication()
    ensures ExpressionChain(Atomic("a"), " & b | c => d")
      == Some((Binary(Binary(Binary(Atomic("a"), And, Atomic("b")), Or, Atomic("c")), Implication, Atomic("d")), ""))
  {
    var steps := [Step(And, Atomic("b")), Step(Or, Atomic("c")), Step(Implication, Atomic("d"))];
    AndOrImplicationText();
    ChainParses(Atomic("a"), steps);
  }

  lemma AndOrImplicationText()
    ensures Text([Step(And, Atomic("b")), Step(Or, Atomic("c")), Step(Implication, Atomic("d"))]) == " & b | c => d"
  {
    var t2 := [Step(Implication, Atomic("d"))] + [];
    var t1 := [Step(Or, Atomic("c"))] + t2;
    assert [Step(And, Atomic("b")), Step(Or, Atomic("c")), Step(Implication, Atomic("d"))] == [Step(And, Atomic("b"))] + t1;
    PrependStep(Implication, Atomic("d"), [], []);
    PrependStep(Or, Atomic("c"), t2, Text(t2));
    PrependStep(And, Atomic("b"), t1, Text(t1));
    AndOrImplicationLiteral();
  }

  lemma AndOrImplicationLiteral()
    ensures Spaced(And) + (Show(Atomic("b")) + (Spaced(Or) + (Show(Atomic("c")) + (Spaced(Implication) + (Show(Atomic("d")) + []))))) == " & b | c => d"
  {
    SpacedLiterals();
  }

  lemma ChainParenthesizedOr()
    ensures ExpressionChain(Atomic("a"), " & (b | c) => d")
      == Some((Binary(Binary(Atomic("a"), And, Binary(Atomic("b"), Or, Atomic("c"))), Implication, Atomic("d")), ""))
  {
    var steps := [Step(And, Binary(Atomic("b"), Or, Atomic("c"))), Step(Implication, Atomic("d"))];
    ParenthesizedOrText();
    ChainParses(Atomic("a"), steps);
  }

  lemma ParenthesizedOrText()
    ensures Text([Step(And, Binary(Atomic("b"), Or, Atomic("c"))), Step(Implication, Atomic("d"))]) == " & (b | c) => d"
  {
    var t1 := [Step(Implication, Atomic("d"))] + [];
    assert [Step(And, Binary(Atomic("b"), Or, Atomic("c"))), Step(Implication, Atomic("d"))] == [Step(And, Binary(Atomic("b"), Or, Atomic("c")))] + t1;
    PrependStep(Implication, Atomic("d"), [], []);
    PrependStep(And, Binary(Atomic("b"), Or, Atomic("c")), t1, Text(t1));
    ParenthesizedOrLiteral();
  }

  lemma ParenthesizedOrLiteral()
    ensures Spaced(And) + (Show(Binary(Atomic("b"), Or, Atomic("c"))) + (Spaced(Implication) + (Show(Atomic("d")) + []))) == " & (b | c) => d"
  {
    SpacedLiterals();
    assert Show(Binary(Atomic("b"), Or, Atomic("c"))) == "(b | c)";
  }

  lemma PrefixParenthesizedConjunctions()
    ensures ParsePrefix("(a & b) | (c & d)")
      == Some((Binary(Binary(Atomic("a"), And, Atomic("b")), Or, Binary(Atomic("c"), And, Atomic("d"))), ""))
  {
    ConjunctionsText();
    ParseChain(Binary(Atomic("a"), And, Atomic("b")), [Step(Or, Binary(Atomic("c"), And, Atomic("d")))]);
  }

  lemma ConjunctionsText()
    ensures Show(Binary(Atomic("a"), And, Atomic("b"))) + Text([Step(Or, Binary(Atomic("c"), And, Atomic("d")))])
      == "(a & b) | (c & d)"
  {
    var steps: seq<Step> := [Step(Or, Binary(Atomic("c"), And, Atomic("d")))];
    assert Show(Binary(Atomic("a"), And, Atomic("b"))) == "(a & b)";
    assert Show(Binary(Atomic("c"), And, Atomic("d"))) == "(c & d)";
    assert Text(steps) == " | " + "(c & d)" by { assert steps[1..] == []; }
    assert "(a & b)" + (" | " + "(c & d)") == "(a & b) | (c & d)";
  }

  lemma ChainParenthesizedImplication()
    ensures ExpressionChain(Atomic("a"), " & b | (c => d)")
      == Some((Binary(Binary(Atomic("a"), And, Atomic("b")), Or, Binary(Atomic("c"), Implication, Atomic("d"))), ""))
  {
    var steps := [Step(And, Atomic("b")), Step(Or, Binary(Atomic("c"), Implication, Atomic("d")))];
    ParenthesizedImplicationText();
    ChainParses(Atomic("a"), steps);
  }

  lemma ParenthesizedImplicationText()
    ensures Text([Step(And, Atomic("b")), Step(Or, Binary(Atomic("c"), Implication, Atomic("d")))]) == " & b | (c => d)"
  {
    var t1 := [Step(Or, Binary(Atomic("c"), Implication, Atomic("d")))] + [];
    assert [Step(And, Atomic("b")), Step(Or, Binary(Atomic("c"), Implication, Atomic("d")))] == [Step(And, Atomic("b"))] + t1;
    PrependStep(Or, Binary(Atomic("c"), Implication, Atomic("d")), [], []);
    PrependStep(And, Atomic("b"), t1, Text(t1));
    ParenthesizedImplicationLiteral();
  }

  lemma ParenthesizedImplicationLiteral()
    ensures Spaced(And) + (Show(Atomic("b")) + (Spaced(Or) + (Show(Binary(Atomic("c"), Implication, Atomic("d"))) + []))) == " & b | (c => d)"
  {
    SpacedLiterals();
    assert Show(Binary(Atomic("c"), Implication, Atomic("d"))) == "(c => d)";
  }

  lemma ChainNestedParentheses()
    ensures ExpressionChain(Atomic("a"), " & (b | (c => d))")
      == Some((Binary(Atomic("a"), And, Binary(Atomic("b"), Or, Binary(Atomic("c"), Implication, Atomic("d")))), ""))
  {
    var steps := [Step(And, Binary(Atomic("b"), Or, Binary(Atomic("c"), Implication, Atomic("d"))))];
    NestedParenthesesText();
    ChainParses(Atomic("a"), steps);
  }

  lemma NestedParenthesesText()
    ensures Text([Step(And, Binary(Atomic("b"), Or, Binary(Atomic("c"), Implication, Atomic("d"))))]) == " & (b | (c => d))"
  {
    var x := Binary(Atomic("b"), Or, Binary(Atomic("c"), Implication, Atomic("d")));
    assert [Step(And, x)] == [Step(And, x)] + [];
    PrependStep(And, x, [], []);
    NestedParenthesesLiteral();
  }

  lemma NestedParenthesesLiteral()
    ensures Spaced(And) + (Show(Binary(Atomic("b"), Or, Binary(Atomic("c"), Implication, Atomic("d")))) + []) == " & (b | (c => d))"
  {
    SpacedLiterals();
    assert Show(Binary(Atomic("c"), Implication, Atomic("d"))) == "(c => d)";
    assert Show(Binary(Atomic("b"), Or, Binary(Atomic("c"), Implication, Atomic("d")))) == "(b | (c => d))";
  }

  /** `or_expression` applied to `a` reads ` | b` to the end. */
  lemma ParseOr()
    ensures OrExpression(Atomic("a"), " | b")
      == Some((Binary(Atomic("a"), Or, Atomic("b")), ""))
  {
    SpacedLiterals();
    assert Spaced(Or) + "b" == " | b";
    OrStep(Atomic("a"), "b");
    LoneOperand(Atomic("b"), "");
    assert "b" + "" == "b";
    LeftHandSideOfIdentifier("b", "");
  }

  lemma PrefixParenthesizedOr()
    ensures ParsePrefix("(a | b)")
      == Some((Binary(Atomic("a"), Or, Atomic("b")), ""))
  {
    var steps: seq<Step> := [];
    assert Show(Binary(Atomic("a"), Or, Atomic("b"))) + Text(steps) == "(a | b)";
    ParseChain(Binary(Atomic("a"), Or, Atomic("b")), steps);
  }

  lemma ParseEmpty()
    ensures ParseExpression("").None?
  {
    NothingOnEmpty(Atomic("a"));
  }

  // ---------------------------------------------------------------------
  // `=>` takes a complete disjunction as its right operand
  // ---------------------------------------------------------------------

  /** `d | e & f` after `=>`. */
  function ImpliesDisjunctionText(d: string, e: string, f: string): string
  {
    Spaced(Implication) + (d + (Spaced(Or) + (e + (Spaced(And) + (Show(Atomic(f)) + [])))))
  }

  /** `=> d | e & f` ends a chain with `previous => (d | (e & f))`, and may follow `| c`. */
  lemma ImpliesDisjunction(previous: Expression, c: string, d: string, e: string, f: string)
    requires IsIdentifier(d) && IsIdentifier(e) && IsIdentifier(f)
    ensures ExpressionChain(previous, ImpliesDisjunctionText(d, e, f))
      == Some((Binary(previous, Implication, Binary(Atomic(d), Or, Binary(Atomic(e), And, Atomic(f)))), []))
    ensures MayFollow(Step(Or, Atomic(c)), ImpliesDisjunctionText(d, e, f))
  {
    var ef := e + (Spaced(And) + (Show(Atomic(f)) + []));
    CompleteConjunction(e, Atomic(f), []);
    ImplicationOfDisjunction(previous, d, ef, Binary(Atomic(e), And, Atomic(f)), []);
    assert (d + (Spaced(Or) + ef))[0] == d[0];
    SpacedToken(Implication, d + (Spaced(Or) + ef));
    TrimmedTagAbsent("&", ImpliesDisjunctionText(d, e, f));
  }

  /** `a & b | c => d | e & f` for any variables. */
  lemma ParseWeighted(a: string, b: string, c: string, d: string, e: string, f: string)
    requires IsIdentifier(a) && IsIdentifier(b) && IsIdentifier(c)
    requires IsIdentifier(d) && IsIdentifier(e) && IsIdentifier(f)
    ensures ParseExpression(Show(Atomic(a)) + (Text([Step(And, Atomic(b)), Step(Or, Atomic(c))]) + ImpliesDisjunctionText(d, e, f)))
      == Some(Binary(
           Binary(Binary(Atomic(a), And, Atomic(b)), Or, Atomic(c)),
           Implication,
           Binary(Atomic(d), Or, Binary(Atomic(e), And, Atomic(f)))))
  {
    var steps := [Step(And, Atomic(b)), Step(Or, Atomic(c))];
    assert steps[1..] == [Step(Or, Atomic(c))] && steps[1..][1..] == [];
    assert GroupsLeft(steps);
    var left := Binary(Binary(Atomic(a), And, Atomic(b)), Or, Atomic(c));
    assert FoldLeft(Atomic(a), steps) == FoldLeft(Binary(Atomic(a), And, Atomic(b)), steps[1..]) == left;
    ImpliesDisjunction(left, c, d, e, f);
    ParseChainThen(Atomic(a), steps, ImpliesDisjunctionText(d, e, f),
      Binary(left, Implication, Binary(Atomic(d), Or, Binary(Atomic(e), And, Atomic(f)))));
  }

  /** `&` binds before `|` on the left of `=>`, and the right of `=>` is a complete disjunction. */
  lemma ParseOperatorWeight()
    ensures ParseExpression("A & B | C => D | E & F")
      == Some(Binary(
           Binary(Binary(Atomic("A"), And, Atomic("B")), Or, Atomic("C")),
           Implication,
           Binary(Atomic("D"), Or, Binary(Atomic("E"), And, Atomic("F")))))
  {
    OperatorWeightText();
    ParseWeighted("A", "B", "C", "D", "E", "F");
  }

  lemma OperatorWeightText()
    ensures Show(Atomic("A")) + (Text([Step(And, Atomic("B")), Step(Or, Atomic("C"))]) + ImpliesDisjunctionText("D", "E", "F"))
      == "A & B | C => D | E & F"
  {
    var t1 := [Step(Or, Atomic("C"))] + [];
    assert [Step(And, Atomic("B")), Step(Or, Atomic("C"))] == [Step(And, Atomic("B"))] + t1;
    PrependStep(Or, Atomic("C"), [], []);
    PrependStep(And, Atomic("B"), t1, Text(t1));
    OperatorWeightLiteral();
  }

  lemma OperatorWeightLiteral()
    ensures Show(Atomic("A")) + ((Spaced(And) + (Show(Atomic("B")) + (Spaced(Or) + (Show(Atomic("C")) + []))))
      + ImpliesDisjunctionText("D", "E", "F")) == "A & B | C => D | E & F"
  {
    SpacedLiterals();
    assert ImpliesDisjunctionText("D", "E", "F") == " => D | E & F";
  }

  // ---------------------------------------------------------------------
  // The program's rendering is not the input syntax
  // ---------------------------------------------------------------------

  /**
   * A variable followed by a space and a character that is neither
   * whitespace nor the start of an operator token is no expression: the
   * variable parses, no operator step follows, and input is left over.
   */
  lemma ForeignOperatorRejected(a: string, sym: string, b: string)
    requires IsIdentifier(a)
    requires |sym| >= 2 && sym[0] == ' ' && !IsMultispace(sym[1])
    requires sym[1] != '=' && sym[1] != '|' && sym[1] != '&'
    ensures ParseExpression(a + (sym + b)).None?
  {
    var rest := sym + b;
    LeftHandSideOfIdentifier(a, rest);
    assert rest[0] == ' ' && rest[1] == sym[1];
    assert SkipSpace(rest) == rest[1..];
    TrimmedTagAbsent("=>", rest);
    TrimmedTagAbsent("|", rest);
    TrimmedTagAbsent("&", rest);
    assert OperatorCombinators(Atomic(a), rest).None?;
  }

  /** What the program prints for `a ⋀ b`, `a ⋁ b` and `a ➔ b` does not parse back. */
  lemma RenderDoesNotParse()
    ensures ParseExpression(Render(Binary(Atomic("a"), And, Atomic("b")))).None?
    ensures ParseExpression(Render(Binary(Atomic("a"), Or, Atomic("b")))).None?
    ensures ParseExpression(Render(Binary(Atomic("a"), Implication, Atomic("b")))).None?
  {
    assert IsIdentifier("a");
    RenderedPair(And, AndSymbol);
    RenderedPair(Or, OrSymbol);
    RenderedPair(Implication, ImpliesSymbol);
    ForeignOperatorRejected("a", AndSymbol, "b");
    ForeignOperatorRejected("a", OrSymbol, "b");
    ForeignOperatorRejected("a", ImpliesSymbol, "b");
  }

  /** `a op b` prints as `a`, the operator's symbol, then `b`. */
  lemma RenderedPair(op: BinaryOperator, sym: string)
    requires sym == (match op case And => AndSymbol case Or => OrSymbol case Implication => ImpliesSymbol)
    ensures Render(Binary(Atomic("a"), op, Atomic("b"))) == "a" + (sym + "b")
  {
    var e := Binary(Atomic("a"), op, Atomic("b"));
    assert FmtHelper(Atomic("a"), Some(e)) == "a";
    assert FmtHelper(Atomic("b"), Some(e)) == "b";
  }

  // ---------------------------------------------------------------------
  // Precedence reaches one operand only: the right operand of `|` is one
  // complete conjunction, that of `=>` one complete conjunction or
  // disjunction, and the chain folds every further link to the left
  // ---------------------------------------------------------------------

  /** `a | b & c & d` for any variables. */
  function OrAndAndText(a: string, b: string, c: string, d: string): string
  {
    a + (Spaced(Or) + (b + (Spaced(And) + (c + (Spaced(And) + d)))))
  }

  /**
   * `a | b & c & d` is read `(a | (b & c)) & d`: the disjunction takes
   * `b & c`, and the second `&` then extends the whole disjunction.
   */
  lemma OrTakesOneConjunction(a: string, b: string, c: string, d: string)
    requires IsIdentifier(a) && IsIdentifier(b) && IsIdentifier(c) && IsIdentifier(d)
    ensures ParseExpression(OrAndAndText(a, b, c, d))
      == Some(Binary(Binary(Atomic(a), Or, Binary(Atomic(b), And, Atomic(c))), And, Atomic(d)))
  {
    var t2 := Spaced(And) + d;
    var u1 := b + (Spaced(And) + (c + t2));
    assert OrAndAndText(a, b, c, d) == a + (Spaced(Or) + u1);
    var first := Binary(Atomic(a), Or, Binary(Atomic(b), And, Atomic(c)));
    OrConjunctionStep(a, b, c, t2);
    LastVariable(first, And, d);
    ParseFromFirstStep(a, Spaced(Or) + u1, first, t2, Binary(first, And, Atomic(d)));
  }

  /** `| b & c` followed by `t2` on `a`: the disjunction takes the complete conjunction. */
  lemma OrConjunctionStep(a: string, b: string, c: string, t2: string)
    requires IsIdentifier(b) && IsIdentifier(c)
    requires t2 == [] || !IsIdentifierChar(t2[0])
    ensures OperatorCombinators(Atomic(a), Spaced(Or) + (b + (Spaced(And) + (c + t2))))
      == Some((Binary(Atomic(a), Or, Binary(Atomic(b), And, Atomic(c))), t2))
  {
    var u1 := b + (Spaced(And) + (c + t2));
    assert u1[0] == b[0];
    OrStep(Atomic(a), u1);
    assert Show(Atomic(c)) == c;
    CompleteConjunction(b, Atomic(c), t2);
  }

  /** A last link ` op d` ends the chain with one more node. */
  lemma LastVariable(previous: Expression, op: BinaryOperator, d: string)
    requires IsIdentifier(d)
    ensures ExpressionChain(previous, Spaced(op) + d) == Some((Binary(previous, op, Atomic(d)), []))
  {
    var steps := [Step(op, Atomic(d))];
    assert steps[1..] == [];
    assert Text(steps) == Spaced(op) + (d + []);
    assert d + [] == d;
    ChainParses(previous, steps);
  }

  /** A variable, a first operator step leaving `rest`, and a chain over `rest` that ends the input. */
  lemma ParseFromFirstStep(a: string, s: string, first: Expression, rest: string, result: Expression)
    requires IsIdentifier(a)
    requires s != [] && !IsIdentifierChar(s[0])
    requires OperatorCombinators(Atomic(a), s) == Some((first, rest)) && rest != []
    requires ExpressionChain(first, rest) == Some((result, []))
    ensures ParseExpression(a + s) == Some(result)
  {
    LeftHandSideOfIdentifier(a, s);
    ChainGoesOn(Atomic(a), s, first, rest);
  }

  /** `a => b | c | d` for any variables. */
  function ImpliesOrOrText(a: string, b: string, c: string, d: string): string
  {
    a + (Spaced(Implication) + (b + (Spaced(Or) + (c + (Spaced(Or) + d)))))
  }

  /**
   * `a => b | c | d` is read `(a => (b | c)) | d`: the implication takes
   * `b | c`, and the second `|` then extends the whole implication.
   */
  lemma ImplicationTakesOneDisjunction(a: string, b: string, c: string, d: string)
    requires IsIdentifier(a) && IsIdentifier(b) && IsIdentifier(c) && IsIdentifier(d)
    ensures ParseExpression(ImpliesOrOrText(a, b, c, d))
      == Some(Binary(Binary(Atomic(a), Implication, Binary(Atomic(b), Or, Atomic(c))), Or, Atomic(d)))
  {
    var t2 := Spaced(Or) + d;
    var u1 := b + (Spaced(Or) + (c + t2));
    assert ImpliesOrOrText(a, b, c, d) == a + (Spaced(Implication) + u1);
    var first := Binary(Atomic(a), Implication, Binary(Atomic(b), Or, Atomic(c)));
    ImplicationDisjunctionStep(a, b, c, d);
    LastVariable(first, Or, d);
    ParseFromFirstStep(a, Spaced(Implication) + u1, first, t2, Binary(first, Or, Atomic(d)));
  }

  /** `=> b | c` followed by ` | d` on `a`: the implication takes the complete disjunction `b | c`. */
  lemma ImplicationDisjunctionStep(a: string, b: string, c: string, d: string)
    requires IsIdentifier(b) && IsIdentifier(c) && IsIdentifier(d)
    ensures OperatorCombinators(Atomic(a), Spaced(Implication) + (b + (Spaced(Or) + (c + (Spaced(Or) + d)))))
      == Some((Binary(Atomic(a), Implication, Binary(Atomic(b), Or, Atomic(c))), Spaced(Or) + d))
  {
    var t2 := Spaced(Or) + d;
    assert (c + t2)[0] == c[0];
    VariableBeforeOr(c, d);
    ImplicationOfDisjunction(Atomic(a), b, c + t2, Atomic(c), t2);
  }

  /** A variable followed by ` | d` is the whole right operand `|` takes: no complete conjunction starts there. */
  lemma VariableBeforeOr(c: string, d: string)
    requires IsIdentifier(c) && IsIdentifier(d)
    ensures OperandOf(Or, c + (Spaced(Or) + d)) == Some((Atomic(c), Spaced(Or) + d))
  {
    var t2 := Spaced(Or) + d;
    assert t2[0] == ' ';
    TrimmedTagAbsent("&", t2);
    LoneOperand(Atomic(c), t2);
    LeftHandSideOfIdentifier(c, t2);
  }

  /**
   * The two readings differ in meaning: with `a` true and `d` false, the
   * parsed `(a | (b & c)) & d` is false, where `a | ((b & c) & d)` is true.
   */
  lemma PrecedenceExamples()
    ensures ParseExpression("a | b & c & d")
      == Some(Binary(Binary(Atomic("a"), Or, Binary(Atomic("b"), And, Atomic("c"))), And, Atomic("d")))
    ensures ParseExpression("a => b | c | d")
      == Some(Binary(Binary(Atomic("a"), Implication, Binary(Atomic("b"), Or, Atomic("c"))), Or, Atomic("d")))
    ensures var env := (v: string) => v != "d";
      !Truth(Binary(Binary(Atomic("a"), Or, Binary(Atomic("b"), And, Atomic("c"))), And, Atomic("d")), env)
      && Truth(Binary(Atomic("a"), Or, Binary(Binary(Atomic("b"), And, Atomic("c")), And, Atomic("d"))), env)
  {
    PrecedenceTexts();
    OrTakesOneConjunction("a", "b", "c", "d");
    ImplicationTakesOneDisjunction("a", "b", "c", "d");
  }

  lemma PrecedenceTexts()
    ensures OrAndAndText("a", "b", "c", "d") == "a | b & c & d"
    ensures ImpliesOrOrText("a", "b", "c", "d") == "a => b | c | d"
  {
    SpacedLiterals();
  }

  // ---------------------------------------------------------------------
  // A negated parenthesis inside a disjunction after `=>`:
  // "a => b | !(!c | d & e) => b"
  // ---------------------------------------------------------------------

  /** `(!c | d & e)` followed by `t`. */
  function NegatedGroupText(c: string, d: string, e: string, t: string): string
  {
    "!" + ("(" + (Show(Not(Atomic(c))) + (Spaced(Or) + (d + (Spaced(And) + (Show(Atomic(e)) + (")" + t)))))))
  }

  /** `!(!c | d & e)` is a left-hand side: the negation of `!c | (d & e)`. */
  lemma NegatedGroup(c: string, d: string, e: string, t: string)
    requires IsIdentifier(c) && IsIdentifier(d) && IsIdentifier(e)
    requires t == [] || !IsIdentifierChar(t[0])
    ensures LeftHandSide(NegatedGroupText(c, d, e, t))
      == Some((Not(Binary(Not(Atomic(c)), Or, Binary(Atomic(d), And, Atomic(e)))), t))
  {
    var u1 := d + (Spaced(And) + (Show(Atomic(e)) + (")" + t)));
    var t1 := Spaced(Or) + u1;
    var inner := Show(Not(Atomic(c))) + t1;
    var group := Binary(Not(Atomic(c)), Or, Binary(Atomic(d), And, Atomic(e)));
    CompleteConjunction(d, Atomic(e), ")" + t);
    assert u1[0] == d[0];
    OperatorStep(Not(Atomic(c)), Or, u1);
    LeftHandSideOfShow(Not(Atomic(c)), t1);
    SpacedNoNegation(Or, u1);
    ShowThenText(Not(Atomic(c)), t1);
    ParenthesizedOneStep(inner, Not(Atomic(c)), t1, group, t);
    NegationOf("(" + inner, group, t);
  }

  /** `a => b | !(!c | d & e) => g` for any variables. */
  lemma ParseNegatedGroup(a: string, b: string, c: string, d: string, e: string, g: string)
    requires IsIdentifier(a) && IsIdentifier(b) && IsIdentifier(c)
    requires IsIdentifier(d) && IsIdentifier(e) && IsIdentifier(g)
    ensures ParseExpression(Show(Atomic(a)) + (Spaced(Implication) + (b + (Spaced(Or)
        + NegatedGroupText(c, d, e, Text([Step(Implication, Atomic(g))]))))))
      == Some(Binary(
           Binary(Atomic(a), Implication,
             Binary(Atomic(b), Or, Not(Binary(Not(Atomic(c)), Or, Binary(Atomic(d), And, Atomic(e)))))),
           Implication,
           Atomic(g)))
  {
    var last := [Step(Implication, Atomic(g))];
    var t := Text(last);
    var u2 := NegatedGroupText(c, d, e, t);
    var rest := Spaced(Implication) + (b + (Spaced(Or) + u2));
    var negated := Not(Binary(Not(Atomic(c)), Or, Binary(Atomic(d), And, Atomic(e))));
    var x := Binary(Atomic(a), Implication, Binary(Atomic(b), Or, negated));
    TextStart(last, []);
    assert t + [] == t;
    NegatedGroup(c, d, e, t);
    assert CompleteAnd(u2).None?;
    ImplicationOfDisjunction(Atomic(a), b, u2, negated, t);
    ChainGoesOn(Atomic(a), rest, x, t);
    ChainParses(x, last);
    assert rest[0] == ' ';
    LeftHandSideOfShow(Atomic(a), rest);
  }

  lemma ParseComplex()
    ensures ParseExpression("a => b | !(!c | d & e) => b")
      == Some(Binary(
           Binary(Atomic("a"), Implication,
             Binary(Atomic("b"), Or, Not(Binary(Not(Atomic("c")), Or, Binary(Atomic("d"), And, Atomic("e")))))),
           Implication,
           Atomic("b")))
  {
    ComplexText();
    ParseNegatedGroup("a", "b", "c", "d", "e", "b");
  }

  lemma ComplexText()
    ensures Show(Atomic("a")) + (Spaced(Implication) + ("b" + (Spaced(Or)
        + NegatedGroupText("c", "d", "e", Text([Step(Implication, Atomic("b"))])))))
      == "a => b | !(!c | d & e) => b"
  {
    assert [Step(Implication, Atomic("b"))] == [Step(Implication, Atomic("b"))] + [];
    PrependStep(Implication, Atomic("b"), [], []);
    ComplexLiteral();
  }

  lemma ComplexLiteral()
    ensures Show(Atomic("a")) + (Spaced(Implication) + ("b" + (Spaced(Or)
        + NegatedGroupText("c", "d", "e", Spaced(Implication) + (Show(Atomic("b")) + [])))))
      == "a => b | !(!c | d & e) => b"
  {
    NegatedGroupLiteral();
    ComplexOuterLiteral(NegatedGroupText("c", "d", "e", Spaced(Implication) + (Show(Atomic("b")) + [])));
  }

  lemma ComplexOuterLiteral(group: string)
    requires group == "!(!c | d & e) => b"
    ensures "a" + (Spaced(Implication) + ("b" + (Spaced(Or) + group))) == "a => b | !(!c | d & e) => b"
  {
    SpacedLiterals();
  }

  lemma NegatedGroupLiteral()
    ensures NegatedGroupText("c", "d", "e", Spaced(Implication) + (Show(Atomic("b")) + [])) == "!(!c | d & e) => b"
  {
    SpacedLiterals();
    assert Show(Not(Atomic("c"))) == "!c";
  }

  // ---------------------------------------------------------------------
  // Parentheses, whitespace and a stray negation
  // ---------------------------------------------------------------------

  /** `parenthesized_expression` reads `(A | B | C)` to the end, grouping to the left. */
  lemma ParenthesizedThreeVariables()
    ensures ParenthesizedExpression("(A | B | C)")
      == Some((Binary(Binary(Atomic("A"), Or, Atomic("B")), Or, Atomic("C")), ""))
  {
    var s1, s2 := Step(Or, Atomic("B")), Step(Or, Atomic("C"));
    ThreeVariablesText();
    ParenthesizedPair(Atomic("A"), s1, s2, "");
    ValueNeedsLetter("(A | B | C)");
  }

  lemma ThreeVariablesText()
    ensures "(" + (Show(Atomic("A")) + (Text([Step(Or, Atomic("B")), Step(Or, Atomic("C"))] + []) + (")" + ""))) == "(A | B | C)"
  {
    var s1, s2 := Step(Or, Atomic("B")), Step(Or, Atomic("C"));
    assert [s1, s2] + [] == [s1, s2] && [s1, s2][1..] == [s2] && [s2][1..] == [];
    assert Text([s2]) == " | C";
    assert Text([s1, s2]) == " | B" + " | C";
    assert "(" + ("A" + (" | B | C" + (")" + ""))) == "(A | B | C)";
  }

  /** A third operator inside one pair of parentheses is not accepted. */
  lemma ParenthesizedFourVariables()
    ensures ParseExpression("(a | b | c | d)").None?
  {
    var s1, s2 := Step(Or, Atomic("b")), Step(Or, Atomic("c"));
    var more := [Step(Or, Atomic("d"))];
    FourVariablesText();
    ParenthesizedTooLong(Atomic("a"), s1, s2, more, ")");
  }

  lemma FourVariablesText()
    ensures "(" + (Show(Atomic("a")) + (Text([Step(Or, Atomic("b")), Step(Or, Atomic("c"))] + [Step(Or, Atomic("d"))]) + ")"))
      == "(a | b | c | d)"
  {
    var s1, s2 := Step(Or, Atomic("b")), Step(Or, Atomic("c"));
    var more := [Step(Or, Atomic("d"))];
    assert ([s1, s2] + more)[1..] == [s2] + more && ([s2] + more)[1..] == more && more[1..] == [];
    assert Text(more) == " | d";
    assert Text([s2] + more) == " | c" + " | d";
    assert Text([s1, s2] + more) == " | b" + " | c | d";
    assert "(" + ("a" + (" | b | c | d" + ")")) == "(a | b | c | d)";
  }

  /** A variable alone in parentheses is not accepted. */
  lemma ParenthesizedVariable()
    ensures ParseExpression("(a)").None?
  {
    assert "(" + (Show(Atomic("a")) + (")" + "")) == "(a)";
    ParenthesizedLoneOperand(Atomic("a"), "");
  }

  lemma LeadingSpaceRejected()
    ensures ParseExpression(" a & b").None?
  {
    LeadingSpace(" a & b");
  }

  lemma TrailingSpaceRejected()
    ensures ParseExpression("a & b ").None?
  {
    assert "a & b " == Show(Atomic("a")) + (Text([Step(And, Atomic("b"))]) + " ");
    TrailingSpace(Atomic("a"), [Step(And, Atomic("b"))], " ");
  }

  /** `a!b` is read as `!b`: the variable before the negation is dropped. */
  lemma NegationDropsOperand()
    ensures ParseExpression("a!b") == Some(Not(Atomic("b")))
  {
    assert Show(Atomic("a")) + ("!" + Show(Atomic("b"))) == "a!b";
    NegationAfterOperand(Atomic("a"), Atomic("b"));
  }
}
