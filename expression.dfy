/**
 * The expression tree of a propositional formula and its structural
 * operations: atomicity, the set of variable names, equality with and
 * without ASCII case folding, the "opposite" relation between a formula and
 * its negation, and the Unicode renderer.
 */
module Expressions {
  import opened Options
  import opened Operators

  /** A formula: a negation, a binary connective, or a named variable (the only leaf). */
  datatype Expression =
    | Not(operand: Expression)
    | Binary(left: Expression, op: BinaryOperator, right: Expression)
    | Atomic(name: string)

  /** Number of nodes of a tree. */
  function Size(e: Expression): nat
  {
    match e
    case Not(x) => 1 + Size(x)
    case Binary(l, _, r) => 1 + Size(l) + Size(r)
    case Atomic(_) => 1
  }

  /** `n` negations stacked over `e`. */
  function Negations(n: nat, e: Expression): Expression
  {
    if n == 0 then e else Not(Negations(n - 1, e))
  }

  /** Every node of a tree, the root included. */
  function Subterms(e: Expression): set<Expression>
  {
    match e
    case Not(x) => {e} + Subterms(x)
    case Binary(l, _, r) => {e} + Subterms(l) + Subterms(r)
    case Atomic(_) => {e}
  }

  // ---------------------------------------------------------------------
  // is_atomic and get_atomic_values
  // ---------------------------------------------------------------------

  /** A variable, or a negation of something atomic. */
  predicate IsAtomic(e: Expression)
  {
    match e
    case Not(x) => IsAtomic(x)
    case Binary(_, _, _) => false
    case Atomic(_) => true
  }

  /**
   * Negations never change atomicity: a stack of negations over a variable
   * (`¬¬a` included) is atomic, and one over a binary connective is not.
   */
  lemma {:induction false} NegationsKeepAtomicity(n: nat, e: Expression)
    ensures IsAtomic(Negations(n, e)) <==> IsAtomic(e)
  {
    if n > 0 {
      NegationsKeepAtomicity(n - 1, e);
    }
  }

  /** The set of variable names occurring in a tree. */
  function AtomicValues(e: Expression): set<string>
  {
    match e
    case Not(x) => AtomicValues(x)
    case Binary(l, _, r) => AtomicValues(l) + AtomicValues(r)
    case Atomic(v) => {v}
  }

  /** The variable names are exactly the names of the `Atomic` nodes of the tree. */
  lemma {:induction false} AtomicValuesAreVariableNodes(e: Expression)
    ensures forall v :: v in AtomicValues(e) <==> Atomic(v) in Subterms(e)
  {
    match e
    case Not(x) =>
      AtomicValuesAreVariableNodes(x);
    case Binary(l, _, r) =>
      AtomicValuesAreVariableNodes(l);
      AtomicValuesAreVariableNodes(r);
    case Atomic(_) =>
  }

  // ---------------------------------------------------------------------
  // eq and opposite_eq
  // ---------------------------------------------------------------------

  /** ASCII lower-casing of one character; every other character is left alone. */
  function ToAsciiLower(c: char): char
  {
    if 'A' <= c <= 'Z' then (c as int + 32) as char else c
  }

  /** ASCII lower-casing of a name. */
  function LowerCase(s: string): (r: string)
    ensures |r| == |s|
    ensures forall i :: 0 <= i < |s| ==> r[i] == ToAsciiLower(s[i])
  {
    if s == [] then [] else [ToAsciiLower(s[0])] + LowerCase(s[1..])
  }

  /** Equality of two names up to ASCII case. */
  predicate EqIgnoreAsciiCase(a: string, b: string)
  {
    |a| == |b| && forall i :: 0 <= i < |a| ==> ToAsciiLower(a[i]) == ToAsciiLower(b[i])
  }

  /**
   * Structural equality; with `ignoreCase` the variable names are compared
   * up to ASCII case, while operators and shape are always compared exactly.
   */
  predicate Eq(x: Expression, y: Expression, ignoreCase: bool)
  {
    match (x, y)
    case (Not(l), Not(r)) => Eq(l, r, ignoreCase)
    case (Binary(ll, lop, lr), Binary(rl, rop, rr)) =>
      Eq(ll, rl, ignoreCase) && lop == rop && Eq(lr, rr, ignoreCase)
    case (Atomic(l), Atomic(r)) =>
      if ignoreCase then EqIgnoreAsciiCase(l, r) else l == r
    case _ => false
  }

  /** Without case folding, `Eq` is exactly equality of trees. */
  lemma {:induction false} EqStrictIsEquality(x: Expression, y: Expression)
    ensures Eq(x, y, false) <==> x == y
  {
    match (x, y)
    case (Not(l), Not(r)) =>
      EqStrictIsEquality(l, r);
    case (Binary(ll, _, lr), Binary(rl, _, rr)) =>
      EqStrictIsEquality(ll, rl);
      EqStrictIsEquality(lr, rr);
    case _ =>
  }

  /** `Eq` is reflexive under either flag. */
  lemma {:induction false} EqReflexive(x: Expression, ignoreCase: bool)
    ensures Eq(x, x, ignoreCase)
  {
    match x
    case Not(l) =>
      EqReflexive(l, ignoreCase);
    case Binary(l, _, r) =>
      EqReflexive(l, ignoreCase);
      EqReflexive(r, ignoreCase);
    case Atomic(_) =>
  }

  /** `Eq` is symmetric under either flag. */
  lemma {:induction false} EqSymmetric(x: Expression, y: Expression, ignoreCase: bool)
    ensures Eq(x, y, ignoreCase) <==> Eq(y, x, ignoreCase)
  {
    match (x, y)
    case (Not(l), Not(r)) =>
      EqSymmetric(l, r, ignoreCase);
    case (Binary(ll, _, lr), Binary(rl, _, rr)) =>
      EqSymmetric(ll, rl, ignoreCase);
      EqSymmetric(lr, rr, ignoreCase);
    case _ =>
  }

  /** Trees equal without case folding are equal with it. */
  lemma EqStrictImpliesIgnoreCase(x: Expression, y: Expression)
    ensures Eq(x, y, false) ==> Eq(x, y, true)
  {
    EqStrictIsEquality(x, y);
    if x == y {
      EqReflexive(x, true);
    }
  }

  /** The same tree with every variable name lower-cased. */
  function LowerNames(e: Expression): Expression
  {
    match e
    case Not(x) => Not(LowerNames(x))
    case Binary(l, op, r) => Binary(LowerNames(l), op, LowerNames(r))
    case Atomic(v) => Atomic(LowerCase(v))
  }

  lemma EqIgnoreAsciiCaseIsLowerEquality(a: string, b: string)
    ensures EqIgnoreAsciiCase(a, b) <==> LowerCase(a) == LowerCase(b)
  {
    if LowerCase(a) == LowerCase(b) {
      assert |a| == |b|;
      forall i | 0 <= i < |a|
        ensures ToAsciiLower(a[i]) == ToAsciiLower(b[i])
      {
        assert LowerCase(a)[i] == LowerCase(b)[i];
      }
    }
  }

  /**
   * With case folding, two trees are `Eq` exactly when they coincide after
   * lower-casing every name: names may differ in ASCII case at any depth,
   * operators and shape may not.
   */
  lemma {:induction false} EqIgnoreCaseIsLowerEquality(x: Expression, y: Expression)
    ensures Eq(x, y, true) <==> LowerNames(x) == LowerNames(y)
  {
    match (x, y)
    case (Not(l), Not(r)) =>
      EqIgnoreCaseIsLowerEquality(l, r);
    case (Binary(ll, _, lr), Binary(rl, _, rr)) =>
      EqIgnoreCaseIsLowerEquality(ll, rl);
      EqIgnoreCaseIsLowerEquality(lr, rr);
    case (Atomic(l), Atomic(r)) =>
      EqIgnoreAsciiCaseIsLowerEquality(l, r);
    case _ =>
  }

  /** The shape of a tree: its nodes and operators, with every name erased. */
  function Shape(e: Expression): Expression
  {
    match e
    case Not(x) => Not(Shape(x))
    case Binary(l, op, r) => Binary(Shape(l), op, Shape(r))
    case Atomic(_) => Atomic("")
  }

  /** Trees that are `Eq` under either flag have the same shape and the same operators. */
  lemma {:induction false} EqKeepsShape(x: Expression, y: Expression, ignoreCase: bool)
    requires Eq(x, y, ignoreCase)
    ensures Shape(x) == Shape(y)
  {
    match (x, y)
    case (Not(l), Not(r)) =>
      EqKeepsShape(l, r, ignoreCase);
    case (Binary(ll, _, lr), Binary(rl, _, rr)) =>
      EqKeepsShape(ll, rl, ignoreCase);
      EqKeepsShape(lr, rr, ignoreCase);
    case (Atomic(_), Atomic(_)) =>
  }

  /** One side is a negation and the other is `Eq` to what it negates. */
  predicate OppositeEq(x: Expression, y: Expression, ignoreCase: bool)
  {
    match (x, y)
    case (Not(_), Not(_)) => false
    case (Not(l), _) => Eq(l, y, ignoreCase)
    case (_, Not(r)) => Eq(x, r, ignoreCase)
    case _ => false
  }

  /**
   * Exactly one side must be a negation, and its operand must be `Eq` to the
   * other side; the relation is symmetric.
   */
  lemma OppositeEqCharacterization(x: Expression, y: Expression, ignoreCase: bool)
    ensures OppositeEq(x, y, ignoreCase) <==>
      (x.Not? && !y.Not? && Eq(x.operand, y, ignoreCase)) ||
      (!x.Not? && y.Not? && Eq(x, y.operand, ignoreCase))
    ensures OppositeEq(x, y, ignoreCase) <==> OppositeEq(y, x, ignoreCase)
  {
    if x.Not? && !y.Not? {
      EqSymmetric(x.operand, y, ignoreCase);
    } else if !x.Not? && y.Not? {
      EqSymmetric(x, y.operand, ignoreCase);
    }
  }

  /** Without case folding, `x` and `y` are opposites iff one is the negation of the other, a non-negation. */
  lemma OppositeEqStrict(x: Expression, y: Expression)
    ensures OppositeEq(x, y, false) <==>
      (x == Not(y) && !y.Not?) || (y == Not(x) && !x.Not?)
  {
    if x.Not? {
      EqStrictIsEquality(x.operand, y);
    }
    if y.Not? {
      EqStrictIsEquality(x, y.operand);
    }
  }

  lemma EqExamples()
    ensures Eq(Atomic("a"), Atomic("A"), true)
    ensures Eq(Not(Atomic("a")), Not(Atomic("A")), true)
    ensures Eq(Binary(Atomic("a"), And, Atomic("b")), Binary(Atomic("A"), And, Atomic("B")), true)
    ensures Eq(Binary(Atomic("a"), Or, Atomic("b")), Binary(Atomic("a"), Or, Atomic("b")), true)
    ensures !Eq(Binary(Atomic("a"), Or, Atomic("b")), Binary(Atomic("a"), Or, Atomic("c")), true)
    ensures !Eq(Binary(Atomic("a"), Or, Atomic("b")), Binary(Atomic("a"), Or, Atomic("B")), false)
  {
    assert EqIgnoreAsciiCase("a", "A");
    assert EqIgnoreAsciiCase("b", "B");
    assert !EqIgnoreAsciiCase("b", "c") by {
      assert ToAsciiLower("b"[0]) != ToAsciiLower("c"[0]);
    }
  }

  // ---------------------------------------------------------------------
  // Truth semantics (written for the model; the program has no evaluator)
  // ---------------------------------------------------------------------

  /** The truth value of a formula under an assignment of the variables. */
  function Truth(e: Expression, env: string -> bool): bool
  {
    match e
    case Not(x) => !Truth(x, env)
    case Binary(l, op, r) => Apply(op, Truth(l, env), Truth(r, env))
    case Atomic(v) => env(v)
  }

  // ---------------------------------------------------------------------
  // The renderer (Display / fmt_helper)
  // ---------------------------------------------------------------------

  const NotSymbol: string := "\U{00AC}"
  const AndSymbol: string := " \U{22C0} "
  const OrSymbol: string := " \U{22C1} "
  const ImpliesSymbol: string := " \U{2794} "

  /** An `Or` is printed without parentheses at the root and under an `Or` or an implication. */
  predicate OrIsBare(parent: Option<Expression>)
  {
    parent.None? || (parent.value.Binary? && (parent.value.op == Or || parent.value.op == Implication))
  }

  /** Renders `e`, given the node it hangs under (`None` at the root). */
  function FmtHelper(e: Expression, parent: Option<Expression>): string
  {
    match e
    case Not(x) =>
      if IsAtomic(x) then NotSymbol + FmtHelper(x, Some(e))
      else NotSymbol + "(" + FmtHelper(x, Some(e)) + ")"
    case Binary(l, And, r) =>
      FmtHelper(l, Some(e)) + AndSymbol + FmtHelper(r, Some(e))
    case Binary(l, Or, r) =>
      if OrIsBare(parent) then FmtHelper(l, Some(e)) + OrSymbol + FmtHelper(r, Some(e))
      else "(" + FmtHelper(l, Some(e)) + OrSymbol + FmtHelper(r, Some(e)) + ")"
    case Binary(l, Implication, r) =>
      FmtHelper(l, Some(e)) + ImpliesSymbol + FmtHelper(r, Some(e))
    case Atomic(v) => v
  }

  /** The rendering of a whole expression (`to_string`). */
  function Render(e: Expression): string
  {
    FmtHelper(e, None)
  }

  /** A node rendered as a child of `parent`: an `Or` wrapped in parentheses where its parent asks for them. */
  function InContext(e: Expression, parent: Option<Expression>): string
  {
    if e.Binary? && e.op == Or && !OrIsBare(parent) then "(" + Render(e) + ")" else Render(e)
  }

  /**
   * The parent changes nothing but the parentheses around an `Or`: every
   * node renders as it would at the root, an `Or` under an `And` or a `Not`
   * wrapped in one pair of parentheses.
   */
  lemma ParentOnlyWrapsOr(e: Expression, parent: Option<Expression>)
    ensures FmtHelper(e, parent) == InContext(e, parent)
  {
  }

  /**
   * The rendering rules stated on whole renderings: a negated atomic operand
   * is printed bare and any other operand in parentheses; `And` parenthesises
   * an `Or` operand; `Or` and implication print their operands bare.
   */
  lemma RenderRules(e: Expression)
    ensures e.Not? && IsAtomic(e.operand) ==> Render(e) == NotSymbol + Render(e.operand)
    ensures e.Not? && !IsAtomic(e.operand) ==>
      Render(e) == NotSymbol + "(" + InContext(e.operand, Some(e)) + ")"
    ensures e.Binary? && e.op == And ==>
      Render(e) == InContext(e.left, Some(e)) + AndSymbol + InContext(e.right, Some(e))
    ensures e.Binary? && e.op == Or ==>
      Render(e) == Render(e.left) + OrSymbol + Render(e.right)
    ensures e.Binary? && e.op == Implication ==>
      Render(e) == Render(e.left) + ImpliesSymbol + Render(e.right)
  {
    match e
    case Not(x) =>
      ParentOnlyWrapsOr(x, Some(e));
      if IsAtomic(x) {
        assert !x.Binary?;
      }
    case Binary(l, _, r) =>
      ParentOnlyWrapsOr(l, Some(e));
      ParentOnlyWrapsOr(r, Some(e));
    case Atomic(_) =>
  }

  /** A negated `Or` gets two pairs of parentheses: one from the negation, one from the `Or`. */
  lemma NegatedOrDoubleParentheses(a: Expression, b: Expression)
    ensures Render(Not(Binary(a, Or, b))) == NotSymbol + "((" + Render(a) + OrSymbol + Render(b) + "))"
  {
    var o := Binary(a, Or, b);
    RenderRules(Not(o));
    RenderRules(o);
    ParentOnlyWrapsOr(a, Some(o));
    ParentOnlyWrapsOr(b, Some(o));
    assert InContext(o, Some(Not(o))) == "(" + Render(a) + OrSymbol + Render(b) + ")";
  }

  /** A node's rendering is never shorter than its rendering at the root. */
  lemma InContextLength(e: Expression, parent: Option<Expression>)
    ensures |Render(e)| <= |FmtHelper(e, parent)|
  {
    ParentOnlyWrapsOr(e, parent);
  }

  /** Every proper sub-expression renders strictly shorter than the whole expression. */
  lemma {:induction false} SubtermRendersShorter(e: Expression, t: Expression)
    requires t in Subterms(e) && t != e
    ensures |Render(t)| < |Render(e)|
  {
    match e
    case Not(x) =>
      InContextLength(x, Some(e));
      if t != x {
        SubtermRendersShorter(x, t);
      }
    case Binary(l, _, r) =>
      InContextLength(l, Some(e));
      InContextLength(r, Some(e));
      if t in Subterms(l) && t != l {
        SubtermRendersShorter(l, t);
      } else if t in Subterms(r) && t != r {
        SubtermRendersShorter(r, t);
      }
    case Atomic(_) =>
  }

  /**
   * Rendering loses the grouping of a chain of one operator: `(a ➔ b) ➔ c`
   * and `a ➔ (b ➔ c)` print alike although they differ in truth value.
   */
  lemma RenderForgetsGrouping()
    ensures var a, b, c := Atomic("a"), Atomic("b"), Atomic("c");
      var left := Binary(Binary(a, Implication, b), Implication, c);
      var right := Binary(a, Implication, Binary(b, Implication, c));
      && left != right
      && Render(left) == Render(right)
      && Truth(left, (v: string) => false) != Truth(right, (v: string) => false)
  {
  }

  lemma RenderAndNotExample()
    ensures Render(Binary(Atomic("a"), And, Not(Atomic("b")))) == "a \U{22C0} \U{00AC}b"
  {
  }

  lemma RenderOrAndExample()
    ensures Render(Binary(Atomic("a"), Or, Binary(Atomic("b"), And, Atomic("c")))) == "a \U{22C1} b \U{22C0} c"
  {
  }

  lemma RenderOrExample()
    ensures Render(Binary(Atomic("a"), Or, Atomic("b"))) == "a \U{22C1} b"
  {
  }

  lemma RenderDoubleOrExample()
    ensures Render(Binary(Atomic("a"), Or, Binary(Atomic("b"), Or, Atomic("c")))) == "a \U{22C1} b \U{22C1} c"
  {
  }

  lemma RenderTripleOrExample()
    ensures Render(Binary(Atomic("a"), Or, Binary(Atomic("b"), Or, Binary(Atomic("c"), Or, Atomic("d")))))
      == "a \U{22C1} b \U{22C1} c \U{22C1} d"
  {
  }

  lemma RenderNestedOrExample()
    ensures Render(Binary(Atomic("a"), Or, Binary(Atomic("b"), And, Binary(Atomic("b"), Or, Atomic("c")))))
      == "a \U{22C1} b \U{22C0} (b \U{22C1} c)"
  {
  }

  lemma RenderOrUnderAndExample()
    ensures Render(Binary(Binary(Atomic("a"), Or, Atomic("b")), And, Atomic("c"))) == "(a \U{22C1} b) \U{22C0} c"
  {
  }

  lemma RenderImpliesExample()
    ensures Render(Binary(Atomic("a"), Implication, Atomic("b"))) == "a \U{2794} b"
  {
  }

  lemma RenderNotAndExample()
    ensures Render(Not(Binary(Atomic("a"), And, Atomic("b")))) == "\U{00AC}(a \U{22C0} b)"
  {
  }

  lemma RenderNotOrExample()
    ensures Render(Not(Binary(Atomic("a"), Or, Atomic("b")))) == "\U{00AC}((a \U{22C1} b))"
  {
  }

  lemma RenderDoubleNotExample()
    ensures Render(Not(Not(Atomic("a")))) == "\U{00AC}\U{00AC}a"
  {
  }
}
