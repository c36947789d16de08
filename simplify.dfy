/**
 * The rewrite passes of the simplifier. Each pass is a recursive rewrite
 * that builds a new tree; `Simplify` runs five of them once, in a fixed
 * order. Truth preservation is stated with `Expressions.Truth`, under which
 * an implication `l ➔ r` means `¬l ⋁ r`.
 */
module Simplify {
  import opened Expressions
  import opened Operators
  import H = Helpers

  /** No implication anywhere in the tree. */
  predicate NoImplication(e: Expression)
  {
    match e
    case Not(x) => NoImplication(x)
    case Binary(l, op, r) => op != Implication && NoImplication(l) && NoImplication(r)
    case Atomic(_) => true
  }

  /** No negation directly over another negation, anywhere in the tree. */
  predicate NoDoubleNegation(e: Expression)
  {
    match e
    case Not(x) => !x.Not? && NoDoubleNegation(x)
    case Binary(l, _, r) => NoDoubleNegation(l) && NoDoubleNegation(r)
    case Atomic(_) => true
  }

  /** Number of binary nodes. */
  function BinaryCount(e: Expression): nat
  {
    match e
    case Not(x) => BinaryCount(x)
    case Binary(l, _, r) => 1 + BinaryCount(l) + BinaryCount(r)
    case Atomic(_) => 0
  }

  /**
   * The pipeline, one pass each in a fixed order: implications are removed,
   * negations pushed inward, absorption and distribution applied, and double
   * negations removed last. The associative and commutative laws are not part
   * of it.
   */
  function Simplify(e: Expression): (r: Expression)
    ensures NoImplication(r)
    ensures NoDoubleNegation(r)
  {
    DoubleNegationElimination(DistributionLaw(AbsorptionLaw(DeMorgansLaws(EliminationOfImplication(e)))))
  }

  /** The children of an implication-free node are implication-free. */
  lemma NoImplicationBelow(e: Expression)
    ensures NoImplication(e) && e.Not? ==> NoImplication(e.operand)
    ensures NoImplication(e) && e.Binary? ==> NoImplication(e.left) && NoImplication(e.right)
  {
  }

  /** The same, two levels down. */
  lemma NoImplicationTwoBelow(e: Expression)
    ensures NoImplication(e) && e.Not? && e.operand.Not? ==> NoImplication(e.operand.operand)
    ensures NoImplication(e) && e.Not? && e.operand.Binary? ==>
      NoImplication(e.operand.left) && NoImplication(e.operand.right)
    ensures NoImplication(e) && e.Binary? && e.left.Binary? ==>
      NoImplication(e.left.left) && NoImplication(e.left.right)
    ensures NoImplication(e) && e.Binary? && e.right.Binary? ==>
      NoImplication(e.right.left) && NoImplication(e.right.right)
  {
    NoImplicationBelow(e);
    if e.Not? {
      NoImplicationBelow(e.operand);
    } else if e.Binary? {
      NoImplicationBelow(e.left);
      NoImplicationBelow(e.right);
    }
  }

  // ---------------------------------------------------------------------
  // Elimination of implication: a ➔ b becomes ¬a ⋁ b
  // ---------------------------------------------------------------------

  function EliminationOfImplication(e: Expression): (r: Expression)
    ensures NoImplication(r)
  {
    match e
    case Not(x) => H.Not(EliminationOfImplication(x))
    case Binary(l, Implication, r) =>
      H.Or(H.Not(EliminationOfImplication(l)), EliminationOfImplication(r))
    case Binary(l, op, r) =>
      H.Binary(EliminationOfImplication(l), op, EliminationOfImplication(r))
    case Atomic(_) => e
  }

  lemma {:induction false} EliminationOfImplicationPreservesTruth(e: Expression, env: string -> bool)
    ensures Truth(EliminationOfImplication(e), env) == Truth(e, env)
  {
    match e
    case Not(x) =>
      EliminationOfImplicationPreservesTruth(x, env);
    case Binary(l, _, r) =>
      EliminationOfImplicationPreservesTruth(l, env);
      EliminationOfImplicationPreservesTruth(r, env);
    case Atomic(_) =>
  }

  /** A tree without implications comes back unchanged. */
  lemma {:induction false} EliminationOfImplicationKeepsImplicationFree(e: Expression)
    requires NoImplication(e)
    ensures EliminationOfImplication(e) == e
  {
    match e
    case Not(x) =>
      EliminationOfImplicationKeepsImplicationFree(x);
    case Binary(l, _, r) =>
      EliminationOfImplicationKeepsImplicationFree(l);
      EliminationOfImplicationKeepsImplicationFree(r);
    case Atomic(_) =>
  }

  lemma EliminationOfImplicationExamples()
    ensures EliminationOfImplication(H.Implies(H.Atomic("a"), H.Atomic("b")))
      == H.Or(H.Not(H.Atomic("a")), H.Atomic("b"))
    ensures EliminationOfImplication(H.Implies(H.Atomic("a"), H.Implies(H.Atomic("b"), H.Atomic("c"))))
      == H.Or(H.Not(H.Atomic("a")), H.Or(H.Not(H.Atomic("b")), H.Atomic("c")))
    ensures EliminationOfImplication(H.And(H.Atomic("a"), H.Atomic("b")))
      == H.And(H.Atomic("a"), H.Atomic("b"))
    ensures EliminationOfImplication(H.Or(H.Atomic("a"), H.And(H.Atomic("b"), H.Atomic("c"))))
      == H.Or(H.Atomic("a"), H.And(H.Atomic("b"), H.Atomic("c")))
  {
  }

  // ---------------------------------------------------------------------
  // Double negation elimination: ¬¬a becomes a
  // ---------------------------------------------------------------------

  function DoubleNegationElimination(e: Expression): (r: Expression)
    ensures NoDoubleNegation(r)
    ensures !e.Not? ==> !r.Not?
    ensures NoImplication(e) ==> NoImplication(r)
  {
    match e
    case Not(x) =>
      if x.Not? then
        NoImplicationTwoBelow(e);
        DoubleNegationElimination(x.operand)
      else H.Not(DoubleNegationElimination(x))
    case Binary(l, op, r) =>
      H.Binary(DoubleNegationElimination(l), op, DoubleNegationElimination(r))
    case Atomic(_) => e
  }

  lemma {:induction false} DoubleNegationEliminationPreservesTruth(e: Expression, env: string -> bool)
    ensures Truth(DoubleNegationElimination(e), env) == Truth(e, env)
  {
    match e
    case Not(x) =>
      if x.Not? {
        DoubleNegationEliminationPreservesTruth(x.operand, env);
      } else {
        DoubleNegationEliminationPreservesTruth(x, env);
      }
    case Binary(l, _, r) =>
      DoubleNegationEliminationPreservesTruth(l, env);
      DoubleNegationEliminationPreservesTruth(r, env);
    case Atomic(_) =>
  }

  /** A tree without double negations is a fixed point of the pass. */
  lemma {:induction false} DoubleNegationEliminationFixesNormalForms(e: Expression)
    requires NoDoubleNegation(e)
    ensures DoubleNegationElimination(e) == e
  {
    match e
    case Not(x) =>
      DoubleNegationEliminationFixesNormalForms(x);
    case Binary(l, _, r) =>
      DoubleNegationEliminationFixesNormalForms(l);
      DoubleNegationEliminationFixesNormalForms(r);
    case Atomic(_) =>
  }

  /** The pass is idempotent. */
  lemma DoubleNegationEliminationIdempotent(e: Expression)
    ensures DoubleNegationElimination(DoubleNegationElimination(e)) == DoubleNegationElimination(e)
  {
    DoubleNegationEliminationFixesNormalForms(DoubleNegationElimination(e));
  }

  /** `n` negations over a variable collapse to `n mod 2` of them. */
  lemma {:induction false} DoubleNegationEliminationParity(n: nat, v: string)
    ensures DoubleNegationElimination(Negations(n, Atomic(v))) == Negations(n % 2, Atomic(v))
  {
    if n >= 2 {
      assert Negations(n, Atomic(v)) == Not(Not(Negations(n - 2, Atomic(v))));
      DoubleNegationEliminationParity(n - 2, v);
    }
  }

  lemma DoubleNegationEliminationExamples()
    ensures DoubleNegationElimination(H.Not(H.Not(H.Atomic("a")))) == H.Atomic("a")
    ensures DoubleNegationElimination(H.Not(H.Not(H.Not(H.Atomic("a"))))) == H.Not(H.Atomic("a"))
    ensures DoubleNegationElimination(H.Atomic("a")) == H.Atomic("a")
    ensures DoubleNegationElimination(
        H.And(H.Or(H.Not(H.Not(H.Atomic("a"))), H.Atomic("b")), H.Not(H.Not(H.Atomic("c")))))
      == H.And(H.Or(H.Atomic("a"), H.Atomic("b")), H.Atomic("c"))
  {
  }

  // ---------------------------------------------------------------------
  // De Morgan's laws: ¬(a ⋀ b) becomes ¬a ⋁ ¬b and ¬(a ⋁ b) becomes ¬a ⋀ ¬b
  // ---------------------------------------------------------------------

  /**
   * After rewriting a negated `And` or `Or`, the pass runs again on the node
   * it has just built, which is not smaller; it terminates because the number
   * of binary nodes never changes and the rebuilt node is a binary, not a
   * negation.
   */
  function DeMorgansLaws(e: Expression): (r: Expression)
    ensures BinaryCount(r) == BinaryCount(e)
    ensures NoImplication(e) ==> NoImplication(r)
    decreases BinaryCount(e), if e.Not? then 1 else 0, Size(e)
  {
    NoImplicationTwoBelow(e);
    match e
    case Not(x) =>
      (match x
       case Binary(l, And, r) =>
         var pushed := H.Or(H.Not(DeMorgansLaws(l)), H.Not(DeMorgansLaws(r)));
         NoImplicationBelow(pushed.left);
         NoImplicationBelow(pushed.right);
         assert BinaryCount(pushed) == BinaryCount(e);
         assert NoImplication(e) ==> NoImplication(pushed);
         DeMorgansLaws(pushed)
       case Binary(l, Or, r) =>
         var pushed := H.And(H.Not(DeMorgansLaws(l)), H.Not(DeMorgansLaws(r)));
         NoImplicationBelow(pushed.left);
         NoImplicationBelow(pushed.right);
         assert BinaryCount(pushed) == BinaryCount(e);
         assert NoImplication(e) ==> NoImplication(pushed);
         DeMorgansLaws(pushed)
       case _ => H.Not(DeMorgansLaws(x)))
    case Binary(l, op, r) => H.Binary(DeMorgansLaws(l), op, DeMorgansLaws(r))
    case Atomic(_) => e
  }

  lemma {:induction false} DeMorgansLawsPreservesTruth(e: Expression, env: string -> bool)
    ensures Truth(DeMorgansLaws(e), env) == Truth(e, env)
    decreases BinaryCount(e), if e.Not? then 1 else 0, Size(e)
  {
    match e
    case Not(x) =>
      match x {
        case Binary(l, And, r) =>
          DeMorgansLawsPreservesTruth(l, env);
          DeMorgansLawsPreservesTruth(r, env);
          var pushed := H.Or(H.Not(DeMorgansLaws(l)), H.Not(DeMorgansLaws(r)));
          assert BinaryCount(pushed) == BinaryCount(e);
          DeMorgansLawsPreservesTruth(pushed, env);
        case Binary(l, Or, r) =>
          DeMorgansLawsPreservesTruth(l, env);
          DeMorgansLawsPreservesTruth(r, env);
          var pushed := H.And(H.Not(DeMorgansLaws(l)), H.Not(DeMorgansLaws(r)));
          assert BinaryCount(pushed) == BinaryCount(e);
          DeMorgansLawsPreservesTruth(pushed, env);
        case _ =>
          DeMorgansLawsPreservesTruth(x, env);
      }
    case Binary(l, _, r) =>
      DeMorgansLawsPreservesTruth(l, env);
      DeMorgansLawsPreservesTruth(r, env);
    case Atomic(_) =>
  }

  lemma DeMorgansLawsExamples()
    ensures DeMorgansLaws(H.Not(H.And(H.Atomic("a"), H.Atomic("b"))))
      == H.Or(H.Not(H.Atomic("a")), H.Not(H.Atomic("b")))
    ensures DeMorgansLaws(H.Not(H.Or(H.Atomic("a"), H.Atomic("b"))))
      == H.And(H.Not(H.Atomic("a")), H.Not(H.Atomic("b")))
  {
  }

  lemma DeMorgansLawsNestedExamples()
    ensures DeMorgansLaws(H.Not(H.Or(H.And(H.Atomic("a"), H.Atomic("b")), H.Atomic("c"))))
      == H.And(H.Or(H.Not(H.Atomic("a")), H.Not(H.Atomic("b"))), H.Not(H.Atomic("c")))
    ensures DeMorgansLaws(H.Not(H.And(H.Or(H.Atomic("a"), H.Atomic("b")), H.Atomic("c"))))
      == H.Or(H.And(H.Not(H.Atomic("a")), H.Not(H.Atomic("b"))), H.Not(H.Atomic("c")))
    ensures DeMorgansLaws(H.Not(H.And(H.Or(H.Atomic("a"), H.Atomic("b")), H.Or(H.Atomic("c"), H.Atomic("d")))))
      == H.Or(H.And(H.Not(H.Atomic("a")), H.Not(H.Atomic("b"))), H.And(H.Not(H.Atomic("c")), H.Not(H.Atomic("d"))))
  {
  }

  /** No negation directly over a conjunction or a disjunction, anywhere in the tree. */
  predicate NoNegatedAndOr(e: Expression)
  {
    match e
    case Not(x) => !(x.Binary? && x.op != Implication) && NoNegatedAndOr(x)
    case Binary(l, _, r) => NoNegatedAndOr(l) && NoNegatedAndOr(r)
    case Atomic(_) => true
  }

  /**
   * No two negations directly over a conjunction or a disjunction, anywhere
   * in the tree: the inputs on which the pass pushes every negation down.
   */
  predicate NoDoublyNegatedAndOr(e: Expression)
  {
    match e
    case Not(x) =>
      !(x.Not? && x.operand.Binary? && x.operand.op != Implication) && NoDoublyNegatedAndOr(x)
    case Binary(l, _, r) => NoDoublyNegatedAndOr(l) && NoDoublyNegatedAndOr(r)
    case Atomic(_) => true
  }

  lemma {:induction false} PushedDownHasNoDoublyNegated(e: Expression)
    requires NoNegatedAndOr(e)
    ensures NoDoublyNegatedAndOr(e)
  {
    match e
    case Not(x) => PushedDownHasNoDoublyNegated(x);
    case Binary(l, _, r) =>
      PushedDownHasNoDoublyNegated(l);
      PushedDownHasNoDoublyNegated(r);
    case Atomic(_) =>
  }

  /**
   * The pass leaves no negation over a conjunction or a disjunction, as long
   * as no such node sits under two negations: `¬¬(a ⋀ b)` is rewritten one
   * level down only, to `¬(¬a ⋁ ¬b)` (see `DeMorgansLawsUnderDoubleNegation`).
   */
  lemma {:induction false} DeMorgansPushesDown(e: Expression)
    requires NoDoublyNegatedAndOr(e)
    ensures NoNegatedAndOr(DeMorgansLaws(e))
    decreases BinaryCount(e), if e.Not? then 1 else 0, Size(e)
  {
    match e
    case Not(x) =>
      match x {
        case Binary(l, And, r) =>
          assert BinaryCount(e) == 1 + BinaryCount(l) + BinaryCount(r);
          DeMorgansPushesDown(l);
          DeMorgansPushesDown(r);
          NegationOfPushedDown(DeMorgansLaws(l));
          NegationOfPushedDown(DeMorgansLaws(r));
          var pushed := H.Or(H.Not(DeMorgansLaws(l)), H.Not(DeMorgansLaws(r)));
          assert BinaryCount(pushed) == BinaryCount(e);
          DeMorgansPushesDown(pushed);
        case Binary(l, Or, r) =>
          assert BinaryCount(e) == 1 + BinaryCount(l) + BinaryCount(r);
          DeMorgansPushesDown(l);
          DeMorgansPushesDown(r);
          NegationOfPushedDown(DeMorgansLaws(l));
          NegationOfPushedDown(DeMorgansLaws(r));
          var pushed := H.And(H.Not(DeMorgansLaws(l)), H.Not(DeMorgansLaws(r)));
          assert BinaryCount(pushed) == BinaryCount(e);
          DeMorgansPushesDown(pushed);
        case _ =>
          DeMorgansPushesDown(x);
      }
    case Binary(l, _, r) =>
      DeMorgansPushesDown(l);
      DeMorgansPushesDown(r);
    case Atomic(_) =>
  }

  /** Negating a tree with no negated group leaves no doubly negated group. */
  lemma NegationOfPushedDown(x: Expression)
    requires NoNegatedAndOr(x)
    ensures NoDoublyNegatedAndOr(Not(x))
  {
    PushedDownHasNoDoublyNegated(x);
  }

  /** Inputs without a double negation are among those the pass pushes down completely. */
  lemma {:induction false} DeMorgansPushesDownWithoutDoubleNegation(e: Expression)
    requires NoDoubleNegation(e)
    ensures NoNegatedAndOr(DeMorgansLaws(e))
  {
    NoDoubleNegationHasNoDoublyNegated(e);
    DeMorgansPushesDown(e);
  }

  lemma {:induction false} NoDoubleNegationHasNoDoublyNegated(e: Expression)
    requires NoDoubleNegation(e)
    ensures NoDoublyNegatedAndOr(e)
  {
    match e
    case Not(x) => NoDoubleNegationHasNoDoublyNegated(x);
    case Binary(l, _, r) =>
      NoDoubleNegationHasNoDoublyNegated(l);
      NoDoubleNegationHasNoDoublyNegated(r);
    case Atomic(_) =>
  }

  /**
   * Under two negations the pass rewrites a group once and stops: the outer
   * negation stays over a disjunction. Double negations are removed only at
   * the end of the pipeline, so `simplify` returns the same tree; a negated
   * conjunction on the left of an implication reaches the pass in this form,
   * since implication elimination negates the left operand.
   */
  lemma DeMorgansLawsUnderDoubleNegation()
    ensures var input := H.Not(H.Not(H.And(H.Atomic("a"), H.Atomic("b"))));
      && DeMorgansLaws(input) == H.Not(H.Or(H.Not(H.Atomic("a")), H.Not(H.Atomic("b"))))
      && !NoNegatedAndOr(DeMorgansLaws(input))
      && Simplify(input) == H.Not(H.Or(H.Not(H.Atomic("a")), H.Not(H.Atomic("b"))))
    ensures Simplify(H.Implies(H.Not(H.And(H.Atomic("a"), H.Atomic("b"))), H.Atomic("c")))
      == H.Or(H.Not(H.Or(H.Not(H.Atomic("a")), H.Not(H.Atomic("b")))), H.Atomic("c"))
  {
  }

  /**
   * The pipeline is no fixed point: the negation it leaves over `¬a ⋁ ¬b`
   * is pushed down by a second run, whose result differs from the first.
   */
  lemma SimplifyNotIdempotent()
    ensures var once := Simplify(H.Not(H.Not(H.And(H.Atomic("a"), H.Atomic("b")))));
      && once == H.Not(H.Or(H.Not(H.Atomic("a")), H.Not(H.Atomic("b"))))
      && Simplify(once) == H.And(H.Atomic("a"), H.Atomic("b"))
      && Simplify(once) != once
  {
    DeMorgansLawsUnderDoubleNegation();
  }

  // ---------------------------------------------------------------------
  // Absorption: a ⋀ (a ⋁ b) becomes a, a ⋁ (a ⋀ b) becomes a,
  // and the opposite-literal variants
  // ---------------------------------------------------------------------

  /**
   * Equality is structural and case-sensitive here, and `OppositeEq` is
   * asked without case folding. In the program, each opposite-literal branch
   * re-tests the condition its guard has just established, so its `else if`
   * alternative can never run; it is left out.
   */
  function AbsorptionLaw(e: Expression): (res: Expression)
    ensures Size(res) <= Size(e)
    ensures AtomicValues(res) <= AtomicValues(e)
    ensures NoImplication(e) ==> NoImplication(res)
  {
    NoImplicationTwoBelow(e);
    match e
    case Binary(left, And, right) =>
      if right.Binary? && right.op == Or then
        if left == right.left || left == right.right then AbsorptionLaw(left)
        else if IsAtomic(right.left) && IsAtomic(right.right) && OppositeEq(left, right.left, false) then
          H.And(AbsorptionLaw(left), AbsorptionLaw(right.left))
        else H.And(AbsorptionLaw(left), AbsorptionLaw(right))
      else if left.Binary? && left.op == Or then
        if right == left.left || right == left.right then AbsorptionLaw(right)
        else if IsAtomic(left.left) && IsAtomic(left.right) && OppositeEq(right, left.left, false) then
          H.And(AbsorptionLaw(left.right), AbsorptionLaw(right))
        else H.And(AbsorptionLaw(left), AbsorptionLaw(right))
      else H.And(AbsorptionLaw(left), AbsorptionLaw(right))
    case Binary(left, Or, right) =>
      if right.Binary? && right.op == And then
        if left == right.left || left == right.right then AbsorptionLaw(left)
        else if IsAtomic(right.left) && IsAtomic(right.right) && OppositeEq(left, right.left, false) then
          H.Or(AbsorptionLaw(left), AbsorptionLaw(right.left))
        else H.Or(AbsorptionLaw(left), AbsorptionLaw(right))
      else if left.Binary? && left.op == And then
        if right == left.left || right == left.right then AbsorptionLaw(right)
        else if IsAtomic(left.left) && IsAtomic(left.right) && OppositeEq(right, left.left, false) then
          H.Or(AbsorptionLaw(left.right), AbsorptionLaw(right))
        else H.Or(AbsorptionLaw(left), AbsorptionLaw(right))
      else H.Or(AbsorptionLaw(left), AbsorptionLaw(right))
    case Binary(left, op, right) => H.Binary(AbsorptionLaw(left), op, AbsorptionLaw(right))
    case Not(x) => H.Not(AbsorptionLaw(x))
    case Atomic(_) => e
  }

  /**
   * The absorption laws proper: a lone operand equal to either operand of the
   * complementary connective on the other side absorbs it, in both positions.
   */
  lemma AbsorptionAbsorbs(a: Expression, b: Expression, op: BinaryOperator)
    requires op != Implication
    ensures var dual := if op == And then Or else And;
      && AbsorptionLaw(Binary(a, op, Binary(a, dual, b))) == AbsorptionLaw(a)
      && AbsorptionLaw(Binary(a, op, Binary(b, dual, a))) == AbsorptionLaw(a)
      && (!(a.Binary? && a.op == dual) ==> AbsorptionLaw(Binary(Binary(a, dual, b), op, a)) == AbsorptionLaw(a))
      && (!(a.Binary? && a.op == dual) ==> AbsorptionLaw(Binary(Binary(b, dual, a), op, a)) == AbsorptionLaw(a))
  {
  }

  /**
   * With the compound on the left holding two literals, the first of them
   * opposite to the outer operand, the remaining literal is joined to the
   * outer operand: (¬a ⋀ b) ⋁ a gives b ⋁ a.
   */
  lemma AbsorptionKeepsRemainder(p: Expression, q: Expression, outer: Expression, op: BinaryOperator)
    requires op != Implication
    requires IsAtomic(p) && IsAtomic(q) && OppositeEq(outer, p, false)
    requires outer != q
    ensures var dual := if op == And then Or else And;
      AbsorptionLaw(Binary(Binary(p, dual, q), op, outer)) == Binary(q, op, outer)
  {
    OppositeEqStrict(outer, p);
    assert outer != p;
    NegationsIdentity(p);
    NegationsIdentity(q);
    NegationsIdentity(outer);
  }

  /** The absorption pass leaves literals (variables and their negations) alone. */
  lemma {:induction false} NegationsIdentity(e: Expression)
    requires IsAtomic(e)
    ensures AbsorptionLaw(e) == e
  {
    if e.Not? {
      NegationsIdentity(e.operand);
    }
  }

  /**
   * With the compound on the right, the opposite-literal branch keeps the
   * outer operand and the inner literal it is opposite to: a ⋀ (¬a ⋁ b) gives
   * a ⋀ ¬a, which is not equivalent to the input. So, unlike the other
   * passes, absorption does not preserve the truth value.
   */
  lemma AbsorptionChangesTruth()
    ensures var input := H.And(H.Atomic("a"), H.Or(H.Not(H.Atomic("a")), H.Atomic("b")));
      && AbsorptionLaw(input) == H.And(H.Atomic("a"), H.Not(H.Atomic("a")))
      && Truth(input, (v: string) => true) != Truth(AbsorptionLaw(input), (v: string) => true)
  {
  }

  /** `a ⋀ a` is not collapsed: it matches none of the absorption patterns. */
  lemma AbsorptionKeepsDuplicates()
    ensures AbsorptionLaw(H.And(H.Atomic("a"), H.Atomic("a"))) == H.And(H.Atomic("a"), H.Atomic("a"))
    ensures AbsorptionLaw(H.Or(H.Atomic("a"), H.Atomic("a"))) == H.Or(H.Atomic("a"), H.Atomic("a"))
  {
  }

  lemma AbsorptionExamples()
    ensures AbsorptionLaw(H.And(H.Atomic("a"), H.Or(H.Atomic("a"), H.Atomic("b")))) == H.Atomic("a")
    ensures AbsorptionLaw(H.Or(H.Atomic("a"), H.And(H.Atomic("a"), H.Atomic("b")))) == H.Atomic("a")
    ensures AbsorptionLaw(H.Or(H.And(H.Not(H.Atomic("a")), H.Atomic("b")), H.Atomic("a")))
      == H.Or(H.Atomic("b"), H.Atomic("a"))
    ensures AbsorptionLaw(H.Or(H.And(H.Atomic("a"), H.Atomic("b")), H.Not(H.Atomic("a"))))
      == H.Or(H.Atomic("b"), H.Not(H.Atomic("a")))
    ensures AbsorptionLaw(H.Or(H.And(H.Not(H.Atomic("a")), H.Atomic("b")), H.Not(H.Atomic("a"))))
      == H.Not(H.Atomic("a"))
    ensures AbsorptionLaw(H.And(H.Or(H.Atomic("a"), H.Atomic("b")), H.Not(H.Atomic("a"))))
      == H.And(H.Atomic("b"), H.Not(H.Atomic("a")))
  {
  }

  /**
   * The opposite-literal rule as it is evidently meant: the literal opposite
   * to the outer operand drops out and the other inner literal stays, in both
   * operand positions and for either inner literal. Elsewhere it is the pass
   * above.
   */
  function AbsorptionLawCorrected(e: Expression): (res: Expression)
    ensures Size(res) <= Size(e)
    ensures AtomicValues(res) <= AtomicValues(e)
    ensures NoImplication(e) ==> NoImplication(res)
  {
    NoImplicationTwoBelow(e);
    match e
    case Binary(left, op, right) =>
      var dual := if op == And then Or else And;
      if op == Implication then
        H.Binary(AbsorptionLawCorrected(left), op, AbsorptionLawCorrected(right))
      else if right.Binary? && right.op == dual then
        if left == right.left || left == right.right then AbsorptionLawCorrected(left)
        else if IsAtomic(right.left) && IsAtomic(right.right) && OppositeEq(left, right.left, false) then
          H.Binary(AbsorptionLawCorrected(left), op, AbsorptionLawCorrected(right.right))
        else if IsAtomic(right.left) && IsAtomic(right.right) && OppositeEq(left, right.right, false) then
          H.Binary(AbsorptionLawCorrected(left), op, AbsorptionLawCorrected(right.left))
        else H.Binary(AbsorptionLawCorrected(left), op, AbsorptionLawCorrected(right))
      else if left.Binary? && left.op == dual then
        if right == left.left || right == left.right then AbsorptionLawCorrected(right)
        else if IsAtomic(left.left) && IsAtomic(left.right) && OppositeEq(right, left.left, false) then
          H.Binary(AbsorptionLawCorrected(left.right), op, AbsorptionLawCorrected(right))
        else if IsAtomic(left.left) && IsAtomic(left.right) && OppositeEq(right, left.right, false) then
          H.Binary(AbsorptionLawCorrected(left.left), op, AbsorptionLawCorrected(right))
        else H.Binary(AbsorptionLawCorrected(left), op, AbsorptionLawCorrected(right))
      else H.Binary(AbsorptionLawCorrected(left), op, AbsorptionLawCorrected(right))
    case Not(x) => H.Not(AbsorptionLawCorrected(x))
    case Atomic(_) => e
  }

  /** Opposite expressions have opposite truth values. */
  lemma OppositeEqTruth(x: Expression, y: Expression, env: string -> bool)
    requires OppositeEq(x, y, false)
    ensures Truth(x, env) == !Truth(y, env)
  {
    OppositeEqStrict(x, y);
  }

  lemma {:induction false} AbsorptionLawCorrectedPreservesTruth(e: Expression, env: string -> bool)
    ensures Truth(AbsorptionLawCorrected(e), env) == Truth(e, env)
  {
    match e
    case Binary(left, op, right) =>
      AbsorptionLawCorrectedPreservesTruth(left, env);
      AbsorptionLawCorrectedPreservesTruth(right, env);
      if right.Binary? {
        AbsorptionLawCorrectedPreservesTruth(right.left, env);
        AbsorptionLawCorrectedPreservesTruth(right.right, env);
      }
      if left.Binary? {
        AbsorptionLawCorrectedPreservesTruth(left.left, env);
        AbsorptionLawCorrectedPreservesTruth(left.right, env);
      }
      AbsorptionCorrectedStep(left, op, right, env);
    case Not(x) =>
      AbsorptionLawCorrectedPreservesTruth(x, env);
    case Atomic(_) =>
  }

  /** One binary node of the corrected pass, given that its operands' rewrites keep their truth. */
  lemma {:induction false} AbsorptionCorrectedStep(left: Expression, op: BinaryOperator, right: Expression, env: string -> bool)
    requires Truth(AbsorptionLawCorrected(left), env) == Truth(left, env)
    requires Truth(AbsorptionLawCorrected(right), env) == Truth(right, env)
    requires right.Binary? ==> Truth(AbsorptionLawCorrected(right.left), env) == Truth(right.left, env)
    requires right.Binary? ==> Truth(AbsorptionLawCorrected(right.right), env) == Truth(right.right, env)
    requires left.Binary? ==> Truth(AbsorptionLawCorrected(left.left), env) == Truth(left.left, env)
    requires left.Binary? ==> Truth(AbsorptionLawCorrected(left.right), env) == Truth(left.right, env)
    ensures Truth(AbsorptionLawCorrected(Binary(left, op, right)), env) == Truth(Binary(left, op, right), env)
  {
    var dual := if op == And then Or else And;
    if op == Implication {
    } else if right.Binary? && right.op == dual {
      if left == right.left || left == right.right {
        AbsorbedRightStep(left, op, right, env);
      } else if IsAtomic(right.left) && IsAtomic(right.right) && OppositeEq(left, right.left, false) {
        OppositeRightStep(left, op, right, right.right, env);
      } else if IsAtomic(right.left) && IsAtomic(right.right) && OppositeEq(left, right.right, false) {
        OppositeRightStep(left, op, right, right.left, env);
      } else {
        KeptStep(left, op, right, env);
      }
    } else if left.Binary? && left.op == dual {
      if right == left.left || right == left.right {
        AbsorbedLeftStep(left, op, right, env);
      } else if IsAtomic(left.left) && IsAtomic(left.right) && OppositeEq(right, left.left, false) {
        OppositeLeftStep(left, op, right, left.right, env);
      } else if IsAtomic(left.left) && IsAtomic(left.right) && OppositeEq(right, left.right, false) {
        OppositeLeftStep(left, op, right, left.left, env);
      } else {
        KeptStep(left, op, right, env);
      }
    }
  }

  /** `x ⋀ (x ⋁ y)` (and its dual) becomes the rewrite of `x`, which has the node's truth. */
  lemma {:induction false} AbsorbedRightStep(left: Expression, op: BinaryOperator, right: Expression, env: string -> bool)
    requires op != Implication && right.Binary? && right.op == (if op == And then Or else And)
    requires left == right.left || left == right.right
    requires Truth(AbsorptionLawCorrected(left), env) == Truth(left, env)
    ensures Truth(AbsorptionLawCorrected(Binary(left, op, right)), env) == Truth(Binary(left, op, right), env)
  {
    assert AbsorptionLawCorrected(Binary(left, op, right)) == AbsorptionLawCorrected(left);
    AbsorbedTruth(left, op, right, env);
  }

  /** `x ⋀ (¬x ⋁ y)` (and its dual) becomes the rewrite of `x ⋀ y`, which has the node's truth. */
  lemma {:induction false} OppositeRightStep(left: Expression, op: BinaryOperator, right: Expression, kept: Expression, env: string -> bool)
    requires op != Implication && right.Binary? && right.op == (if op == And then Or else And)
    requires !(left == right.left || left == right.right) && IsAtomic(right.left) && IsAtomic(right.right)
    requires (OppositeEq(left, right.left, false) && kept == right.right)
      || (!OppositeEq(left, right.left, false) && OppositeEq(left, right.right, false) && kept == right.left)
    requires Truth(AbsorptionLawCorrected(left), env) == Truth(left, env)
    requires Truth(AbsorptionLawCorrected(kept), env) == Truth(kept, env)
    ensures Truth(AbsorptionLawCorrected(Binary(left, op, right)), env) == Truth(Binary(left, op, right), env)
  {
    assert AbsorptionLawCorrected(Binary(left, op, right)) == H.Binary(AbsorptionLawCorrected(left), op, AbsorptionLawCorrected(kept));
    OppositeDroppedTruth(left, op, right, kept, env);
  }

  /** `(x ⋁ y) ⋀ x` (and its dual) becomes the rewrite of `x`, which has the node's truth. */
  lemma {:induction false} AbsorbedLeftStep(left: Expression, op: BinaryOperator, right: Expression, env: string -> bool)
    requires op != Implication && left.Binary? && left.op == (if op == And then Or else And)
    requires !(right.Binary? && right.op == left.op)
    requires right == left.left || right == left.right
    requires Truth(AbsorptionLawCorrected(right), env) == Truth(right, env)
    ensures Truth(AbsorptionLawCorrected(Binary(left, op, right)), env) == Truth(Binary(left, op, right), env)
  {
    assert AbsorptionLawCorrected(Binary(left, op, right)) == AbsorptionLawCorrected(right);
    AbsorptionMirror(left, op, right, env);
    AbsorbedTruth(right, op, left, env);
  }

  /** `(¬x ⋁ y) ⋀ x` (and its dual) becomes the rewrite of `y ⋀ x`, which has the node's truth. */
  lemma {:induction false} OppositeLeftStep(left: Expression, op: BinaryOperator, right: Expression, kept: Expression, env: string -> bool)
    requires op != Implication && left.Binary? && left.op == (if op == And then Or else And)
    requires !(right.Binary? && right.op == left.op)
    requires !(right == left.left || right == left.right) && IsAtomic(left.left) && IsAtomic(left.right)
    requires (OppositeEq(right, left.left, false) && kept == left.right)
      || (!OppositeEq(right, left.left, false) && OppositeEq(right, left.right, false) && kept == left.left)
    requires Truth(AbsorptionLawCorrected(right), env) == Truth(right, env)
    requires Truth(AbsorptionLawCorrected(kept), env) == Truth(kept, env)
    ensures Truth(AbsorptionLawCorrected(Binary(left, op, right)), env) == Truth(Binary(left, op, right), env)
  {
    assert AbsorptionLawCorrected(Binary(left, op, right)) == H.Binary(AbsorptionLawCorrected(kept), op, AbsorptionLawCorrected(right));
    AbsorptionMirror(left, op, right, env);
    AbsorptionMirror(kept, op, right, env);
    OppositeDroppedTruth(right, op, left, kept, env);
  }

  /** A node the law leaves in place is rebuilt from its operands' rewrites. */
  lemma {:induction false} KeptStep(left: Expression, op: BinaryOperator, right: Expression, env: string -> bool)
    requires op != Implication
    requires right.Binary? && right.op == (if op == And then Or else And) ==>
      !(left == right.left || left == right.right)
      && !(IsAtomic(right.left) && IsAtomic(right.right) && (OppositeEq(left, right.left, false) || OppositeEq(left, right.right, false)))
    requires !(right.Binary? && right.op == (if op == And then Or else And)) && left.Binary? && left.op == (if op == And then Or else And) ==>
      !(right == left.left || right == left.right)
      && !(IsAtomic(left.left) && IsAtomic(left.right) && (OppositeEq(right, left.left, false) || OppositeEq(right, left.right, false)))
    requires Truth(AbsorptionLawCorrected(left), env) == Truth(left, env)
    requires Truth(AbsorptionLawCorrected(right), env) == Truth(right, env)
    ensures Truth(AbsorptionLawCorrected(Binary(left, op, right)), env) == Truth(Binary(left, op, right), env)
  {
    assert AbsorptionLawCorrected(Binary(left, op, right)) == H.Binary(AbsorptionLawCorrected(left), op, AbsorptionLawCorrected(right));
  }

  /** Conjunction and disjunction are symmetric in their operands. */
  lemma AbsorptionMirror(left: Expression, op: BinaryOperator, right: Expression, env: string -> bool)
    requires op != Implication
    ensures Truth(Binary(left, op, right), env) == Truth(Binary(right, op, left), env)
  {
  }

  /** Absorption: `x ⋀ (x ⋁ y)` and `x ⋁ (x ⋀ y)` have the truth of `x`, whichever side of the inner node `x` is on. */
  lemma AbsorbedTruth(x: Expression, op: BinaryOperator, pair: Expression, env: string -> bool)
    requires op != Implication && pair.Binary? && pair.op == (if op == And then Or else And)
    requires x == pair.left || x == pair.right
    ensures Truth(Binary(x, op, pair), env) == Truth(x, env)
  {
  }

  /** `x ⋀ (¬x ⋁ y)` has the truth of `x ⋀ y`, and `x ⋁ (¬x ⋀ y)` that of `x ⋁ y`. */
  lemma OppositeDroppedTruth(x: Expression, op: BinaryOperator, pair: Expression, kept: Expression, env: string -> bool)
    requires op != Implication && pair.Binary? && pair.op == (if op == And then Or else And)
    requires (OppositeEq(x, pair.left, false) && kept == pair.right) || (OppositeEq(x, pair.right, false) && kept == pair.left)
    ensures Truth(Binary(x, op, pair), env) == Truth(Binary(x, op, kept), env)
  {
    if OppositeEq(x, pair.left, false) && kept == pair.right {
      OppositeEqTruth(x, pair.left, env);
    } else {
      OppositeEqTruth(x, pair.right, env);
    }
  }

  /** The corrected pass agrees with the program on its absorbing and left-compound cases. */
  lemma AbsorptionLawCorrectedExamples()
    ensures AbsorptionLawCorrected(H.And(H.Atomic("a"), H.Or(H.Not(H.Atomic("a")), H.Atomic("b"))))
      == H.And(H.Atomic("a"), H.Atomic("b"))
    ensures AbsorptionLawCorrected(H.And(H.Atomic("a"), H.Or(H.Atomic("b"), H.Not(H.Atomic("a")))))
      == H.And(H.Atomic("a"), H.Atomic("b"))
    ensures AbsorptionLawCorrected(H.Or(H.And(H.Not(H.Atomic("a")), H.Atomic("b")), H.Atomic("a")))
      == H.Or(H.Atomic("b"), H.Atomic("a"))
    ensures AbsorptionLawCorrected(H.And(H.Atomic("a"), H.Or(H.Atomic("a"), H.Atomic("b")))) == H.Atomic("a")
  {
  }

  // ---------------------------------------------------------------------
  // Distribution: a ⋀ (b ⋁ c) becomes (a ⋀ b) ⋁ (a ⋀ c), and the dual
  // ---------------------------------------------------------------------

  /** Distributes only where the lone operand is a bare variable. */
  function DistributionLaw(e: Expression): (res: Expression)
    ensures AtomicValues(res) == AtomicValues(e)
    ensures NoImplication(e) ==> NoImplication(res)
  {
    NoImplicationTwoBelow(e);
    match e
    case Binary(left, And, right) =>
      if left.Atomic? && right.Binary? && right.op == Or then
        H.Or(H.And(left, DistributionLaw(right.left)), H.And(left, DistributionLaw(right.right)))
      else if left.Binary? && left.op == Or && right.Atomic? then
        H.Or(H.And(DistributionLaw(left.left), right), H.And(DistributionLaw(left.right), right))
      else H.And(DistributionLaw(left), DistributionLaw(right))
    case Binary(left, Or, right) =>
      if left.Atomic? && right.Binary? && right.op == And then
        H.And(H.Or(left, DistributionLaw(right.left)), H.Or(left, DistributionLaw(right.right)))
      else if left.Binary? && left.op == And && right.Atomic? then
        H.And(H.Or(DistributionLaw(left.left), right), H.Or(DistributionLaw(left.right), right))
      else H.Or(DistributionLaw(left), DistributionLaw(right))
    case Binary(left, op, right) => H.Binary(DistributionLaw(left), op, DistributionLaw(right))
    case Not(x) => H.Not(DistributionLaw(x))
    case Atomic(_) => e
  }

  lemma {:induction false} DistributionLawPreservesTruth(e: Expression, env: string -> bool)
    ensures Truth(DistributionLaw(e), env) == Truth(e, env)
  {
    match e
    case Binary(left, op, right) =>
      var inner := if op == And then Or else And;
      if op != Implication && left.Atomic? && right.Binary? && right.op == inner {
        DistributionLawPreservesTruth(right.left, env);
        DistributionLawPreservesTruth(right.right, env);
      } else if op != Implication && left.Binary? && left.op == inner && right.Atomic? {
        DistributionLawPreservesTruth(left.left, env);
        DistributionLawPreservesTruth(left.right, env);
      } else {
        DistributionLawPreservesTruth(left, env);
        DistributionLawPreservesTruth(right, env);
      }
    case Not(x) =>
      DistributionLawPreservesTruth(x, env);
    case Atomic(_) =>
  }

  lemma DistributionExamples()
    ensures DistributionLaw(H.And(H.Atomic("a"), H.Or(H.Atomic("b"), H.Atomic("c"))))
      == H.Or(H.And(H.Atomic("a"), H.Atomic("b")), H.And(H.Atomic("a"), H.Atomic("c")))
    ensures DistributionLaw(H.Or(H.Atomic("a"), H.And(H.Atomic("b"), H.Atomic("c"))))
      == H.And(H.Or(H.Atomic("a"), H.Atomic("b")), H.Or(H.Atomic("a"), H.Atomic("c")))
    ensures DistributionLaw(H.And(H.Atomic("a"), H.Not(H.Or(H.Atomic("b"), H.Atomic("c")))))
      == H.And(H.Atomic("a"), H.Not(H.Or(H.Atomic("b"), H.Atomic("c"))))
  {
  }

  /**
   * The mirrored forms, with the compound on the left, and a negated
   * literal on the left, which the rule does not count as a variable.
   */
  lemma DistributionMirrorExamples()
    ensures DistributionLaw(H.And(H.Or(H.Atomic("b"), H.Atomic("c")), H.Atomic("a")))
      == H.Or(H.And(H.Atomic("b"), H.Atomic("a")), H.And(H.Atomic("c"), H.Atomic("a")))
    ensures DistributionLaw(H.Or(H.And(H.Atomic("b"), H.Atomic("c")), H.Atomic("a")))
      == H.And(H.Or(H.Atomic("b"), H.Atomic("a")), H.Or(H.Atomic("c"), H.Atomic("a")))
    ensures DistributionLaw(H.And(H.Not(H.Atomic("a")), H.Or(H.Atomic("b"), H.Atomic("c"))))
      == H.And(H.Not(H.Atomic("a")), H.Or(H.Atomic("b"), H.Atomic("c")))
  {
  }

  // ---------------------------------------------------------------------
  // The whole pipeline
  // ---------------------------------------------------------------------

  lemma SimplifyExamples()
    ensures Simplify(H.Implies(H.Atomic("a"), H.Atomic("b"))) == H.Or(H.Not(H.Atomic("a")), H.Atomic("b"))
    ensures Simplify(H.Implies(H.And(H.Not(H.Atomic("a")), H.Atomic("b")), H.Atomic("c")))
      == H.Or(H.Or(H.Atomic("a"), H.Not(H.Atomic("b"))), H.Atomic("c"))
  {
  }

  /** Because absorption does not preserve truth, neither does the pipeline. */
  lemma SimplifyChangesTruth()
    ensures var input := H.And(H.Atomic("a"), H.Or(H.Not(H.Atomic("a")), H.Atomic("b")));
      && Simplify(input) == H.And(H.Atomic("a"), H.Not(H.Atomic("a")))
      && Truth(input, (v: string) => true) != Truth(Simplify(input), (v: string) => true)
  {
  }

  /** The pipeline with the corrected absorption pass. */
  function SimplifyCorrected(e: Expression): (r: Expression)
    ensures NoImplication(r)
    ensures NoDoubleNegation(r)
  {
    DoubleNegationElimination(DistributionLaw(AbsorptionLawCorrected(DeMorgansLaws(EliminationOfImplication(e)))))
  }

  /** With the corrected absorption pass every stage, and so the pipeline, keeps the truth value. */
  lemma SimplifyCorrectedPreservesTruth(e: Expression, env: string -> bool)
    ensures Truth(SimplifyCorrected(e), env) == Truth(e, env)
  {
    var e1 := EliminationOfImplication(e);
    var e2 := DeMorgansLaws(e1);
    var e3 := AbsorptionLawCorrected(e2);
    var e4 := DistributionLaw(e3);
    EliminationOfImplicationPreservesTruth(e, env);
    DeMorgansLawsPreservesTruth(e1, env);
    AbsorptionLawCorrectedPreservesTruth(e2, env);
    DistributionLawPreservesTruth(e3, env);
    DoubleNegationEliminationPreservesTruth(e4, env);
  }

  lemma SimplifyCorrectedExample()
    ensures SimplifyCorrected(H.And(H.Atomic("a"), H.Or(H.Not(H.Atomic("a")), H.Atomic("b"))))
      == H.And(H.Atomic("a"), H.Atomic("b"))
  {
  }
}
