/**
 * Constructors for expressions, one per node kind (the `and!`, `or!`,
 * `implies!`, `binary!`, `not!` and `atomic!` macros), and the `eval!`
 * macro's five accepted forms.
 */
module Helpers {
  import E = Expressions
  import O = Operators

  function Binary(l: E.Expression, op: O.BinaryOperator, r: E.Expression): (e: E.Expression)
    ensures forall env :: E.Truth(e, env) == O.Apply(op, E.Truth(l, env), E.Truth(r, env))
    ensures E.AtomicValues(e) == E.AtomicValues(l) + E.AtomicValues(r)
  {
    E.Expression.Binary(l, op, r)
  }

  function And(l: E.Expression, r: E.Expression): (e: E.Expression)
    ensures forall env :: E.Truth(e, env) == (E.Truth(l, env) && E.Truth(r, env))
    ensures E.AtomicValues(e) == E.AtomicValues(l) + E.AtomicValues(r)
  {
    Binary(l, O.BinaryOperator.And, r)
  }

  function Or(l: E.Expression, r: E.Expression): (e: E.Expression)
    ensures forall env :: E.Truth(e, env) == (E.Truth(l, env) || E.Truth(r, env))
    ensures E.AtomicValues(e) == E.AtomicValues(l) + E.AtomicValues(r)
  {
    Binary(l, O.BinaryOperator.Or, r)
  }

  function Implies(l: E.Expression, r: E.Expression): (e: E.Expression)
    ensures forall env :: E.Truth(e, env) == (!E.Truth(l, env) || E.Truth(r, env))
    ensures E.AtomicValues(e) == E.AtomicValues(l) + E.AtomicValues(r)
  {
    Binary(l, O.BinaryOperator.Implication, r)
  }

  function Not(x: E.Expression): (e: E.Expression)
    ensures forall env :: E.Truth(e, env) == !E.Truth(x, env)
    ensures E.AtomicValues(e) == E.AtomicValues(x)
  {
    E.Expression.Not(x)
  }

  function Atomic(name: string): (e: E.Expression)
    ensures forall env :: E.Truth(e, env) == env(name)
    ensures E.AtomicValues(e) == {name}
  {
    E.Expression.Atomic(name)
  }

  /** The forms `eval!` accepts: a literal, `!form`, and two literals joined by `&&`, `||` or `=>`. */
  datatype EvalForm =
    | Literal(text: string)
    | Negated(inner: EvalForm)
    | AndLiterals(a: string, b: string)
    | OrLiterals(a: string, b: string)
    | ImpliesLiterals(a: string, b: string)

  /** The expression `eval!` expands a form to; a literal operand expands to `atomic!`. */
  function Eval(f: EvalForm): E.Expression
  {
    match f
    case Literal(t) => Atomic(t)
    case Negated(g) => Not(Eval(g))
    case AndLiterals(a, b) => And(Atomic(a), Atomic(b))
    case OrLiterals(a, b) => Or(Atomic(a), Atomic(b))
    case ImpliesLiterals(a, b) => Implies(Atomic(a), Atomic(b))
  }

  /** `n` prefixed `!` signs over a form. */
  function Bangs(n: nat, f: EvalForm): EvalForm
  {
    if n == 0 then f else Negated(Bangs(n - 1, f))
  }

  /** `eval!` with `n` leading `!` over a literal gives `n` negations of that variable. */
  lemma {:induction false} EvalNegations(n: nat, t: string)
    ensures Eval(Bangs(n, Literal(t))) == E.Negations(n, E.Expression.Atomic(t))
  {
    if n > 0 {
      EvalNegations(n - 1, t);
    }
  }

  lemma EvalExamples()
    ensures Eval(Literal("a")) == E.Expression.Atomic("a")
    ensures Eval(Negated(Literal("a"))) == E.Expression.Not(E.Expression.Atomic("a"))
    ensures Eval(AndLiterals("a", "b"))
      == E.Expression.Binary(E.Expression.Atomic("a"), O.BinaryOperator.And, E.Expression.Atomic("b"))
    ensures Eval(OrLiterals("a", "b"))
      == E.Expression.Binary(E.Expression.Atomic("a"), O.BinaryOperator.Or, E.Expression.Atomic("b"))
    ensures Eval(ImpliesLiterals("a", "b"))
      == E.Expression.Binary(E.Expression.Atomic("a"), O.BinaryOperator.Implication, E.Expression.Atomic("b"))
  {
  }
}
