/**
 * The three binary connectives of a propositional formula, the token the
 * parser reads for each of them, and the truth function each one denotes.
 */
module Operators {

  datatype BinaryOperator = Implication | Or | And

  /** The source text of an operator; the parser consumes exactly these tokens. */
  function Token(op: BinaryOperator): (t: string)
    ensures 1 <= |t| <= 2
    ensures t[0] in {'=', '|', '&'}
  {
    match op
    case Implication => "=>"
    case Or => "|"
    case And => "&"
  }

  /** Distinct operators have distinct tokens: the mapping is injective. */
  lemma TokenInjective(a: BinaryOperator, b: BinaryOperator)
    ensures Token(a) == Token(b) <==> a == b
  {
    if a != b {
      assert Token(a)[0] != Token(b)[0] || |Token(a)| != |Token(b)|;
    }
  }

  /** Every token is one of the three texts, so no operator is left without one. */
  lemma TokenValues(op: BinaryOperator)
    ensures Token(op) in {"=>", "|", "&"}
    ensures op == Implication <==> Token(op) == "=>"
    ensures op == Or <==> Token(op) == "|"
    ensures op == And <==> Token(op) == "&"
  {
  }

  /** The truth function of a connective; an implication holds unless its left side holds and its right does not. */
  function Apply(op: BinaryOperator, l: bool, r: bool): bool
  {
    match op
    case Implication => !l || r
    case Or => l || r
    case And => l && r
  }
}
