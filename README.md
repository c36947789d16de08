# simplify_truths in Dafny

This project models the core of `simplify_truths`, a propositional-logic engine.
- It parses formulas written in an ASCII syntax: `!`, `&`, `|`, `=>`, parentheses and identifiers.
- It represents them as expression trees and prints them with the logical symbols `¬ ⋀ ⋁ ➔`.
- It simplifies them by a fixed pipeline of rewrite passes.
- It builds the pieces of a truth table: the header and the helper matrix of variable assignments.
- It walks a tree in pre-order with a stack-driven iterator.

There is one Dafny module per source file:

| module | file | source | form |
|---|---|---|---|
| `Operators` | `operator.dfy` | `src/expressions/operator.rs` | datatype, token function |
| `Expressions` | `expression.dfy` | `src/expressions/expression.rs` | datatype, `eq`, `opposite_eq`, `Display` |
| `Helpers` | `helpers.dfy` | `src/expressions/helpers.rs` | the constructor macros and `eval!` |
| `Simplify` | `simplify.dfy` | `src/expressions/simplify.rs` | rewrite passes as recursive functions |
| `ParserUtils` | `parser_utils.dfy` | `src/parsing/utils.rs` | the nom combinators used |
| `ExpressionParser` | `expression_parser.dfy` | `src/parsing/expression_parser.rs` | the parsers, mutually recursive |
| `ExpressionParserProperties`, `ExpressionParserExamples` | two files | the same | round trip and grouping |
| `Arrays` | `array.dfy` | `src/utils/array.rs` | `distinct` as a loop |
| `TruthTables` | `truth_table.dfy` | `src/expressions/truth_table.rs` | `extract_header`, and `helper_matrix` as a loop |
| `ExpressionIterators` | `iterator.dfy` | `src/expressions/iterator.rs` | a class over a stack |
| `Options` | `options.dfy` | — | the `Option` type |

Design notes:
- **Parsers.** A parser is a function from the remaining input to `Option<(Expression, remaining input)>`. A nom error becomes `None`.
- **Truth.** `Expressions.Truth` gives a formula its truth value under an assignment `string -> bool`. The source has no evaluator: `resolve_expression` is unfinished. The model needs one to state that the rewrite passes keep the meaning of a formula.
- **Distinct and helper_matrix.** The source mutates a vector in place here. The model writes these as methods with loops, proved against the functions `Dedup` and `HelperRows`.
- **Iterator.** `ExpressionIterator` is a class whose `stack` field `Next` updates.
- **Combinators from `lib`.** src/parsing/expression_parser.rs:1-2 imports `trim`, `parenthesized`, `exhausted` and `IntoResult` from an external `lib` crate, not from src/parsing/utils.rs. The model assumes they behave as src/parsing/utils.rs defines them; the `lib` crate is not part of this model.
- **Precedence reaches one operand.** `&` binds tighter than `|`, and `|` than `=>`, only for the operand right after the operator: `|` takes one complete conjunction and `=>` one complete disjunction, and the chain then goes on from the whole tree, grouping to the left. So `a | b & c & d` parses to `(a ⋁ (b ⋀ c)) ⋀ d` (`ExpressionParserExamples.PrecedenceExamples`).
- **Simplify is not idempotent.** De Morgan's pass runs before double negations are removed, so one run can leave work for a second (`Simplify.SimplifyNotIdempotent`).
- **Two printers.** The program prints with the symbols `¬ ⋀ ⋁ ➔` (`Expressions.Render`), which the parser does not accept. The round trip is stated for `ExpressionParserProperties.Show`, this model's own printer in the input syntax.

## Model

| member | source | states |
|---|---|---|
| Operators.Token | src/expressions/operator.rs:8-16 | each operator's token is one or two characters long and starts with `=`, `\|` or `&` |
| Operators.TokenInjective | src/expressions/operator.rs:8-16 | two operators share a token exactly when they are the same operator |
| Operators.TokenValues | src/expressions/operator.rs:8-16 | implication, or and and map to exactly `=>`, `\|` and `&`, in both directions |
| Operators.Apply | src/expressions/operator.rs:1-6 | none: the truth function of each connective, this model's own (the program evaluates nothing); what it means for built nodes is stated by the `Helpers` constructors |
| Expressions.IsAtomic | src/expressions/expression.rs:19-25 | none; specified by `Expressions.NegationsKeepAtomicity` |
| Expressions.NegationsKeepAtomicity | src/expressions/expression.rs:19-25 | stacking any number of negations over a tree never changes `is_atomic`: negated variables are atomic at any depth, negated binaries never are |
| Expressions.AtomicValues | src/expressions/expression.rs:27-37 | none; specified by `Expressions.AtomicValuesAreVariableNodes` |
| Expressions.AtomicValuesAreVariableNodes | src/expressions/expression.rs:27-37 | a name is in `get_atomic_values` exactly when an `Atomic` node with that name occurs in the tree |
| Expressions.ToAsciiLower | src/expressions/expression.rs:48-53 | none; specified through `Expressions.LowerCase` and `Expressions.EqIgnoreAsciiCaseIsLowerEquality` |
| Expressions.EqIgnoreAsciiCase | src/expressions/expression.rs:48-53 | none; specified by `Expressions.EqIgnoreAsciiCaseIsLowerEquality` |
| Expressions.LowerCase | src/expressions/expression.rs:48-53 | ASCII lower-casing keeps the length and maps every character by itself |
| Expressions.EqIgnoreAsciiCaseIsLowerEquality | src/expressions/expression.rs:48-53 | two names are equal ignoring ASCII case exactly when their lower-cased forms are equal |
| Expressions.Eq | src/expressions/expression.rs:39-57 | none; specified by the `Expressions.Eq…` lemmas below |
| Expressions.EqStrictIsEquality | src/expressions/expression.rs:39-57 | `eq` without case folding holds exactly for identical trees |
| Expressions.EqIgnoreCaseIsLowerEquality | src/expressions/expression.rs:39-57 | `eq` with case folding holds exactly when the trees coincide once every name is lower-cased |
| Expressions.EqReflexive | src/expressions/expression.rs:39-57 | every tree is `eq` to itself under either flag |
| Expressions.EqSymmetric | src/expressions/expression.rs:39-57 | `eq` is symmetric under either flag |
| Expressions.EqStrictImpliesIgnoreCase | src/expressions/expression.rs:39-57 | trees equal without case folding are equal with it |
| Expressions.EqKeepsShape | src/expressions/expression.rs:39-57 | trees that are `eq` have the same shape and operators at every node |
| Expressions.OppositeEq | src/expressions/expression.rs:59-66 | none; specified by `Expressions.OppositeEqCharacterization` and `Expressions.OppositeEqStrict` |
| Expressions.OppositeEqCharacterization | src/expressions/expression.rs:59-66 | `opposite_eq` holds exactly when one side, and only one, is a negation whose operand is `eq` to the other side; the relation is symmetric |
| Expressions.OppositeEqStrict | src/expressions/expression.rs:59-66 | without case folding, opposites are a non-negation and its negation |
| Expressions.EqExamples | src/expressions/expression.rs:117-156 | the six `eq` tests: case-insensitive matches of atomics, negations, conjunctions and equal trees; mismatches on a different name and on case without folding |
| Expressions.FmtHelper | src/expressions/expression.rs:88-107 | none; specified by `Expressions.ParentOnlyWrapsOr`, `Expressions.RenderRules` and `Expressions.InContextLength` |
| Expressions.Render | src/expressions/expression.rs:84-86 | none; specified by `Expressions.RenderRules` and the rendering examples |
| Expressions.ParentOnlyWrapsOr | src/expressions/expression.rs:88-107 | the parent changes only one thing: an `Or` gets parentheses unless it is at the root or under an `Or` or an implication |
| Expressions.RenderRules | src/expressions/expression.rs:88-107 | a negated atomic operand prints bare and any other in parentheses; `⋀` parenthesises an `Or` operand; `⋁` and `➔` print their operands bare |
| Expressions.NegatedOrDoubleParentheses | src/expressions/expression.rs:91-100 | a negated `Or` prints inside two pairs of parentheses |
| Expressions.InContextLength | src/expressions/expression.rs:88-107 | a node prints at least as long under a parent as at the root |
| Expressions.SubtermRendersShorter | src/expressions/expression.rs:88-107 | every proper sub-expression prints strictly shorter than the whole |
| Expressions.RenderForgetsGrouping | src/expressions/expression.rs:102-104 | `(a ➔ b) ➔ c` and `a ➔ (b ➔ c)` print alike although their truth values differ |
| Expressions.RenderAndNotExample | src/expressions/expression.rs:159-165 | `a ⋀ ¬b` |
| Expressions.RenderOrAndExample | src/expressions/expression.rs:168-176 | `a ⋁ b ⋀ c` |
| Expressions.RenderOrExample | src/expressions/expression.rs:179-185 | `a ⋁ b` |
| Expressions.RenderDoubleOrExample | src/expressions/expression.rs:188-197 | `a ⋁ b ⋁ c` |
| Expressions.RenderTripleOrExample | src/expressions/expression.rs:200-212 | `a ⋁ b ⋁ c ⋁ d` |
| Expressions.RenderNestedOrExample | src/expressions/expression.rs:215-227 | `a ⋁ b ⋀ (b ⋁ c)` |
| Expressions.RenderOrUnderAndExample | src/expressions/expression.rs:230-239 | `(a ⋁ b) ⋀ c` |
| Expressions.RenderImpliesExample | src/expressions/expression.rs:242-248 | `a ➔ b` |
| Expressions.RenderNotAndExample | src/expressions/expression.rs:251-257 | `¬(a ⋀ b)` |
| Expressions.RenderNotOrExample | src/expressions/expression.rs:91-100 | `¬((a ⋁ b))` |
| Expressions.RenderDoubleNotExample | src/expressions/expression.rs:90 | `¬¬a`: a negation over a negated variable is atomic and prints bare |
| Helpers.Binary | src/expressions/helpers.rs:23-27 | the node's truth value is its operator applied to the operands' truth values, left then right; its variables are the operands' variables |
| Helpers.And | src/expressions/helpers.rs:2-6 | true exactly when both operands are true; its variables are the operands' variables |
| Helpers.Or | src/expressions/helpers.rs:9-13 | true exactly when at least one operand is true; its variables are the operands' variables |
| Helpers.Implies | src/expressions/helpers.rs:16-20 | false exactly when the left operand is true and the right false; its variables are the operands' variables |
| Helpers.Not | src/expressions/helpers.rs:30-34 | true exactly when the operand is false; same variables as the operand |
| Helpers.Atomic | src/expressions/helpers.rs:37-41 | its truth value is the assignment's value for the name; its only variable is that name |
| Helpers.Eval | src/expressions/helpers.rs:43-61 | none; specified by `Helpers.EvalNegations` and `Helpers.EvalExamples` |
| Helpers.EvalNegations | src/expressions/helpers.rs:55-60 | `eval!` with `n` leading `!` over a literal gives `n` negations of that variable |
| Helpers.EvalExamples | src/expressions/helpers.rs:70-92 | the five `eval!` tests: literal, `!`, `&&`, `\|\|` and `=>` |
| Simplify.NoImplication | src/expressions/simplify.rs:26-27 | none: the normal form implication elimination promises |
| Simplify.NoDoubleNegation | src/expressions/simplify.rs:45-47 | none: the normal form double-negation elimination promises |
| Simplify.BinaryCount | src/expressions/simplify.rs:66-91 | none: the measure De Morgan's pass keeps, which makes its re-run on the rebuilt node terminate |
| Simplify.NoNegatedAndOr | src/expressions/simplify.rs:66-91 | none: the normal form De Morgan's pass aims at, no negation directly over `⋀` or `⋁`; specified by `Simplify.DeMorgansPushesDown` |
| Simplify.NoDoublyNegatedAndOr | src/expressions/simplify.rs:66-91 | none: no `⋀` or `⋁` directly under two negations, the inputs on which the pass reaches that normal form; specified by `Simplify.DeMorgansPushesDown` |
| Simplify.Simplify | src/expressions/simplify.rs:17-25 | the pipeline's result has no implication and no double negation anywhere; a negation can still sit over `⋀` or `⋁` (`Simplify.DeMorgansLawsUnderDoubleNegation`) |
| Simplify.EliminationOfImplication | src/expressions/simplify.rs:28-43 | the result has no implication |
| Simplify.EliminationOfImplicationPreservesTruth | src/expressions/simplify.rs:28-43 | the rewrite keeps the truth value under every assignment (that no implication is left is stated by `Simplify.EliminationOfImplication`'s contract) |
| Simplify.EliminationOfImplicationKeepsImplicationFree | src/expressions/simplify.rs:28-43 | a tree without implications comes back unchanged |
| Simplify.EliminationOfImplicationExamples | src/expressions/simplify.rs:235-256 | the four elimination tests: simple, nested, and two with nothing to eliminate |
| Simplify.DoubleNegationElimination | src/expressions/simplify.rs:48-64 | no double negation is left; no negation appears at a root that had none; no implication is introduced |
| Simplify.DoubleNegationEliminationPreservesTruth | src/expressions/simplify.rs:48-64 | removing double negations keeps the truth value |
| Simplify.DoubleNegationEliminationFixesNormalForms | src/expressions/simplify.rs:48-64 | a tree without double negations is a fixed point |
| Simplify.DoubleNegationEliminationIdempotent | src/expressions/simplify.rs:48-64 | running the pass twice gives the same result as running it once |
| Simplify.DoubleNegationEliminationParity | src/expressions/simplify.rs:48-64 | `n` negations over a variable collapse to `n mod 2` |
| Simplify.DoubleNegationEliminationExamples | src/expressions/simplify.rs:259-286 | the double, triple, none and nested tests (five negations is an instance of `DoubleNegationEliminationParity`) |
| Simplify.DeMorgansLaws | src/expressions/simplify.rs:66-91 | the number of binary nodes is unchanged, and no implication is introduced; that no negation is left over `⋀` or `⋁` is `Simplify.DeMorgansPushesDown`, which holds only when none sits under two negations |
| Simplify.DeMorgansLawsPreservesTruth | src/expressions/simplify.rs:66-91 | pushing negations through `⋀` and `⋁` keeps the truth value |
| Simplify.DeMorgansLawsExamples | src/expressions/simplify.rs:289-298 | `¬(a ⋀ b)` gives `¬a ⋁ ¬b` and `¬(a ⋁ b)` gives `¬a ⋀ ¬b` |
| Simplify.DeMorgansLawsNestedExamples | src/expressions/simplify.rs:301-316 | the three nested tests, with the negation pushed to the variables |
| Simplify.DeMorgansPushesDown | src/expressions/simplify.rs:66-91 | when no `⋀` or `⋁` sits under two negations, the result has no negation directly over `⋀` or `⋁` |
| Simplify.DeMorgansPushesDownWithoutDoubleNegation | src/expressions/simplify.rs:66-91 | in particular when the input has no double negation |
| Simplify.PushedDownHasNoDoublyNegated | src/expressions/simplify.rs:66-91 | a tree with no negated `⋀` or `⋁` has none under two negations |
| Simplify.NegationOfPushedDown | src/expressions/simplify.rs:66-91 | negating such a tree keeps it a valid input of the pass, which the recursive case on a rebuilt node needs |
| Simplify.NoDoubleNegationHasNoDoublyNegated | src/expressions/simplify.rs:66-91 | a tree with no double negation has no `⋀` or `⋁` under two negations |
| Simplify.DeMorgansLawsUnderDoubleNegation | src/expressions/simplify.rs:17-25 | `¬¬(a ⋀ b)` becomes `¬(¬a ⋁ ¬b)` under the pass and under the whole pipeline, and `¬(a ⋀ b) ➔ c` simplifies to `¬(¬a ⋁ ¬b) ⋁ c`: double negations are removed only after the pass |
| Simplify.SimplifyNotIdempotent | src/expressions/simplify.rs:17-25 | the pipeline is not idempotent: `¬¬(a ⋀ b)` simplifies to `¬(¬a ⋁ ¬b)`, which simplifies again to the different `a ⋀ b` |
| Simplify.AbsorptionLaw | src/expressions/simplify.rs:94-164 | the result is no larger, has no new variables, and introduces no implication |
| Simplify.AbsorptionAbsorbs | src/expressions/simplify.rs:94-164 | `a op (a dual b)` and its mirrored forms reduce to the rewrite of `a`, with the operand on either side |
| Simplify.AbsorptionKeepsRemainder | src/expressions/simplify.rs:110-148 | `(¬a dual b) op a` keeps `b op a` when the first inner literal is opposite to the outer operand |
| Simplify.NegationsIdentity | src/expressions/simplify.rs:94-164 | literals (variables and their negations) are left unchanged |
| Simplify.AbsorptionChangesTruth | src/expressions/simplify.rs:102-104 | as written, `a ⋀ (¬a ⋁ b)` becomes `a ⋀ ¬a`, which has a different truth value |
| Simplify.AbsorptionKeepsDuplicates | src/expressions/simplify.rs:94-164 | `a ⋀ a` and `a ⋁ a` match no absorption pattern and stay |
| Simplify.AbsorptionExamples | src/expressions/simplify.rs:319-362 | the seven absorption tests: and (the nested-and test has the same input), or, not, reversed not, double not, and in parentheses |
| Simplify.AbsorptionLawCorrected | src/expressions/simplify.rs:94-164 | the result is no larger, has no new variables, and introduces no implication |
| Simplify.AbsorptionLawCorrectedPreservesTruth | src/expressions/simplify.rs:94-164 | the corrected absorption pass keeps the truth value |
| Simplify.AbsorptionCorrectedStep | src/expressions/simplify.rs:97-160 | one binary node of the corrected pass keeps its truth value, given that its operands' rewrites do |
| Simplify.AbsorbedRightStep | src/expressions/simplify.rs:99-101 | where the left operand repeats an operand of a right operand of the dual operator, the corrected pass keeps the node's truth value |
| Simplify.OppositeRightStep | src/expressions/simplify.rs:102-108 | where the left operand is the opposite of an atomic operand of the dual right operand, the corrected pass keeps the node's truth value (the `Or` case is the dual at 132-138) |
| Simplify.AbsorbedLeftStep | src/expressions/simplify.rs:111-113 | the mirror case with the dual operator on the left keeps the node's truth value |
| Simplify.OppositeLeftStep | src/expressions/simplify.rs:114-120 | the mirror opposite case with the dual operator on the left keeps the node's truth value |
| Simplify.KeptStep | src/expressions/simplify.rs:121-123 | a node the law leaves in place keeps its truth value once its operands are rewritten |
| Simplify.AbsorbedTruth | src/expressions/simplify.rs:99-101 | absorption: `x ⋀ (x ⋁ y)` and `x ⋁ (x ⋀ y)` have the truth value of `x` |
| Simplify.OppositeDroppedTruth | src/expressions/simplify.rs:102-108 | `x ⋀ (¬x ⋁ y)` has the truth value of `x ⋀ y`, and `x ⋁ (¬x ⋀ y)` that of `x ⋁ y` |
| Simplify.AbsorptionMirror | src/expressions/simplify.rs:111-122 | conjunction and disjunction do not depend on the order of their operands |
| Simplify.OppositeEqTruth | src/expressions/expression.rs:59-66 | opposite trees have opposite truth values |
| Simplify.AbsorptionLawCorrectedExamples | src/expressions/simplify.rs:319-340 | the corrected pass gives `a ⋀ b` for `a ⋀ (¬a ⋁ b)`, and agrees with the tests on absorbing and left-compound inputs |
| Simplify.DistributionLaw | src/expressions/simplify.rs:171-211 | the variables are unchanged, and no implication is introduced |
| Simplify.DistributionLawPreservesTruth | src/expressions/simplify.rs:171-211 | distributing a variable over the dual connective keeps the truth value |
| Simplify.DistributionExamples | src/expressions/simplify.rs:365-380 | the and, or and nested-not distribution tests |
| Simplify.DistributionMirrorExamples | src/expressions/simplify.rs:180-184 | `(b ⋁ c) ⋀ a` becomes `b ⋀ a ⋁ c ⋀ a`, `(b ⋀ c) ⋁ a` becomes `(b ⋁ a) ⋀ (c ⋁ a)`, and `¬a ⋀ (b ⋁ c)` is unchanged because `¬a` is no variable |
| Simplify.SimplifyExamples | src/expressions/simplify.rs:223-232 | `a ➔ b` gives `¬a ⋁ b`; `(¬a ⋀ b) ➔ c` gives `(a ⋁ ¬b) ⋁ c` |
| Simplify.SimplifyChangesTruth | src/expressions/simplify.rs:17-25 | as written, the pipeline turns `a ⋀ (¬a ⋁ b)` into `a ⋀ ¬a` and changes its truth value |
| Simplify.SimplifyCorrected | src/expressions/simplify.rs:17-25 | with the corrected absorption, the result still has no implication and no double negation |
| Simplify.SimplifyCorrectedPreservesTruth | src/expressions/simplify.rs:17-25 | with the corrected absorption, the pipeline keeps the truth value for every assignment |
| Simplify.SimplifyCorrectedExample | src/expressions/simplify.rs:17-25 | the corrected pipeline simplifies `a ⋀ (¬a ⋁ b)` to `a ⋀ b` |
| ParserUtils.SuffixTransitive | src/parsing/utils.rs:14-22 | what is left after two parsers in sequence is a suffix of the original input |
| ParserUtils.DropsOnlySpace | src/parsing/utils.rs:14-22 | none: one text is what is left of another after a run of leading whitespace; used in the contracts of `ParserUtils.TrimmedTag` and `ParserUtils.Trim` |
| ParserUtils.SpanWhile | src/parsing/expression_parser.rs:106-117 | the length of the longest prefix whose characters all satisfy the predicate |
| ParserUtils.TakeWhile | src/parsing/expression_parser.rs:106-117 | splits the input into the longest satisfying prefix and the rest, which starts with a failing character |
| ParserUtils.TakeWhile1 | src/parsing/expression_parser.rs:106-117 | fails exactly when the first character is missing or fails the predicate; otherwise as `TakeWhile`, with a non-empty prefix |
| ParserUtils.IsMultispace | src/parsing/utils.rs:17-21 | none: the characters `multispace0` skips (space, tab, carriage return, line feed), used by `ParserUtils.SkipSpace` |
| ParserUtils.SkipSpace | src/parsing/utils.rs:14-22 | never longer than the input, and what is left does not start with whitespace |
| ParserUtils.SkipSpaceIsSuffix | src/parsing/utils.rs:14-22 | whitespace is dropped from the front only |
| ParserUtils.SkipSpaceDropsOnlySpace | src/parsing/utils.rs:14-22 | every dropped character is whitespace |
| ParserUtils.SkipSpaceIdempotent | src/parsing/utils.rs:14-22 | skipping whitespace twice is skipping it once |
| ParserUtils.SkipSpaceAllSpace | src/parsing/utils.rs:14-22 | input made only of whitespace is skipped entirely |
| ParserUtils.SkipSpaceNoSpace | src/parsing/utils.rs:14-22 | input that does not start with whitespace is left alone |
| ParserUtils.Char | src/parsing/utils.rs:29-37 | succeeds exactly on input starting with the character, and leaves the rest of it |
| ParserUtils.Tag | src/parsing/expression_parser.rs:90-100 | succeeds exactly on input starting with the text, and leaves the rest of it |
| ParserUtils.TrimmedTag | src/parsing/expression_parser.rs:67-100 | succeeds exactly when the token comes next after a possibly empty run of whitespace; consumes at least one character; what is left is a suffix of the text after the token, reached by dropping whitespace only, and does not start with whitespace |
| ParserUtils.CharIsTag | src/parsing/utils.rs:29-37 | `char(c)` is `tag` of the one-character text |
| ParserUtils.Trim | src/parsing/utils.rs:14-22 | succeeds exactly when `inner` does after leading whitespace, with `inner`'s value; what is left is a suffix of `inner`'s remainder, reached by dropping whitespace only, and does not start with whitespace |
| ParserUtils.Parenthesized | src/parsing/utils.rs:29-37 | succeeds only on `(`, a trimmed `inner`, and `)` just after it |
| ParserUtils.TakeWhere | src/parsing/utils.rs:44-49 | succeeds exactly when the first `n` characters all satisfy the predicate, and takes exactly those |
| ParserUtils.Exhausted | src/parsing/utils.rs:51-55 | succeeds exactly when `inner` succeeds and leaves nothing, with `inner`'s result |
| ParserUtils.IntoResult | src/parsing/utils.rs:59-66 | keeps the parsed value and drops the remaining input; fails exactly when the parse failed |
| ParserUtils.FourLettersTakesFour | src/parsing/utils.rs:44-49 | `take_where(4, alphabetic)` takes four letters and leaves whatever follows |
| ParserUtils.ParenthesizedAroundTrim | src/parsing/utils.rs:29-37 | the closing parenthesis matches once the trimmed inner parser stops right before it |
| ParserUtils.ParenthesizedFourLetters | src/parsing/utils.rs:29-37 | four letters in parentheses parse to those letters, leaving nothing |
| ParserUtils.ParenthesizedExample | src/parsing/utils.rs:75-80 | `(test)` parses to `test` with nothing left |
| ParserUtils.ParenthesizedParseUntilEnd | src/parsing/utils.rs:83-86 | an inner parser that takes every character swallows the `)`, so the parse fails; the test's streaming `take_while` fails with `Incomplete` at the end of the input instead, which is the same error by a different route |
| ParserUtils.ExhaustedExample | src/parsing/utils.rs:89-94 | `test` is exhausted by four letters |
| ParserUtils.ExhaustedNotExhausted | src/parsing/utils.rs:97-100 | `test ` is not: a space is left |
| ExpressionParser.FirstOf | src/parsing/expression_parser.rs:29-31 | none: nom's `alt`, the first alternative that succeeds |
| ExpressionParser.LeftHandSide | src/parsing/expression_parser.rs:29-31 | a success consumes input; what it parses is stated by `ExpressionParserProperties.LeftHandSideOfIdentifier` and `ExpressionParserProperties.LeftHandSideOfShow` |
| ExpressionParser.NotExpression | src/parsing/expression_parser.rs:102-104 | a success consumes input; the result is stated by `ExpressionParserProperties.NegationOf` |
| ExpressionParser.ParenthesizedExpression | src/parsing/expression_parser.rs:55-65 | a success consumes input; the results are stated by `ExpressionParserProperties.ParenthesizedFromBody`, `ExpressionParserProperties.ParenthesizedUnclosed` and `ExpressionParserProperties.ParenthesizedBodyFails` |
| ExpressionParser.ParenthesizedBody | src/parsing/expression_parser.rs:55-64 | a success consumes input; the results are stated by `ExpressionParserProperties.BodyTwoSteps` and `ExpressionParserProperties.LoneOperandBody` |
| ExpressionParser.OperatorCombinators | src/parsing/expression_parser.rs:44-53 | a success consumes input; the results are stated by `ExpressionParserProperties.OperatorStep` and `ExpressionParserProperties.NegationStep` |
| ExpressionParser.Value | src/parsing/expression_parser.rs:106-117 | fails exactly when no ASCII letter comes first; otherwise takes the whole identifier run, stopping before a character that cannot continue it |
| ExpressionParser.AndExpression | src/parsing/expression_parser.rs:67-71 | a success is a conjunction whose left operand is `previous` |
| ExpressionParser.CompleteAnd | src/parsing/expression_parser.rs:73-76 | a success is a conjunction whose left operand is a variable |
| ExpressionParser.OrExpression | src/parsing/expression_parser.rs:78-83 | a success is a disjunction whose left operand is `previous` |
| ExpressionParser.CompleteOr | src/parsing/expression_parser.rs:85-88 | a success is a disjunction whose left operand is a variable |
| ExpressionParser.ImplicationExpression | src/parsing/expression_parser.rs:90-100 | a success is an implication whose left operand is `previous` |
| ExpressionParser.ClosingOrOneMore | src/parsing/expression_parser.rs:55-65 | when `)` comes next, the expression so far is returned and the `)` is not consumed |
| ExpressionParser.ExpressionChain | src/parsing/expression_parser.rs:33-42 | a success consumes all of the input |
| ExpressionParser.ParsePrefix | src/parsing/expression_parser.rs:18-27 | succeeds exactly when a left-hand side does: a failing chain falls back to the left-hand side alone |
| ExpressionParser.ParseExpression | src/parsing/expression_parser.rs:14-16 | succeeds exactly when the prefix parse leaves no input, with that parse's tree |
| ExpressionParser.TryFrom | src/expressions/expression.rs:69-82 | the empty string never converts to an expression |
| ExpressionParserProperties.ValueOfIdentifier | src/parsing/expression_parser.rs:106-117 | an identifier followed by a non-identifier character parses to that variable, leaving the rest |
| ExpressionParserProperties.LeftHandSideOfIdentifier | src/parsing/expression_parser.rs:29-31 | the same, as a left-hand side |
| ExpressionParserProperties.ValueNeedsLetter | src/parsing/expression_parser.rs:106-117 | input not starting with a letter is no variable |
| ExpressionParserProperties.TrimmedTagSpaced | src/parsing/expression_parser.rs:67-100 | a token with one space on each side is consumed whole |
| ExpressionParserProperties.TrimmedTagAbsent | src/parsing/expression_parser.rs:67-100 | a token that does not come next after whitespace is not consumed |
| ExpressionParserProperties.NothingOnEmpty | src/parsing/expression_parser.rs:266-270 | the empty input holds no operator, no chain and no left-hand side |
| ExpressionParserProperties.SpacedToken | src/parsing/expression_parser.rs:44-53 | after a spaced operator token, the parser sits on what follows it |
| ExpressionParserProperties.SpaceBeforeToken | src/parsing/utils.rs:14-22 | before a token that does not start with whitespace, only the one space is skipped |
| ExpressionParserProperties.OperatorCombinatorsAfterSpace | src/parsing/expression_parser.rs:44-53 | skipping whitespace before the operator parsers changes nothing unless a `!` waits behind it |
| ExpressionParserProperties.TrimmedTagAfterSpace | src/parsing/expression_parser.rs:67-100 | a token parser reads the same after whitespace has been skipped as before |
| ExpressionParserProperties.SameTokens | src/parsing/expression_parser.rs:67-100 | two inputs on which `=>`, `\|` and `&` read alike are read alike by the three binary operator parsers |
| ExpressionParserProperties.NegationAfterSpace | src/parsing/expression_parser.rs:102-104 | skipping whitespace first does not change what `not_expression` reads, unless a `!` waits behind the whitespace |
| ExpressionParserProperties.ShowStart | src/parsing/expression_parser.rs:29-31 | printed trees start with a letter, `!` or `(`, according to their kind |
| ExpressionParserProperties.ShowThenText | src/parsing/expression_parser.rs:29-31 | printed text never starts with whitespace |
| ExpressionParserProperties.ClosingParenthesis | src/parsing/expression_parser.rs:55-65 | `)` continues no variable and starts no operator |
| ExpressionParserProperties.SpacedNoNegation | src/parsing/expression_parser.rs:44-53 | no `!` comes right after a spaced operator token |
| ExpressionParserProperties.CompoundIsNoVariable | src/parsing/expression_parser.rs:73-88 | a printed compound tree is no variable, so no complete conjunction or disjunction either |
| ExpressionParserProperties.LoneOperand | src/parsing/expression_parser.rs:73-88 | a variable with no `&` after it is no complete conjunction; with no `\|` after it, no complete disjunction |
| ExpressionParserProperties.OperatorStep | src/parsing/expression_parser.rs:44-100 | a spaced operator token is read by that operator's parser alone, which extends `previous` by what that operator takes as its right operand |
| ExpressionParserProperties.AndStep | src/parsing/expression_parser.rs:67-71 | a spaced `&` is read by the conjunction parser, which the operator alternatives reach after the implication and disjunction parsers fail |
| ExpressionParserProperties.OrStep | src/parsing/expression_parser.rs:78-83 | a spaced `\|` is read by the disjunction parser, which the operator alternatives reach after the implication parser fails |
| ExpressionParserProperties.OrStepAt | src/parsing/expression_parser.rs:44-53 | where `\|` and not `=>` comes next, the operator parsers read exactly the disjunction |
| ExpressionParserProperties.ImplicationStep | src/parsing/expression_parser.rs:90-100 | a spaced `=>` is read by the implication parser |
| ExpressionParserProperties.CompleteAfterVariable | src/parsing/expression_parser.rs:73-88 | after a variable, a complete conjunction or disjunction is that operator's step on the variable |
| ExpressionParserProperties.NegationOf | src/parsing/expression_parser.rs:102-104 | `!` before a left-hand side negates it and consumes nothing else |
| ExpressionParserProperties.ParenthesizedOneStep | src/parsing/expression_parser.rs:55-65 | `(`, a left-hand side, an operator step ending before `)`, then `)`: the parse is that step's tree |
| ExpressionParserProperties.ParenthesizedFromBody | src/parsing/expression_parser.rs:55-65 | `(`, a body that parses and then `)`: the left-hand side is the body's tree, and the text after `)` remains |
| ExpressionParserProperties.BodyTwoSteps | src/parsing/expression_parser.rs:55-65 | two operator steps not followed by `)` are both read by the parenthesised body |
| ExpressionParserProperties.ParenthesizedUnclosed | src/parsing/expression_parser.rs:55-65 | a body that parses but is not followed by `)` is no left-hand side |
| ExpressionParserProperties.ParenthesizedBodyFails | src/parsing/expression_parser.rs:55-65 | an opening parenthesis whose body fails is no left-hand side |
| ExpressionParserProperties.LoneOperandBody | src/parsing/expression_parser.rs:55-65 | a tree directly followed by `)` is no parenthesised body: the body needs an operator |
| ExpressionParserProperties.Show | src/parsing/expression_parser.rs:18-31 | none: this model's input-syntax printer, with ASCII tokens and every binary node in parentheses; the program has no such printer; specified by `ExpressionParserProperties.ParseShow` |
| ExpressionParserProperties.LeftHandSideOfShow | src/parsing/expression_parser.rs:29-31 | a well-named tree printed by `Show`, this model's input-syntax printer, parses back to the same tree as a left-hand side, whatever non-identifier text follows |
| ExpressionParserProperties.LeftHandSideOfBinary | src/parsing/expression_parser.rs:55-65 | the parenthesized case of that round trip |
| ExpressionParserProperties.OperatorStepShow | src/parsing/expression_parser.rs:44-100 | an operator followed by a printed tree extends `previous` by exactly one node |
| ExpressionParserProperties.ParseShow | src/parsing/expression_parser.rs:14-31 | a well-named tree printed by `Show`, this model's input-syntax printer, parses back to the same tree; the program's own `Display` output does not parse (`ExpressionParserExamples.RenderDoesNotParse`) |
| ExpressionParserProperties.WholeLeftHandSide | src/parsing/expression_parser.rs:14-27 | a left-hand side that takes all of the input is the whole parse |
| ExpressionParserProperties.TextStart | src/parsing/expression_parser.rs:33-53 | a chain's text starts with a space and its first operator token, and no `!` |
| ExpressionParserProperties.ChainParses | src/parsing/expression_parser.rs:33-42 | an operator chain builds the left-grouped tree and consumes everything |
| ExpressionParserProperties.ParseChain | src/parsing/expression_parser.rs:14-27 | a printed operand followed by a left-grouping chain parses to the chain's left-grouped tree |
| ExpressionParserProperties.ChainGoesOn | src/parsing/expression_parser.rs:33-42 | after a step that leaves input, the chain goes on from that step's tree |
| ExpressionParserProperties.ChainThen | src/parsing/expression_parser.rs:33-42 | after a left-grouping chain, the chain goes on from its tree |
| ExpressionParserProperties.ParseChainThen | src/parsing/expression_parser.rs:14-42 | a printed operand, a chain and more input parse to whatever the continued chain builds |
| ExpressionParserProperties.CompleteConjunction | src/parsing/expression_parser.rs:73-76 | `x & y` with `x` a variable is a complete conjunction |
| ExpressionParserProperties.CompleteDisjunction | src/parsing/expression_parser.rs:78-88 | `x \| u` is no complete conjunction, but is a complete disjunction |
| ExpressionParserProperties.ImplicationOfDisjunction | src/parsing/expression_parser.rs:90-100 | after `=>` a complete disjunction is taken whole as the right operand |
| ExpressionParserProperties.ParenthesizedTwoSteps | src/parsing/expression_parser.rs:55-65 | two operator steps in parentheses are accepted |
| ExpressionParserProperties.ParenthesizedThirdStep | src/parsing/expression_parser.rs:55-65 | without a `)` after the second step, parenthesized parsing fails |
| ExpressionParserProperties.StepInFront | src/parsing/expression_parser.rs:33-42 | a chain with one more link in front: its text, and what left-grouping asks of it |
| ExpressionParserProperties.FirstTwoSteps | src/parsing/expression_parser.rs:33-42 | the first two links of a chain: their text and their grouping conditions |
| ExpressionParserProperties.TwoStepsRead | src/parsing/expression_parser.rs:44-100 | the first two links are read one node at a time, leaving the rest of the chain |
| ExpressionParserProperties.ParenthesizedPair | src/parsing/expression_parser.rs:55-65 | a two-step chain in parentheses parses to its left-grouped tree |
| ExpressionParserProperties.ParenthesizedTooLong | src/parsing/expression_parser.rs:55-65 | three or more steps in one pair of parentheses are rejected |
| ExpressionParserProperties.ParenthesizedLoneOperand | src/parsing/expression_parser.rs:55-65 | a lone operand in parentheses is rejected: the parentheses need an operator |
| ExpressionParserProperties.LeadingSpace | src/parsing/expression_parser.rs:14-31 | nothing that starts with whitespace parses |
| ExpressionParserProperties.TrailingSpace | src/parsing/expression_parser.rs:14-16 | nothing that ends with whitespace parses: the whitespace is left over |
| ExpressionParserProperties.NegationStep | src/parsing/expression_parser.rs:44-53 | where `!` comes next, only the negation alternative of the operator parsers applies |
| ExpressionParserProperties.NegationAfterOperand | src/parsing/expression_parser.rs:44-53 | `x!y` parses to `¬y`: the negation alternative drops the operand before it |
| ExpressionParserProperties.NegatedChain | src/parsing/expression_parser.rs:44-53 | after an operand, `!` and a well-named tree form a chain whose result is the negation alone |
| ExpressionParserExamples.ParseAndThenImplication | src/parsing/expression_parser.rs:124-131 | `a & b => c` groups as `(a ⋀ b) ➔ c` |
| ExpressionParserExamples.ParseComplex | src/parsing/expression_parser.rs:134-150 | `a => b \| !(!c \| d & e) => b` parses to the tree in the test |
| ExpressionParserExamples.ParseNegatedGroup | src/parsing/expression_parser.rs:134-150 | the same shape holds for any variable names |
| ExpressionParserExamples.NegatedGroup | src/parsing/expression_parser.rs:102-104 | `!(!c \| d & e)` is a left-hand side negating `¬c ⋁ (d ⋀ e)` |
| ExpressionParserExamples.ParseOperatorWeight | src/parsing/expression_parser.rs:153-163 | `A & B \| C => D \| E & F` gives `((A ⋀ B) ⋁ C) ➔ (D ⋁ (E ⋀ F))` |
| ExpressionParserExamples.ParseWeighted | src/parsing/expression_parser.rs:153-163 | the same for any variable names |
| ExpressionParserExamples.ImpliesDisjunction | src/parsing/expression_parser.rs:90-100 | `=> d \| e & f` ends a chain with `previous ➔ (d ⋁ (e ⋀ f))` |
| ExpressionParserExamples.ParseImplicationChain | src/parsing/expression_parser.rs:166-173 | `a => b => c` groups to the left |
| ExpressionParserExamples.ParseParentheses | src/parsing/expression_parser.rs:176-183 | `a & (b => c)` keeps the parenthesized implication as the right operand |
| ExpressionParserExamples.ParseNot | src/parsing/expression_parser.rs:186-190 | `!a` |
| ExpressionParserExamples.ParseNotParentheses | src/parsing/expression_parser.rs:193-197 | `!(a & b)` |
| ExpressionParserExamples.NotInsideAnd | src/parsing/expression_parser.rs:200-204 | `a & !b` |
| ExpressionParserExamples.NotInsideOr | src/parsing/expression_parser.rs:207-211 | `a \| !b` |
| ExpressionParserExamples.NotInsideImplication | src/parsing/expression_parser.rs:214-218 | `a => !b` |
| ExpressionParserExamples.NotInsideParentheses | src/parsing/expression_parser.rs:221-228 | `a & !(b \| c)` |
| ExpressionParserExamples.EvenNegations | src/parsing/expression_parser.rs:231-235 | `!!!!a` gives four nested negations |
| ExpressionParserExamples.OddNegations | src/parsing/expression_parser.rs:238-242 | `!!!!!a` gives five nested negations |
| ExpressionParserExamples.ParseVariable | src/parsing/expression_parser.rs:245-249 | `a` |
| ExpressionParserExamples.ParseVariableNames | src/parsing/expression_parser.rs:252-263 | `a_b` and `a1` are each one variable: underscores and digits continue a name |
| ExpressionParserExamples.ParseIdentifier | src/parsing/expression_parser.rs:106-117 | any identifier alone parses to that one variable |
| ExpressionParserExamples.ParseEmpty | src/parsing/expression_parser.rs:266-270 | the empty input is rejected |
| ExpressionParserExamples.OrChainText | src/parsing/expression_parser.rs:273-289 | the printed chain is the test's input `a \| b \| c \| d \| e \| f \| g` |
| ExpressionParserExamples.OrChainGroupsLeft | src/parsing/expression_parser.rs:273-289 | that chain satisfies the left-grouping condition |
| ExpressionParserExamples.ParseOrChain | src/parsing/expression_parser.rs:273-289 | the seven-variable `\|` chain groups to the left |
| ExpressionParserExamples.PrefixOfVariable | src/parsing/expression_parser.rs:292-296 | `_parse_expression("a")` gives `a` with nothing left |
| ExpressionParserExamples.ChainAnd | src/parsing/expression_parser.rs:299-304 | the chain ` & b` after `a` |
| ExpressionParserExamples.ChainAndOr | src/parsing/expression_parser.rs:307-315 | the chain ` & b \| c` after `a` |
| ExpressionParserExamples.ChainAndOrImplication | src/parsing/expression_parser.rs:318-329 | the chain ` & b \| c => d` after `a` |
| ExpressionParserExamples.ChainParenthesizedOr | src/parsing/expression_parser.rs:332-343 | the chain ` & (b \| c) => d` after `a` |
| ExpressionParserExamples.PrefixParenthesizedConjunctions | src/parsing/expression_parser.rs:346-356 | `(a & b) \| (c & d)` |
| ExpressionParserExamples.ChainParenthesizedImplication | src/parsing/expression_parser.rs:359-373 | the chain ` & b \| (c => d)` after `a` |
| ExpressionParserExamples.ChainNestedParentheses | src/parsing/expression_parser.rs:376-390 | the chain ` & (b \| (c => d))` after `a` |
| ExpressionParserExamples.ParseOr | src/parsing/expression_parser.rs:393-398 | `or_expression` on `a` reads ` \| b` to the end, giving `a ⋁ b` |
| ExpressionParserExamples.PrefixParenthesizedOr | src/parsing/expression_parser.rs:401-405 | `(a \| b)` |
| ExpressionParserExamples.ParenthesizedThreeVariables | src/parsing/expression_parser.rs:408-415 | `parenthesized_expression` reads `(A \| B \| C)` to the end, grouping to the left |
| ExpressionParserExamples.ParenthesizedFourVariables | src/parsing/expression_parser.rs:55-65 | a third operator inside one pair of parentheses is rejected |
| ExpressionParserExamples.ParenthesizedVariable | src/parsing/expression_parser.rs:55-65 | `(a)` is rejected |
| ExpressionParserExamples.LeadingSpaceRejected | src/parsing/expression_parser.rs:18-31 | ` a & b` is rejected |
| ExpressionParserExamples.TrailingSpaceRejected | src/parsing/expression_parser.rs:14-16 | `a & b ` is rejected |
| ExpressionParserExamples.ForeignOperatorRejected | src/parsing/expression_parser.rs:14-53 | a variable followed by a space and any character other than whitespace, `=`, `\|` or `&` is rejected |
| ExpressionParserExamples.RenderedPair | src/expressions/expression.rs:84-107 | `a op b` prints as `a`, the operator's symbol, then `b` |
| ExpressionParserExamples.RenderDoesNotParse | src/expressions/expression.rs:84-107 | what the program prints for `a ⋀ b`, `a ⋁ b` and `a ➔ b` is rejected by the parser |
| ExpressionParserExamples.OrTakesOneConjunction | src/parsing/expression_parser.rs:78-88 | for any variables, `a \| b & c & d` parses to `(a ⋁ (b ⋀ c)) ⋀ d`: `\|` takes one complete conjunction, and the next `&` extends the whole disjunction |
| ExpressionParserExamples.OrConjunctionStep | src/parsing/expression_parser.rs:73-88 | `\| b & c` after `a` is one operator step giving `a ⋁ (b ⋀ c)`, leaving the rest |
| ExpressionParserExamples.LastVariable | src/parsing/expression_parser.rs:33-42 | a last link ` op d` ends the chain with one more node |
| ExpressionParserExamples.ParseFromFirstStep | src/parsing/expression_parser.rs:14-42 | a variable, a first operator step, and a chain over the rest that ends the input parse to the chain's tree |
| ExpressionParserExamples.ImplicationTakesOneDisjunction | src/parsing/expression_parser.rs:90-100 | for any variables, `a => b \| c \| d` parses to `(a ➔ (b ⋁ c)) ⋁ d`: `=>` takes one complete disjunction, and the next `\|` extends the whole implication |
| ExpressionParserExamples.ImplicationDisjunctionStep | src/parsing/expression_parser.rs:78-100 | `=> b \| c \| d` after `a` is one operator step giving `a ➔ (b ⋁ c)`, leaving ` \| d` |
| ExpressionParserExamples.VariableBeforeOr | src/parsing/expression_parser.rs:78-88 | a variable followed by ` \| d` is the whole operand `\|` takes |
| ExpressionParserExamples.PrecedenceExamples | src/parsing/expression_parser.rs:78-100 | `a \| b & c & d` and `a => b \| c \| d` parse as above; with `d` false and the rest true, the parsed `(a ⋁ (b ⋀ c)) ⋀ d` is false where `a ⋁ ((b ⋀ c) ⋀ d)` is true |
| ExpressionParserExamples.PrecedenceTexts | src/parsing/expression_parser.rs:78-100 | the generic texts, instantiated, are `a \| b & c & d` and `a => b \| c \| d` |
| ExpressionParserExamples.NegationDropsOperand | src/parsing/expression_parser.rs:44-53 | `a!b` parses to `¬b` |
| Arrays.Dedup | src/utils/array.rs:52-60 | none; specified by the `Arrays.Dedup…` lemmas below |
| Arrays.Distinct | src/utils/array.rs:47-61 | the loop's result is `Dedup` of the input: no duplicates, the same elements, no longer |
| Arrays.DedupNoDuplicates | src/utils/array.rs:52-60 | no element occurs twice in the result |
| Arrays.DedupMember | src/utils/array.rs:52-60 | an element is in the result exactly when it is in the input |
| Arrays.DedupShorter | src/utils/array.rs:52-60 | the result is never longer than the input |
| Arrays.FirstIndex | src/utils/array.rs:52-60 | the position of the first occurrence: it holds the element, and nothing before it does |
| Arrays.DedupKeepsFirstOccurrenceOrder | src/utils/array.rs:52-60 | the result lists elements in the order of their first occurrences |
| Arrays.FirstIndexOfPrefix | src/utils/array.rs:52-60 | an element of a prefix first occurs inside that prefix |
| Arrays.DedupOfDistinct | src/utils/array.rs:52-60 | a vector without duplicates is left as it is |
| Arrays.DedupIdempotent | src/utils/array.rs:52-60 | deduplicating twice is deduplicating once |
| Arrays.DedupAppend | src/utils/array.rs:52-60 | appending an element already present changes nothing; a new element goes to the end |
| Arrays.DistinctExample | src/utils/array.rs:68-73 | `[1, 2, 3, 1, 2, 3]` becomes `[1, 2, 3]` |
| TruthTables.ExtractHeader | src/expressions/truth_table.rs:60-77 | none; specified by `TruthTables.HeaderIsDedupedPostOrder` and the header lemmas below |
| TruthTables.PostOrder | src/expressions/truth_table.rs:60-77 | none: the reference order of the header, duplicates kept; specified by `TruthTables.PostOrderMember` and `TruthTables.PostOrderShorter` |
| TruthTables.HeaderIsDedupedPostOrder | src/expressions/truth_table.rs:60-77 | the header is the post-order list of renderings with later repeats removed |
| TruthTables.DedupPrefix | src/expressions/truth_table.rs:60-77 | deduplicating a prefix first does not change the deduplicated whole |
| TruthTables.DedupSuffix | src/expressions/truth_table.rs:60-77 | deduplicating a suffix first does not change the deduplicated whole |
| TruthTables.HeaderNoDuplicates | src/expressions/truth_table.rs:55-77 | no column heading appears twice |
| TruthTables.PostOrderMember | src/expressions/truth_table.rs:60-77 | a string is in the post-order exactly when some sub-expression renders as it |
| TruthTables.HeaderMember | src/expressions/truth_table.rs:55-77 | a heading is in the header exactly when some sub-expression renders as it |
| TruthTables.PostOrderShorter | src/expressions/truth_table.rs:60-77 | no entry is longer than the whole expression's rendering |
| TruthTables.HeaderShorter | src/expressions/truth_table.rs:60-77 | no heading is longer than the whole expression's rendering |
| TruthTables.HeaderEndsWithRoot | src/expressions/truth_table.rs:60-77 | the last heading is the whole expression |
| TruthTables.HeaderInPostOrder | src/expressions/truth_table.rs:60-77 | headings follow the order of their first appearance in post-order |
| TruthTables.AtomicHeader | src/expressions/truth_table.rs:75 | a variable's header is its name alone |
| TruthTables.NotHeader | src/expressions/truth_table.rs:62-67 | `¬v` gives `[v, ¬v]` |
| TruthTables.BinaryHeader | src/expressions/truth_table.rs:68-74 | `a op b` with distinct names gives `[a, b, whole]` |
| TruthTables.PairHeader | src/expressions/truth_table.rs:169-187 | `A op B` gives `[A, B, A op B]` with the operator's symbol |
| TruthTables.HeaderOfDistinctPostOrder | src/expressions/truth_table.rs:60-77 | without repeated renderings, the header is the whole post-order |
| TruthTables.DedupRepeatedHead | src/expressions/truth_table.rs:60-77 | a repeat of the first element in front is dropped |
| TruthTables.DedupPair | src/expressions/truth_table.rs:60-77 | a repeated pair keeps one element |
| TruthTables.RepeatedOperandHeader | src/expressions/truth_table.rs:68-74 | a variable operand already first in the right operand's header adds only the whole expression |
| TruthTables.DedupSeenThenNew | src/expressions/truth_table.rs:60-77 | an element already seen, followed by a new one: only the new one is added |
| TruthTables.HeaderExamples | src/expressions/truth_table.rs:154-187 | the atomic, not, and, or and implies header tests (the `Or` printed bare) |
| TruthTables.RepeatedConjunctionHeader | src/expressions/truth_table.rs:196-201 | `A ⋀ A ⋀ A ⋀ A` lists `A` once |
| TruthTables.RepeatedConjunctionRenders | src/expressions/expression.rs:88-107 | the conjunctions of `A ⋀ A ⋀ A ⋀ A` print without parentheses |
| TruthTables.ConjunctionRender | src/expressions/expression.rs:88-107 | a conjunction of operands that are no disjunctions prints its operands bare around `⋀` |
| TruthTables.DisjunctionRender | src/expressions/expression.rs:88-107 | a disjunction at the root prints its operands bare around `⋁` |
| TruthTables.ImplicationRender | src/expressions/expression.rs:88-107 | an implication prints its operands bare around `➔` |
| TruthTables.ComplexHeader | src/expressions/truth_table.rs:189-194 | `A ⋀ B ➔ C ⋁ D` gives seven headings in post-order |
| TruthTables.SomewhatEqualRenders | src/expressions/truth_table.rs:203-208 | how the sub-expressions of `A ⋀ ((¬A ⋁ B) ⋀ A)` print |
| TruthTables.SomewhatEqualHeader | src/expressions/truth_table.rs:203-208 | equal sub-expressions are listed once, at their first occurrence |
| TruthTables.Pow2 | src/expressions/truth_table.rs:91-100 | `2ⁿ` is at least one |
| TruthTables.AlternatingArray | src/expressions/truth_table.rs:96 | none; specified through `TruthTables.HelperRowsEntry` and `TruthTables.BlockParityIsBit` |
| TruthTables.HelperRows | src/expressions/truth_table.rs:91-100 | none: the reference matrix for `TruthTables.HelperMatrix`; specified by `TruthTables.HelperRowsEntry` |
| TruthTables.HelperMatrix | src/expressions/truth_table.rs:91-100 | the loop builds, for `n` variables, the `n` rows of `2ⁿ` entries given by `HelperRows` |
| TruthTables.HelperRowsEntry | src/expressions/truth_table.rs:91-100 | row `i`, entry `j` is true exactly when bit `n-1-i` of `j` is clear |
| TruthTables.HelperColumn | src/expressions/truth_table.rs:91-100 | column `j` spells `j` in binary, most significant bit first, with true for a 0 bit |
| TruthTables.BitsDiffer | src/expressions/truth_table.rs:91-100 | two distinct indices below `2ⁿ` differ in some bit below `n` |
| TruthTables.HelperColumnsDistinct | src/expressions/truth_table.rs:91-100 | no two columns are equal: no assignment is listed twice |
| TruthTables.AssignmentIndexBits | src/expressions/truth_table.rs:91-100 | every assignment of `n` booleans has an index below `2ⁿ` whose bits spell it |
| TruthTables.EveryAssignmentIsAColumn | src/expressions/truth_table.rs:91-100 | every assignment of the variables is some column: the matrix lists all `2ⁿ` of them |
| TruthTables.FirstColumnAllTrue | src/expressions/truth_table.rs:91-100 | the first column makes every variable true |
| TruthTables.AllTrueIndex | src/expressions/truth_table.rs:91-100 | the all-true assignment is column 0 |
| TruthTables.LastColumnAllFalse | src/expressions/truth_table.rs:91-100 | the last column makes every variable false |
| TruthTables.AllFalseIndex | src/expressions/truth_table.rs:91-100 | the all-false assignment is column `2ⁿ-1` |
| TruthTables.HelperMatrixExamples | src/expressions/truth_table.rs:138-152 | the one- and three-variable helper matrices of the tests |
| TruthTables.MultipleAtLeast | src/expressions/truth_table.rs:91-100 | supporting arithmetic for `TruthTables.BlockParityIsBit`: a positive multiple of `d` is at least `d` |
| TruthTables.DivUnique | src/expressions/truth_table.rs:91-100 | supporting arithmetic for `TruthTables.BlockParityIsBit`: quotient and remainder determine the division |
| TruthTables.DivPow2Step | src/expressions/truth_table.rs:91-100 | dividing by `2^(m+1)` is halving, then dividing by `2^m` |
| TruthTables.BlockParityIsBit | src/expressions/truth_table.rs:91-100 | block `j / 2^m` is even exactly when bit `m` of `j` is clear |
| ExpressionIterators.ExpressionIterator.constructor | src/expressions/iterator.rs:7-12 | the stack holds the expression alone, so the whole pre-order remains |
| ExpressionIterators.ExpressionIterator.Next | src/expressions/iterator.rs:17-34 | pops the top, pushes right then left children, and yields the first remaining pre-order node; `None` exactly when nothing remains |
| ExpressionIterators.Children | src/expressions/iterator.rs:21-29 | none: the nodes `next` pushes, in push order (right before left); used by `ExpressionIterators.ExpressionIterator.Next` and `ExpressionIterators.PendingAfterPop` |
| ExpressionIterators.PreOrder | src/expressions/iterator.rs:17-34 | none: the order the walk yields; specified by the `ExpressionIterators.PreOrder…` lemmas below |
| ExpressionIterators.PreOrderStartsWithRoot | src/expressions/iterator.rs:17-34 | the pre-order starts with the root |
| ExpressionIterators.PendingPush | src/expressions/iterator.rs:17-34 | pushing a node puts its whole pre-order in front of what remains |
| ExpressionIterators.PendingPushPair | src/expressions/iterator.rs:17-34 | pushing a right and then a left child puts the left child's pre-order first |
| ExpressionIterators.PendingAfterPop | src/expressions/iterator.rs:17-34 | replacing the top by its children leaves its pre-order without the node itself |
| ExpressionIterators.PendingEmpty | src/expressions/iterator.rs:17-34 | nothing remains exactly when the stack is empty |
| ExpressionIterators.PreOrderSize | src/expressions/iterator.rs:17-34 | the walk yields one item per node |
| ExpressionIterators.PreOrderMember | src/expressions/iterator.rs:17-34 | the walk yields every node of the tree and nothing else |
| ExpressionIterators.IteratorExample | src/expressions/iterator.rs:40-48 | `¬(A ⋀ B)` yields itself, `A ⋀ B`, `A`, `B`, then `None` |

## Left out

- `associative_law` and `commutative_law` (src/expressions/simplify.rs:166-168, 213-215) are unfinished in the source: their bodies are `todo!()`. They are not part of the pipeline either.
- The truth table is not modelled beyond its header and helper matrix.
  - `TruthTable::new`, `generate_truth_matrix`, `generate_truth_table` and `resolve_expression` are unfinished (`todo!()`) or depend on helpers outside this model.
  - The options that hide rows or sort them are not modelled.
- `AlternatingArray` is not among the source files shown. Its definition is inferred from the helper-matrix tests, and it requires a positive block length.
- `TruthTables.HelperMatrix` uses unbounded integers. `2usize.pow(n)` overflows for 64 or more variables, which the model does not capture.
- `ExpressionParser.ParsePrefix` and the other parsers: nom errors are `None`.
  - The error kinds, their input payloads and the `Incomplete` variant are not modelled.
  - `TryFrom` for `String` (which only converts the error) is the same function.
- `ExpressionParser.LeftHandSide`, `NotExpression`, `ParenthesizedExpression`, `ParenthesizedBody` and `OperatorCombinators` state in their own contracts only that a success consumes input; what they parse is proved in separate lemmas, listed in their rows.
- `ExpressionParser.Consumes` states only that the remaining input is shorter. That is what termination needs; that the remainder is a suffix of the input is proved for the whitespace parsers only.
- The operation log that the simplify endpoint can return is not modelled. The pipeline itself is.
- Serialisation (serde), the `Rc` sharing of subtrees and `Hash` are not modelled; trees are values.
- The HTTP server, the routing layer, the configuration and the language module are not modelled.
- The `matrix!`, `set!` and `map!` test macros are not modelled: tests are written out as Dafny values.
- `Expressions.Truth` is this model's own evaluator: the source has none.
- The program's rendering does not parse back: `Display` prints `⋀`, `⋁` and `➔`, which are not input tokens (`ExpressionParserExamples.RenderDoesNotParse`). No round trip through the program's own printer is stated; the round trip is through `ExpressionParserProperties.Show`.
- Rendering follows `fmt_helper` in src/expressions/expression.rs:88-107, which prints an `Or` bare at the root and under an implication.
  - The truth-table tests at src/expressions/truth_table.rs:179, 193 and 207 expect `(A ⋁ B)`, `(C ⋁ D)` and `(¬A ⋁ B)` in parentheses in those positions.
  - `TruthTables.HeaderExamples`, `TruthTables.ComplexHeader` and `TruthTables.SomewhatEqualHeader` state the headings the printer shown produces, with those `Or`s bare.
- `ParserUtils.ParenthesizedParseUntilEnd`: the test uses nom's streaming `take_while`, which fails with `Incomplete` at the end of the input. The model has only the complete `take_while`, which fails at the missing `)` instead; both are errors.
- `Simplify.AbsorptionLaw`: equality is structural and case-sensitive, as called. Each opposite-literal branch's `else if` alternative re-tests what its guard has just established, so it never runs; it is not modelled.

## Findings

| source | as written | input that shows it | evidently intended | confidence | as-written member | corrected member |
|---|---|---|---|---|---|---|
| src/expressions/simplify.rs:102-104 | when the compound is on the right and its first literal is opposite to the outer operand, the pass keeps the outer operand joined to that opposite literal | `a ⋀ (¬a ⋁ b)` becomes `a ⋀ ¬a`: true for `a = b = true` before, false after | keep the other inner literal: `a ⋀ b`, which keeps the truth value | high, not executed | Simplify.AbsorptionChangesTruth | Simplify.AbsorptionLawCorrectedPreservesTruth |
| src/expressions/simplify.rs:17-25 | the pipeline inherits that rewrite, so `simplify` can change a formula's meaning | `a ⋀ (¬a ⋁ b)` simplifies to `a ⋀ ¬a` | every stage keeps the truth value | high, not executed | Simplify.SimplifyChangesTruth | Simplify.SimplifyCorrectedPreservesTruth |
