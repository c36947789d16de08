/**
 * `ExpressionIterator`: a pre-order walk over an expression tree driven by
 * an explicit stack. The top of the stack is the last element of `stack`;
 * `Pending` is what the stack still has to yield, and every `Next` call
 * yields the first of it.
 */
module ExpressionIterators {
  import opened Options
  import opened Expressions

  /** The nodes of a tree in pre-order: a node, then its left (or only) subtree, then its right subtree. */
  function PreOrder(e: Expression): seq<Expression>
  {
    match e
    case Not(x) => [e] + PreOrder(x)
    case Binary(l, _, r) => [e] + PreOrder(l) + PreOrder(r)
    case Atomic(_) => [e]
  }

  /** What `next` pushes after popping `e`: a negation's operand, or a binary node's right and then left operand. */
  function Children(e: Expression): seq<Expression>
  {
    match e
    case Not(x) => [x]
    case Binary(l, _, r) => [r, l]
    case Atomic(_) => []
  }

  /** Everything a stack still yields: the pre-order of its top, then of the rest of it. */
  function Pending(stack: seq<Expression>): seq<Expression>
  {
    if stack == [] then [] else PreOrder(stack[|stack| - 1]) + Pending(stack[..|stack| - 1])
  }

  class ExpressionIterator {
    var stack: seq<Expression>

    /** The nodes this iterator is still to yield, in order. */
    function Remaining(): seq<Expression>
      reads this
    {
      Pending(stack)
    }

    /** `ExpressionIterator::new`: a stack holding the whole expression. */
    constructor (expression: Expression)
      ensures stack == [expression]
      ensures Remaining() == PreOrder(expression)
    {
      stack := [expression];
      new;
      PendingPush([], expression);
      assert [] + [expression] == stack;
    }

    /**
     * `next`: pop the top node, push its children (right before left, so the
     * left comes off first) and yield the node; `None` once the stack is empty.
     */
    method Next() returns (item: Option<Expression>)
      modifies this
      ensures old(stack) == [] ==> item == None && stack == []
      ensures old(stack) != [] ==>
        && item == Some(old(stack)[|old(stack)| - 1])
        && stack == old(stack)[..|old(stack)| - 1] + Children(item.value)
      ensures item.None? <==> old(Remaining()) == []
      ensures item.Some? ==> old(Remaining()) == [item.value] + Remaining()
    {
      if stack == [] {
        item := None;
      } else {
        var expression := stack[|stack| - 1];
        var rest := stack[..|stack| - 1];
        assert stack == rest + [expression];
        PendingPush(rest, expression);
        PendingAfterPop(rest, expression);
        PreOrderStartsWithRoot(expression);
        match expression {
          case Atomic(_) =>
            stack := rest;
          case Not(inner) =>
            stack := rest + [inner];
          case Binary(left, _, right) =>
            stack := rest + [right];
            stack := stack + [left];
            assert stack == rest + [right, left];
        }
        item := Some(expression);
      }
    }
  }

  /** The pre-order starts with the root. */
  lemma PreOrderStartsWithRoot(e: Expression)
    ensures PreOrder(e) != [] && PreOrder(e)[0] == e
  {
  }

  /** Pushing a node puts its whole pre-order in front of what the stack yields. */
  lemma PendingPush(rest: seq<Expression>, e: Expression)
    ensures Pending(rest + [e]) == PreOrder(e) + Pending(rest)
  {
    assert (rest + [e])[..|rest|] == rest;
  }

  /** Replacing the top node by its children leaves all of its pre-order but the node itself. */
  lemma PendingAfterPop(rest: seq<Expression>, e: Expression)
    ensures Pending(rest + Children(e)) == PreOrder(e)[1..] + Pending(rest)
  {
    match e
    case Not(x) =>
      PendingPush(rest, x);
    case Binary(l, _, r) =>
      PendingPushPair(rest, r, l);
      assert rest + Children(e) == rest + [r, l];
      assert PreOrder(e) == [e] + (PreOrder(l) + PreOrder(r));
    case Atomic(_) =>
      assert rest + Children(e) == rest;
  }

  /** Pushing two nodes puts the later one's pre-order first. */
  lemma PendingPushPair(rest: seq<Expression>, first: Expression, second: Expression)
    ensures Pending(rest + [first, second]) == PreOrder(second) + (PreOrder(first) + Pending(rest))
  {
    PendingPush(rest, first);
    PendingPush(rest + [first], second);
    assert rest + [first] + [second] == rest + [first, second];
  }

  /** A stack yields nothing exactly when it is empty. */
  lemma PendingEmpty(stack: seq<Expression>)
    ensures Pending(stack) == [] <==> stack == []
  {
    if stack != [] {
      PreOrderStartsWithRoot(stack[|stack| - 1]);
    }
  }

  /** The walk yields exactly one item per node. */
  lemma {:induction false} PreOrderSize(e: Expression)
    ensures |PreOrder(e)| == Size(e)
  {
    match e
    case Not(x) =>
      PreOrderSize(x);
    case Binary(l, _, r) =>
      PreOrderSize(l);
      PreOrderSize(r);
    case Atomic(_) =>
  }

  /** The walk yields every node of the tree and nothing else. */
  lemma {:induction false} PreOrderMember(e: Expression, t: Expression)
    ensures t in PreOrder(e) <==> t in Subterms(e)
  {
    match e
    case Not(x) =>
      PreOrderMember(x, t);
    case Binary(l, _, r) =>
      PreOrderMember(l, t);
      PreOrderMember(r, t);
    case Atomic(_) =>
  }

  /** `¬(A ⋀ B)` yields itself, the conjunction, `A`, `B`, and then nothing. */
  method IteratorExample() returns (items: seq<Option<Expression>>)
    ensures var conjunction := Binary(Atomic("A"), Operators.And, Atomic("B"));
      items == [Some(Not(conjunction)), Some(conjunction), Some(Atomic("A")), Some(Atomic("B")), None]
  {
    var conjunction := Binary(Atomic("A"), Operators.And, Atomic("B"));
    var walk := new ExpressionIterator(Not(conjunction));
    var first := walk.Next();
    var second := walk.Next();
    var third := walk.Next();
    var fourth := walk.Next();
    var fifth := walk.Next();
    items := [first, second, third, fourth, fifth];
  }
}
