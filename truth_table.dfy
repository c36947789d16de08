/**
 * The parts of the truth-table builder that are written out in full: the
 * header (every distinct sub-expression rendering, children before their
 * parent) and the helper matrix (one row per variable, one column per
 * assignment).
 */
module TruthTables {
  import Options
  import opened Expressions
  import opened Arrays

  // ---------------------------------------------------------------------
  // extract_header
  // ---------------------------------------------------------------------

  /**
   * `extract_header`: the operand's header (or the left and then the right
   * operand's headers), then the node's own rendering, deduplicated at every
   * node; a variable's header is its name.
   */
  function ExtractHeader(e: Expression): (r: seq<string>)
  {
    match e
    case Not(x) => Dedup(ExtractHeader(x) + [Render(e)])
    case Binary(l, _, r) => Dedup(ExtractHeader(l) + ExtractHeader(r) + [Render(e)])
    case Atomic(v) => [v]
  }

  /** Every node's rendering in post-order, duplicates kept: the reference definition of the header. */
  function PostOrder(e: Expression): seq<string>
  {
    match e
    case Not(x) => PostOrder(x) + [Render(e)]
    case Binary(l, _, r) => PostOrder(l) + PostOrder(r) + [Render(e)]
    case Atomic(v) => [v]
  }

  /** Deduplicating a prefix first changes nothing. */
  lemma {:induction false} DedupPrefix(a: seq<string>, b: seq<string>)
    ensures Dedup(Dedup(a) + b) == Dedup(a + b)
    decreases |b|
  {
    if b == [] {
      assert Dedup(a) + b == Dedup(a) && a + b == a;
      DedupIdempotent(a);
    } else {
      var b', y := b[..|b| - 1], b[|b| - 1];
      DedupPrefix(a, b');
      assert Dedup(a) + b == (Dedup(a) + b') + [y];
      assert a + b == (a + b') + [y];
      DedupAppend(Dedup(a) + b', y);
      DedupAppend(a + b', y);
      DedupMember(a, y);
    }
  }

  /** Deduplicating a suffix first changes nothing. */
  lemma {:induction false} DedupSuffix(a: seq<string>, b: seq<string>)
    ensures Dedup(a + Dedup(b)) == Dedup(a + b)
    decreases |b|
  {
    if b != [] {
      var b', y := b[..|b| - 1], b[|b| - 1];
      DedupSuffix(a, b');
      assert b == b' + [y];
      assert a + b == (a + b') + [y];
      DedupAppend(b', y);
      DedupMember(b', y);
      DedupAppend(a + b', y);
      if y !in b' {
        assert a + Dedup(b) == (a + Dedup(b')) + [y];
        DedupAppend(a + Dedup(b'), y);
      }
    }
  }

  /** Deduplicating at every node is deduplicating the whole post-order once. */
  lemma {:induction false} HeaderIsDedupedPostOrder(e: Expression)
    ensures ExtractHeader(e) == Dedup(PostOrder(e))
  {
    match e
    case Not(x) =>
      HeaderIsDedupedPostOrder(x);
      DedupPrefix(PostOrder(x), [Render(e)]);
    case Binary(l, _, r) =>
      HeaderIsDedupedPostOrder(l);
      HeaderIsDedupedPostOrder(r);
      var pl, pr, last := PostOrder(l), PostOrder(r), [Render(e)];
      calc {
        Dedup(Dedup(pl) + Dedup(pr) + last);
        { DedupPrefix(Dedup(pl) + Dedup(pr), last); }
        Dedup(Dedup(Dedup(pl) + Dedup(pr)) + last);
        { DedupSuffix(Dedup(pl), pr); DedupPrefix(pl, pr); }
        Dedup(Dedup(pl + pr) + last);
        { DedupPrefix(pl + pr, last); }
        Dedup(pl + pr + last);
      }
    case Atomic(v) =>
      assert PostOrder(e) == [v] == Dedup([]) + [v];
  }

  /** The header never lists a rendering twice. */
  lemma HeaderNoDuplicates(e: Expression)
    ensures NoDuplicates(ExtractHeader(e))
  {
    HeaderIsDedupedPostOrder(e);
    DedupNoDuplicates(PostOrder(e));
  }

  /** The post-order holds exactly the renderings of the sub-expressions. */
  lemma {:induction false} PostOrderMember(e: Expression, s: string)
    ensures s in PostOrder(e) <==> exists t :: t in Subterms(e) && Render(t) == s
  {
    match e
    case Not(x) =>
      PostOrderMember(x, s);
    case Binary(l, _, r) =>
      PostOrderMember(l, s);
      PostOrderMember(r, s);
    case Atomic(v) =>
      assert Render(e) == v;
  }

  /** A rendering is in the header exactly when some sub-expression renders to it. */
  lemma HeaderMember(e: Expression, s: string)
    ensures s in ExtractHeader(e) <==> exists t :: t in Subterms(e) && Render(t) == s
  {
    HeaderIsDedupedPostOrder(e);
    DedupMember(PostOrder(e), s);
    PostOrderMember(e, s);
  }

  /** Everything in the post-order but the root renders shorter than the root. */
  lemma {:induction false} PostOrderShorter(e: Expression, s: string)
    requires s in PostOrder(e)
    ensures |s| <= |Render(e)|
  {
    match e
    case Not(x) =>
      if s != Render(e) {
        PostOrderShorter(x, s);
        SubtermRendersShorter(e, x);
      }
    case Binary(l, _, r) =>
      if s in PostOrder(l) {
        PostOrderShorter(l, s);
        SubtermRendersShorter(e, l);
      } else if s in PostOrder(r) {
        PostOrderShorter(r, s);
        SubtermRendersShorter(e, r);
      }
    case Atomic(v) =>
  }

  /** The last header entry is the rendering of the whole expression. */
  lemma HeaderEndsWithRoot(e: Expression)
    ensures ExtractHeader(e) != [] && ExtractHeader(e)[|ExtractHeader(e)| - 1] == Render(e)
  {
    HeaderIsDedupedPostOrder(e);
    match e
    case Not(x) =>
      if Render(e) in PostOrder(x) {
        PostOrderShorter(x, Render(e));
        SubtermRendersShorter(e, x);
      }
      DedupAppend(PostOrder(x), Render(e));
    case Binary(l, _, r) =>
      var children := PostOrder(l) + PostOrder(r);
      if Render(e) in children {
        if Render(e) in PostOrder(l) {
          PostOrderShorter(l, Render(e));
          SubtermRendersShorter(e, l);
        } else {
          PostOrderShorter(r, Render(e));
          SubtermRendersShorter(e, r);
        }
      }
      DedupAppend(children, Render(e));
    case Atomic(v) =>
  }

  /**
   * The header keeps first occurrences in post-order: an entry listed before
   * another was first reached before it.
   */
  lemma HeaderInPostOrder(e: Expression, i: int, j: int)
    requires 0 <= i < j < |ExtractHeader(e)|
    ensures ExtractHeader(e)[i] in PostOrder(e) && ExtractHeader(e)[j] in PostOrder(e)
    ensures FirstIndex(PostOrder(e), ExtractHeader(e)[i]) < FirstIndex(PostOrder(e), ExtractHeader(e)[j])
  {
    HeaderIsDedupedPostOrder(e);
    DedupKeepsFirstOccurrenceOrder(PostOrder(e), i, j);
  }

  /** A variable's header is its own name. */
  lemma AtomicHeader(v: string)
    ensures ExtractHeader(Atomic(v)) == [v] && Render(Atomic(v)) == v
  {
  }

  /** A negated variable: the name, then the negation. */
  lemma NotHeader(v: string)
    ensures ExtractHeader(Not(Atomic(v))) == [v, NotSymbol + v]
  {
    var e := Not(Atomic(v));
    RenderRules(e);
    assert Render(e) == NotSymbol + v;
    assert |Render(e)| > |v|;
    DedupAppend([v], Render(e));
    DedupOfDistinct([v]);
  }

  /** Two different variables joined by an operator: both names, then the whole. */
  lemma BinaryHeader(a: string, op: Operators.BinaryOperator, b: string)
    requires a != b
    ensures ExtractHeader(Binary(Atomic(a), op, Atomic(b))) == [a, b, Render(Binary(Atomic(a), op, Atomic(b)))]
  {
    var e := Binary(Atomic(a), op, Atomic(b));
    HeaderEndsWithRoot(e);
    assert ExtractHeader(Atomic(a)) + ExtractHeader(Atomic(b)) == [a, b];
    DedupOfDistinct([a, b]);
    SubtermRendersShorter(e, Atomic(a));
    SubtermRendersShorter(e, Atomic(b));
    DedupAppend([a, b], Render(e));
  }

  lemma HeaderExamples()
    ensures ExtractHeader(Atomic("A")) == ["A"]
    ensures ExtractHeader(Not(Atomic("A"))) == ["A", "\U{00AC}A"]
    ensures ExtractHeader(Binary(Atomic("A"), Operators.And, Atomic("B"))) == ["A", "B", "A \U{22C0} B"]
    ensures ExtractHeader(Binary(Atomic("A"), Operators.Implication, Atomic("B"))) == ["A", "B", "A \U{2794} B"]
    ensures ExtractHeader(Binary(Atomic("A"), Operators.Or, Atomic("B"))) == ["A", "B", "A \U{22C1} B"]
  {
    NotHeader("A");
    assert NotSymbol + "A" == "\U{00AC}A";
    PairHeader(Operators.And);
    assert "A" + AndSymbol + "B" == "A \U{22C0} B";
    PairHeader(Operators.Implication);
    assert "A" + ImpliesSymbol + "B" == "A \U{2794} B";
    PairHeader(Operators.Or);
    assert "A" + OrSymbol + "B" == "A \U{22C1} B";
  }

  /** The header of `A op B`: both variables, then the whole expression printed with `op`'s symbol. */
  lemma PairHeader(op: Operators.BinaryOperator)
    ensures var symbol := match op
      case And => AndSymbol
      case Or => OrSymbol
      case Implication => ImpliesSymbol;
      ExtractHeader(Binary(Atomic("A"), op, Atomic("B"))) == ["A", "B", "A" + symbol + "B"]
  {
    var e := Binary(Atomic("A"), op, Atomic("B"));
    BinaryHeader("A", op, "B");
    RenderRules(e);
  }

  /** When the post-order repeats nothing, the header is the post-order itself. */
  lemma HeaderOfDistinctPostOrder(e: Expression)
    requires NoDuplicates(PostOrder(e))
    ensures ExtractHeader(e) == PostOrder(e)
  {
    HeaderIsDedupedPostOrder(e);
    DedupOfDistinct(PostOrder(e));
  }

  /** Repeating the first element of a duplicate-free sequence in front of it changes nothing. */
  lemma DedupRepeatedHead(v: string, h: seq<string>)
    requires NoDuplicates(h) && h != [] && h[0] == v
    ensures Dedup([v] + h) == h
  {
    var t := h[1..];
    calc {
      Dedup([v] + h);
      { assert [v] + h == [v, v] + t; }
      Dedup([v, v] + t);
      { DedupPrefix([v, v], t); }
      Dedup(Dedup([v, v]) + t);
      { DedupPair(v); assert [v] + t == h; }
      Dedup(h);
      { DedupOfDistinct(h); }
      h;
    }
  }

  lemma DedupPair(v: string)
    ensures Dedup([v, v]) == [v]
  {
    assert [v, v][..1] == [v];
    assert Dedup([v]) == [v] by {
      assert [v][..0] == [];
    }
  }

  /**
   * A variable in front of an operand whose header starts with that same
   * variable adds only the whole expression's rendering.
   */
  lemma RepeatedOperandHeader(v: string, op: Operators.BinaryOperator, r: Expression)
    requires ExtractHeader(r) != [] && ExtractHeader(r)[0] == v
    ensures ExtractHeader(Binary(Atomic(v), op, r)) == ExtractHeader(r) + [Render(Binary(Atomic(v), op, r))]
  {
    var e := Binary(Atomic(v), op, r);
    var h, root := ExtractHeader(r), Render(e);
    HeaderNoDuplicates(r);
    DedupRepeatedHead(v, h);
    assert ExtractHeader(e) == Dedup(([v] + h) + [root]);
    DedupPrefix([v] + h, [root]);
    assert root !in h by {
      assert r in Subterms(r) by {
        match r
        case Not(_) =>
        case Binary(_, _, _) =>
        case Atomic(_) =>
      }
      assert r in Subterms(e);
      assert Size(r) < Size(e);
      SubtermRendersShorter(e, r);
      if root in h {
        HeaderShorter(r, root);
      }
    }
    DedupAppend(h, root);
    DedupOfDistinct(h);
  }

  /** No header entry is longer than the rendering of the whole expression. */
  lemma HeaderShorter(e: Expression, s: string)
    requires s in ExtractHeader(e)
    ensures |s| <= |Render(e)|
  {
    HeaderIsDedupedPostOrder(e);
    DedupMember(PostOrder(e), s);
    PostOrderShorter(e, s);
  }

  /** `A ⋀ (A ⋀ (A ⋀ A))`: the repeated `A` is listed once. */
  lemma RepeatedConjunctionHeader()
    ensures var a := Atomic("A");
      ExtractHeader(Binary(a, Operators.And, Binary(a, Operators.And, Binary(a, Operators.And, a))))
        == ["A", "A \U{22C0} A", "A \U{22C0} A \U{22C0} A", "A \U{22C0} A \U{22C0} A \U{22C0} A"]
  {
    var a := Atomic("A");
    var e3 := Binary(a, Operators.And, a);
    var e2 := Binary(a, Operators.And, e3);
    var e1 := Binary(a, Operators.And, e2);
    RepeatedOperandHeader("A", Operators.And, a);
    RepeatedOperandHeader("A", Operators.And, e3);
    RepeatedOperandHeader("A", Operators.And, e2);
    RepeatedConjunctionRenders(a);
  }

  /** The renderings met in `A ⋀ (A ⋀ (A ⋀ A))`: no parentheses anywhere. */
  lemma RepeatedConjunctionRenders(a: Expression)
    requires a == Atomic("A")
    ensures Render(Binary(a, Operators.And, a)) == "A \U{22C0} A"
    ensures Render(Binary(a, Operators.And, Binary(a, Operators.And, a))) == "A \U{22C0} A \U{22C0} A"
    ensures Render(Binary(a, Operators.And, Binary(a, Operators.And, Binary(a, Operators.And, a))))
      == "A \U{22C0} A \U{22C0} A \U{22C0} A"
  {
    var e3 := Binary(a, Operators.And, a);
    var e2 := Binary(a, Operators.And, e3);
    var e1 := Binary(a, Operators.And, e2);
    ConjunctionRender(a, a, "A", "A");
    ConjunctionRender(a, e3, "A", "A \U{22C0} A");
    ConjunctionRender(a, e2, "A", "A \U{22C0} A \U{22C0} A");
  }

  /** A disjunction is printed with its operands bare. */
  lemma DisjunctionRender(l: Expression, r: Expression, left: string, right: string)
    requires Render(l) == left && Render(r) == right
    ensures Render(Binary(l, Operators.Or, r)) == left + " \U{22C1} " + right
  {
    RenderRules(Binary(l, Operators.Or, r));
  }

  /** An implication is printed with its operands bare. */
  lemma ImplicationRender(l: Expression, r: Expression, left: string, right: string)
    requires Render(l) == left && Render(r) == right
    ensures Render(Binary(l, Operators.Implication, r)) == left + " \U{2794} " + right
  {
    RenderRules(Binary(l, Operators.Implication, r));
  }

  /** A conjunction of operands that are no disjunctions is printed without parentheses. */
  lemma ConjunctionRender(l: Expression, r: Expression, left: string, right: string)
    requires !(l.Binary? && l.op == Operators.Or) && !(r.Binary? && r.op == Operators.Or)
    requires Render(l) == left && Render(r) == right
    ensures Render(Binary(l, Operators.And, r)) == left + " \U{22C0} " + right
  {
    RenderRules(Binary(l, Operators.And, r));
  }

  /**
   * `(A ⋀ B) ➔ (C ⋁ D)`: an `Or` at the root and under an implication is
   * printed without parentheses.
   */
  lemma ComplexHeader()
    ensures ExtractHeader(Binary(Binary(Atomic("A"), Operators.And, Atomic("B")), Operators.Implication,
                                 Binary(Atomic("C"), Operators.Or, Atomic("D"))))
      == ["A", "B", "A \U{22C0} B", "C", "D", "C \U{22C1} D", "A \U{22C0} B \U{2794} C \U{22C1} D"]
  {
    var conjunction := Binary(Atomic("A"), Operators.And, Atomic("B"));
    var disjunction := Binary(Atomic("C"), Operators.Or, Atomic("D"));
    var e := Binary(conjunction, Operators.Implication, disjunction);
    ConjunctionRender(Atomic("A"), Atomic("B"), "A", "B");
    DisjunctionRender(Atomic("C"), Atomic("D"), "C", "D");
    assert Render(conjunction) == "A \U{22C0} B";
    assert Render(disjunction) == "C \U{22C1} D";
    ImplicationRender(conjunction, disjunction, "A \U{22C0} B", "C \U{22C1} D");
    assert Render(e) == "A \U{22C0} B \U{2794} C \U{22C1} D";
    assert PostOrder(e) == ["A", "B", "A \U{22C0} B", "C", "D", "C \U{22C1} D", "A \U{22C0} B \U{2794} C \U{22C1} D"];
    HeaderOfDistinctPostOrder(e);
  }

  /** An element already seen, then a new one: only the new one is added. */
  lemma DedupSeenThenNew(h: seq<string>, y: string, x: string)
    requires NoDuplicates(h) && y in h && x !in h
    ensures Dedup(h + [y] + [x]) == h + [x]
  {
    DedupOfDistinct(h);
    DedupAppend(h, y);
    DedupPrefix(h + [y], [x]);
    DedupAppend(h, x);
  }

  /** The renderings met in `A ⋀ ((¬A ⋁ B) ⋀ A)`. */
  lemma SomewhatEqualRenders(a: Expression, b: Expression)
    requires a == Atomic("A") && b == Atomic("B")
    ensures Render(Not(a)) == "\U{00AC}A"
    ensures Render(Binary(Not(a), Operators.Or, b)) == "\U{00AC}A \U{22C1} B"
    ensures Render(Binary(Binary(Not(a), Operators.Or, b), Operators.And, a)) == "(\U{00AC}A \U{22C1} B) \U{22C0} A"
    ensures Render(Binary(a, Operators.And, Binary(Binary(Not(a), Operators.Or, b), Operators.And, a)))
      == "A \U{22C0} (\U{00AC}A \U{22C1} B) \U{22C0} A"
  {
    var disjunction := Binary(Not(a), Operators.Or, b);
    var inner := Binary(disjunction, Operators.And, a);
    RenderRules(Not(a));
    assert Render(Not(a)) == "\U{00AC}" + "A";
    DisjunctionRender(Not(a), b, "\U{00AC}A", "B");
    RenderRules(inner);
    ParentOnlyWrapsOr(disjunction, Options.Some(inner));
    ParentOnlyWrapsOr(a, Options.Some(inner));
    assert Render(inner) == "(" + "\U{00AC}A \U{22C1} B" + ")" + " \U{22C0} " + "A";
    ConjunctionRender(a, inner, "A", "(\U{00AC}A \U{22C1} B) \U{22C0} A");
  }

  /**
   * `A ⋀ ((¬A ⋁ B) ⋀ A)`: equal sub-expressions are listed once, at their
   * first occurrence; the `Or` is printed bare on its own and in parentheses
   * under the `And`.
   */
  lemma SomewhatEqualHeader()
    ensures var a := Atomic("A");
      ExtractHeader(Binary(a, Operators.And, Binary(Binary(Not(a), Operators.Or, Atomic("B")), Operators.And, a)))
        == ["A", "\U{00AC}A", "B", "\U{00AC}A \U{22C1} B", "(\U{00AC}A \U{22C1} B) \U{22C0} A",
            "A \U{22C0} (\U{00AC}A \U{22C1} B) \U{22C0} A"]
  {
    var a, b := Atomic("A"), Atomic("B");
    var disjunction := Binary(Not(a), Operators.Or, b);
    var inner := Binary(disjunction, Operators.And, a);
    SomewhatEqualRenders(a, b);
    var h := ["A", "\U{00AC}A", "B", "\U{00AC}A \U{22C1} B"];
    var x := "(\U{00AC}A \U{22C1} B) \U{22C0} A";
    assert PostOrder(disjunction) == h;
    HeaderOfDistinctPostOrder(disjunction);
    assert ExtractHeader(inner) == Dedup(h + ["A"] + [x]);
    DedupSeenThenNew(h, "A", x);
    RepeatedOperandHeader("A", Operators.And, inner);
  }

  // ---------------------------------------------------------------------
  // helper_matrix
  // ---------------------------------------------------------------------

  function Pow2(n: nat): (r: nat)
    ensures r >= 1
  {
    if n == 0 then 1 else 2 * Pow2(n - 1)
  }

  /** `alternating_array(len, k)`: blocks of `k` times `true`, then `k` times `false`, starting with `true`. */
  function AlternatingArray(len: nat, k: nat): seq<bool>
    requires k > 0
  {
    seq(len, j => (j / k) % 2 == 0)
  }

  /** Bit `m` of `j` (bit 0 the least significant). */
  predicate Bit(j: nat, m: nat)
  {
    if m == 0 then j % 2 == 1 else Bit(j / 2, m - 1)
  }

  /** The specification of `helper_matrix(n)`: row `i` alternates in blocks of 2^(n-1-i). */
  function HelperRows(n: nat): seq<seq<bool>>
  {
    seq(n, i requires 0 <= i < n => AlternatingArray(Pow2(n), Pow2(n - 1 - i)))
  }

  /**
   * `helper_matrix`: start from `n` empty rows, then overwrite each row in
   * turn with an alternating array, halving the block length each time.
   */
  method HelperMatrix(numberOfAtomics: nat) returns (m: seq<seq<bool>>)
    ensures m == HelperRows(numberOfAtomics)
  {
    var n := numberOfAtomics;
    var len := Pow2(n);
    var changeIndex := len / 2;
    var rows := new seq<bool>[n](_ => []);
    for i := 0 to n
      invariant changeIndex == if i < n then Pow2(n - 1 - i) else 0
      invariant forall k :: 0 <= k < i ==> rows[k] == AlternatingArray(len, Pow2(n - 1 - k))
    {
      rows[i] := AlternatingArray(len, changeIndex);
      changeIndex := changeIndex / 2;
    }
    m := rows[..];
  }

  /** A positive multiple of `d` is at least `d`. */
  lemma {:induction false} MultipleAtLeast(d: nat, k: int)
    requires k >= 1
    ensures d * k >= d
    decreases k
  {
    if k > 1 {
      MultipleAtLeast(d, k - 1);
      assert d * k == d * (k - 1) + d;
    }
  }

  /** `x / d` is `q` whenever `x` is `d * q` plus something below `d`. */
  lemma DivUnique(x: int, d: int, q: int, r: int)
    requires d > 0 && 0 <= r < d && x == d * q + r
    ensures x / d == q
  {
    var q0 := x / d;
    assert x == d * q0 + x % d;
    if q0 > q {
      MultipleAtLeast(d, q0 - q);
    } else if q0 < q {
      MultipleAtLeast(d, q - q0);
    }
  }

  /** Dividing by 2^(m+1) is halving, then dividing by 2^m. */
  lemma DivPow2Step(j: nat, m: nat)
    ensures j / Pow2(m + 1) == (j / 2) / Pow2(m)
  {
    var p := Pow2(m);
    var q, r := (j / 2) / p, (j / 2) % p;
    assert j / 2 == p * q + r;
    assert j == (2 * p) * q + (2 * r + j % 2);
    DivUnique(j, 2 * p, q, 2 * r + j % 2);
  }

  /** The block of length 2^m that `j` lies in is even exactly when bit `m` of `j` is 0. */
  lemma {:induction false} BlockParityIsBit(j: nat, m: nat)
    ensures (j / Pow2(m)) % 2 == 0 <==> !Bit(j, m)
  {
    if m > 0 {
      DivPow2Step(j, m - 1);
      BlockParityIsBit(j / 2, m - 1);
    }
  }

  /** Each row of `helper_matrix(n)` has 2^n entries; row `i`, column `j` is `true` exactly when bit n-1-i of `j` is 0. */
  lemma HelperRowsEntry(n: nat, i: nat, j: nat)
    requires i < n && j < Pow2(n)
    ensures |HelperRows(n)| == n && |HelperRows(n)[i]| == Pow2(n)
    ensures HelperRows(n)[i][j] <==> !Bit(j, n - 1 - i)
  {
    var row := HelperRows(n)[i];
    assert row == AlternatingArray(Pow2(n), Pow2(n - 1 - i));
    assert row[j] == ((j / Pow2(n - 1 - i)) % 2 == 0);
    BlockParityIsBit(j, n - 1 - i);
  }

  /** Column `j` of a matrix, top to bottom. */
  function Column(m: seq<seq<bool>>, j: nat): seq<bool>
    requires forall i :: 0 <= i < |m| ==> j < |m[i]|
  {
    seq(|m|, i requires 0 <= i < |m| => m[i][j])
  }

  /** Column `j` of `helper_matrix(n)` is the assignment that reads `j` in binary, most significant bit first, 0 as `true`. */
  lemma HelperColumn(n: nat, j: nat)
    requires j < Pow2(n)
    ensures forall i :: 0 <= i < |HelperRows(n)| ==> j < |HelperRows(n)[i]|
    ensures |Column(HelperRows(n), j)| == n
    ensures forall i :: 0 <= i < n ==> (Column(HelperRows(n), j)[i] <==> !Bit(j, n - 1 - i))
  {
    forall i | 0 <= i < n
      ensures j < |HelperRows(n)[i]| && (HelperRows(n)[i][j] <==> !Bit(j, n - 1 - i))
    {
      HelperRowsEntry(n, i, j);
    }
  }

  /** Bits of two different numbers below 2^n differ somewhere below `n`. */
  lemma {:induction false} BitsDiffer(j1: nat, j2: nat, n: nat) returns (m: nat)
    requires j1 < Pow2(n) && j2 < Pow2(n) && j1 != j2
    ensures m < n && Bit(j1, m) != Bit(j2, m)
  {
    if j1 % 2 != j2 % 2 {
      m := 0;
    } else {
      var m' := BitsDiffer(j1 / 2, j2 / 2, n - 1);
      m := m' + 1;
    }
  }

  /** The columns of `helper_matrix(n)` are pairwise different assignments. */
  lemma HelperColumnsDistinct(n: nat, j1: nat, j2: nat)
    requires j1 < Pow2(n) && j2 < Pow2(n) && j1 != j2
    ensures forall i :: 0 <= i < |HelperRows(n)| ==> j1 < |HelperRows(n)[i]| && j2 < |HelperRows(n)[i]|
    ensures Column(HelperRows(n), j1) != Column(HelperRows(n), j2)
  {
    HelperColumn(n, j1);
    HelperColumn(n, j2);
    var m := BitsDiffer(j1, j2, n);
    var i := n - 1 - m;
    assert Column(HelperRows(n), j1)[i] != Column(HelperRows(n), j2)[i];
  }

  /** The index of an assignment: its values as binary digits, most significant first, `true` as 0. */
  function AssignmentIndex(a: seq<bool>): nat
  {
    if a == [] then 0 else 2 * AssignmentIndex(a[..|a| - 1]) + (if a[|a| - 1] then 0 else 1)
  }

  lemma {:induction false} AssignmentIndexBits(a: seq<bool>)
    ensures AssignmentIndex(a) < Pow2(|a|)
    ensures forall i :: 0 <= i < |a| ==> (a[i] <==> !Bit(AssignmentIndex(a), |a| - 1 - i))
  {
    if a != [] {
      var a' := a[..|a| - 1];
      AssignmentIndexBits(a');
      var j := AssignmentIndex(a);
      assert j / 2 == AssignmentIndex(a') && j % 2 == (if a[|a| - 1] then 0 else 1);
      forall i | 0 <= i < |a| - 1
        ensures a[i] <==> !Bit(j, |a| - 1 - i)
      {
        assert a[i] == a'[i];
      }
    }
  }

  /** Every assignment of `n` truth values is a column of `helper_matrix(n)`. */
  lemma EveryAssignmentIsAColumn(a: seq<bool>)
    ensures AssignmentIndex(a) < Pow2(|a|)
    ensures forall i :: 0 <= i < |HelperRows(|a|)| ==> AssignmentIndex(a) < |HelperRows(|a|)[i]|
    ensures Column(HelperRows(|a|), AssignmentIndex(a)) == a
  {
    AssignmentIndexBits(a);
    HelperColumn(|a|, AssignmentIndex(a));
  }

  /** The first column is all `true`. */
  lemma FirstColumnAllTrue(n: nat)
    ensures forall i :: 0 <= i < |HelperRows(n)| ==> 0 < |HelperRows(n)[i]|
    ensures Column(HelperRows(n), 0) == seq(n, i => true)
  {
    var a := seq(n, i => true);
    EveryAssignmentIsAColumn(a);
    assert AssignmentIndex(a) == 0 by {
      AllTrueIndex(n);
    }
  }

  lemma {:induction false} AllTrueIndex(n: nat)
    ensures AssignmentIndex(seq(n, i => true)) == 0
  {
    if n > 0 {
      AllTrueIndex(n - 1);
      assert seq(n, i => true)[..n - 1] == seq(n - 1, i => true);
    }
  }

  /** The last column is all `false`. */
  lemma LastColumnAllFalse(n: nat)
    ensures forall i :: 0 <= i < |HelperRows(n)| ==> Pow2(n) - 1 < |HelperRows(n)[i]|
    ensures Column(HelperRows(n), Pow2(n) - 1) == seq(n, i => false)
  {
    var a := seq(n, i => false);
    EveryAssignmentIsAColumn(a);
    AllFalseIndex(n);
  }

  lemma {:induction false} AllFalseIndex(n: nat)
    ensures AssignmentIndex(seq(n, i => false)) == Pow2(n) - 1
  {
    if n > 0 {
      AllFalseIndex(n - 1);
      assert seq(n, i => false)[..n - 1] == seq(n - 1, i => false);
    }
  }

  lemma HelperMatrixExamples()
    ensures HelperRows(1) == [[true, false]]
    ensures HelperRows(3) == [
      [true, true, true, true, false, false, false, false],
      [true, true, false, false, true, true, false, false],
      [true, false, true, false, true, false, true, false]]
  {
    assert Pow2(1) == 2 && Pow2(0) == 1;
    assert HelperRows(1)[0] == AlternatingArray(2, 1) == [true, false];
    assert Pow2(3) == 8 && Pow2(2) == 4;
    assert HelperRows(3)[0] == AlternatingArray(8, 4);
    assert HelperRows(3)[1] == AlternatingArray(8, 2);
    assert HelperRows(3)[2] == AlternatingArray(8, 1);
    assert AlternatingArray(8, 4) == [true, true, true, true, false, false, false, false];
    assert AlternatingArray(8, 2) == [true, true, false, false, true, true, false, false];
    assert AlternatingArray(8, 1) == [true, false, true, false, true, false, true, false];
  }
}
