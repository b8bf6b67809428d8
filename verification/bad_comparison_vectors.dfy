/** The rule's pass and fail vectors, each an `if` condition, encoded with the usual operator
    precedence: relational operators bind tighter than equality operators, and operators of
    one precedence level associate to the left. */
module BadComparisonVectors {
  import opened BadComparison

  /** The ancestors of an `if` condition: the statement, and above it the root. */
  function IfCondition(): (ancestors: seq<Kind>)
    ensures HasBoundary(ancestors) && FirstBoundary(ancestors) == 0
  {
    assert IsBoundary([StatementKind, RootKind][0]);
    [StatementKind, RootKind]
  }

  /** `a == b > c` and the like parse as `a == (b > c)`: nothing is reported. */
  lemma PassEqualityThenRelational(eq: BinaryOp, rel: BinaryOp)
    requires IsEquality(eq) && IsCompare(rel)
    ensures ReportCount(Binary(eq, Leaf, Binary(rel, Leaf, Leaf)), IfCondition()) == 0
  {
    MixedFamiliesNeverReported(eq, rel, IfCondition());
  }

  /** `a > b == c` and the like parse as `(a > b) == c`: nothing is reported. */
  lemma PassRelationalThenEquality(rel: BinaryOp, eq: BinaryOp)
    requires IsCompare(rel) && IsEquality(eq)
    ensures ReportCount(Binary(eq, Binary(rel, Leaf, Leaf), Leaf), IfCondition()) == 0
  {
    MixedFamiliesNeverReported(eq, rel, IfCondition());
  }

  /** `(a == b) && (b == c)` and `(a > b) && (b > c)`: comparisons joined by `&&` are not
      reported. */
  lemma PassJoinedByAnd(op: BinaryOp)
    requires IsEquality(op) || IsCompare(op)
    ensures ReportCount(Logical(And, Paren(Binary(op, Leaf, Leaf)), Paren(Binary(op, Leaf, Leaf))), IfCondition()) == 0
  {
    var cmp := Binary(op, Leaf, Leaf);
    var e := Logical(And, Paren(cmp), Paren(cmp));
    var below := [ExprKind(e)] + IfCondition();
    ChildHasBoundary(e, IfCondition());
    ChildHasBoundary(Paren(cmp), below);
    var inside := [ExprKind(Paren(cmp))] + below;
    ChildHasBoundary(cmp, inside);
    assert ReportCount(cmp, inside) == 0;
    assert ReportCount(Paren(cmp), below) == 0;
  }

  /** `a == b === c`, `a < b >= c` and every other pair of one family: one report. */
  lemma FailTwoOfOneFamily(first: BinaryOp, second: BinaryOp)
    requires (IsEquality(first) && IsEquality(second)) || (IsCompare(first) && IsCompare(second))
    ensures ReportCount(Binary(second, Binary(first, Leaf, Leaf), Leaf), IfCondition()) == 1
  {
    var ops := [first, second];
    assert Chain(ops[..1]) == Binary(first, Chain([]), Leaf);
    ChainReportedOnce(ops, IfCondition());
  }

  /** `a == b == c == d`: one report, at the outermost comparison. */
  lemma FailChainOfThree()
    ensures ReportCount(Binary(Equality, Binary(Equality, Binary(Equality, Leaf, Leaf), Leaf), Leaf), IfCondition()) == 1
  {
    var ops := [Equality, Equality, Equality];
    assert ops[..2] == [Equality, Equality] && ops[..2][..1] == [Equality];
    ChainReportedOnce(ops, IfCondition());
  }

  /** A parenthesised chain of one family is reported once, wherever it stands. */
  lemma ParenthesisedChainReportedOnce(ops: seq<BinaryOp>, ancestors: seq<Kind>)
    requires |ops| >= 2 && OneFamily(ops)
    requires HasBoundary(ancestors)
    ensures ReportCount(Paren(Chain(ops)), ancestors) == 1
  {
    ChildHasBoundary(Paren(Chain(ops)), ancestors);
    var inside := [ExprKind(Paren(Chain(ops)))] + ancestors;
    assert FirstBoundary(inside) == 0;
    ChainReportedOnce(ops, inside);
  }

  /** `(a == b == c) == d`, wherever it stands: only the chain inside the parentheses is
      reported, since the outer comparison's left operand is parenthesised. */
  lemma ComparedParenthesisedChain(ancestors: seq<Kind>)
    requires HasBoundary(ancestors)
    ensures ReportCount(Binary(Equality, Paren(Binary(Equality, Binary(Equality, Leaf, Leaf), Leaf)), Leaf), ancestors) == 1
  {
    var ops := [Equality, Equality];
    assert ops[..1] == [Equality];
    var e := Binary(Equality, Paren(Chain(ops)), Leaf);
    ChildHasBoundary(e, ancestors);
    var below := [ExprKind(e)] + ancestors;
    ParenthesisedChainReportedOnce(ops, below);
    ChildHasBoundary(Leaf, below);
  }

  /** `(a == b == c) == d`: one report, inside the parentheses. */
  lemma FailParenthesisedThenEquality()
    ensures ReportCount(Binary(Equality, Paren(Binary(Equality, Binary(Equality, Leaf, Leaf), Leaf)), Leaf), IfCondition()) == 1
  {
    ComparedParenthesisedChain(IfCondition());
  }

  /** `(a == b == c) == d == e == f`: two reports, one inside the parentheses and one at
      the outermost comparison; the comparison `(...) == d` is not bad and the one above it
      sits below a reported one. */
  lemma FailParenthesisedThenChain()
    ensures ReportCount(
              Binary(Equality, Binary(Equality, Binary(Equality,
                Paren(Binary(Equality, Binary(Equality, Leaf, Leaf), Leaf)), Leaf), Leaf), Leaf),
              IfCondition()) == 2
  {
    var chain := Binary(Equality, Binary(Equality, Leaf, Leaf), Leaf);
    var e3 := Binary(Equality, Paren(chain), Leaf);
    var e2 := Binary(Equality, e3, Leaf);
    var e1 := Binary(Equality, e2, Leaf);
    var ctx := IfCondition();
    ChildHasBoundary(e1, ctx);
    var b1 := [ExprKind(e1)] + ctx;
    ChildHasBoundary(e2, b1);
    var b2 := [ExprKind(e2)] + b1;
    ComparedParenthesisedChain(b2);
    assert !HasNoBadComparisonInParents(b2);
    assert !Reports(ExprKind(e2), b1);
    QuietBelowBadComparison(Leaf, b2);
    QuietBelowBadComparison(Leaf, b1);
    assert Reports(ExprKind(e1), ctx);
  }
}
