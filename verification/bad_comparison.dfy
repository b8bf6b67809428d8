/** The bad-comparison-sequence lint: a comparison whose left operand is itself a
    comparison of the same family (`a == b == c`, `a < b < c`) compares a boolean with the
    third operand. The rule reports such a node unless another bad comparison stands between
    it and the nearest boundary (a statement, declaration, parenthesised expression or the
    root), so an unbroken chain is reported once, at its outermost node. */
module BadComparison {

  /** The binary operators of the expression language; `&&`, `||` and `??` are logical
      expressions, a separate node kind. */
  datatype BinaryOp =
    | Equality | StrictEquality | Inequality | StrictInequality
    | LessThan | LessEqualThan | GreaterThan | GreaterEqualThan
    | Addition | Subtraction | Multiplication | Instanceof | In

  datatype LogicalOp = And | Or | Coalesce

  /** Expressions, down to what the rule inspects. */
  datatype Expr =
    | Binary(op: BinaryOp, left: Expr, right: Expr)
    | Logical(logicalOp: LogicalOp, lhs: Expr, rhs: Expr)
    | Paren(inner: Expr)
    | Leaf

  /** `==`, `===`, `!=` and `!==`. */
  predicate IsEquality(op: BinaryOp)
  {
    op.Equality? || op.StrictEquality? || op.Inequality? || op.StrictInequality?
  }

  /** `<`, `<=`, `>` and `>=`. */
  predicate IsCompare(op: BinaryOp)
  {
    op.LessThan? || op.LessEqualThan? || op.GreaterThan? || op.GreaterEqualThan?
  }

  /** The operator families, listed out independently of the two predicates above. */
  datatype Family = EqualityFamily | RelationalFamily | NoFamily

  function FamilyOf(op: BinaryOp): Family
  {
    match op
    case Equality => EqualityFamily
    case StrictEquality => EqualityFamily
    case Inequality => EqualityFamily
    case StrictInequality => EqualityFamily
    case LessThan => RelationalFamily
    case LessEqualThan => RelationalFamily
    case GreaterThan => RelationalFamily
    case GreaterEqualThan => RelationalFamily
    case _ => NoFamily
  }

  /** A binary node with operator `op` and left operand `left` is a bad comparison: an
      equality whose left operand is an equality, or a relational comparison whose left
      operand is a relational comparison. Only the left operand is inspected, and only when
      it is a binary expression itself, not a parenthesised or logical one. */
  function IsBadComparison(op: BinaryOp, left: Expr): (r: bool)
    ensures r <==> left.Binary? && FamilyOf(op) == FamilyOf(left.op) && FamilyOf(op) != NoFamily
  {
    if IsEquality(op) && left.Binary? && IsEquality(left.op) then true
    else if IsCompare(op) && left.Binary? && IsCompare(left.op) then true
    else false
  }

  /** The kind of an ancestor node, as far as the rule distinguishes them. */
  datatype Kind = RootKind | StatementKind | DeclarationKind | ExprKind(e: Expr) | OtherKind

  /** The ancestor walk stops here: the root, a parenthesised expression, a declaration or
      a statement. */
  predicate IsBoundary(k: Kind)
  {
    k.RootKind? || k.StatementKind? || k.DeclarationKind? || (k.ExprKind? && k.e.Paren?)
  }

  /** A binary expression that is a bad comparison. */
  predicate IsBadNode(k: Kind)
  {
    k.ExprKind? && k.e.Binary? && IsBadComparison(k.e.op, k.e.left)
  }

  /** Some ancestor is a boundary; the ancestor chain of every node below the root ends in
      the root, so the walk never runs off its end. */
  predicate HasBoundary(ancestors: seq<Kind>)
  {
    exists j :: 0 <= j < |ancestors| && IsBoundary(ancestors[j])
  }

  /** The nearest boundary among the ancestors, nearest first. */
  function FirstBoundary(ancestors: seq<Kind>): (i: nat)
    requires HasBoundary(ancestors)
    ensures i < |ancestors| && IsBoundary(ancestors[i])
    ensures forall j :: 0 <= j < i ==> !IsBoundary(ancestors[j])
  {
    if IsBoundary(ancestors[0]) then 0
    else
      assert HasBoundary(ancestors[1..]) by {
        var j :| 0 <= j < |ancestors| && IsBoundary(ancestors[j]);
        assert ancestors[1..][j - 1] == ancestors[j];
      }
      1 + FirstBoundary(ancestors[1..])
  }

  /** The ancestor walk, nearest ancestor first: true at the first boundary, false at the
      first bad comparison met before it. */
  function HasNoBadComparisonInParents(ancestors: seq<Kind>): (r: bool)
    requires HasBoundary(ancestors)
    ensures r <==> forall j :: 0 <= j < FirstBoundary(ancestors) ==> !IsBadNode(ancestors[j])
  {
    if IsBoundary(ancestors[0]) then true
    else if IsBadNode(ancestors[0]) then false
    else
      assert HasBoundary(ancestors[1..]) by {
        var j :| 0 <= j < |ancestors| && IsBoundary(ancestors[j]);
        assert ancestors[1..][j - 1] == ancestors[j];
      }
      var rest := HasNoBadComparisonInParents(ancestors[1..]);
      assert forall j :: 1 <= j < FirstBoundary(ancestors) ==> ancestors[j] == ancestors[1..][j - 1];
      rest
  }

  /** The rule reports `node`, whose ancestors are `ancestors`: it is a binary expression,
      a bad comparison, and no ancestor up to the nearest boundary is one. */
  function Reports(node: Kind, ancestors: seq<Kind>): (r: bool)
    requires HasBoundary(ancestors)
    ensures r <==> && node.ExprKind? && node.e.Binary?
                   && FamilyOf(node.e.op) != NoFamily
                   && node.e.left.Binary? && FamilyOf(node.e.left.op) == FamilyOf(node.e.op)
                   && forall j :: 0 <= j < FirstBoundary(ancestors) ==> !IsBadNode(ancestors[j])
  {
    node.ExprKind? && node.e.Binary? && IsBadComparison(node.e.op, node.e.left)
    && HasNoBadComparisonInParents(ancestors)
  }

  /** A child's ancestors: its parent `e`, then the parent's ancestors. */
  lemma ChildHasBoundary(e: Expr, ancestors: seq<Kind>)
    requires HasBoundary(ancestors)
    ensures HasBoundary([ExprKind(e)] + ancestors)
  {
    var j :| 0 <= j < |ancestors| && IsBoundary(ancestors[j]);
    assert ([ExprKind(e)] + ancestors)[j + 1] == ancestors[j];
  }

  /** The number of nodes of `e` the rule reports, when `e` sits under `ancestors`. */
  function ReportCount(e: Expr, ancestors: seq<Kind>): nat
    requires HasBoundary(ancestors)
    decreases e
  {
    ChildHasBoundary(e, ancestors);
    var below := [ExprKind(e)] + ancestors;
    (if Reports(ExprKind(e), ancestors) then 1 else 0) +
    match e
    case Leaf => 0
    case Paren(inner) => ReportCount(inner, below)
    case Binary(_, left, right) => ReportCount(left, below) + ReportCount(right, below)
    case Logical(_, lhs, rhs) => ReportCount(lhs, below) + ReportCount(rhs, below)
  }

  /** `e` contains no parenthesised expression. */
  predicate ParenFree(e: Expr)
  {
    match e
    case Leaf => true
    case Paren(_) => false
    case Binary(_, left, right) => ParenFree(left) && ParenFree(right)
    case Logical(_, lhs, rhs) => ParenFree(lhs) && ParenFree(rhs)
  }

  /** Below a bad comparison nothing is reported until a parenthesised expression opens a
      new boundary: the walk from any node of a parenthesis-free operand meets the bad
      comparison first. */
  lemma {:induction false} QuietBelowBadComparison(e: Expr, ancestors: seq<Kind>)
    requires HasBoundary(ancestors)
    requires ParenFree(e)
    requires !HasNoBadComparisonInParents(ancestors)
    ensures ReportCount(e, ancestors) == 0
    decreases e
  {
    ChildHasBoundary(e, ancestors);
    var below := [ExprKind(e)] + ancestors;
    assert !IsBoundary(below[0]);
    assert below[1..] == ancestors;
    assert !HasNoBadComparisonInParents(below);
    match e
    case Leaf =>
    case Binary(_, left, right) =>
      QuietBelowBadComparison(left, below);
      QuietBelowBadComparison(right, below);
    case Logical(_, lhs, rhs) =>
      QuietBelowBadComparison(lhs, below);
      QuietBelowBadComparison(rhs, below);
  }

  /** A parenthesised expression is a boundary: whether its content is reported does not
      depend on anything outside the parentheses. */
  lemma ParenthesesIsolate(e: Expr, ancestors: seq<Kind>)
    requires HasBoundary(ancestors)
    ensures HasBoundary([ExprKind(Paren(e))] + ancestors)
    ensures Reports(ExprKind(e), [ExprKind(Paren(e))] + ancestors) <==> IsBadNode(ExprKind(e))
  {
    ChildHasBoundary(Paren(e), ancestors);
    assert FirstBoundary([ExprKind(Paren(e))] + ancestors) == 0;
  }

  /** One more ancestor in front: it is the nearest boundary itself, or it pushes the old
      nearest boundary one step further away. */
  lemma FirstBoundaryStep(k: Kind, ancestors: seq<Kind>)
    requires HasBoundary(ancestors)
    ensures HasBoundary([k] + ancestors)
    ensures FirstBoundary([k] + ancestors) == if IsBoundary(k) then 0 else 1 + FirstBoundary(ancestors)
  {
    var j :| 0 <= j < |ancestors| && IsBoundary(ancestors[j]);
    assert ([k] + ancestors)[j + 1] == ancestors[j];
    assert ([k] + ancestors)[1..] == ancestors;
  }

  /** Two ancestor chains that the walk cannot tell apart: the nearest boundary is equally
      far away in both, and the ancestors before it are the same. */
  predicate SameWalk(a1: seq<Kind>, a2: seq<Kind>)
    requires HasBoundary(a1) && HasBoundary(a2)
  {
    FirstBoundary(a1) == FirstBoundary(a2) &&
    forall j :: 0 <= j < FirstBoundary(a1) ==> a1[j] == a2[j]
  }

  /** Putting the same ancestor in front of two indistinguishable chains keeps them so. */
  lemma SameWalkStep(k: Kind, a1: seq<Kind>, a2: seq<Kind>)
    requires HasBoundary(a1) && HasBoundary(a2)
    requires SameWalk(a1, a2)
    ensures HasBoundary([k] + a1) && HasBoundary([k] + a2)
    ensures SameWalk([k] + a1, [k] + a2)
  {
    FirstBoundaryStep(k, a1);
    FirstBoundaryStep(k, a2);
    var b1 := [k] + a1;
    var b2 := [k] + a2;
    forall j | 0 <= j < FirstBoundary(b1)
      ensures b1[j] == b2[j]
    {
      if j > 0 {
        assert b1[j] == a1[j - 1] && b2[j] == a2[j - 1];
      }
    }
  }

  /** What the rule reports inside `e` depends on the ancestors only up to the nearest
      boundary. */
  lemma {:induction false} ReportCountDependsOnWalk(e: Expr, a1: seq<Kind>, a2: seq<Kind>)
    requires HasBoundary(a1) && HasBoundary(a2)
    requires SameWalk(a1, a2)
    ensures ReportCount(e, a1) == ReportCount(e, a2)
    decreases e
  {
    assert HasNoBadComparisonInParents(a1) == HasNoBadComparisonInParents(a2);
    var b1 := [ExprKind(e)] + a1;
    var b2 := [ExprKind(e)] + a2;
    SameWalkStep(ExprKind(e), a1, a2);
    match e
    case Leaf =>
    case Paren(inner) =>
      ReportCountDependsOnWalk(inner, b1, b2);
    case Binary(_, left, right) =>
      ReportCountDependsOnWalk(left, b1, b2);
      ReportCountDependsOnWalk(right, b1, b2);
    case Logical(_, lhs, rhs) =>
      ReportCountDependsOnWalk(lhs, b1, b2);
      ReportCountDependsOnWalk(rhs, b1, b2);
  }

  /** The whole content of a parenthesised expression is isolated: it yields the same
      number of reports wherever the parenthesised expression stands. */
  lemma ParenthesisedCountIsolated(e: Expr, a1: seq<Kind>, a2: seq<Kind>)
    requires HasBoundary(a1) && HasBoundary(a2)
    ensures ReportCount(Paren(e), a1) == ReportCount(Paren(e), a2)
  {
    FirstBoundaryStep(ExprKind(Paren(e)), a1);
    FirstBoundaryStep(ExprKind(Paren(e)), a2);
    ReportCountDependsOnWalk(e, [ExprKind(Paren(e))] + a1, [ExprKind(Paren(e))] + a2);
  }

  /** The left-nested chain `x0 op1 x1 op2 x2 ...` that an unparenthesised sequence of
      left-associative operators parses to. */
  function Chain(ops: seq<BinaryOp>): (e: Expr)
    ensures ParenFree(e)
    decreases |ops|
  {
    if |ops| == 0 then Leaf
    else Binary(ops[|ops| - 1], Chain(ops[..|ops| - 1]), Leaf)
  }

  /** All operators of `ops` belong to one comparison family. */
  predicate OneFamily(ops: seq<BinaryOp>)
  {
    forall i :: 0 <= i < |ops| ==> FamilyOf(ops[i]) != NoFamily && FamilyOf(ops[i]) == FamilyOf(ops[0])
  }

  /** An unparenthesised chain of two or more comparisons of one family, under ancestors with
      no bad comparison before their boundary, is reported exactly once, at its outermost node. */
  lemma ChainReportedOnce(ops: seq<BinaryOp>, ancestors: seq<Kind>)
    requires |ops| >= 2 && OneFamily(ops)
    requires HasBoundary(ancestors)
    requires HasNoBadComparisonInParents(ancestors)
    ensures Reports(ExprKind(Chain(ops)), ancestors)
    ensures ReportCount(Chain(ops), ancestors) == 1
  {
    var e := Chain(ops);
    var inner := ops[..|ops| - 1];
    assert inner[|inner| - 1] == ops[|ops| - 2];
    assert e.left == Binary(inner[|inner| - 1], Chain(inner[..|inner| - 1]), Leaf);
    assert IsBadNode(ExprKind(e));
    ChildHasBoundary(e, ancestors);
    var below := [ExprKind(e)] + ancestors;
    QuietBelowBadComparison(e.left, below);
    QuietBelowBadComparison(e.right, below);
  }

  /** Two comparisons of different families in a row are never reported, whichever comes
      first and whichever operand holds the nested one. */
  lemma MixedFamiliesNeverReported(outer: BinaryOp, nested: BinaryOp, ancestors: seq<Kind>)
    requires FamilyOf(outer) != FamilyOf(nested)
    requires HasBoundary(ancestors)
    ensures ReportCount(Binary(outer, Binary(nested, Leaf, Leaf), Leaf), ancestors) == 0
    ensures ReportCount(Binary(outer, Leaf, Binary(nested, Leaf, Leaf)), ancestors) == 0
  {
    var nestedNode := Binary(nested, Leaf, Leaf);
    var e1 := Binary(outer, nestedNode, Leaf);
    var e2 := Binary(outer, Leaf, nestedNode);
    ChildHasBoundary(e1, ancestors);
    ChildHasBoundary(e2, ancestors);
    var b1 := [ExprKind(e1)] + ancestors;
    var b2 := [ExprKind(e2)] + ancestors;
    ChildHasBoundary(nestedNode, b1);
    ChildHasBoundary(nestedNode, b2);
    assert ReportCount(nestedNode, b1) == 0;
    assert ReportCount(nestedNode, b2) == 0;
  }
}
