/**
 * The divisor classifier of ZeroDivAnalyzerAnalyzer: for a division
 * `a / b` it decides, from syntax, symbols and dataflow alone, whether the
 * divisor `b` is certainly zero, and names the divisor in the diagnostic.
 *
 * The specification functions take the rules they describe: `AsWritten`,
 * the code of the repository, which the methods below implement, or
 * `Corrected`, which removes the two false positives listed under Findings
 * in README.md. Because its identifier query runs to the end of the
 * local's block, it also accepts a use nested in an inner statement, which
 * the code rejects when AnalyzeDataFlow throws on a range that spans two
 * statement lists.
 */
module ZeroDivAnalyzer {
  import opened Wrappers
  import opened Syntax
  import opened Int32Parse

  datatype Rules =
      /** The code as written. */
    | AsWritten
      /** The dataflow query runs to the end of the local's block instead of
          to the division, and an identifier on the left of a subtraction is
          cancelled only by a bare reference to itself. */
    | Corrected

  /** The divisor the analyzer classifies: the right operand of the
      division with one layer of parentheses removed, and no more. */
  function StripParen(right: Expr): (d: Expr)
    ensures d == right || right == Paren(right.text, d)
    ensures right.Paren? ==> d != right
  {
    if right.Paren? then right.inner else right
  }

  /** IsLiteralZero: the expression's first token is a numeric literal token
      whose value renders as "0". Only a numeric literal expression has a
      numeric literal token as its first token. */
  function IsLiteralZero(e: Expr): (zero: bool)
    ensures zero ==> e.Literal?
    ensures e.Literal? ==> (zero <==> e.valueString == "0")
  {
    e.Literal? && e.valueString == "0"
  }

  /** Both ends of the dataflow query for a local declared by `decl` and used
      at node `use` exist: the parent walks stop at statements. */
  predicate RangeDefined(rules: Rules, ctx: Context, decl: Declarator, use: NodeId) {
    && ctx.tree.Valid()
    && decl.anchor < ctx.tree.Size()
    && use < ctx.tree.Size()
    && NearestStatement(ctx.tree, decl.anchor) >= 0
    && (rules.AsWritten? ==> NearestStatement(ctx.tree, use) >= 0)
  }

  /** The first statement of the queried range: the one that holds the
      token two past the declarator. */
  function QueryStart(ctx: Context, decl: Declarator): NodeId
    requires ctx.tree.Valid() && decl.anchor < ctx.tree.Size()
    requires NearestStatement(ctx.tree, decl.anchor) >= 0
  {
    NearestStatement(ctx.tree, decl.anchor)
  }

  /** The last statement of the queried range: as written, the statement
      that holds the use; corrected, the last statement of the block the
      range starts in, where the local's scope ends. */
  function QueryEnd(rules: Rules, ctx: Context, decl: Declarator, use: NodeId): NodeId
    requires RangeDefined(rules, ctx, decl, use)
  {
    if rules.AsWritten? then NearestStatement(ctx.tree, use)
    else LastSibling(ctx.tree, QueryStart(ctx, decl))
  }

  /** The answer of the dataflow service over the queried range. */
  function Query(rules: Rules, ctx: Context, decl: Declarator, use: NodeId): DataFlow
    requires RangeDefined(rules, ctx, decl, use)
  {
    ctx.dataFlow(QueryStart(ctx, decl), QueryEnd(rules, ctx, decl, use))
  }

  /**
   * IsVarZero runs to its end without an exception it does not catch:
   * the identifier resolves; for a local, the parent walks meet a
   * statement; and when the dataflow query succeeds, the declarator has an
   * initializer and Int32.Parse accepts a literal initializer's value text.
   */
  predicate VarZeroCompletes(rules: Rules, ctx: Context, e: Expr)
    requires e.Ident?
  {
    && ctx.tree.Valid()
    && e.sym in ctx.symbols
    && (ctx.symbols[e.sym].Local? ==>
          var decl := ctx.symbols[e.sym].declarator;
          && RangeDefined(rules, ctx, decl, e.node)
          && (Query(rules, ctx, decl, e.node).Analyzed? ==>
                && decl.initializer.Some?
                && (decl.initializer.value.Literal? ==> ParseInt32(decl.initializer.value.valueText).Some?)))
  }

  /**
   * The verdict of IsVarZero: the identifier is a local whose initializer is
   * a numeric literal with integer value 0, the dataflow query over the
   * statements from the declaration side to the end of the range succeeds,
   * and it finds no write to the local. Every other path answers false.
   */
  predicate VarZero(rules: Rules, ctx: Context, e: Expr)
    requires e.Ident? && VarZeroCompletes(rules, ctx, e)
  {
    match ctx.symbols[e.sym]
    case Local(decl) =>
      var flow := Query(rules, ctx, decl, e.node);
      && flow.Analyzed?
      && decl.initializer.value.Literal?
      && ParseInt32(decl.initializer.value.valueText).value == 0
      && e.sym !in flow.writtenInside
    case _ => false
  }

  /** The subtraction case of the switch runs without a null dereference:
      an identifier on the left resolves to a symbol. */
  predicate SubCompletes(ctx: Context, left: Expr) {
    left.Ident? ==> left.sym in ctx.symbols
  }

  /**
   * The subtraction rule: a literal on the left cancels a right operand of
   * the same text; an identifier on the left that is a local or a field
   * cancels a right operand bound to the same symbol (as written) or a bare
   * reference to it (corrected).
   */
  predicate SelfCancels(rules: Rules, ctx: Context, left: Expr, right: Expr)
    requires SubCompletes(ctx, left)
  {
    if left.Literal? then left.text == right.text
    else if left.Ident? then
      && (ctx.symbols[left.sym].Local? || ctx.symbols[left.sym].Field?)
      && if rules.AsWritten? then BoundSymbol(right) == Some(left.sym) else IsBareReference(right, left.sym)
    else false
  }

  /** An operand the multiplication rule accepts as zero when the
      classification of it completes. */
  predicate ZeroOperand(rules: Rules, ctx: Context, e: Expr)
    requires e.Ident? ==> VarZeroCompletes(rules, ctx, e)
  {
    (e.Literal? && IsLiteralZero(e)) || (e.Ident? && VarZero(rules, ctx, e))
  }

  /**
   * Classifying the divisor d raises no exception the analyzer does not
   * catch. For a product the four tests run left to right and stop at the
   * first that holds, so an identifier operand is examined only when no
   * literal operand is zero, and the right one only when the left is not.
   */
  predicate Completes(rules: Rules, ctx: Context, d: Expr) {
    match d
    case Ident(_, _, _) => VarZeroCompletes(rules, ctx, d)
    case Sub(_, left, _) => SubCompletes(ctx, left)
    case Mul(_, left, right) =>
      || (left.Literal? && IsLiteralZero(left))
      || (right.Literal? && IsLiteralZero(right))
      || (&& (left.Ident? ==> VarZeroCompletes(rules, ctx, left))
          && ((left.Ident? && VarZero(rules, ctx, left)) || (right.Ident? ==> VarZeroCompletes(rules, ctx, right))))
    case _ => true
  }

  /** The switch of AnalyzeNode on the (already stripped) divisor. Only the
      four kinds with a case can be flagged, a parenthesized expression not
      among them, and an identifier only when it names a local. */
  function Flagged(rules: Rules, ctx: Context, d: Expr): (flagged: bool)
    requires Completes(rules, ctx, d)
    ensures flagged ==> d.Literal? || d.Ident? || d.Sub? || d.Mul?
    ensures flagged && d.Ident? ==> ctx.symbols[d.sym].Local?
  {
    match d
    case Literal(_, _, _) => IsLiteralZero(d)
    case Ident(_, _, _) => VarZero(rules, ctx, d)
    case Sub(_, left, right) => SelfCancels(rules, ctx, left, right)
    case Mul(_, left, right) =>
      || (left.Literal? && IsLiteralZero(left))
      || (right.Literal? && IsLiteralZero(right))
      || (left.Ident? && VarZero(rules, ctx, left))
      || (right.Ident? && VarZero(rules, ctx, right))
    case _ => false
  }

  /** The diagnostic reported for a division whose right operand is
      `right`: None when nothing is reported, otherwise the message
      argument, the text of the stripped divisor. */
  function Diagnose(rules: Rules, ctx: Context, right: Expr): Option<string>
    requires Completes(rules, ctx, StripParen(right))
  {
    var divisor := StripParen(right);
    if Flagged(rules, ctx, divisor) then Some(divisor.text) else None
  }

  /** One of the parent walks of IsVarZero: from `start` up the parent links
      to the first node that is a statement. */
  method ClimbToStatement(tree: SyntaxTree, start: NodeId) returns (s: NodeId)
    requires tree.Valid() && start < tree.Size()
    requires NearestStatement(tree, start) >= 0
    ensures s == NearestStatement(tree, start)
  {
    var n: int := start;
    while !tree.isStatement[n]
      invariant 0 <= n <= start
      invariant NearestStatement(tree, n) == NearestStatement(tree, start)
      decreases n
    {
      n := tree.parent[n];
    }
    s := n;
  }

  /** IsVarZero: the two parent walks, the dataflow query whose
      ArgumentException is caught as false, and the initializer test. */
  method IsVarZero(ctx: Context, divisor: Expr) returns (zero: bool)
    requires divisor.Ident? && VarZeroCompletes(AsWritten, ctx, divisor)
    ensures zero == VarZero(AsWritten, ctx, divisor)
  {
    var variable := ctx.symbols[divisor.sym];
    if variable.Local? {
      var declarationParent := ClimbToStatement(ctx.tree, variable.declarator.anchor);
      var divisorParent := ClimbToStatement(ctx.tree, divisor.node);
      var dataFlowAnalysis := ctx.dataFlow(declarationParent, divisorParent);
      if dataFlowAnalysis.Rejected? {
        return false;
      }
      var initializer := variable.declarator.initializer.value;
      if && initializer.Literal?
         && ParseInt32(initializer.valueText).value == 0
         && divisor.sym !in dataFlowAnalysis.writtenInside
      {
        return true;
      }
    }
    return false;
  }

  /** AnalyzeNode: strip one layer of parentheses, then switch on the kind
      of the divisor; the result is the argument of the reported diagnostic. */
  method AnalyzeNode(ctx: Context, right: Expr) returns (argument: Option<string>)
    requires Completes(AsWritten, ctx, StripParen(right))
    ensures argument == Diagnose(AsWritten, ctx, right)
  {
    var divisorNode := right;
    if divisorNode.Paren? {
      divisorNode := divisorNode.inner;
    }
    argument := None;
    match divisorNode {
      case Literal(_, _, _) =>
        if IsLiteralZero(divisorNode) {
          argument := Some(divisorNode.text);
        }
      case Ident(_, _, _) =>
        var zero := IsVarZero(ctx, divisorNode);
        if zero {
          argument := Some(divisorNode.text);
        }
      case Sub(_, leftNode, rightNode) =>
        var error := false;
        if leftNode.Literal? {
          error := leftNode.text == rightNode.text;
        }
        if leftNode.Ident? {
          var leftSymbol := ctx.symbols[leftNode.sym];
          if leftSymbol.Local? || leftSymbol.Field? {
            error := BoundSymbol(rightNode) == Some(leftNode.sym);
          }
        }
        if error {
          argument := Some(divisorNode.text);
        }
      case Mul(_, leftNode, rightNode) =>
        var error := (leftNode.Literal? && IsLiteralZero(leftNode)) || (rightNode.Literal? && IsLiteralZero(rightNode));
        if !error && leftNode.Ident? {
          error := IsVarZero(ctx, leftNode);
        }
        if !error && rightNode.Ident? {
          error := IsVarZero(ctx, rightNode);
        }
        if error {
          argument := Some(divisorNode.text);
        }
      case _ =>
    }
  }

  // Properties of the classification as written, case by case.

  /** Exactly one layer of parentheses is looked through: a divisor is
      reported, with its own text as argument, exactly when it is flagged;
      wrapping it in one pair changes neither the verdict nor the argument,
      and a second pair hides it altogether. */
  lemma ParenthesesStrippedOnce(ctx: Context, t1: string, t2: string, e: Expr)
    requires !e.Paren? && Completes(AsWritten, ctx, e)
    ensures Diagnose(AsWritten, ctx, e) == if Flagged(AsWritten, ctx, e) then Some(e.text) else None
    ensures Diagnose(AsWritten, ctx, Paren(t1, e)) == Diagnose(AsWritten, ctx, e)
    ensures Diagnose(AsWritten, ctx, Paren(t1, Paren(t2, e))) == None
  {
  }

  /** A literal divisor is reported exactly when its value renders as "0",
      with the literal's own text as argument. */
  lemma LiteralDivisorIff(ctx: Context, text: string, valueText: string, valueString: string)
    ensures Diagnose(AsWritten, ctx, Literal(text, valueText, valueString)) ==
      if valueString == "0" then Some(text) else None
  {
  }

  /**
   * An identifier divisor is flagged exactly when it names a local whose
   * initializer is a numeric literal reading as zero (an optional sign and
   * zeros), the dataflow query from the declaration side to the use
   * succeeds, and the local is not written in that range. Fields and
   * parameters are never flagged.
   */
  lemma IdentDivisorIff(ctx: Context, e: Expr)
    requires e.Ident? && VarZeroCompletes(AsWritten, ctx, e)
    ensures Flagged(AsWritten, ctx, e) <==>
      && ctx.symbols[e.sym].Local?
      && var decl := ctx.symbols[e.sym].declarator;
         var flow := ctx.dataFlow(NearestStatement(ctx.tree, decl.anchor), NearestStatement(ctx.tree, e.node));
         && flow.Analyzed?
         && e.sym !in flow.writtenInside
         && decl.initializer.value.Literal?
         && IsZeroText(decl.initializer.value.valueText)
  {
  }

  /**
   * The subtraction rule, by the kind of the left operand: a literal is
   * compared with the right operand by text, an identifier by symbol and
   * only when it is a local or a field; any other left operand is never
   * flagged, since the rule does not evaluate operands.
   */
  lemma SubtractionIff(ctx: Context, t: string, left: Expr, right: Expr)
    requires SubCompletes(ctx, left)
    ensures left.Literal? ==> (Flagged(AsWritten, ctx, Sub(t, left, right)) <==> left.text == right.text)
    ensures left.Ident? ==> (Flagged(AsWritten, ctx, Sub(t, left, right)) <==>
      (ctx.symbols[left.sym].Local? || ctx.symbols[left.sym].Field?) && BoundSymbol(right) == Some(left.sym))
    ensures !left.Literal? && !left.Ident? ==> !Flagged(AsWritten, ctx, Sub(t, left, right))
  {
  }

  /** Subtracting a literal, a local or a field from itself is flagged
      whatever its value; a parameter or another symbol is not. */
  lemma SelfSubtraction(ctx: Context, t: string, x: Expr)
    requires x.Literal? || (x.Ident? && x.sym in ctx.symbols)
    ensures Flagged(AsWritten, ctx, Sub(t, x, x)) <==>
      x.Literal? || ctx.symbols[x.sym].Local? || ctx.symbols[x.sym].Field?
  {
  }

  /** The multiplication rule is zero absorption on the immediate operands:
      flagged exactly when one operand is a zero literal or an identifier
      IsVarZero accepts. The two operands play symmetric parts. */
  lemma ProductIff(ctx: Context, t: string, left: Expr, right: Expr)
    requires left.Ident? ==> VarZeroCompletes(AsWritten, ctx, left)
    requires right.Ident? ==> VarZeroCompletes(AsWritten, ctx, right)
    ensures Completes(AsWritten, ctx, Mul(t, left, right)) && Completes(AsWritten, ctx, Mul(t, right, left))
    ensures Flagged(AsWritten, ctx, Mul(t, left, right)) <==>
      ZeroOperand(AsWritten, ctx, left) || ZeroOperand(AsWritten, ctx, right)
    ensures Flagged(AsWritten, ctx, Mul(t, left, right)) == Flagged(AsWritten, ctx, Mul(t, right, left))
  {
  }

  /** The multiplication rule does not look into an operand that is itself
      a product, a sum or a parenthesized expression, even one of a zero. */
  lemma ProductDoesNotRecurse(ctx: Context, t: string, inner: Expr, right: Expr)
    requires inner.Mul? || inner.Paren? || inner.Other?
    requires right.Ident? ==> VarZeroCompletes(AsWritten, ctx, right)
    ensures Completes(AsWritten, ctx, Mul(t, inner, right))
    ensures Flagged(AsWritten, ctx, Mul(t, inner, right)) <==> ZeroOperand(AsWritten, ctx, right)
  {
  }

  /** The corrected subtraction rule only withdraws verdicts: whatever it
      cancels, the rule as written cancels too. */
  lemma {:induction false} CorrectedSubtractionIsNarrower(ctx: Context, left: Expr, right: Expr)
    requires SubCompletes(ctx, left)
    ensures SelfCancels(Corrected, ctx, left, right) ==> SelfCancels(AsWritten, ctx, left, right)
  {
    if left.Ident? && IsBareReference(right, left.sym) {
      BareReferenceIsBound(right, left.sym);
    }
  }
}
