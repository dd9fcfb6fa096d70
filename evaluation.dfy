/**
 * A reference semantics for the expressions the analyzer classifies, and the
 * theorem that every divisor it reports evaluates to zero. The theorem rests
 * on facts about C# and about Roslyn's services, and, for the code as
 * written, on two presumptions the code never checks; README.md shows
 * each presumption failing, and the corrected rules need neither.
 */
module Evaluation {
  import opened Wrappers
  import opened Syntax
  import opened Int32Parse
  import opened ZeroDivAnalyzer

  function Pow2(n: nat): (p: int)
    ensures p >= 1
  {
    if n == 0 then 1 else 2 * Pow2(n - 1)
  }

  lemma ModOfSmall(v: int, k: int)
    requires 0 <= v < k
    ensures v % k == v
  {
  }

  /** Two's-complement wrap-around of v to `width` bits, as C#'s unchecked
      integer arithmetic does. */
  function Wrap(width: nat, v: int): (r: int)
    requires width >= 1
    ensures -Pow2(width - 1) <= r < Pow2(width - 1)
    ensures 0 <= v < Pow2(width - 1) ==> r == v
  {
    var half := Pow2(width - 1);
    var m := v % (2 * half);
    assert 0 <= v < half ==> m == v by {
      if 0 <= v < half { ModOfSmall(v, 2 * half); }
    }
    if m < half then m else m - 2 * half
  }

  /**
   * One run of the division: the width of the operand type, the value each
   * literal text denotes, the value each variable holds when the division
   * runs, for each variable the nodes at which a write to it ran after its
   * declaration last ran and before the division, and a value for each
   * expression the analyzer does not inspect (a call, a member access
   * `other.x`, ...).
   */
  datatype Semantics = Semantics(
    width: nat,
    literal: string -> int,
    variable: Sym -> int,
    writes: Sym -> set<NodeId>,
    other: Expr -> int)

  /** A symbol that names storage of this method or object: a local, a
      field of `this` or a parameter. */
  predicate IsVariable(ctx: Context, s: Sym) {
    s in ctx.symbols && !ctx.symbols[s].OtherSymbol?
  }

  /** The value of an expression. An identifier reads its variable; an
      expression of another kind, a member access included, is evaluated
      by `other`, since its receiver may be any object. */
  function Eval(ctx: Context, sem: Semantics, e: Expr): int
    requires sem.width >= 1
  {
    match e
    case Literal(text, _, _) => sem.literal(text)
    case Ident(_, sym, _) => if IsVariable(ctx, sym) then sem.variable(sym) else sem.other(e)
    case Paren(_, inner) => Eval(ctx, sem, inner)
    case Sub(_, left, right) => Wrap(sem.width, Eval(ctx, sem, left) - Eval(ctx, sem, right))
    case Mul(_, left, right) => Wrap(sem.width, Eval(ctx, sem, left) * Eval(ctx, sem, right))
    case Other(_, _) => sem.other(e)
  }

  /** A literal's renderings agree with its value: a value that renders as
      "0" is zero, and a value text Int32.Parse reads as n denotes n. */
  predicate LiteralAgrees(sem: Semantics, e: Expr) {
    e.Literal? ==>
      && (e.valueString == "0" ==> sem.literal(e.text) == 0)
      && (ParseInt32(e.valueText).Some? ==> sem.literal(e.text) == ParseInt32(e.valueText).value)
  }

  /** A variable changes only when written: a local with a literal
      initializer that no write has touched since its declaration last ran
      still holds the initializer's value. */
  predicate KeepsInitialValue(sem: Semantics, s: Sym, decl: Declarator) {
    decl.initializer.Some? && decl.initializer.value.Literal? && sem.writes(s) == {} ==>
      sem.variable(s) == sem.literal(decl.initializer.value.text)
  }

  /** The dataflow service is sound over a range it accepts: a write to s
      that ran inside one of the range's statements puts s in
      WrittenInside. */
  predicate ServiceSound(ctx: Context, sem: Semantics, s: Sym, first: NodeId, last: NodeId)
    requires ctx.tree.Valid() && first < ctx.tree.Size()
  {
    ctx.dataFlow(first, last).Analyzed? ==>
      forall w :: w in sem.writes(s) && InRange(ctx.tree, first, last, w) ==>
        s in ctx.dataFlow(first, last).writtenInside
  }

  /** C# scoping for a local declared in a block of statements: every write
      to it lies in a statement from the one the query starts at to the last
      statement of that block. A switch section (whose locals are scoped to
      the whole switch block) and top-level statements (each wrapped in its
      own global-statement node) are outside this fact. */
  predicate WritesInScope(ctx: Context, sem: Semantics, s: Sym, first: NodeId)
    requires ctx.tree.Valid() && first < ctx.tree.Size()
  {
    forall w :: w in sem.writes(s) ==> InRange(ctx.tree, first, LastSibling(ctx.tree, first), w)
  }

  /** The code's first presumption, never checked: every write that ran
      between the declaration and the division lies in the range from the
      declaration side to the division's statement. It fails when the
      division sits in a lambda or local function called after a later
      write, and when a jump leads back over a write outside the range. */
  predicate WritesBeforeUseInRange(ctx: Context, sem: Semantics, s: Sym, first: NodeId, last: NodeId)
    requires ctx.tree.Valid() && first < ctx.tree.Size()
  {
    forall w :: w in sem.writes(s) ==> InRange(ctx.tree, first, last, w)
  }

  /** What the identifier rule relies on for a local: its literal
      initializer means what it says, the local changes only by writes,
      the dataflow service is sound and C# scoping holds; the code as
      written relies on its first presumption as well. */
  predicate LocalAgrees(rules: Rules, ctx: Context, sem: Semantics, e: Expr)
    requires e.Ident? && VarZeroCompletes(rules, ctx, e)
  {
    ctx.symbols[e.sym].Local? ==>
      var decl := ctx.symbols[e.sym].declarator;
      var first := QueryStart(ctx, decl);
      var last := QueryEnd(rules, ctx, decl, e.node);
      && (decl.initializer.Some? ==> LiteralAgrees(sem, decl.initializer.value))
      && KeepsInitialValue(sem, e.sym, decl)
      && ServiceSound(ctx, sem, e.sym, first, last)
      && WritesInScope(ctx, sem, e.sym, first)
      && (rules.AsWritten? ==> WritesBeforeUseInRange(ctx, sem, e.sym, first, last))
  }

  /** The code's second presumption, never checked: an operand bound to the
      symbol of the identifier on the left of a subtraction reads the same
      storage. It fails for `x - other.x`, where both bind the field x. */
  predicate SameSymbolSameValue(ctx: Context, sem: Semantics, left: Expr, right: Expr)
    requires sem.width >= 1
  {
    left.Ident? && BoundSymbol(right) == Some(left.sym) ==> Eval(ctx, sem, right) == sem.variable(left.sym)
  }

  /** An operand of a product meets the agreement its own rule needs. */
  predicate OperandAgrees(rules: Rules, ctx: Context, sem: Semantics, e: Expr) {
    && LiteralAgrees(sem, e)
    && (e.Ident? && VarZeroCompletes(rules, ctx, e) ==> LocalAgrees(rules, ctx, sem, e))
  }

  /**
   * What the theorem relies on for divisor d. For a subtraction with a
   * literal on the left it also relies on what the lexer guarantees: an
   * operand with the very text of a numeric literal is that literal.
   */
  predicate Agrees(rules: Rules, ctx: Context, sem: Semantics, d: Expr)
    requires sem.width >= 1
    requires Completes(rules, ctx, d)
  {
    match d
    case Literal(_, _, _) => LiteralAgrees(sem, d)
    case Ident(_, _, _) => LocalAgrees(rules, ctx, sem, d)
    case Sub(_, left, right) =>
      && (left.Literal? && right.text == left.text ==> right.Literal?)
      && (rules.AsWritten? ==> SameSymbolSameValue(ctx, sem, left, right))
    case Mul(_, left, right) => OperandAgrees(rules, ctx, sem, left) && OperandAgrees(rules, ctx, sem, right)
    case _ => true
  }

  /** A bare reference to a variable, through any number of parentheses,
      evaluates to that variable's value. */
  lemma {:induction false} BoundVariableIsRead(ctx: Context, sem: Semantics, e: Expr, s: Sym)
    requires sem.width >= 1
    requires IsBareReference(e, s) && IsVariable(ctx, s)
    ensures Eval(ctx, sem, e) == sem.variable(s)
  {
    match e
    case Paren(_, inner) => BoundVariableIsRead(ctx, sem, inner, s);
    case _ =>
  }

  lemma WrapZero(width: nat)
    requires width >= 1
    ensures Wrap(width, 0) == 0
  {
  }

  /** No write to an accepted local ran between its declaration and the
      division: every such write lies in the queried range, where the
      service would have reported it. */
  lemma {:induction false} AcceptedLocalIsUnwritten(rules: Rules, ctx: Context, sem: Semantics, e: Expr)
    requires e.Ident? && VarZeroCompletes(rules, ctx, e) && LocalAgrees(rules, ctx, sem, e)
    requires VarZero(rules, ctx, e)
    ensures sem.writes(e.sym) == {}
  {
  }

  /** An identifier the identifier rule accepts holds zero. */
  lemma VarZeroIsZero(rules: Rules, ctx: Context, sem: Semantics, e: Expr)
    requires sem.width >= 1
    requires e.Ident? && VarZeroCompletes(rules, ctx, e) && LocalAgrees(rules, ctx, sem, e)
    requires VarZero(rules, ctx, e)
    ensures Eval(ctx, sem, e) == 0
  {
    AcceptedLocalIsUnwritten(rules, ctx, sem, e);
  }

  /** Soundness of the classification: a flagged divisor evaluates to zero
      for every value of every variable and unanalysed expression. */
  lemma {:induction false} FlaggedDivisorIsZero(rules: Rules, ctx: Context, sem: Semantics, d: Expr)
    requires sem.width >= 1
    requires Completes(rules, ctx, d) && Agrees(rules, ctx, sem, d)
    requires Flagged(rules, ctx, d)
    ensures Eval(ctx, sem, d) == 0
  {
    match d
    case Literal(_, _, _) =>
    case Ident(_, _, _) => VarZeroIsZero(rules, ctx, sem, d);
    case Sub(_, left, right) =>
      WrapZero(sem.width);
      if left.Ident? && rules.Corrected? {
        BoundVariableIsRead(ctx, sem, right, left.sym);
      }
    case Mul(_, left, right) =>
      WrapZero(sem.width);
      if (left.Literal? && IsLiteralZero(left)) || (right.Literal? && IsLiteralZero(right)) {
      } else if left.Ident? && VarZero(rules, ctx, left) {
        VarZeroIsZero(rules, ctx, sem, left);
      } else {
        VarZeroIsZero(rules, ctx, sem, right);
      }
      assert Eval(ctx, sem, left) == 0 || Eval(ctx, sem, right) == 0;
  }

  /** The code as written reports no non-zero divisor, provided its two
      presumptions hold besides the facts about C# and Roslyn. */
  lemma ReportedDivisorIsZero(ctx: Context, sem: Semantics, right: Expr)
    requires sem.width >= 1
    requires Completes(AsWritten, ctx, StripParen(right)) && Agrees(AsWritten, ctx, sem, StripParen(right))
    ensures Diagnose(AsWritten, ctx, right).Some? ==> Eval(ctx, sem, right) == 0
  {
    if Diagnose(AsWritten, ctx, right).Some? {
      FlaggedDivisorIsZero(AsWritten, ctx, sem, StripParen(right));
    }
  }

  /** The corrected rules report no non-zero divisor, relying only on the
      facts about C# and Roslyn. */
  lemma CorrectedReportIsZero(ctx: Context, sem: Semantics, right: Expr)
    requires sem.width >= 1
    requires Completes(Corrected, ctx, StripParen(right)) && Agrees(Corrected, ctx, sem, StripParen(right))
    ensures Diagnose(Corrected, ctx, right).Some? ==> Eval(ctx, sem, right) == 0
  {
    if Diagnose(Corrected, ctx, right).Some? {
      FlaggedDivisorIsZero(Corrected, ctx, sem, StripParen(right));
    }
  }
}
