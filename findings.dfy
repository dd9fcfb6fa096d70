/**
 * Two divisions the code as written reports although the divisor is not
 * zero. In each, every fact about C# and Roslyn that the soundness theorem
 * relies on holds, and only a presumption of the code fails; the corrected
 * rules do not report the division. A third division shows that the
 * corrected rules also report a use the code drops.
 */
module Findings {
  import opened Wrappers
  import opened Syntax
  import opened ZeroDivAnalyzer
  import opened Evaluation

  /** `int b = 0; int F(int x) => x / b; b = 5; F(10);`
      Nodes: 0 the body, 1 `int b = 0;`, 2 the local function statement,
      3 its return type `int` (the anchor of `b`), 4 the divisor `b`,
      5 `b = 5;`, 6 the assignment in it, 7 `F(10);`. The service finds no
      write to `b` in statement 2 alone, and one from statement 2 to the end
      of the block. */
  function ClosureContext(): Context {
    Context(
      SyntaxTree([-1, 0, 0, 2, 2, 0, 5, 0], [true, true, true, false, false, true, false, true]),
      map[1 := Local(Declarator(3, Some(Literal("0", "0", "0"))))],
      (first: NodeId, last: NodeId) =>
        if first == 2 && last == 2 then Analyzed({})
        else if first == 2 && last == 7 then Analyzed({1})
        else Rejected)
  }

  /** The run of `F(10)`: the write at node 6 ran before it, and `b` is 5. */
  function ClosureRun(): Semantics {
    Semantics(32, (t: string) => if t == "5" then 5 else 0, (s: Sym) => 5, (s: Sym) => {6}, (e: Expr) => 0)
  }

  /** The divisor `b` of the local function is reported and is 5, although
      the literal, scoping and the service's answers over both ranges are
      all sound: only the presumption that every write lies between the
      declaration and the use fails. The corrected query reports nothing. */
  lemma ClosureFalsePositive()
    ensures Diagnose(AsWritten, ClosureContext(), Ident("b", 1, 4)) == Some("b")
    ensures Eval(ClosureContext(), ClosureRun(), Ident("b", 1, 4)) == 5
    ensures LocalAgrees(Corrected, ClosureContext(), ClosureRun(), Ident("b", 1, 4))
    ensures ServiceSound(ClosureContext(), ClosureRun(), 1, 2, 2)
    ensures !WritesBeforeUseInRange(ClosureContext(), ClosureRun(), 1, 2, 2)
    ensures Diagnose(Corrected, ClosureContext(), Ident("b", 1, 4)) == None
  {
  }

  /** `class P { int x; int F(P other) => 10 / (x - other.x); }`, where the
      field `x` is symbol 1 and `other.x` binds it too. */
  function FieldContext(): Context {
    Context(SyntaxTree([-1], [true]), map[1 := Field], (first: NodeId, last: NodeId) => Rejected)
  }

  function FieldDivisor(): Expr {
    Paren("(x - other.x)", Sub("x - other.x", Ident("x", 1, 0), Other("other.x", Some(1))))
  }

  /** A run with `this.x` equal to 1 and `other.x` equal to 0. */
  function FieldRun(): Semantics {
    Semantics(32, (t: string) => 0, (s: Sym) => 1, (s: Sym) => {}, (e: Expr) => 0)
  }

  /** `x - other.x` is reported and is 1: the presumption that an operand
      bound to the same symbol reads the same storage fails. The corrected
      rule, which wants a bare reference, reports nothing. */
  lemma OtherObjectFieldFalsePositive()
    ensures Diagnose(AsWritten, FieldContext(), FieldDivisor()) == Some("x - other.x")
    ensures Eval(FieldContext(), FieldRun(), FieldDivisor()) == 1
    ensures Agrees(Corrected, FieldContext(), FieldRun(), StripParen(FieldDivisor()))
    ensures !SameSymbolSameValue(FieldContext(), FieldRun(), Ident("x", 1, 0), Other("other.x", Some(1)))
    ensures Diagnose(Corrected, FieldContext(), FieldDivisor()) == None
  {
  }

  /** `int b = 0; if (c) { x = 1 / b; }`
      Nodes: 0 the body, 1 `int b = 0;`, 2 the `if` statement (the anchor
      of `b` is its `if` keyword), 3 its block, 4 `x = 1 / b;`, 5 the
      divisor `b`. The service accepts only the range (2,2): the range from
      statement 2 to statement 4 spans two statement lists. */
  function NestedUseContext(): Context {
    Context(
      SyntaxTree([-1, 0, 0, 2, 3, 4], [true, true, true, true, true, false]),
      map[1 := Local(Declarator(2, Some(Literal("0", "0", "0"))))],
      (first: NodeId, last: NodeId) => if first == 2 && last == 2 then Analyzed({}) else Rejected)
  }

  /** The corrected rules are not only narrower: a use nested in an inner
      statement, which the code drops because the query throws, is reported
      by the corrected query, which stays in one statement list. */
  lemma CorrectedAcceptsNestedUse()
    ensures Diagnose(AsWritten, NestedUseContext(), Ident("b", 1, 5)) == None
    ensures Diagnose(Corrected, NestedUseContext(), Ident("b", 1, 5)) == Some("b")
  {
  }
}
