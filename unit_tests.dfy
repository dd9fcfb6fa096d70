/**
 * The scenarios of ZeroDivAnalyzerUnitTests, each written as the context the
 * analyzer sees at the division and the verdict it reaches. Trees hold only
 * the nodes the parent walks pass through; node 0 is the method body.
 * Where a test involves a local, the corrected rules reach the same
 * verdict as the code: the correction removes no expected diagnostic.
 */
module UnitTests {
  import opened Wrappers
  import opened Syntax
  import opened ZeroDivAnalyzer

  function Lit(text: string): Expr {
    Literal(text, text, text)
  }

  /** A context in which no identifier resolves. */
  function NoSymbols(): Context {
    Context(SyntaxTree([-1], [true]), map[], (first: NodeId, last: NodeId) => Rejected)
  }

  /** `(35 + 89) / 0` is reported, with argument "0". */
  lemma SimpleLiteral()
    ensures Diagnose(AsWritten, NoSymbols(), Lit("0")) == Some("0")
  {
  }

  /** `(8745 - 855) / (5 - 5)` is reported with argument "5 - 5": the
      parentheses around the divisor are not part of it. */
  lemma SubtractionLiteral()
    ensures Diagnose(AsWritten, NoSymbols(), Paren("(5 - 5)", Sub("5 - 5", Lit("5"), Lit("5")))) == Some("5 - 5")
  {
  }

  /** `foo() / (val - val)` with a local `val` is reported. */
  lemma SubtractionVar()
    ensures
      var ctx := Context(SyntaxTree([-1], [true]), map[1 := Local(Declarator(0, Some(Lit("5"))))],
                         (first: NodeId, last: NodeId) => Rejected);
      && Diagnose(AsWritten, ctx, Paren("(val - val)", Sub("val - val", Ident("val", 1, 0), Ident("val", 1, 0)))) == Some("val - val")
      && Diagnose(Corrected, ctx, Paren("(val - val)", Sub("val - val", Ident("val", 1, 0), Ident("val", 1, 0)))) == Some("val - val")
  {
  }

  /** `(8745 - 855) / (foo() - foo())` is not reported: a call on the left
      is not compared with the right. */
  lemma SubtractionOfCalls()
    ensures Diagnose(AsWritten, NoSymbols(), Paren("(foo() - foo())",
      Sub("foo() - foo()", Other("foo()", Some(7)), Other("foo()", Some(7))))) == None
  {
  }

  /** `b / (a - a + 1)` is not reported: the divisor is an addition. */
  lemma SubtractionInsideSum()
    ensures Diagnose(AsWritten, NoSymbols(), Paren("(a - a + 1)", Other("a - a + 1", None))) == None
  {
  }

  /** `int a = 5; int b = 0; Console.WriteLine(a + a / b);`
      Nodes: 1, 2, 3 the three statements, 4 the WriteLine call, 5 its
      member access, 6 `Console` (the anchor of `b`), 7 the divisor `b`. */
  function VarEqualsZeroContext(): Context {
    Context(
      SyntaxTree([-1, 0, 0, 0, 3, 4, 5, 4], [true, true, true, true, false, false, false, false]),
      map[1 := Local(Declarator(2, Some(Lit("5")))), 2 := Local(Declarator(6, Some(Lit("0"))))],
      (first: NodeId, last: NodeId) => if first == 3 && last == 3 then Analyzed({}) else Rejected)
  }

  /** `a / b` with `int b = 0;` unwritten before the use is reported. */
  lemma VarEqualsZero()
    ensures Diagnose(AsWritten, VarEqualsZeroContext(), Ident("b", 2, 7)) == Some("b")
    ensures Diagnose(Corrected, VarEqualsZeroContext(), Ident("b", 2, 7)) == Some("b")
  {
  }

  /** `int b = 0; int a = 5; b = foo(); Console.WriteLine(a + a / b);`
      Nodes: 1 to 4 the statements, 5 the type `int` of the second one (the
      anchor of `b`), 6 the WriteLine call, 7 the divisor `b`. The range
      from statement 2 to statement 4 writes `b`. */
  function VarReassignedContext(): Context {
    Context(
      SyntaxTree([-1, 0, 0, 0, 0, 2, 4, 6], [true, true, true, true, true, false, false, false]),
      map[1 := Local(Declarator(0, Some(Lit("5")))), 2 := Local(Declarator(5, Some(Lit("0"))))],
      (first: NodeId, last: NodeId) => if first == 2 && last == 4 then Analyzed({1, 2}) else Rejected)
  }

  /** Reassigning `b = foo();` before `a / b` clears the diagnostic. */
  lemma VarReassigned()
    ensures Diagnose(AsWritten, VarReassignedContext(), Ident("b", 2, 7)) == None
    ensures Diagnose(Corrected, VarReassignedContext(), Ident("b", 2, 7)) == None
  {
  }

  /** `int b = 0; int a = 0; b = foo(); Console.WriteLine(a + a / (b * a));`
      Nodes: 1 to 4 the statements, 5 the type `int` in statement 2 (anchor
      of `b`), 6 the `b` that starts statement 3 (anchor of `a`), 7 the
      WriteLine call, 8 and 9 the operands `b` and `a`. */
  function MultiplyVarContext(): Context {
    Context(
      SyntaxTree([-1, 0, 0, 0, 0, 2, 3, 4, 7, 7], [true, true, true, true, true, false, false, false, false, false]),
      map[1 := Local(Declarator(6, Some(Lit("0")))), 2 := Local(Declarator(5, Some(Lit("0"))))],
      (first: NodeId, last: NodeId) => if first == 2 && last == 4 then Analyzed({1, 2})
        else if first == 3 && last == 4 then Analyzed({2})
        else Rejected)
  }

  /** `a / (b * a)` is reported through the unwritten `a`, although `b`
      was rewritten. */
  lemma MultiplyVar()
    ensures Diagnose(AsWritten, MultiplyVarContext(), Paren("(b * a)", Mul("b * a", Ident("b", 2, 8), Ident("a", 1, 9)))) == Some("b * a")
    ensures Diagnose(Corrected, MultiplyVarContext(), Paren("(b * a)", Mul("b * a", Ident("b", 2, 8), Ident("a", 1, 9)))) == Some("b * a")
  {
  }

  /** `a / (0 * a)` is reported by the zero literal alone. */
  lemma MultiplyLiteral(ctx: Context)
    ensures Diagnose(AsWritten, ctx, Paren("(0 * a)", Mul("0 * a", Lit("0"), Ident("a", 1, 0)))) == Some("0 * a")
  {
  }

  /** `int a = 5, b = 0; b = a + b; Console.WriteLine(a + a / (b * a));`
      Nodes: 1 to 3 the statements, 4 the declarator `b = 0` (anchor of
      `a`), 5 the `b` that starts statement 2 (anchor of `b`), 6 the
      WriteLine call, 7 and 8 the operands `b` and `a`. */
  function MultiplyNoDiagnosticsContext(): Context {
    Context(
      SyntaxTree([-1, 0, 0, 0, 1, 2, 3, 6, 6], [true, true, true, true, false, false, false, false, false]),
      map[1 := Local(Declarator(4, Some(Lit("5")))), 2 := Local(Declarator(5, Some(Lit("0"))))],
      (first: NodeId, last: NodeId) =>
        if first == 1 && last == 3 then Analyzed({1, 2})
        else if first == 2 && last == 3 then Analyzed({2})
        else Rejected)
  }

  /** `a / (b * a)` is not reported when `b` is rewritten and `a` is 5. */
  lemma MultiplyNoDiagnostics()
    ensures Diagnose(AsWritten, MultiplyNoDiagnosticsContext(), Paren("(b * a)", Mul("b * a", Ident("b", 2, 7), Ident("a", 1, 8)))) == None
    ensures Diagnose(Corrected, MultiplyNoDiagnosticsContext(), Paren("(b * a)", Mul("b * a", Ident("b", 2, 7), Ident("a", 1, 8)))) == None
  {
  }

  /** `a / Program.foo()` with `foo` returning 0 is not reported: there is
      no case for a call, although the test expects a diagnostic. */
  lemma CallNotFollowed()
    ensures Diagnose(AsWritten, NoSymbols(), Other("Program.foo()", Some(7))) == None
  {
  }
}
