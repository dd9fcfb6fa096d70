# ZeroDivAnalyzer divisor classifier, in Dafny

ZeroDivAnalyzer is a Roslyn analyzer for C#. For every division `a / b` it decides from the syntax tree, the symbols and the dataflow service alone, without running anything, whether the divisor `b` is certainly zero. If so, it reports a diagnostic whose argument is the divisor's text. This project models that decision, which is `AnalyzeNode`, `IsLiteralZero` and `IsVarZero` in `ZeroDivAnalyzerAnalyzer.cs`, and proves what it promises.

The model has these files:

- `syntax.dfy` (module `Syntax`) holds what the analyzer reads from Roslyn.
  - An expression datatype `Expr` with the kinds the analyzer tells apart: numeric literal, identifier, parenthesized, subtraction, multiplication and any other kind. Each node keeps its `ToString()` text. A literal also keeps its token's `ValueText` and its `Value.ToString()`.
  - `BoundSymbol`, which models `GetSymbolInfo(e).Symbol`.
  - A symbol table mapping each symbol to `Local` (with its declarator), `Field`, `Parameter` or another kind.
  - The syntax tree, as a parent array in document order plus a statement flag per node. `NearestStatement` is the first statement met on the way up.
  - The dataflow service, as an oracle that returns `WrittenInside` or `Rejected` when `AnalyzeDataFlow` would throw `ArgumentException`.
- `int32_parse.dfy` (module `Int32Parse`) models `Int32.Parse`, which the code applies to a literal initializer. The model proves which texts it reads as zero.
- `analyzer.dfy` (module `ZeroDivAnalyzer`) holds the analyzer itself.
  - Specification functions: `StripParen`, `IsLiteralZero`, `VarZero`, `SelfCancels`, `Flagged` and `Diagnose`. Each takes the `Rules` it describes. `AsWritten` is the code of the repository. `Corrected` removes the two false positives under "## Findings". Its identifier query runs to the end of the local's block. So it also accepts a use nested in an inner statement, which the code rejects when `AnalyzeDataFlow` throws on a range spanning two statement lists (`Findings.CorrectedAcceptsNestedUse`).
  - The imperative code they specify: `ClimbToStatement` (the two parent-walking loops), `IsVarZero` and `AnalyzeNode`.
  - Lemmas stating each case of the classification.
- `evaluation.dfy` (module `Evaluation`) holds a reference semantics `Eval` for one run of the division. Integer arithmetic wraps at the operand width, as unchecked C# arithmetic does. A run also records, for each variable, the nodes at which a write to it ran before the division. The soundness theorem says that a reported divisor evaluates to zero. It rests on these facts about C# and Roslyn:
  - a literal denotes the value its renderings show;
  - a local changes only when written (`KeepsInitialValue`);
  - the dataflow service reports every write that ran inside the queried range (`ServiceSound`);
  - every write to a local declared in a block lies between its declaration and the last statement of that block (`WritesInScope`). This is C# scoping for a block of statements. It does not hold for top-level statements or switch sections; see "## Left out".

  For the corrected rules these facts suffice (`CorrectedReportIsZero`), so the corrected rules are sound for locals declared in a block of statements. The code as written needs two more presumptions, which it never checks (`ReportedDivisorIsZero`):
  - every write lies between the declaration and the division's statement (`WritesBeforeUseInRange`);
  - an operand bound to a variable's symbol reads that variable (`SameSymbolSameValue`).

  Both presumptions fail in practice. See "## Findings".
- `findings.dfy` (module `Findings`) holds the two counterexamples.
- `unit_tests.dfy` (module `UnitTests`) replays the scenarios of the repository's unit tests as contexts and verdicts.

Exceptions the code does not catch are not behaviour here. `Completes` and `VarZeroCompletes` are preconditions that exclude them:

- a null symbol;
- a parent walk that runs past the root;
- a missing initializer;
- `Int32.Parse` rejecting the value text.

They follow the order in which the code evaluates its tests, including the short-circuit `||` of the multiplication case.

Some of the unit tests expect more than this code does. The model follows the code, which behaves as follows:

- Only one layer of parentheses is removed. `a / ((0))` is not reported.
- There is no case for calls and no visited set. The call tests (`ZeroDivAnalyzerUnitTests.cs:245-348`) expect diagnostics this code does not give. `UnitTests.CallNotFollowed` records the code's verdict.
- Self-subtraction is flagged for locals and fields, not for parameters.
- The multiplication rule does not recurse into its operands.
- An identifier counts as zero only when its initializer is itself a numeric literal.
- Literal zero is a comparison of the rendered value with `"0"`, not a numeric test. A decimal `0.0m` renders as `"0.0"` and is not flagged.

For a declarator that is not the last in its statement (`a` in `int a = 5, b = 0;`), the token two past it lies in the next declarator. So the queried range starts at the declaration statement itself. The model keeps this: `Declarator.anchor` is that node, whichever case applies.

## Model

| member | source | states |
|---|---|---|
| `ZeroDivAnalyzer.AnalyzeNode` | ZeroDivAnalyzer/ZeroDivAnalyzer/ZeroDivAnalyzerAnalyzer.cs:36-105 | The switch on the stripped divisor reports exactly `Diagnose`: the stripped divisor's text when `Flagged` holds, nothing otherwise. |
| `ZeroDivAnalyzer.StripParen` | ZeroDivAnalyzer/ZeroDivAnalyzer/ZeroDivAnalyzerAnalyzer.cs:39-43 | The divisor is the right operand itself or, when that is parenthesized, its content: exactly one layer is removed. |
| `ZeroDivAnalyzer.ParenthesesStrippedOnce` | ZeroDivAnalyzer/ZeroDivAnalyzer/ZeroDivAnalyzerAnalyzer.cs:39-45 | A divisor is reported, with its own text as argument, exactly when it is flagged. One pair of parentheses around it changes neither the verdict nor the argument. A second pair hides the divisor, and nothing is reported. |
| `ZeroDivAnalyzer.IsLiteralZero` | ZeroDivAnalyzer/ZeroDivAnalyzer/ZeroDivAnalyzerAnalyzer.cs:107-111 | Only a numeric literal can be a literal zero, and a numeric literal is one exactly when its value renders as `"0"`. |
| `ZeroDivAnalyzer.Flagged` | ZeroDivAnalyzer/ZeroDivAnalyzer/ZeroDivAnalyzerAnalyzer.cs:47-104 | Only the four kinds with a case can be flagged: a literal, an identifier, a subtraction or a product. A remaining parenthesized expression or any other kind never is. An identifier is flagged only when it names a local. |
| `ZeroDivAnalyzer.LiteralDivisorIff` | ZeroDivAnalyzer/ZeroDivAnalyzer/ZeroDivAnalyzerAnalyzer.cs:107-111 | A numeric-literal divisor is reported, with its own text, iff its value renders as `"0"`. |
| `ZeroDivAnalyzer.IdentDivisorIff` | ZeroDivAnalyzer/ZeroDivAnalyzer/ZeroDivAnalyzerAnalyzer.cs:113-146 | An identifier divisor is flagged iff it is a local, its initializer is a numeric literal whose value text is a sign and zeros, the dataflow query succeeds, and it reports no write to the local. A field, a parameter or a rejected query is never flagged. |
| `ZeroDivAnalyzer.IsVarZero` | ZeroDivAnalyzer/ZeroDivAnalyzer/ZeroDivAnalyzerAnalyzer.cs:113-146 | The imperative check (two parent walks, the dataflow query with `ArgumentException` caught as false, the initializer test) returns exactly `VarZero`. |
| `ZeroDivAnalyzer.ClimbToStatement` | ZeroDivAnalyzer/ZeroDivAnalyzer/ZeroDivAnalyzerAnalyzer.cs:122-129 | The loop up the parent links stops at `NearestStatement` of its start node. |
| `Syntax.NearestStatement` | ZeroDivAnalyzer/ZeroDivAnalyzer/ZeroDivAnalyzerAnalyzer.cs:122-129 | The node the walk stops at is a statement and is never below its start node; -1 means the walk would pass the root. |
| `Syntax.NearestStatementIsNearest` | ZeroDivAnalyzer/ZeroDivAnalyzer/ZeroDivAnalyzerAnalyzer.cs:120-129 | The stopping node is reached by some number of parent steps, and no node passed on the way is a statement. When there is none, no ancestor is a statement. |
| `Int32Parse.ParseInt32` | ZeroDivAnalyzer/ZeroDivAnalyzer/ZeroDivAnalyzerAnalyzer.cs:137 | `Int32.Parse` yields a value in the Int32 range. It yields 0 exactly for an optional sign followed by one or more `'0'` digits. |
| `Int32Parse.DigitsValue` | ZeroDivAnalyzer/ZeroDivAnalyzer/ZeroDivAnalyzerAnalyzer.cs:137 | A digit string has value 0 exactly when every digit is `'0'`. |
| `ZeroDivAnalyzer.SubtractionIff` | ZeroDivAnalyzer/ZeroDivAnalyzer/ZeroDivAnalyzerAnalyzer.cs:65-88 | With a literal on the left, a subtraction is flagged iff both operands have the same text. With an identifier on the left, it is flagged iff that identifier is a local or a field and the right operand binds the same symbol. Any other left operand is never flagged. |
| `ZeroDivAnalyzer.SelfSubtraction` | ZeroDivAnalyzer/ZeroDivAnalyzer/ZeroDivAnalyzerAnalyzer.cs:69-80 | `x - x` is flagged iff `x` is a literal, a local or a field. |
| `ZeroDivAnalyzer.ProductIff` | ZeroDivAnalyzer/ZeroDivAnalyzer/ZeroDivAnalyzerAnalyzer.cs:90-103 | A product is flagged iff one immediate operand is a zero literal or an identifier `IsVarZero` accepts. Swapping the operands does not change the verdict. |
| `ZeroDivAnalyzer.ProductDoesNotRecurse` | ZeroDivAnalyzer/ZeroDivAnalyzer/ZeroDivAnalyzerAnalyzer.cs:93-96 | An operand that is itself a product, a parenthesized expression or another kind never makes the product flagged, even when it is zero. |
| `ZeroDivAnalyzer.CorrectedSubtractionIsNarrower` | ZeroDivAnalyzer/ZeroDivAnalyzer/ZeroDivAnalyzerAnalyzer.cs:73-80 | The corrected subtraction rule, which cancels a local or field only against a bare reference to itself, cancels nothing the code does not. For subtraction, the correction only withdraws verdicts. |
| `Evaluation.FlaggedDivisorIsZero` | ZeroDivAnalyzer/ZeroDivAnalyzer/ZeroDivAnalyzerAnalyzer.cs:47-104 | Under either rules, a flagged divisor evaluates to zero for every value of the variables and of the unanalysed expressions and for every operand width, given what `Agrees` relies on for those rules. |
| `Evaluation.ReportedDivisorIsZero` | ZeroDivAnalyzer/ZeroDivAnalyzer/ZeroDivAnalyzerAnalyzer.cs:36-105 | The code as written reports no non-zero divisor, parentheses included, provided both of its unchecked presumptions hold as well as the facts about C# and Roslyn. |
| `Evaluation.CorrectedReportIsZero` | ZeroDivAnalyzer/ZeroDivAnalyzer/ZeroDivAnalyzerAnalyzer.cs:36-105 | No false positive for the corrected rules: a reported divisor evaluates to zero given only the facts about literals, writes, the dataflow service and C# scoping. |
| `Evaluation.AcceptedLocalIsUnwritten` | ZeroDivAnalyzer/ZeroDivAnalyzer/ZeroDivAnalyzerAnalyzer.cs:131-140 | No write to an accepted local ran before the division. Any such write would lie in the queried range, where a sound service reports it. |
| `Evaluation.VarZeroIsZero` | ZeroDivAnalyzer/ZeroDivAnalyzer/ZeroDivAnalyzerAnalyzer.cs:131-141 | An identifier that the identifier rule accepts holds zero at the division. |
| `Evaluation.BoundVariableIsRead` | ZeroDivAnalyzer/ZeroDivAnalyzer/ZeroDivAnalyzerAnalyzer.cs:75-79 | A bare reference to a variable, through any number of parentheses, evaluates to that variable. This is why comparing symbols proves `x - x` zero when the right operand is a bare reference. |
| `UnitTests.SimpleLiteral` | ZeroDivAnalyzer/ZeroDivAnalyzer.Test/ZeroDivAnalyzerUnitTests.cs:37-40 | `/ 0` is reported with argument `"0"`. |
| `UnitTests.SubtractionLiteral` | ZeroDivAnalyzer/ZeroDivAnalyzer.Test/ZeroDivAnalyzerUnitTests.cs:105-109 | `/ (5 - 5)` is reported with argument `"5 - 5"`. |
| `UnitTests.SubtractionVar` | ZeroDivAnalyzer/ZeroDivAnalyzer.Test/ZeroDivAnalyzerUnitTests.cs:126-127 | `/ (val - val)` with a local `val` is reported. The corrected rules reach the same verdict. |
| `UnitTests.SubtractionOfCalls` | ZeroDivAnalyzer/ZeroDivAnalyzer.Test/ZeroDivAnalyzerUnitTests.cs:147 | `/ (foo() - foo())` is not reported. |
| `UnitTests.SubtractionInsideSum` | ZeroDivAnalyzer/ZeroDivAnalyzer.Test/ZeroDivAnalyzerUnitTests.cs:166-168 | `/ (a - a + 1)` is not reported. |
| `UnitTests.VarEqualsZero` | ZeroDivAnalyzer/ZeroDivAnalyzer.Test/ZeroDivAnalyzerUnitTests.cs:58-60 | `/ b` with `int b = 0;` unwritten before the use is reported. The corrected rules reach the same verdict. |
| `UnitTests.VarReassigned` | ZeroDivAnalyzer/ZeroDivAnalyzer.Test/ZeroDivAnalyzerUnitTests.cs:83-86 | `/ b` after `b = foo();` is not reported. The corrected rules reach the same verdict. |
| `UnitTests.MultiplyVar` | ZeroDivAnalyzer/ZeroDivAnalyzer.Test/ZeroDivAnalyzerUnitTests.cs:189-192 | `/ (b * a)` with `a` zero and unwritten is reported, although `b` was rewritten. The corrected rules reach the same verdict. |
| `UnitTests.MultiplyLiteral` | ZeroDivAnalyzer/ZeroDivAnalyzer.Test/ZeroDivAnalyzerUnitTests.cs:213-214 | `/ (0 * a)` is reported. |
| `UnitTests.MultiplyNoDiagnostics` | ZeroDivAnalyzer/ZeroDivAnalyzer.Test/ZeroDivAnalyzerUnitTests.cs:235-237 | `/ (b * a)` with `b` rewritten and `a` equal to 5 is not reported. The corrected rules reach the same verdict. |
| `UnitTests.CallNotFollowed` | ZeroDivAnalyzer/ZeroDivAnalyzer.Test/ZeroDivAnalyzerUnitTests.cs:254-262 | `/ Program.foo()` is not reported, because the code has no case for calls. The test expects a diagnostic. |
| `Findings.ClosureFalsePositive` | ZeroDivAnalyzer/ZeroDivAnalyzer/ZeroDivAnalyzerAnalyzer.cs:120-140 | In `int b = 0; int F(int x) => x / b; b = 5; F(10);` the code reports `b`, which is 5 when `F` runs. Every fact about C# and Roslyn holds. Only the presumption that all writes lie between the declaration and the use fails. The corrected rules report nothing. |
| `Findings.OtherObjectFieldFalsePositive` | ZeroDivAnalyzer/ZeroDivAnalyzer/ZeroDivAnalyzerAnalyzer.cs:73-80 | `10 / (x - other.x)` with a field `x` is reported, and the divisor is 1 when `this.x` is 1 and `other.x` is 0. Only the presumption that an operand bound to the same symbol reads the same storage fails. The corrected rules report nothing. |
| `Findings.CorrectedAcceptsNestedUse` | ZeroDivAnalyzer/ZeroDivAnalyzer/ZeroDivAnalyzerAnalyzer.cs:131-143 | In `int b = 0; if (c) { x = 1 / b; }` the code reports nothing, because the query from the `if` statement to the inner statement spans two statement lists and throws `ArgumentException`. The corrected query stays in one statement list and reports `b`. |

## Left out

- Analyzer registration, the diagnostic descriptor, localized resources, severity and the diagnostic's location (`ZeroDivAnalyzerAnalyzer.cs:17-34`) are host-framework glue.
- Concurrent execution (`EnableConcurrentExecution`) is a host concern. Each classification is a pure function of its context.
- The `Console.WriteLine` echo of each diagnostic is output only and does not affect the decision.
- Roslyn's parser, binder, token navigation and `AnalyzeDataFlow` are inputs, not reimplementations:
  - the symbol table;
  - `BoundSymbol` for kinds other than identifiers and parentheses;
  - the declarator's `anchor` node (the parent of the token two past its last token);
  - the dataflow oracle.
- `BoundSymbol` assumes that `GetSymbolInfo` on a parenthesized expression gives its content's symbol.
- Exceptions the code does not catch are preconditions, not behaviour: a null symbol, a parent walk past the root, a missing initializer (`Initializer.Value` on null), `Int32.Parse` throwing `FormatException` or `OverflowException`, and an empty `DeclaringSyntaxReferences`.
- A local declared other than by a variable declarator (foreach, `out var`, patterns) makes the cast at line 118 yield null, so the code faults. The model's `Local` always carries a declarator.
- `Int32Parse.ParseInt32` does not model the leading and trailing white space `Int32.Parse` accepts, because a token's value text never contains any. It also does not model culture-specific signs.
- Floating-point and decimal semantics are left out. The code compares rendered value text only. `Evaluation.Eval` is integer arithmetic.
- `Evaluation.Eval` gives every expression the analyzer does not inspect (a call, a member access such as `other.x`) a value through one function of the expression. So two identical calls get the same value. The soundness theorems hold for every such function. Side effects inside an expression, and another thread writing a field between the two reads of `f - f`, are not modelled.
- The test harness (`VerifyCS`) wiring is left out.
- `Evaluation.ReportedDivisorIsZero`: the code as written is proved sound only under its two unchecked presumptions, `WritesBeforeUseInRange` and `SameSymbolSameValue`. "## Findings" shows each of them failing.
- The corrected rules are specification functions. No method implements them, because the repository has no such code.
- `Evaluation.WritesInScope` states C# scoping for a local declared in a block of statements. It fails in two places, and the corrected rules are not claimed sound for such a local:
  - A local declared in a switch section is scoped to the whole switch block. It can be written in a later section, outside the range the corrected query covers.
  - In a program of top-level statements, each statement sits in its own `GlobalStatementSyntax`, which is not a statement. So the last statement sharing the query's first statement's parent is that statement itself. `int b = 0; int F(int x) => x / b; b = 5; F(10);` written at top level is still reported under the corrected rules. Fixing this would need the corrected query to run to the last global statement, and the model does not describe how `AnalyzeDataFlow` treats a range across global statements.

## Findings

| source | as written | input that shows it | evidently intended | confidence | as-written member | corrected member |
|---|---|---|---|---|---|---|
| ZeroDivAnalyzer/ZeroDivAnalyzer/ZeroDivAnalyzerAnalyzer.cs:120-140 | The dataflow query ends at the statement that holds the division. A write after that statement is missed when the division runs later, inside a lambda or local function, or again after a jump back. | `int b = 0; int F(int x) => x / b; b = 5; F(10);` reports `b`, which is 5 when `F` runs. | Report a local only when no write to it can run before the division. The corrected rules query from the declaration side to the last statement of the local's block (`Rules.Corrected` in `QueryEnd`). This is proved sound for a local declared in a block of statements. Top-level statements stay open (see "## Left out"). | medium, not executed | `Findings.ClosureFalsePositive` | `Evaluation.CorrectedReportIsZero` |
| ZeroDivAnalyzer/ZeroDivAnalyzer/ZeroDivAnalyzerAnalyzer.cs:73-80 | A local or field on the left is cancelled by any right operand that binds the same symbol, and a member access on another object binds the same field. | `10 / (x - other.x)` in a class with a field `x` is reported. With `this.x` equal to 1 and `other.x` equal to 0 the divisor is 1. | Cancel a local or field only against a bare reference to itself: an identifier, possibly parenthesized (`Rules.Corrected` in `SelfCancels`). | high, not executed | `Findings.OtherObjectFieldFalsePositive` | `Evaluation.CorrectedReportIsZero` |
