/**
 * The parts of a C# syntax tree and of its semantic model that the
 * zero-divisor analyzer reads. Roslyn's parser, binder and dataflow engine
 * are not modelled: their answers are inputs.
 */
module Syntax {
  import opened Wrappers

  /** Identity of a declared symbol. Two handles are equal exactly when
      SymbolEqualityComparer.Default says they denote the same declaration. */
  type Sym = nat

  /** A node of the syntax tree, numbered in document order, so that a
      parent always comes before its children. */
  type NodeId = nat

  /**
   * An expression node, by the syntax kinds the analyzer tells apart.
   * `text` is what the node's ToString() gives: its source text without
   * leading and trailing trivia.
   */
  datatype Expr =
      /** A NumericLiteralExpression. Its only token carries `valueText`
          (SyntaxToken.ValueText, the invariant-culture rendering of the
          value) and `valueString` (SyntaxToken.Value.ToString(), the
          current-culture rendering). */
    | Literal(text: string, valueText: string, valueString: string)
      /** An IdentifierName bound to `sym`, at tree node `node`. */
    | Ident(text: string, sym: Sym, node: NodeId)
    | Paren(text: string, inner: Expr)
    | Sub(text: string, left: Expr, right: Expr)
    | Mul(text: string, left: Expr, right: Expr)
      /** Any other expression kind (a call, an addition, a member access, ...)
          and the symbol the semantic model binds it to, if any. */
    | Other(text: string, bound: Option<Sym>)

  /**
   * The symbol GetSymbolInfo(e).Symbol yields for an expression; None
   * stands for null. A parenthesized expression binds like its content.
   * A literal binds no symbol, and a built-in operator binds an operator
   * method, which never equals a variable, so both are None here.
   */
  function BoundSymbol(e: Expr): Option<Sym> {
    match e
    case Ident(_, sym, _) => Some(sym)
    case Paren(_, inner) => BoundSymbol(inner)
    case Other(_, bound) => bound
    case _ => None
  }

  /**
   * The declarator `name = initializer` that introduces a local.
   * `anchor` is the parent node of the token two past the declarator's last
   * token: after the last declarator of a statement, a node of the next
   * statement, or the enclosing block itself when the declaration is the
   * last statement of its block (the token is then the closing brace);
   * after any other declarator, the next declarator.
   */
  datatype Declarator = Declarator(anchor: NodeId, initializer: Option<Expr>)

  /** What the semantic model knows of a symbol: its kind and, for a local,
      the declarator that introduced it. */
  datatype SymbolInfo =
    | Local(declarator: Declarator)
    | Field
    | Parameter
    | OtherSymbol

  /**
   * The shape of the syntax tree: `parent[n]` is the parent of node n, or
   * -1 for the root (a null Parent), and `isStatement[n]` says whether node
   * n is a StatementSyntax.
   */
  datatype SyntaxTree = SyntaxTree(parent: seq<int>, isStatement: seq<bool>) {

    predicate Valid() {
      && |parent| == |isStatement|
      && forall n :: 0 <= n < |parent| ==> -1 <= parent[n] < n
    }

    function Size(): nat {
      |parent|
    }
  }

  /**
   * The first node that is a statement on the way from n to the root,
   * n included; -1 when the way reaches past the root first.
   */
  function NearestStatement(tree: SyntaxTree, n: int): (s: int)
    requires tree.Valid() && -1 <= n < tree.Size()
    ensures -1 <= s <= n
    ensures s >= 0 ==> tree.isStatement[s]
    decreases n + 1
  {
    if n < 0 then -1
    else if tree.isStatement[n] then n
    else NearestStatement(tree, tree.parent[n])
  }

  /** The node reached from n by k steps up the parent links (-1 once past
      the root). */
  function Ancestor(tree: SyntaxTree, n: int, k: nat): (a: int)
    requires tree.Valid() && -1 <= n < tree.Size()
    ensures -1 <= a <= n
    decreases k
  {
    if k == 0 || n < 0 then n else Ancestor(tree, tree.parent[n], k - 1)
  }

  predicate IsStatementNode(tree: SyntaxTree, n: int) {
    0 <= n < |tree.isStatement| && tree.isStatement[n]
  }

  /** None of the first k nodes on the way up from n (n itself included)
      is a statement. */
  predicate NoStatementBelow(tree: SyntaxTree, n: int, k: nat)
    requires tree.Valid() && -1 <= n < tree.Size()
  {
    forall j: nat :: j < k ==> !IsStatementNode(tree, Ancestor(tree, n, j))
  }

  /**
   * NearestStatement is the nearest statement ancestor: it is reached by
   * some number of parent steps, and no node passed on the way is a
   * statement; when it is -1, no ancestor at all is a statement.
   */
  lemma {:induction false} NearestStatementIsNearest(tree: SyntaxTree, n: int)
    requires tree.Valid() && -1 <= n < tree.Size()
    ensures NearestStatement(tree, n) >= 0 ==>
      exists k: nat :: Ancestor(tree, n, k) == NearestStatement(tree, n) && NoStatementBelow(tree, n, k)
    ensures NearestStatement(tree, n) < 0 ==>
      forall k: nat :: !IsStatementNode(tree, Ancestor(tree, n, k))
    decreases n + 1
  {
    if n < 0 {
      forall k: nat ensures !IsStatementNode(tree, Ancestor(tree, n, k)) {
        assert Ancestor(tree, n, k) == -1;
      }
    } else if tree.isStatement[n] {
      assert Ancestor(tree, n, 0) == n && NoStatementBelow(tree, n, 0);
    } else {
      var p := tree.parent[n];
      NearestStatementIsNearest(tree, p);
      assert NearestStatement(tree, n) == NearestStatement(tree, p);
      if NearestStatement(tree, n) >= 0 {
        var k: nat :| Ancestor(tree, p, k) == NearestStatement(tree, p) && NoStatementBelow(tree, p, k);
        assert Ancestor(tree, n, k + 1) == NearestStatement(tree, n);
        forall j: nat | j < k + 1 ensures !IsStatementNode(tree, Ancestor(tree, n, j)) {
          if j > 0 {
            assert Ancestor(tree, n, j) == Ancestor(tree, p, j - 1);
          }
        }
        assert NoStatementBelow(tree, n, k + 1);
      } else {
        forall k: nat ensures !IsStatementNode(tree, Ancestor(tree, n, k)) {
          if k > 0 {
            assert Ancestor(tree, n, k) == Ancestor(tree, p, k - 1);
          }
        }
      }
    }
  }

  /** The first node on the way up from n, n included, whose parent is p;
      -1 when the way reaches past the root first. */
  function AncestorUnder(tree: SyntaxTree, n: int, p: int): (a: int)
    requires tree.Valid() && -1 <= n < tree.Size()
    ensures -1 <= a <= n
    ensures a >= 0 ==> tree.parent[a] == p
    decreases n + 1
  {
    if n < 0 then -1
    else if tree.parent[n] == p then n
    else AncestorUnder(tree, tree.parent[n], p)
  }

  /** Node n lies inside one of the statements `first` to `last` that share
      the parent of `first`: the range of statements a dataflow query covers. */
  predicate InRange(tree: SyntaxTree, first: NodeId, last: int, n: int)
    requires tree.Valid() && first < tree.Size()
  {
    && 0 <= n < tree.Size()
    && first <= AncestorUnder(tree, n, tree.parent[first]) <= last
  }

  /** The last node at or after m, going down to s, that shares the parent
      of s. */
  function LastSiblingFrom(tree: SyntaxTree, s: NodeId, m: NodeId): (r: NodeId)
    requires tree.Valid() && s <= m < tree.Size()
    ensures s <= r <= m && tree.parent[r] == tree.parent[s]
    ensures forall k :: r < k <= m ==> tree.parent[k] != tree.parent[s]
    decreases m - s
  {
    if tree.parent[m] == tree.parent[s] then m
    else LastSiblingFrom(tree, s, m - 1)
  }

  /** The last statement of the block that holds statement s: the end of the
      scope of a local declared in that block. */
  function LastSibling(tree: SyntaxTree, s: NodeId): (r: NodeId)
    requires tree.Valid() && s < tree.Size()
    ensures s <= r < tree.Size() && tree.parent[r] == tree.parent[s]
    ensures forall k :: r < k < tree.Size() ==> tree.parent[k] != tree.parent[s]
  {
    LastSiblingFrom(tree, s, tree.Size() - 1)
  }

  /** e names s by an identifier, inside any number of parentheses. Unlike
      a member access such as `other.x`, such an operand reads the storage
      of s itself, not the storage of some other object. */
  predicate IsBareReference(e: Expr, s: Sym) {
    match e
    case Ident(_, sym, _) => sym == s
    case Paren(_, inner) => IsBareReference(inner, s)
    case _ => false
  }

  /** A bare reference binds the symbol it names, so requiring one is a
      narrowing of comparing bound symbols. */
  lemma {:induction false} BareReferenceIsBound(e: Expr, s: Sym)
    requires IsBareReference(e, s)
    ensures BoundSymbol(e) == Some(s)
  {
    match e
    case Paren(_, inner) => BareReferenceIsBound(inner, s);
    case _ =>
  }

  /** The result of SemanticModel.AnalyzeDataFlow over a range of statements:
      the set WrittenInside, or Rejected when it throws ArgumentException. */
  datatype DataFlow = Analyzed(writtenInside: set<Sym>) | Rejected

  /**
   * Everything the analyzer consults: the tree, the symbol table (a symbol
   * missing from it is one GetSymbolInfo resolves to null) and the
   * dataflow service, called with the first and the last statement of a
   * range.
   */
  datatype Context = Context(
    tree: SyntaxTree,
    symbols: map<Sym, SymbolInfo>,
    dataFlow: (NodeId, NodeId) -> DataFlow)
}
