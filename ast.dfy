/**
  The abstract syntax tree that the analysis pass reads.

  The tree is owned by the parser and is only read here, so it is given as
  records keyed by node identity. A Python object reference becomes a
  `NodeId`, and `a is b` becomes equality of ids.
 */
module Ast {
  import opened Wrappers

  type NodeId = nat

  /**
    Expressions as a closed variant type. Integer literals are bare values,
    as they are in the Python tree. Every other expression is a node with an
    identity. An operator also carries its name, its arity flag and its
    ordered arguments.
   */
  datatype Expr =
    | Literal(n: int)
    | Ref(id: NodeId)
    | Op(id: NodeId, name: string, isBinary: bool, args: seq<Expr>)
    | Call(id: NodeId)
    | Other(id: NodeId)

  /** What a reference resolved to: nothing, a bare name, or a node. */
  datatype Target = Unbound | Symbol(name: string) | Bound(id: NodeId)

  /**
    A write site of a variable. `si` is the `_si` index of its statement,
    if it has one. `func` is its enclosing function, `lhs` is argument 0
    (the assigned target) and `rhs` is argument 1 (the assigned expression).
   */
  datatype Write = Write(si: Option<int>, func: Option<NodeId>, lhs: Expr, rhs: Expr)

  /** The node classes the analysis distinguishes. */
  datatype Kind =
    | Block
    | ControlFlow
      /** `references`: the reference nodes the tree records for the function. */
    | Function(parameters: seq<NodeId>, references: seq<NodeId>)
    | Variable(value: Option<Expr>, isParameter: bool, writes: seq<Write>)
      /** `statement`: the `_si` of the enclosing statement, if there is one. */
    | Reference(statement: Option<int>, func: Option<NodeId>, target: Target)
    | FunctionCall(arguments: seq<Expr>)
    | Entity

  datatype Node = Node(parent: Option<NodeId>, kind: Kind)

  type Ast = map<NodeId, Node>

  /** Every reference an expression holds points to a reference node. */
  ghost predicate WfExpr(ast: Ast, e: Expr) {
    match e
    case Ref(id) => id in ast && ast[id].kind.Reference?
    case Op(_, _, _, args) => forall a | a in args :: WfExpr(ast, a)
    case _ => true
  }

  ghost predicate WfArgs(ast: Ast, args: seq<Expr>) {
    forall i | 0 <= i < |args| :: WfExpr(ast, args[i])
  }

  ghost predicate WfWrites(ast: Ast, writes: seq<Write>) {
    forall w | w in writes :: WfExpr(ast, w.lhs) && WfExpr(ast, w.rhs)
  }

  /**
    What the parser guarantees about one node. Its parent exists and has a
    smaller id, so ids number the tree topologically and every parent chain
    ends. Every node it refers to exists and has the class it is used at.
   */
  ghost predicate NodeValid(ast: Ast, id: NodeId)
    requires id in ast
  {
    var node := ast[id];
    && (node.parent.Some? ==> node.parent.value in ast && node.parent.value < id)
    && match node.kind
       case Function(_, references) => forall x | x in references :: x in ast
       case Variable(value, _, writes) =>
         (value.Some? ==> WfExpr(ast, value.value)) && WfWrites(ast, writes)
       case Reference(_, func, target) =>
         && (func.Some? ==> func.value in ast && ast[func.value].kind.Function?)
         && (target.Bound? ==> target.id in ast)
       case FunctionCall(arguments) => WfArgs(ast, arguments)
       case _ => true
  }

  ghost predicate Valid(ast: Ast) {
    forall id | id in ast :: NodeValid(ast, id)
  }

  /** The arguments of a call node; in a valid tree they are well formed. */
  function Arguments(ast: Ast, call: NodeId): (args: seq<Expr>)
    requires Valid(ast) && call in ast && ast[call].kind.FunctionCall?
    ensures WfArgs(ast, args)
  {
    assert NodeValid(ast, call);
    ast[call].kind.arguments
  }
}
