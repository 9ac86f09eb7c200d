/**
  Constant folding and def-use resolution (`resolve_expression`,
  `resolve_reference`).

  The Python functions recurse without a bound. A reference can be resolved
  through a write, an initial value or a call-site argument, and any of these
  can lead back to it. So the model resolves with `fuel`: each resolution of
  a reference costs one unit, and running out is reported as
  `FuelExhausted`. `ResolutionFacts.ExprFuelMonotone` shows that any other
  answer stays the same with more fuel.
 */
module Resolution {
  import opened Wrappers
  import opened Ast

  /** What resolution yields: Python's `None`, an expression, or a non-variable target returned as is. */
  datatype Value = Absent | Term(expr: Expr) | EntityRef(id: NodeId)

  /** The exceptions the Python code can raise, and the model's own fuel bound. */
  datatype Error = ZeroDivisionError | IndexError | ValueError | AttributeError | FuelExhausted

  type Outcome<T> = Result<T, Error>

  predicate IsLiteral(v: Value) {
    v.Term? && v.expr.Literal?
  }

  // ---------------------------------------------------------------------------
  // Python 2 integer arithmetic
  // ---------------------------------------------------------------------------

  /** The foldable binary operators. */
  datatype Arith = Add | Sub | Mul | Div | Mod

  function ArithOp(name: string): (op: Option<Arith>)
    ensures op.Some? <==> name in ["+", "-", "*", "/", "%"]
    ensures op == Some(Div) <==> name == "/"
    ensures op == Some(Mod) <==> name == "%"
  {
    if name == "+" then Some(Add)
    else if name == "-" then Some(Sub)
    else if name == "*" then Some(Mul)
    else if name == "/" then Some(Div)
    else if name == "%" then Some(Mod)
    else None
  }

  /** Python 2 `a / b` on integers: the floor of the quotient. */
  function FloorDiv(a: int, b: int): (q: int)
    requires b != 0
    ensures b > 0 ==> b * q <= a < b * q + b
    ensures b < 0 ==> b * q + b < a <= b * q
  {
    if b > 0 then a / b else (-a) / (-b)
  }

  /** Python `a % b` on integers: the remainder takes the sign of the divisor. */
  function FloorMod(a: int, b: int): (m: int)
    requires b != 0
    ensures a == b * FloorDiv(a, b) + m
    ensures b > 0 ==> 0 <= m < b
    ensures b < 0 ==> b < m <= 0
  {
    a - b * FloorDiv(a, b)
  }

  /** Applies a binary operator to two literals. Dividing by zero raises. */
  function Apply(op: Arith, a: int, b: int): (r: Outcome<int>)
    ensures r.Err? <==> (op == Div || op == Mod) && b == 0
    ensures r.Err? ==> r.error == ZeroDivisionError
  {
    match op
    case Add => Ok(a + b)
    case Sub => Ok(a - b)
    case Mul => Ok(a * b)
    case Div => if b == 0 then Err(ZeroDivisionError) else Ok(FloorDiv(a, b))
    case Mod => if b == 0 then Err(ZeroDivisionError) else Ok(FloorMod(a, b))
  }

  // ---------------------------------------------------------------------------
  // Sizes, for termination
  // ---------------------------------------------------------------------------

  function Size(e: Expr): nat {
    match e
    case Op(_, _, _, args) => 1 + SizeArgs(args)
    case _ => 1
  }

  function SizeArgs(args: seq<Expr>): nat {
    if args == [] then 1 else 1 + Size(args[0]) + SizeArgs(args[1..])
  }

  // ---------------------------------------------------------------------------
  // Helpers on the tree
  // ---------------------------------------------------------------------------

  /** `var.value`, seen as a resolution value. */
  function Initial(value: Option<Expr>): Value {
    if value.Some? then Term(value.value) else Absent
  }

  /** `list.index`: the first position of `x`, or `None` where Python raises. */
  function IndexOf(s: seq<NodeId>, x: NodeId): (i: Option<nat>)
    ensures i.None? <==> x !in s
    ensures i.Some? ==> i.value < |s| && s[i.value] == x && x !in s[..i.value]
  {
    if s == [] then None
    else if s[0] == x then Some(0)
    else
      var rest := IndexOf(s[1..], x);
      assert s[1..] == s[..][1..];
      if rest.None? then None
      else
        assert s[..rest.value + 1] == [s[0]] + s[1..][..rest.value];
        Some(rest.value + 1)
  }

  /** The references that are function calls, in order. */
  function CallSites(ast: Ast, references: seq<NodeId>): (calls: seq<NodeId>)
    requires forall x | x in references :: x in ast
    ensures forall c | c in calls :: c in references && ast[c].kind.FunctionCall?
    ensures forall x | x in references && ast[x].kind.FunctionCall? :: x in calls
    ensures forall x | x in references && ast[x].kind.FunctionCall? :: multiset(calls)[x] == multiset(references)[x]
    ensures |calls| <= |references|
  {
    if references == [] then []
    else
      var rest := CallSites(ast, references[1..]);
      assert references == [references[0]] + references[1..];
      if ast[references[0]].kind.FunctionCall? then [references[0]] + rest else rest
  }

  /** `w.arguments[0].reference is var`. Only a reference target is matched. */
  predicate WritesVariable(ast: Ast, lhs: Expr, v: NodeId)
    requires WfExpr(ast, lhs)
  {
    lhs.Ref? && ast[lhs.id].kind.target == Bound(v)
  }

  ghost predicate ResolvableReference(ast: Ast, r: NodeId) {
    r in ast && ast[r].kind.Reference?
  }

  /**
    Whether write `w` of variable `v` counts for the read `r`. It must be in
    the same function. Then either its statement comes earlier and it writes
    `v`, or it is the same statement and its target is `r` itself.
   */
  predicate Visible(ast: Ast, w: Write, r: NodeId, v: NodeId)
    requires ResolvableReference(ast, r) && ast[r].kind.statement.Some?
    requires WfExpr(ast, w.lhs)
  {
    var si := ast[r].kind.statement.value;
    && w.func == ast[r].kind.func
    && w.si.Some?
    && ((w.si.value < si && WritesVariable(ast, w.lhs, v)) || (w.si.value == si && w.lhs == Ref(r)))
  }

  /**
    A write in the same function as `r` that has no statement: reading its
    `_si` raises `AttributeError`.
   */
  predicate Unindexed(ast: Ast, w: Write, r: NodeId)
    requires ResolvableReference(ast, r)
  {
    w.func == ast[r].kind.func && w.si.None?
  }

  // ---------------------------------------------------------------------------
  // resolve_expression and resolve_reference, as functions
  // ---------------------------------------------------------------------------

  /**
    `resolve_expression`. A reference is resolved. An operator is folded to a
    literal when all its arguments fold to literals, it is binary and it is
    one of `+ - * / %`; otherwise the very same operator node is returned.
    Every other expression is returned unchanged.
   */
  function ResolveExpression(ast: Ast, e: Expr, fuel: nat): (r: Outcome<Value>)
    requires Valid(ast) && WfExpr(ast, e)
    ensures r.Ok? && r.value.Term? ==> WfExpr(ast, r.value.expr) && !r.value.expr.Ref?
    ensures e.Op? && r.Ok? ==> r.value == Term(e) || IsLiteral(r.value)
    decreases fuel, 3, Size(e)
  {
    match e
    case Ref(id) => ReferenceValue(ast, id, fuel)
    case Op(_, name, isBinary, args) =>
      var folded :- FoldArgs(ast, args, fuel);
      if folded.None? || !isBinary then Ok(Term(e))
      else if |folded.value| < 2 then Err(IndexError)
      else
        (match ArithOp(name)
         case None => Ok(Term(e))
         case Some(op) =>
           var n :- Apply(op, folded.value[0], folded.value[1]);
           Ok(Term(Literal(n))))
    case _ => Ok(Term(e))
  }

  /**
    The argument loop of `resolve_expression`. It stops with `None` at the
    first argument that does not fold to a literal; the later arguments are
    not resolved.
   */
  function FoldArgs(ast: Ast, args: seq<Expr>, fuel: nat): (r: Outcome<Option<seq<int>>>)
    requires Valid(ast) && WfArgs(ast, args)
    ensures r.Ok? && r.value.Some? ==> |r.value.value| == |args|
    decreases fuel, 3, SizeArgs(args)
  {
    if args == [] then Ok(Some([]))
    else
      var first :- ResolveExpression(ast, args[0], fuel);
      if !IsLiteral(first) then Ok(None)
      else
        var rest :- FoldArgs(ast, args[1..], fuel);
        Ok(if rest.None? then None else Some([first.expr.n] + rest.value))
  }

  /** `resolve_reference`: what the method `ResolveReference` computes. */
  function ReferenceValue(ast: Ast, r: NodeId, fuel: nat): (v: Outcome<Value>)
    requires Valid(ast) && ResolvableReference(ast, r)
    ensures v.Ok? && v.value.Term? ==> WfExpr(ast, v.value.expr) && !v.value.expr.Ref?
    decreases fuel, 3, 0
  {
    if fuel == 0 then Err(FuelExhausted)
    else
      var reference := ast[r].kind;
      if reference.statement.None? then Ok(Absent)
      else
        match reference.target
        case Unbound => Ok(Absent)
        case Symbol(_) => Ok(Absent)
        case Bound(t) =>
          if !ast[t].kind.Variable? then Ok(EntityRef(t))
          else VariableValue(ast, r, t, fuel - 1)
  }

  /**
    The read `r` of variable `v`: the scan of the write sites, then the
    parameter fallback when the scan leaves nothing, otherwise one more fold.
   */
  function VariableValue(ast: Ast, r: NodeId, v: NodeId, fuel: nat): (res: Outcome<Value>)
    requires Valid(ast) && ResolvableReference(ast, r) && ast[r].kind.statement.Some?
    requires v in ast && ast[v].kind.Variable?
    ensures res.Ok? && res.value.Term? ==> WfExpr(ast, res.value.expr) && !res.value.expr.Ref?
    decreases fuel + 1, 2, 0
  {
    var variable := ast[v].kind;
    assert NodeValid(ast, v);
    var value :- ScanWrites(ast, r, v, variable.writes, Initial(variable.value), fuel);
    if value.Absent? && variable.isParameter then CallSiteValue(ast, r, v, fuel)
    else Settle(ast, value, fuel)
  }

  /**
    The loop over `var.writes`. `acc` is the current `value`. Every visible
    write replaces it with its folded right-hand side, in list order. A
    write of the same function without a statement stops the loop with
    `AttributeError`.
   */
  function ScanWrites(ast: Ast, r: NodeId, v: NodeId, writes: seq<Write>, acc: Value, fuel: nat): (res: Outcome<Value>)
    requires Valid(ast) && ResolvableReference(ast, r) && ast[r].kind.statement.Some?
    requires WfWrites(ast, writes)
    requires acc.Term? ==> WfExpr(ast, acc.expr)
    ensures res.Ok? && res.value.Term? ==> WfExpr(ast, res.value.expr)
    decreases fuel + 1, 1, |writes|
  {
    if writes == [] then Ok(acc)
    else if Unindexed(ast, writes[0], r) then Err(AttributeError)
    else if Visible(ast, writes[0], r, v) then
      var x :- ResolveExpression(ast, writes[0].rhs, fuel);
      ScanWrites(ast, r, v, writes[1..], x, fuel)
    else ScanWrites(ast, r, v, writes[1..], acc, fuel)
  }

  /**
    The parameter fallback. It uses the single function-call reference of
    the reading reference's function, and takes the argument at the
    parameter's position.
   */
  function CallSiteValue(ast: Ast, r: NodeId, v: NodeId, fuel: nat): (res: Outcome<Value>)
    requires Valid(ast) && ResolvableReference(ast, r)
    ensures res.Ok? && res.value.Term? ==> WfExpr(ast, res.value.expr) && !res.value.expr.Ref?
    decreases fuel + 1, 0, 0
  {
    match ast[r].kind.func
    case None => Err(AttributeError)
    case Some(f) =>
      var calls := CallSites(ast, ast[f].kind.references);
      if |calls| != 1 then Ok(Absent)
      else
        match IndexOf(ast[f].kind.parameters, v)
        case None => Err(ValueError)
        case Some(i) =>
          var args := ast[calls[0]].kind.arguments;
          if |args| <= i then Ok(Absent)
          else if args[i].Ref? then ReferenceValue(ast, args[i].id, fuel)
          else Ok(Term(args[i]))
  }

  /** The last step of `resolve_reference`: an expression value is folded once more. */
  function Settle(ast: Ast, value: Value, fuel: nat): (res: Outcome<Value>)
    requires Valid(ast) && (value.Term? ==> WfExpr(ast, value.expr))
    ensures res.Ok? && res.value.Term? ==> WfExpr(ast, res.value.expr) && !res.value.expr.Ref?
    ensures !value.Term? ==> res == Ok(value)
    decreases fuel + 1, 0, 0
  {
    if value.Term? then ResolveExpression(ast, value.expr, fuel) else Ok(value)
  }

  // ---------------------------------------------------------------------------
  // resolve_reference, as the loop the source runs
  // ---------------------------------------------------------------------------

  /**
    The loop of `resolve_reference` over `var.writes` for the read `r` of
    variable `v`: the value each visible write leaves, or the first error.
   */
  method ScanWriteSites(ast: Ast, r: NodeId, v: NodeId, fuel: nat) returns (scanned: Outcome<Value>)
    requires Valid(ast) && ResolvableReference(ast, r) && ast[r].kind.statement.Some?
    requires v in ast && ast[v].kind.Variable?
    ensures scanned == ScanWrites(ast, r, v, ast[v].kind.writes, Initial(ast[v].kind.value), fuel)
  {
    assert NodeValid(ast, v);
    var reference := ast[r].kind;
    var si := reference.statement.value;
    var variable := ast[v].kind;
    var writes := variable.writes;
    var value := Initial(variable.value);
    var i := 0;
    while i < |writes|
      invariant 0 <= i <= |writes|
      invariant value.Term? ==> WfExpr(ast, value.expr)
      invariant ScanWrites(ast, r, v, writes, Initial(variable.value), fuel)
             == ScanWrites(ast, r, v, writes[i..], value, fuel)
    {
      var w := writes[i];
      assert writes[i..][1..] == writes[i + 1..];
      if w.func == reference.func {
        if w.si.None? {
          return Err(AttributeError);
        }
        if w.si.value < si {
          if w.lhs.Ref? && ast[w.lhs.id].kind.target == Bound(v) {
            var x := ResolveExpression(ast, w.rhs, fuel);
            if x.Err? {
              return Err(x.error);
            }
            value := x.value;
          }
        } else if w.si.value == si {
          if w.lhs == Ref(r) {
            var x := ResolveExpression(ast, w.rhs, fuel);
            if x.Err? {
              return Err(x.error);
            }
            value := x.value;
          }
        }
      }
      i := i + 1;
    }
    assert writes[i..] == [];
    return Ok(value);
  }

  /*
    `resolve_reference` as methods. The work is split into the same steps
    as the functions above: the bail-outs, the read of a variable, the
    loop over the write sites and the parameter fallback. Each method is
    proved equal to its function. Only `ScanWriteSites` carries a loop;
    the others take one step each. The split keeps each proof small, and
    `CallSiteFallback` makes the recursive call of the source's fallback.
   */

  /** `resolve_reference`: the bail-outs, then the read of the target variable. */
  method ResolveReference(ast: Ast, r: NodeId, fuel: nat) returns (result: Outcome<Value>)
    requires Valid(ast) && ResolvableReference(ast, r)
    ensures result == ReferenceValue(ast, r, fuel)
    ensures result.Ok? && result.value.Term? ==> !result.value.expr.Ref?
    decreases fuel, 2
  {
    if fuel == 0 {
      return Err(FuelExhausted);
    }
    var reference := ast[r].kind;
    if reference.statement.None? {
      return Ok(Absent);
    }
    if reference.target.Unbound? || reference.target.Symbol? {
      return Ok(Absent);
    }
    var t := reference.target.id;
    if !ast[t].kind.Variable? {
      return Ok(EntityRef(t));
    }
    result := ReadVariable(ast, r, t, fuel - 1);
  }

  /** The read of a variable: the scan, then the parameter fallback or the final fold. */
  method ReadVariable(ast: Ast, r: NodeId, v: NodeId, fuel: nat) returns (result: Outcome<Value>)
    requires Valid(ast) && ResolvableReference(ast, r) && ast[r].kind.statement.Some?
    requires v in ast && ast[v].kind.Variable?
    ensures result == VariableValue(ast, r, v, fuel)
    ensures result.Ok? && result.value.Term? ==> !result.value.expr.Ref?
    decreases fuel + 1, 1
  {
    var scanned := ScanWriteSites(ast, r, v, fuel);
    if scanned.Err? {
      return Err(scanned.error);
    }
    var value := scanned.value;
    if value.Absent? && ast[v].kind.isParameter {
      result := CallSiteFallback(ast, r, v, fuel);
      return;
    }
    if value.Term? {
      return ResolveExpression(ast, value.expr, fuel);
    }
    return Ok(value);
  }

  /** The parameter fallback of `resolve_reference`: the argument of the single call site. */
  method CallSiteFallback(ast: Ast, r: NodeId, v: NodeId, fuel: nat) returns (result: Outcome<Value>)
    requires Valid(ast) && ResolvableReference(ast, r)
    ensures result == CallSiteValue(ast, r, v, fuel)
    ensures result.Ok? && result.value.Term? ==> !result.value.expr.Ref?
    decreases fuel + 1, 0
  {
    var reference := ast[r].kind;
    if reference.func.None? {
      return Err(AttributeError);
    }
    var f := reference.func.value;
    var calls := CallSites(ast, ast[f].kind.references);
    if |calls| != 1 {
      return Ok(Absent);
    }
    var index := IndexOf(ast[f].kind.parameters, v);
    if index.None? {
      return Err(ValueError);
    }
    var args := ast[calls[0]].kind.arguments;
    if |args| <= index.value {
      return Ok(Absent);
    }
    var arg := args[index.value];
    assert NodeValid(ast, calls[0]) && arg in args;
    if arg.Ref? {
      result := ResolveReference(ast, arg.id, fuel);
      return;
    }
    return Ok(Term(arg));
  }
}
