/**
  What `resolve_expression` and `resolve_reference` promise, proved about the
  functions of module `Resolution`.
 */
module ResolutionFacts {
  import opened Wrappers
  import opened Ast
  import opened Resolution

  /** `r` is a reference with a statement, and its target is the variable `v`. */
  ghost predicate ReadsVariable(ast: Ast, r: NodeId, v: NodeId) {
    && ResolvableReference(ast, r)
    && ast[r].kind.statement.Some?
    && ast[r].kind.target == Bound(v)
    && v in ast && ast[v].kind.Variable?
  }

  // ---------------------------------------------------------------------------
  // Folding operators
  // ---------------------------------------------------------------------------

  /** The argument loop succeeds exactly when every argument folds to a literal, and it yields those literals in order. */
  lemma {:induction false} FoldArgsAllLiteral(ast: Ast, args: seq<Expr>, fuel: nat, vs: seq<int>)
    requires Valid(ast) && WfArgs(ast, args)
    ensures FoldArgs(ast, args, fuel) == Ok(Some(vs))
        <==> |vs| == |args|
             && forall i | 0 <= i < |args| :: ResolveExpression(ast, args[i], fuel) == Ok(Term(Literal(vs[i])))
    decreases |args|
  {
    if args != [] && vs != [] {
      FoldArgsAllLiteral(ast, args[1..], fuel, vs[1..]);
      FoldArgsStep(ast, args, fuel, vs);
      if |vs| == |args| && forall i | 0 <= i < |args| :: ResolveExpression(ast, args[i], fuel) == Ok(Term(Literal(vs[i]))) {
        forall i | 0 <= i < |args[1..]|
          ensures ResolveExpression(ast, args[1..][i], fuel) == Ok(Term(Literal(vs[1..][i])))
        {
          assert args[1..][i] == args[i + 1];
        }
      }
      if FoldArgs(ast, args, fuel) == Ok(Some(vs)) {
        forall i | 0 <= i < |args|
          ensures ResolveExpression(ast, args[i], fuel) == Ok(Term(Literal(vs[i])))
        {
          if i > 0 {
            assert args[1..][i - 1] == args[i];
          }
        }
      }
    }
  }

  /** One step of the argument loop: the first argument folds to `vs[0]` and the rest to the rest. */
  lemma FoldArgsStep(ast: Ast, args: seq<Expr>, fuel: nat, vs: seq<int>)
    requires Valid(ast) && WfArgs(ast, args) && args != [] && vs != []
    ensures FoldArgs(ast, args, fuel) == Ok(Some(vs))
        <==> ResolveExpression(ast, args[0], fuel) == Ok(Term(Literal(vs[0])))
             && FoldArgs(ast, args[1..], fuel) == Ok(Some(vs[1..]))
  {
    assert vs == [vs[0]] + vs[1..];
  }

  /** The argument loop gives up at the first argument that does not fold to a literal. */
  lemma {:induction false} FoldArgsStopsAtNonLiteral(ast: Ast, args: seq<Expr>, fuel: nat, k: nat)
    requires Valid(ast) && WfArgs(ast, args) && k < |args|
    requires forall i | 0 <= i < k ::
      ResolveExpression(ast, args[i], fuel).Ok? && IsLiteral(ResolveExpression(ast, args[i], fuel).value)
    requires ResolveExpression(ast, args[k], fuel).Ok? && !IsLiteral(ResolveExpression(ast, args[k], fuel).value)
    ensures FoldArgs(ast, args, fuel) == Ok(None)
    decreases k
  {
    if k > 0 {
      assert ResolveExpression(ast, args[0], fuel).Ok?;
      forall i | 0 <= i < k - 1
        ensures ResolveExpression(ast, args[1..][i], fuel).Ok?
             && IsLiteral(ResolveExpression(ast, args[1..][i], fuel).value)
      {
        assert args[1..][i] == args[i + 1];
      }
      assert args[1..][k - 1] == args[k];
      FoldArgsStopsAtNonLiteral(ast, args[1..], fuel, k - 1);
    }
  }

  /**
    An operator whose arguments all fold to the literals `vs`. A binary
    operator named `+ - * / %` becomes the literal `vs[0] op vs[1]`, with
    Python 2 floor division and a remainder that has the divisor's sign.
    Dividing by zero raises. Any other operator is returned itself.
   */
  lemma FoldAllLiteralOperator(ast: Ast, e: Expr, fuel: nat, vs: seq<int>)
    requires Valid(ast) && WfExpr(ast, e) && e.Op?
    requires |vs| == |e.args|
    requires forall i | 0 <= i < |e.args| :: ResolveExpression(ast, e.args[i], fuel) == Ok(Term(Literal(vs[i])))
    ensures !e.isBinary ==> ResolveExpression(ast, e, fuel) == Ok(Term(e))
    ensures e.isBinary && |vs| < 2 ==> ResolveExpression(ast, e, fuel) == Err(IndexError)
    ensures e.isBinary && |vs| >= 2 ==>
      var r := ResolveExpression(ast, e, fuel);
      && (e.name == "+" ==> r == Ok(Term(Literal(vs[0] + vs[1]))))
      && (e.name == "-" ==> r == Ok(Term(Literal(vs[0] - vs[1]))))
      && (e.name == "*" ==> r == Ok(Term(Literal(vs[0] * vs[1]))))
      && (e.name == "/" ==> r == if vs[1] == 0 then Err(ZeroDivisionError) else Ok(Term(Literal(FloorDiv(vs[0], vs[1])))))
      && (e.name == "%" ==> r == if vs[1] == 0 then Err(ZeroDivisionError) else Ok(Term(Literal(FloorMod(vs[0], vs[1])))))
      && (e.name !in ["+", "-", "*", "/", "%"] ==> r == Ok(Term(e)))
  {
    FoldArgsAllLiteral(ast, e.args, fuel, vs);
  }

  /** An operator with an argument that does not fold to a literal (all earlier ones do) is returned itself. */
  lemma OperatorWithNonLiteralArgument(ast: Ast, e: Expr, fuel: nat, k: nat)
    requires Valid(ast) && WfExpr(ast, e) && e.Op? && k < |e.args|
    requires forall i | 0 <= i < k ::
      ResolveExpression(ast, e.args[i], fuel).Ok? && IsLiteral(ResolveExpression(ast, e.args[i], fuel).value)
    requires ResolveExpression(ast, e.args[k], fuel).Ok? && !IsLiteral(ResolveExpression(ast, e.args[k], fuel).value)
    ensures ResolveExpression(ast, e, fuel) == Ok(Term(e))
  {
    FoldArgsStopsAtNonLiteral(ast, e.args, fuel, k);
  }

  /**
    The converse: an operator folds to the literal `n` only if it is binary,
    is one of `+ - * / %`, has at least two arguments, and every argument
    folds to a literal. Then `n` is the operator applied to the first two.
   */
  lemma LiteralOnlyFromFoldableOperator(ast: Ast, e: Expr, fuel: nat, n: int)
    requires Valid(ast) && WfExpr(ast, e) && e.Op?
    requires ResolveExpression(ast, e, fuel) == Ok(Term(Literal(n)))
    ensures var folded := FoldArgs(ast, e.args, fuel);
      && e.isBinary && ArithOp(e.name).Some? && |e.args| >= 2
      && folded.Ok? && folded.value.Some?
      && (forall i | 0 <= i < |e.args| ::
            ResolveExpression(ast, e.args[i], fuel) == Ok(Term(Literal(folded.value.value[i]))))
      && Apply(ArithOp(e.name).value, folded.value.value[0], folded.value.value[1]) == Ok(n)
  {
    var folded := FoldArgs(ast, e.args, fuel);
    assert folded.Ok? && folded.value.Some?;
    FoldArgsAllLiteral(ast, e.args, fuel, folded.value.value);
  }

  /** A literal, a call and any other expression are returned unchanged. */
  lemma NonOperatorExpressionUnchanged(ast: Ast, e: Expr, fuel: nat)
    requires Valid(ast) && WfExpr(ast, e)
    requires e.Literal? || e.Call? || e.Other?
    ensures ResolveExpression(ast, e, fuel) == Ok(Term(e))
  {
  }

  // ---------------------------------------------------------------------------
  // Resolving references
  // ---------------------------------------------------------------------------

  /** The early exits of `resolve_reference`. */
  lemma ReferenceBailOuts(ast: Ast, r: NodeId, fuel: nat)
    requires Valid(ast) && ResolvableReference(ast, r) && fuel > 0
    ensures ast[r].kind.statement.None? ==> ReferenceValue(ast, r, fuel) == Ok(Absent)
    ensures ast[r].kind.statement.Some? && (ast[r].kind.target.Unbound? || ast[r].kind.target.Symbol?)
      ==> ReferenceValue(ast, r, fuel) == Ok(Absent)
    ensures ast[r].kind.statement.Some? && ast[r].kind.target.Bound?
      && !ast[ast[r].kind.target.id].kind.Variable?
      ==> ReferenceValue(ast, r, fuel) == Ok(EntityRef(ast[r].kind.target.id))
  {
    assert NodeValid(ast, r);
  }

  /** Whether write `w` stops the scan: it has no statement, or it is visible and folding its right-hand side fails. */
  ghost predicate WriteFails(ast: Ast, w: Write, r: NodeId, v: NodeId, fuel: nat)
    requires Valid(ast) && ResolvableReference(ast, r) && ast[r].kind.statement.Some?
    requires WfExpr(ast, w.lhs) && WfExpr(ast, w.rhs)
  {
    Unindexed(ast, w, r) || (Visible(ast, w, r, v) && ResolveExpression(ast, w.rhs, fuel).Err?)
  }

  /** With no visible write, and none of the function without a statement, the scan keeps the value it started with. */
  lemma {:induction false} ScanWithoutVisibleWrite(ast: Ast, r: NodeId, v: NodeId, writes: seq<Write>, acc: Value, fuel: nat)
    requires Valid(ast) && ResolvableReference(ast, r) && ast[r].kind.statement.Some?
    requires WfWrites(ast, writes) && (acc.Term? ==> WfExpr(ast, acc.expr))
    requires forall j | 0 <= j < |writes| :: !Visible(ast, writes[j], r, v) && !Unindexed(ast, writes[j], r)
    ensures ScanWrites(ast, r, v, writes, acc, fuel) == Ok(acc)
    decreases |writes|
  {
    if writes != [] {
      assert !Visible(ast, writes[0], r, v) && !Unindexed(ast, writes[0], r);
      forall j | 0 <= j < |writes[1..]| ensures !Visible(ast, writes[1..][j], r, v) && !Unindexed(ast, writes[1..][j], r) {
        assert writes[1..][j] == writes[j + 1];
      }
      ScanWithoutVisibleWrite(ast, r, v, writes[1..], acc, fuel);
    }
  }

  /**
    The scan fails exactly when some write stops it: a write of the function
    without a statement, or a visible write whose fold fails. When every
    visible write folds, the only failure is `AttributeError`.
   */
  lemma {:induction false} ScanFailure(ast: Ast, r: NodeId, v: NodeId, writes: seq<Write>, acc: Value, fuel: nat)
    requires Valid(ast) && ResolvableReference(ast, r) && ast[r].kind.statement.Some?
    requires WfWrites(ast, writes) && (acc.Term? ==> WfExpr(ast, acc.expr))
    ensures ScanWrites(ast, r, v, writes, acc, fuel).Err?
        <==> exists j | 0 <= j < |writes| :: WriteFails(ast, writes[j], r, v, fuel)
    ensures (forall j | 0 <= j < |writes| :: Visible(ast, writes[j], r, v) ==> ResolveExpression(ast, writes[j].rhs, fuel).Ok?)
            && ScanWrites(ast, r, v, writes, acc, fuel).Err?
        ==> ScanWrites(ast, r, v, writes, acc, fuel).error == AttributeError
    decreases |writes|
  {
    if writes != [] {
      var w := writes[0];
      if !WriteFails(ast, w, r, v, fuel) {
        var next := if Visible(ast, w, r, v) then ResolveExpression(ast, w.rhs, fuel).value else acc;
        ScanFailure(ast, r, v, writes[1..], next, fuel);
        forall j | 0 <= j < |writes[1..]| ensures writes[1..][j] == writes[j + 1] { }
        if exists j | 0 <= j < |writes| :: WriteFails(ast, writes[j], r, v, fuel) {
          var j :| 0 <= j < |writes| && WriteFails(ast, writes[j], r, v, fuel);
          assert writes[1..][j - 1] == writes[j];
        }
      }
    }
  }

  /** When the scan succeeds, the last visible write wins: its folded right-hand side is the value. */
  lemma {:induction false} ScanLastVisibleWrite(ast: Ast, r: NodeId, v: NodeId, writes: seq<Write>, acc: Value, fuel: nat, k: nat)
    requires Valid(ast) && ResolvableReference(ast, r) && ast[r].kind.statement.Some?
    requires WfWrites(ast, writes) && (acc.Term? ==> WfExpr(ast, acc.expr))
    requires k < |writes| && Visible(ast, writes[k], r, v)
    requires forall j | k < j < |writes| :: !Visible(ast, writes[j], r, v)
    requires ScanWrites(ast, r, v, writes, acc, fuel).Ok?
    ensures ScanWrites(ast, r, v, writes, acc, fuel) == ResolveExpression(ast, writes[k].rhs, fuel)
    decreases k
  {
    var w := writes[0];
    var next := if Visible(ast, w, r, v) then ResolveExpression(ast, w.rhs, fuel).value else acc;
    ScanFailure(ast, r, v, writes[1..], next, fuel);
    if k == 0 {
      forall j | 0 <= j < |writes[1..]| ensures !Visible(ast, writes[1..][j], r, v) && !Unindexed(ast, writes[1..][j], r) {
        assert writes[1..][j] == writes[j + 1];
        assert !WriteFails(ast, writes[1..][j], r, v, fuel);
      }
      ScanWithoutVisibleWrite(ast, r, v, writes[1..], next, fuel);
    } else {
      forall j | k - 1 < j < |writes[1..]| ensures !Visible(ast, writes[1..][j], r, v) {
        assert writes[1..][j] == writes[j + 1];
      }
      assert writes[1..][k - 1] == writes[k];
      ScanLastVisibleWrite(ast, r, v, writes[1..], next, fuel, k - 1);
    }
  }

  /**
    A read that no write reaches, with every write of the function having a
    statement, sees the folded initial value. A parameter with an initial
    value is read the same way; a non-parameter without one gives nothing.
   */
  lemma UnwrittenVariableReadsInitialValue(ast: Ast, r: NodeId, v: NodeId, fuel: nat)
    requires Valid(ast) && ReadsVariable(ast, r, v) && fuel > 0
    requires forall j | 0 <= j < |ast[v].kind.writes| ::
      !Visible(ast, ast[v].kind.writes[j], r, v) && !Unindexed(ast, ast[v].kind.writes[j], r)
    requires !ast[v].kind.isParameter || ast[v].kind.value.Some?
    ensures ReferenceValue(ast, r, fuel)
         == match ast[v].kind.value
            case None => Ok(Absent)
            case Some(init) => ResolveExpression(ast, init, fuel - 1)
  {
    assert NodeValid(ast, v);
    assert ReferenceValue(ast, r, fuel) == VariableValue(ast, r, v, fuel - 1);
    ScanWithoutVisibleWrite(ast, r, v, ast[v].kind.writes, Initial(ast[v].kind.value), fuel - 1);
  }

  /**
    A read reached by visible writes, none of whose folds fails, and with
    every write of the function having a statement, sees the last one's
    folded right-hand side, folded once more. A literal comes back as it
    is. A parameter for which that write gave nothing falls back to its
    call site.
   */
  lemma ReadSeesLastVisibleWrite(ast: Ast, r: NodeId, v: NodeId, fuel: nat, k: nat)
    requires Valid(ast) && ReadsVariable(ast, r, v) && fuel > 0
    requires k < |ast[v].kind.writes| && Visible(ast, ast[v].kind.writes[k], r, v)
    requires forall j | k < j < |ast[v].kind.writes| :: !Visible(ast, ast[v].kind.writes[j], r, v)
    requires forall j | 0 <= j < |ast[v].kind.writes| :: !Unindexed(ast, ast[v].kind.writes[j], r)
    requires forall j | 0 <= j < |ast[v].kind.writes| ::
      Visible(ast, ast[v].kind.writes[j], r, v) ==> ResolveExpression(ast, ast[v].kind.writes[j].rhs, fuel - 1).Ok?
    ensures var x := ResolveExpression(ast, ast[v].kind.writes[k].rhs, fuel - 1).value;
      && (IsLiteral(x) ==> ReferenceValue(ast, r, fuel) == Ok(x))
      && (x.Term? ==> ReferenceValue(ast, r, fuel) == ResolveExpression(ast, x.expr, fuel - 1))
      && (x.EntityRef? ==> ReferenceValue(ast, r, fuel) == Ok(x))
      && (x.Absent? && !ast[v].kind.isParameter ==> ReferenceValue(ast, r, fuel) == Ok(Absent))
      && (x.Absent? && ast[v].kind.isParameter ==> ReferenceValue(ast, r, fuel) == CallSiteValue(ast, r, v, fuel - 1))
  {
    assert NodeValid(ast, v);
    var writes := ast[v].kind.writes;
    var init := Initial(ast[v].kind.value);
    assert ReferenceValue(ast, r, fuel) == VariableValue(ast, r, v, fuel - 1);
    ScanFailure(ast, r, v, writes, init, fuel - 1);
    ScanLastVisibleWrite(ast, r, v, writes, init, fuel - 1, k);
    var x := ResolveExpression(ast, writes[k].rhs, fuel - 1).value;
    assert VariableValue(ast, r, v, fuel - 1)
        == if x.Absent? && ast[v].kind.isParameter then CallSiteValue(ast, r, v, fuel - 1) else Settle(ast, x, fuel - 1);
    if IsLiteral(x) {
      assert ResolveExpression(ast, x.expr, fuel - 1) == Ok(x);
    }
  }

  /**
    A parameter falls back to its call site exactly when the scan over its
    writes leaves nothing: with no write and no initial value, or when the
    last visible write resolved to nothing.
   */
  lemma ParameterFallsBackToCallSite(ast: Ast, r: NodeId, v: NodeId, fuel: nat)
    requires Valid(ast) && ReadsVariable(ast, r, v) && fuel > 0
    requires ast[v].kind.isParameter
    ensures ScanWrites(ast, r, v, ast[v].kind.writes, Initial(ast[v].kind.value), fuel - 1) == Ok(Absent)
        ==> ReferenceValue(ast, r, fuel) == CallSiteValue(ast, r, v, fuel - 1)
    ensures ScanWrites(ast, r, v, ast[v].kind.writes, Initial(ast[v].kind.value), fuel - 1).Ok?
            && ScanWrites(ast, r, v, ast[v].kind.writes, Initial(ast[v].kind.value), fuel - 1) != Ok(Absent)
        ==> ReferenceValue(ast, r, fuel)
            == Settle(ast, ScanWrites(ast, r, v, ast[v].kind.writes, Initial(ast[v].kind.value), fuel - 1).value, fuel - 1)
  {
    assert NodeValid(ast, v);
  }

  /**
    A parameter for which the scan leaves nothing, read outside a function,
    raises `AttributeError`; if its function does not have exactly one call
    site, it resolves to nothing.
   */
  lemma ParameterWithoutSingleCallSite(ast: Ast, r: NodeId, v: NodeId, fuel: nat)
    requires Valid(ast) && ReadsVariable(ast, r, v) && fuel > 0
    requires ast[v].kind.isParameter
    requires ScanWrites(ast, r, v, ast[v].kind.writes, Initial(ast[v].kind.value), fuel - 1) == Ok(Absent)
    ensures ast[r].kind.func.None? ==> ReferenceValue(ast, r, fuel) == Err(AttributeError)
    ensures ast[r].kind.func.Some? && |CallSites(ast, ast[ast[r].kind.func.value].kind.references)| != 1
        ==> ReferenceValue(ast, r, fuel) == Ok(Absent)
  {
    ParameterFallsBackToCallSite(ast, r, v, fuel);
  }

  /**
    A parameter for which the scan leaves nothing, whose function has
    exactly one call site, takes that call's argument at the parameter's
    position. A reference argument is resolved; any other argument is
    returned unfolded. A missing argument gives nothing. A variable that is
    not among the function's parameters raises `ValueError`.
   */
  lemma ParameterFromSingleCallSite(ast: Ast, r: NodeId, v: NodeId, fuel: nat)
    requires Valid(ast) && ReadsVariable(ast, r, v) && fuel > 0
    requires ast[v].kind.isParameter
    requires ScanWrites(ast, r, v, ast[v].kind.writes, Initial(ast[v].kind.value), fuel - 1) == Ok(Absent)
    requires ast[r].kind.func.Some?
    requires |CallSites(ast, ast[ast[r].kind.func.value].kind.references)| == 1
    ensures
      var f := ast[ast[r].kind.func.value].kind;
      v !in f.parameters ==> ReferenceValue(ast, r, fuel) == Err(ValueError)
    ensures
      var f := ast[ast[r].kind.func.value].kind;
      var call := CallSites(ast, f.references)[0];
      var args := Arguments(ast, call);
      v in f.parameters ==>
        var i := IndexOf(f.parameters, v).value;
        && (|args| <= i ==> ReferenceValue(ast, r, fuel) == Ok(Absent))
        && (|args| > i && args[i].Ref? ==> ReferenceValue(ast, r, fuel) == ReferenceValue(ast, args[i].id, fuel - 1))
        && (|args| > i && !args[i].Ref? ==> ReferenceValue(ast, r, fuel) == Ok(Term(args[i])))
  {
    ParameterFallsBackToCallSite(ast, r, v, fuel);
    var f := ast[ast[r].kind.func.value].kind;
    var call := CallSites(ast, f.references)[0];
    assert NodeValid(ast, call);
    var args := ast[call].kind.arguments;
    if v in f.parameters {
      var i := IndexOf(f.parameters, v).value;
      if |args| > i {
        assert args[i] in args;
      }
    }
  }

  // ---------------------------------------------------------------------------
  // Fuel is only a bound
  // ---------------------------------------------------------------------------

  /** An answer other than `FuelExhausted` does not change with more fuel. */
  lemma {:induction false} ExprFuelMonotone(ast: Ast, e: Expr, fuel: nat, more: nat)
    requires Valid(ast) && WfExpr(ast, e) && fuel <= more
    requires ResolveExpression(ast, e, fuel) != Err(FuelExhausted)
    ensures ResolveExpression(ast, e, more) == ResolveExpression(ast, e, fuel)
    decreases fuel, 3, Size(e)
  {
    match e
    case Ref(id) => ReferenceFuelMonotone(ast, id, fuel, more);
    case Op(_, _, _, args) => ArgsFuelMonotone(ast, args, fuel, more);
    case _ =>
  }

  lemma {:induction false} ArgsFuelMonotone(ast: Ast, args: seq<Expr>, fuel: nat, more: nat)
    requires Valid(ast) && WfArgs(ast, args) && fuel <= more
    requires FoldArgs(ast, args, fuel) != Err(FuelExhausted)
    ensures FoldArgs(ast, args, more) == FoldArgs(ast, args, fuel)
    decreases fuel, 3, SizeArgs(args)
  {
    if args != [] {
      ExprFuelMonotone(ast, args[0], fuel, more);
      var first := ResolveExpression(ast, args[0], fuel);
      if first.Ok? && IsLiteral(first.value) {
        ArgsFuelMonotone(ast, args[1..], fuel, more);
      }
    }
  }

  lemma {:induction false} ReferenceFuelMonotone(ast: Ast, r: NodeId, fuel: nat, more: nat)
    requires Valid(ast) && ResolvableReference(ast, r) && fuel <= more
    requires ReferenceValue(ast, r, fuel) != Err(FuelExhausted)
    ensures ReferenceValue(ast, r, more) == ReferenceValue(ast, r, fuel)
    decreases fuel, 3, 0
  {
    var reference := ast[r].kind;
    assert NodeValid(ast, r);
    if reference.statement.Some? && reference.target.Bound? && ast[reference.target.id].kind.Variable? {
      VariableFuelMonotone(ast, r, reference.target.id, fuel - 1, more - 1);
    }
  }

  lemma {:induction false} VariableFuelMonotone(ast: Ast, r: NodeId, v: NodeId, fuel: nat, more: nat)
    requires Valid(ast) && ResolvableReference(ast, r) && ast[r].kind.statement.Some?
    requires v in ast && ast[v].kind.Variable? && fuel <= more
    requires VariableValue(ast, r, v, fuel) != Err(FuelExhausted)
    ensures VariableValue(ast, r, v, more) == VariableValue(ast, r, v, fuel)
    decreases fuel + 1, 2, 0
  {
    var variable := ast[v].kind;
    assert NodeValid(ast, v);
    ScanFuelMonotone(ast, r, v, variable.writes, Initial(variable.value), fuel, more);
    var value := ScanWrites(ast, r, v, variable.writes, Initial(variable.value), fuel);
    if value.Ok? {
      if value.value.Absent? && variable.isParameter {
        CallSiteFuelMonotone(ast, r, v, fuel, more);
      } else {
        SettleFuelMonotone(ast, value.value, fuel, more);
      }
    }
  }

  lemma {:induction false} ScanFuelMonotone(ast: Ast, r: NodeId, v: NodeId, writes: seq<Write>, acc: Value, fuel: nat, more: nat)
    requires Valid(ast) && ResolvableReference(ast, r) && ast[r].kind.statement.Some?
    requires WfWrites(ast, writes) && (acc.Term? ==> WfExpr(ast, acc.expr)) && fuel <= more
    requires ScanWrites(ast, r, v, writes, acc, fuel) != Err(FuelExhausted)
    ensures ScanWrites(ast, r, v, writes, acc, more) == ScanWrites(ast, r, v, writes, acc, fuel)
    decreases fuel + 1, 1, |writes|
  {
    if writes != [] {
      if Unindexed(ast, writes[0], r) {
      } else if Visible(ast, writes[0], r, v) {
        ExprFuelMonotone(ast, writes[0].rhs, fuel, more);
        var x := ResolveExpression(ast, writes[0].rhs, fuel);
        if x.Ok? {
          ScanFuelMonotone(ast, r, v, writes[1..], x.value, fuel, more);
        }
      } else {
        ScanFuelMonotone(ast, r, v, writes[1..], acc, fuel, more);
      }
    }
  }

  lemma {:induction false} CallSiteFuelMonotone(ast: Ast, r: NodeId, v: NodeId, fuel: nat, more: nat)
    requires Valid(ast) && ResolvableReference(ast, r) && fuel <= more
    requires CallSiteValue(ast, r, v, fuel) != Err(FuelExhausted)
    ensures CallSiteValue(ast, r, v, more) == CallSiteValue(ast, r, v, fuel)
    decreases fuel + 1, 0, 0
  {
    assert NodeValid(ast, r);
    var func := ast[r].kind.func;
    if func.Some? {
      var f := ast[func.value].kind;
      var calls := CallSites(ast, f.references);
      var index := IndexOf(f.parameters, v);
      if |calls| == 1 && index.Some? {
        assert NodeValid(ast, calls[0]);
        var args := ast[calls[0]].kind.arguments;
        if |args| > index.value && args[index.value].Ref? {
          assert args[index.value] in args;
          ReferenceFuelMonotone(ast, args[index.value].id, fuel, more);
        }
      }
    }
  }

  lemma {:induction false} SettleFuelMonotone(ast: Ast, value: Value, fuel: nat, more: nat)
    requires Valid(ast) && (value.Term? ==> WfExpr(ast, value.expr)) && fuel <= more
    requires Settle(ast, value, fuel) != Err(FuelExhausted)
    ensures Settle(ast, value, more) == Settle(ast, value, fuel)
    decreases fuel + 1, 0, 0
  {
    if value.Term? {
      ExprFuelMonotone(ast, value.expr, fuel, more);
    }
  }
}
