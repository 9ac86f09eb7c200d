/**
  Control-flow nesting depth (`get_control_depth`, `is_under_control_flow`).

  The walk goes from a node up its parent chain. It counts every block whose
  parent is a control-flow statement, and it stops at the first function or
  at the root. In recursive mode, the depth of the deepest call site of that
  function is added.
 */
module ControlDepth {
  import opened Wrappers
  import opened Ast

  /** A block whose parent is a control-flow statement: one level of nesting. */
  predicate IsControlBlock(ast: Ast, id: NodeId)
    requires Valid(ast) && id in ast
  {
    && ast[id].kind.Block?
    && ast[id].parent.Some?
    && ast[ast[id].parent.value].kind.ControlFlow?
  }

  /** Python's `max` on a non-empty list. */
  function Max(s: seq<nat>): (m: nat)
    requires s != []
    ensures m in s
    ensures forall x | x in s :: x <= m
  {
    if |s| == 1 then s[0]
    else
      var rest := Max(s[1..]);
      assert s == [s[0]] + s[1..];
      if s[0] >= rest then s[0] else rest
  }

  /**
    What is left to add to the depth once the walk has reached `current`.
    `ControlDepth` is this walk started at the node itself.
   */
  function Walk(ast: Ast, current: Option<NodeId>, recursive: bool): nat
    requires Valid(ast) && (current.Some? ==> current.value in ast)
    decreases if recursive then 1 else 0, if current.Some? then current.value + 1 else 0, 0
  {
    match current
    case None => 0
    case Some(id) =>
      assert NodeValid(ast, id);
      if IsControlBlock(ast, id) then 1 + Walk(ast, ast[id].parent, recursive)
      else if ast[id].kind.Function? then
        if recursive then CallSiteBonus(ast, ast[id].kind.references) else 0
      else Walk(ast, ast[id].parent, recursive)
  }

  /** `get_control_depth(node, recursive)`. */
  function ControlDepth(ast: Ast, node: NodeId, recursive: bool): nat
    requires Valid(ast) && node in ast
  {
    Walk(ast, Some(node), recursive)
  }

  /** The non-recursive depths of the function-call references among `references`, in order. */
  function CallSiteDepths(ast: Ast, references: seq<NodeId>): (depths: seq<nat>)
    requires Valid(ast) && forall x | x in references :: x in ast
    ensures forall d | d in depths ::
      exists c | c in references :: ast[c].kind.FunctionCall? && Walk(ast, Some(c), false) == d
    ensures forall c | c in references && ast[c].kind.FunctionCall? :: Walk(ast, Some(c), false) in depths
    decreases 1, 0, |references|
  {
    if references == [] then []
    else
      var last := references[|references| - 1];
      var init := references[..|references| - 1];
      assert references == init + [last];
      CallSiteDepths(ast, init)
        + (if ast[last].kind.FunctionCall? then [Walk(ast, Some(last), false)] else [])
  }

  /** `depth += max(calls)` when there are calls, nothing otherwise. */
  function CallSiteBonus(ast: Ast, references: seq<NodeId>): (bonus: nat)
    requires Valid(ast) && forall x | x in references :: x in ast
    ensures forall c | c in references && ast[c].kind.FunctionCall? :: Walk(ast, Some(c), false) <= bonus
    ensures bonus > 0 ==> exists c | c in references :: ast[c].kind.FunctionCall? && Walk(ast, Some(c), false) == bonus
    decreases 1, 0, |references| + 1
  {
    var depths := CallSiteDepths(ast, references);
    if depths == [] then 0 else Max(depths)
  }

  /** `get_control_depth`, as the loop the source runs. */
  method GetControlDepth(ast: Ast, node: NodeId, recursive: bool) returns (depth: nat)
    requires Valid(ast) && node in ast
    ensures depth == ControlDepth(ast, node, recursive)
    decreases if recursive then 1 else 0
  {
    depth := 0;
    var current := Some(node);
    while current.Some?
      invariant current.Some? ==> current.value in ast
      invariant depth + Walk(ast, current, recursive) == ControlDepth(ast, node, recursive)
      decreases if current.Some? then current.value + 1 else 0
    {
      var id := current.value;
      assert NodeValid(ast, id);
      if IsControlBlock(ast, id) {
        depth := depth + 1;
      } else if ast[id].kind.Function? {
        if recursive {
          var references := ast[id].kind.references;
          var calls: seq<nat> := [];
          for j := 0 to |references|
            invariant calls == CallSiteDepths(ast, references[..j])
          {
            assert references[..j + 1][..j] == references[..j];
            if ast[references[j]].kind.FunctionCall? {
              var d := GetControlDepth(ast, references[j], false);
              calls := calls + [d];
            }
          }
          assert references[..|references|] == references;
          if calls != [] {
            depth := depth + Max(calls);
          }
        }
        return;
      }
      current := ast[id].parent;
    }
  }

  /** `is_under_control_flow`: the depth is positive. */
  method IsUnderControlFlow(ast: Ast, node: NodeId, recursive: bool) returns (under: bool)
    requires Valid(ast) && node in ast
    ensures under <==> ControlDepth(ast, node, recursive) > 0
    ensures !recursive ==> (under <==> exists x | x in Path(ast, node) :: IsControlBlock(ast, x))
  {
    var depth := GetControlDepth(ast, node, recursive);
    under := depth > 0;
    if !recursive {
      DepthCountsControlBlocks(ast, node);
      CountPositive(ast, Path(ast, node));
    }
  }

  // ---------------------------------------------------------------------------
  // An independent description of the walk
  // ---------------------------------------------------------------------------

  /** The nodes the walk visits before it stops: up to the first function (excluded) or the root. */
  function Path(ast: Ast, node: NodeId): (p: seq<NodeId>)
    requires Valid(ast) && node in ast
    ensures forall x | x in p :: x in ast && !ast[x].kind.Function?
    decreases node
  {
    assert NodeValid(ast, node);
    if ast[node].kind.Function? then []
    else [node] + (match ast[node].parent case None => [] case Some(q) => Path(ast, q))
  }

  /** The first function on the parent chain, the node itself included. */
  function EnclosingFunction(ast: Ast, node: NodeId): (f: Option<NodeId>)
    requires Valid(ast) && node in ast
    ensures f.Some? ==> f.value in ast && ast[f.value].kind.Function?
    decreases node
  {
    assert NodeValid(ast, node);
    if ast[node].kind.Function? then Some(node)
    else match ast[node].parent case None => None case Some(q) => EnclosingFunction(ast, q)
  }

  /** How many of `p` are control blocks. */
  function CountControlBlocks(ast: Ast, p: seq<NodeId>): (n: nat)
    requires Valid(ast) && forall x | x in p :: x in ast
    ensures n <= |p|
  {
    if p == [] then 0
    else (if IsControlBlock(ast, p[0]) then 1 else 0) + CountControlBlocks(ast, p[1..])
  }

  lemma {:induction false} CountPositive(ast: Ast, p: seq<NodeId>)
    requires Valid(ast) && forall x | x in p :: x in ast
    ensures CountControlBlocks(ast, p) > 0 <==> exists x | x in p :: IsControlBlock(ast, x)
    ensures CountControlBlocks(ast, p) <= |p|
  {
    if p != [] {
      CountPositive(ast, p[1..]);
      assert forall x | x in p :: x == p[0] || x in p[1..];
    }
  }

  /** The non-recursive depth is the number of control blocks on the path. */
  lemma {:induction false} DepthCountsControlBlocks(ast: Ast, node: NodeId)
    requires Valid(ast) && node in ast
    ensures ControlDepth(ast, node, false) == CountControlBlocks(ast, Path(ast, node))
    ensures ControlDepth(ast, node, false) <= |Path(ast, node)|
    decreases node
  {
    assert NodeValid(ast, node);
    var p := Path(ast, node);
    if !ast[node].kind.Function? {
      var here := if IsControlBlock(ast, node) then 1 else 0;
      match ast[node].parent
      case None =>
        assert Walk(ast, None, false) == 0;
        assert p == [node] && p[1..] == [];
        assert ControlDepth(ast, node, false) == here;
      case Some(q) =>
        DepthCountsControlBlocks(ast, q);
        assert p[1..] == Path(ast, q);
        assert ControlDepth(ast, node, false) == here + ControlDepth(ast, q, false);
    }
    CountPositive(ast, p);
  }

  /**
    The recursive depth is the function's own nesting plus the greatest
    non-recursive depth among the call sites of the enclosing function.
    Without an enclosing function or a call site nothing is added.
   */
  lemma {:induction false} RecursiveDepthAddsCallSites(ast: Ast, node: NodeId)
    requires Valid(ast) && node in ast
    ensures ControlDepth(ast, node, true)
         == ControlDepth(ast, node, false)
            + match EnclosingFunction(ast, node)
              case None => 0
              case Some(f) => CallSiteBonus(ast, ast[f].kind.references)
    decreases node
  {
    assert NodeValid(ast, node);
    if !ast[node].kind.Function? {
      var here := if IsControlBlock(ast, node) then 1 else 0;
      match ast[node].parent
      case None =>
        assert Walk(ast, None, true) == 0 && Walk(ast, None, false) == 0;
        assert ControlDepth(ast, node, true) == here == ControlDepth(ast, node, false);
      case Some(q) =>
        RecursiveDepthAddsCallSites(ast, q);
        assert ControlDepth(ast, node, true) == here + ControlDepth(ast, q, true);
        assert ControlDepth(ast, node, false) == here + ControlDepth(ast, q, false);
    }
  }

  /** One more enclosing control block around a plain node adds exactly one level. */
  lemma WrappingBlockAddsOne(ast: Ast, node: NodeId, recursive: bool)
    requires Valid(ast) && node in ast
    requires !ast[node].kind.Function? && !IsControlBlock(ast, node)
    requires ast[node].parent.Some? && IsControlBlock(ast, ast[node].parent.value)
    ensures var block := ast[node].parent.value;
      ControlDepth(ast, node, recursive) == 1 + ControlDepth(ast, ast[block].parent.value, recursive)
  {
    var block := ast[node].parent.value;
    assert NodeValid(ast, node) && NodeValid(ast, block);
    assert ControlDepth(ast, node, recursive) == ControlDepth(ast, block, recursive);
  }
}
