# bonsai C++ analysis pass, modelled in Dafny

This project models the analysis pass of bonsai's C++ front end
(`bonsai/cpp/analysis.py`). The pass reads an abstract syntax tree that was
built elsewhere and has three parts:

- **`CppQuery`** (`query.dfy`, module `QueryEngine`): a fluent selector. It
  has a root node, a node category (`CppReference` or `CppFunctionCall`), a
  recursion flag and a table of attribute filters. Its selector properties
  and `where_name` / `where_result` overwrite these fields and return the
  same query object. `get` runs the tree's subtree filter and keeps, in
  order, the nodes that pass every filter. A string filter value is compared
  for equality; any other value is tested for membership. This is a class
  with `modifies` clauses. The subtree filter itself is a function
  parameter.
- **`resolve_expression` / `resolve_reference`** (`resolution.dfy`, module
  `Resolution`; properties in `resolution_facts.dfy`, module
  `ResolutionFacts`): a constant folder and def-use resolver.
  - Operators are folded bottom-up, all or nothing. Only binary
    `+ - * / %` are folded.
  - A variable read sees the last visible write in `var.writes` order.
    Visibility is decided by the statement index `_si` within one function.
  - A parameter falls back to the argument of its function's single call
    site.

  `resolve_expression` is a recursive function. `resolve_reference` is
  specified by functions: `ReferenceValue` for the bail-outs and
  `VariableValue` for the read of a variable, with `ScanWrites`,
  `CallSiteValue` and `Settle` for its three steps. The methods
  `ResolveReference`, `ReadVariable`, `ScanWriteSites` (the source's loop
  over the write sites) and `CallSiteFallback` are proved equal to them,
  one step each.
- **`get_control_depth` / `is_under_control_flow`** (`control_depth.dfy`,
  module `ControlDepth`): a walk up the parent chain. It counts every
  `CppBlock` whose parent is a `CppControlFlow`, up to the first
  `CppFunction` or the root. In recursive mode it adds the greatest
  non-recursive depth among that function's call sites. `GetControlDepth` is
  the source's `while` loop, proved equal to the function `ControlDepth`.

The tree (`ast.dfy`, module `Ast`) is a map from node ids to records
(`parent`, class-specific fields). Object identity (`is`) is id equality. A
valid tree numbers nodes so that every parent has a smaller id than its
child. This is a topological numbering: it makes the parent chain acyclic,
so the walk terminates. Python exceptions are modelled as `Err` values:
- `ZeroDivisionError` for `/` or `%` by zero;
- `IndexError` for a binary operator with fewer than two arguments;
- `ValueError` when `parameters.index` fails;
- `AttributeError` when the parameter fallback finds no enclosing function,
  or when a write of the reading function has no statement, so its `_si`
  cannot be read.

Integer arithmetic follows Python 2. `/` on integers is floor division and
`%` takes the sign of the divisor (`FloorDiv`, `FloorMod`). The folded
program is C++, where both operators truncate toward zero. So, for example,
`-7 / 2` folds to `-4` where the C++ program computes `-3`. The model keeps
the Python behaviour, because that is what the code does.

Where the code and its description differ, the model follows the code:
- A reference whose target is a bare string resolves to `None`, not to the
  string (`bonsai/cpp/analysis.py:134-136`).
- The parameter fallback takes its call sites and parameter list from the
  reading reference's `function` (`bonsai/cpp/analysis.py:140,156,160`).
- The builder is not immutable. It changes its own fields and returns
  itself.
- The value that the last visible write produces is folded a second time
  before it is returned (`bonsai/cpp/analysis.py:147,167-168`). An argument
  taken from a call site is returned without folding
  (`bonsai/cpp/analysis.py:166`).

## Model

| member | source | states |
|---|---|---|
| `QueryEngine.Attr` | bonsai/cpp/analysis.py:81-84 | the `name` and `result` accessors that replace `getattr(cppobj, key)` |
| `QueryEngine.Matches` | bonsai/cpp/analysis.py:80-85 | a string filter value must equal the attribute; a set value must contain it |
| `QueryEngine.Passes` | bonsai/cpp/analysis.py:78-86 | a node passes when every recorded filter matches its attribute, that is when `passes` stays true |
| `QueryEngine.Select` | bonsai/cpp/analysis.py:76-88 | the candidates that pass, in their order; never more than the candidates, and every kept node is a passing candidate |
| `QueryEngine.Query.constructor` | bonsai/cpp/analysis.py:36-41 | a new query has the given root, no category, recursion off and no filters |
| `QueryEngine.Query.References` | bonsai/cpp/analysis.py:43-47 | sets category to references and recursion off, keeps the filters (the root is a constant), returns the same object |
| `QueryEngine.Query.AllReferences` | bonsai/cpp/analysis.py:49-53 | sets category to references and recursion on, keeps the filters, returns the same object |
| `QueryEngine.Query.Calls` | bonsai/cpp/analysis.py:55-59 | sets category to function calls and recursion off, keeps the filters, returns the same object |
| `QueryEngine.Query.AllCalls` | bonsai/cpp/analysis.py:61-65 | sets category to function calls and recursion on, keeps the filters, returns the same object |
| `QueryEngine.Query.WhereName` | bonsai/cpp/analysis.py:67-69 | records the `name` filter, overwriting an earlier one; the other keys, category and recursion are unchanged; returns the same object |
| `QueryEngine.Query.WhereResult` | bonsai/cpp/analysis.py:71-73 | records the `result` filter, overwriting an earlier one; everything else unchanged; returns the same object |
| `QueryEngine.Query.Get` | bonsai/cpp/analysis.py:75-88 | the result is the subtree filter's output for the current root, category and recursion flag, restricted to the nodes passing every filter (equality for a string, membership otherwise) |
| `QueryEngine.SelectAppend` | bonsai/cpp/analysis.py:77-87 | selection preserves order: selecting from `xs + ys` is selecting from `xs` followed by selecting from `ys` |
| `QueryEngine.SelectMembership` | bonsai/cpp/analysis.py:78-87 | a node is in the result iff it is a candidate and passes every filter |
| `QueryEngine.SelectMultiplicity` | bonsai/cpp/analysis.py:76-88 | a passing node occurs in the result exactly as often as among the candidates; a failing one never |
| `QueryEngine.SelectWithoutFilters` | bonsai/cpp/analysis.py:79-87 | with no filters recorded, `get` returns the subtree filter's output unchanged |
| `QueryEngine.CallsNamed` | bonsai/cpp/analysis.py:61-88 | `all_calls`, `where_name(n)`, `get` on a new query returns exactly the recursive call candidates named `n`, in order |
| `Resolution.IsLiteral` | bonsai/cpp/analysis.py:103-110 | a value counts as a literal only when it is an integer literal |
| `Resolution.ArithOp` | bonsai/cpp/analysis.py:112-121 | exactly the names `+ - * / %` are foldable |
| `Resolution.FloorDiv` | bonsai/cpp/analysis.py:118-119 | the quotient is the floor of `a / b` for either sign of `b` |
| `Resolution.FloorMod` | bonsai/cpp/analysis.py:120-121 | `a == b * FloorDiv(a, b) + m`, and `m` has the sign of the divisor, below it in magnitude |
| `Resolution.Apply` | bonsai/cpp/analysis.py:112-121 | applying an operator fails exactly for `/` or `%` by zero, with `ZeroDivisionError` |
| `Resolution.IndexOf` | bonsai/cpp/analysis.py:160 | `list.index`: the first position of the element, or none exactly when it is absent |
| `Resolution.CallSites` | bonsai/cpp/analysis.py:156-157 | the kept references are exactly those of the function that are function calls, each as often as it occurs among the references (the count that `len(calls) != 1` tests) |
| `Resolution.Initial` | bonsai/cpp/analysis.py:139 | the scan starts from `var.value`; a variable without one starts from `None` |
| `Resolution.WritesVariable` | bonsai/cpp/analysis.py:146 | the write's target is a reference whose `.reference` is the variable |
| `Resolution.Visible` | bonsai/cpp/analysis.py:143-154 | a write counts when it is in the reader's function and either comes from an earlier statement and writes the variable, or comes from the same statement and targets the read itself |
| `Resolution.Unindexed` | bonsai/cpp/analysis.py:142-145 | a write in the reader's function without a statement, whose `_si` lookup raises `AttributeError` |
| `Resolution.ResolveExpression` | bonsai/cpp/analysis.py:95-126 | an operator resolves to the very same node or to a literal; a successful result is never a bare reference |
| `Resolution.FoldArgs` | bonsai/cpp/analysis.py:100-105 | when every argument folds, one literal per argument is produced |
| `Resolution.ReferenceValue` | bonsai/cpp/analysis.py:129-170 | the result of resolving a reference is well formed and never a bare reference |
| `Resolution.VariableValue` | bonsai/cpp/analysis.py:137-169 | the read of a variable target is well formed and never a bare reference |
| `Resolution.ScanWrites` | bonsai/cpp/analysis.py:139-154 | the loop over the write sites keeps the value well formed (its meaning, including the `AttributeError` for a write without a statement, is stated by the scan lemmas below) |
| `Resolution.CallSiteValue` | bonsai/cpp/analysis.py:155-166 | the parameter fallback yields a well-formed value that is never a bare reference |
| `Resolution.Settle` | bonsai/cpp/analysis.py:167-169 | an expression value is folded once more; anything else is returned as it is |
| `Resolution.ResolveReference` | bonsai/cpp/analysis.py:129-170 | the bail-outs and the read of the variable compute exactly `ReferenceValue`; the result is never a bare reference |
| `Resolution.ReadVariable` | bonsai/cpp/analysis.py:137-169 | the scan, the parameter fallback and the final fold compute exactly `VariableValue`; the result is never a bare reference |
| `Resolution.ScanWriteSites` | bonsai/cpp/analysis.py:138-154 | the loop over `var.writes`, with its early exits on a missing statement or a failing fold, computes exactly `ScanWrites` from the initial value |
| `Resolution.CallSiteFallback` | bonsai/cpp/analysis.py:155-166 | the parameter fallback computes exactly `CallSiteValue`; the result is never a bare reference |
| `ResolutionFacts.FoldArgsStep` | bonsai/cpp/analysis.py:101-105 | the argument loop yields `vs` iff the first argument folds to `vs[0]` and the rest yield the rest |
| `ResolutionFacts.FoldArgsAllLiteral` | bonsai/cpp/analysis.py:100-105 | the argument loop yields the literals `vs` iff every argument folds to the literal at the same position |
| `ResolutionFacts.FoldArgsStopsAtNonLiteral` | bonsai/cpp/analysis.py:101-104 | the argument loop gives up at the first argument that does not fold to a literal |
| `ResolutionFacts.FoldAllLiteralOperator` | bonsai/cpp/analysis.py:106-126 | with all arguments literal: a binary `+ - * / %` folds to `arg0 op arg1`, with floor `/` and sign-of-divisor `%`; `/` or `%` by zero raises; a non-binary operator or an unknown name is returned itself; a binary operator with under two arguments raises `IndexError` |
| `ResolutionFacts.OperatorWithNonLiteralArgument` | bonsai/cpp/analysis.py:101-104 | an operator with an argument that does not fold to a literal is returned as the very same node |
| `ResolutionFacts.LiteralOnlyFromFoldableOperator` | bonsai/cpp/analysis.py:99-121 | an operator folds to a literal only if it is binary, named `+ - * / %`, and all its arguments fold to literals; the literal is the operator applied to the first two |
| `ResolutionFacts.NonOperatorExpressionUnchanged` | bonsai/cpp/analysis.py:122-126 | a literal, a call or any other non-reference, non-operator expression is returned unchanged |
| `ResolutionFacts.ReferenceBailOuts` | bonsai/cpp/analysis.py:131-170 | no statement gives `None`; an absent or string target gives `None`; a target that is not a variable is returned itself |
| `ResolutionFacts.ScanWithoutVisibleWrite` | bonsai/cpp/analysis.py:141-154 | with no visible write, and every write of the function having a statement, the value stays the initial one |
| `ResolutionFacts.ScanFailure` | bonsai/cpp/analysis.py:141-154 | the scan fails iff some write of the function has no statement or some visible write's fold fails; when every visible write folds, the failure is `AttributeError` |
| `ResolutionFacts.ScanLastVisibleWrite` | bonsai/cpp/analysis.py:141-154 | when the scan succeeds, its value is the folded right-hand side of the last visible write in list order |
| `ResolutionFacts.UnwrittenVariableReadsInitialValue` | bonsai/cpp/analysis.py:138-169 | a read that no write reaches yields the folded `var.value`, for a parameter with an initial value as for any variable; a non-parameter without one gives `None` |
| `ResolutionFacts.ReadSeesLastVisibleWrite` | bonsai/cpp/analysis.py:141-169 | a read yields the last visible write's folded right-hand side, folded again; a literal comes back unchanged and a non-expression as it is; a parameter whose last write gave `None` falls back to its call site |
| `ResolutionFacts.ParameterFallsBackToCallSite` | bonsai/cpp/analysis.py:155-169 | a parameter takes the call-site fallback exactly when the scan over its writes leaves `None`; otherwise the scanned value is folded once more |
| `ResolutionFacts.ParameterWithoutSingleCallSite` | bonsai/cpp/analysis.py:155-159 | a parameter left `None` by the scan raises `AttributeError` outside a function, and resolves to `None` when its function does not have exactly one call site |
| `ResolutionFacts.ParameterFromSingleCallSite` | bonsai/cpp/analysis.py:155-166 | a parameter left `None` by the scan, with exactly one call site: a variable not among the parameters raises `ValueError`; a missing argument gives `None`; a reference argument is resolved recursively; any other argument is returned unfolded |
| `ResolutionFacts.ExprFuelMonotone` | bonsai/cpp/analysis.py:95-126 | any answer other than fuel exhaustion is the same for every larger fuel |
| `ResolutionFacts.ArgsFuelMonotone` | bonsai/cpp/analysis.py:100-105 | the same for the argument loop |
| `ResolutionFacts.ReferenceFuelMonotone` | bonsai/cpp/analysis.py:129-170 | the same for reference resolution |
| `ResolutionFacts.VariableFuelMonotone` | bonsai/cpp/analysis.py:137-169 | the same for the read of a variable |
| `ResolutionFacts.ScanFuelMonotone` | bonsai/cpp/analysis.py:141-154 | the same for the write scan |
| `ResolutionFacts.CallSiteFuelMonotone` | bonsai/cpp/analysis.py:155-166 | the same for the parameter fallback |
| `ResolutionFacts.SettleFuelMonotone` | bonsai/cpp/analysis.py:167-169 | the same for the final fold |
| `ControlDepth.IsControlBlock` | bonsai/cpp/analysis.py:180-181 | a block whose parent is a control-flow statement: the nodes that add a level |
| `ControlDepth.Walk` | bonsai/cpp/analysis.py:179-191 | the rest of the walk from a node: one per counted block, stopping at the first function (adding the call-site maximum in recursive mode) or past the root |
| `ControlDepth.ControlDepth` | bonsai/cpp/analysis.py:177-191 | `get_control_depth(node, recursive)`: the walk started at the node itself |
| `ControlDepth.CountControlBlocks` | bonsai/cpp/analysis.py:180-182 | the number of counted blocks on a path, never more than its length |
| `ControlDepth.Max` | bonsai/cpp/analysis.py:188 | `max` returns an element of the list that no element exceeds |
| `ControlDepth.CallSiteDepths` | bonsai/cpp/analysis.py:185-186 | the list holds exactly the non-recursive depths of the function's call-site references |
| `ControlDepth.CallSiteBonus` | bonsai/cpp/analysis.py:185-188 | what recursion adds is at least every call site's depth, and equals one of them when positive; with no call sites it is 0 |
| `ControlDepth.GetControlDepth` | bonsai/cpp/analysis.py:177-191 | the parent walk computes exactly `ControlDepth` |
| `ControlDepth.IsUnderControlFlow` | bonsai/cpp/analysis.py:173-174 | holds iff the depth is positive; non-recursively, iff some block on the path to the function has a control-flow parent |
| `ControlDepth.Path` | bonsai/cpp/analysis.py:179-190 | the nodes the walk visits all exist and are not functions |
| `ControlDepth.EnclosingFunction` | bonsai/cpp/analysis.py:183-189 | the node where the walk stops, if any, is a function |
| `ControlDepth.CountPositive` | bonsai/cpp/analysis.py:180-182 | the count of control blocks on a path is positive iff one is there, and at most the path's length |
| `ControlDepth.DepthCountsControlBlocks` | bonsai/cpp/analysis.py:177-191 | the non-recursive depth equals the number of blocks with a control-flow parent between the node and its function (or the root) |
| `ControlDepth.RecursiveDepthAddsCallSites` | bonsai/cpp/analysis.py:183-189 | the recursive depth is the non-recursive depth plus the call-site maximum of the enclosing function; nothing is added without a function |
| `ControlDepth.WrappingBlockAddsOne` | bonsai/cpp/analysis.py:179-190 | one more enclosing control block around a plain node adds exactly one level |

## Left out

- `bonsai/py/visitor.py`: it builds trees from Python's `ast` module through builders that are not part of this model. It has no analysis logic of its own.
- The subtree filter `root.filter(cls, recursive)` and the AST classes: the filter is a parameter of `Get`, and the tree is given as records.
- Reflective attribute lookup in `get`: a fixed accessor table for `name` and `result` replaces `getattr`. So the `AttributeError` for an unknown attribute name cannot arise.
- Filter values in `get` are either a string or a set of strings (`Expected`). A value that is neither, such as a number, would make the `in` test raise `TypeError`. The model cannot express that value.
- Float, string and boolean literals: only integer literals are modelled. String concatenation by `+` is therefore not modelled.
- The `isinstance` assertions at the entry of `CppQuery`, `resolve_expression` and `resolve_reference` become types and the `Valid` / `ResolvableReference` preconditions.
- Unbounded recursion: the source can recurse without end, for example through mutually dependent parameters. `ReferenceValue` and `ResolveReference` take a fuel bound and report `FuelExhausted` when it runs out. The source would go on recursing or hit Python's recursion limit. `ResolutionFacts.ExprFuelMonotone` and its companions show that the bound never changes any other answer.
- Write sites are modelled with exactly a target and an assigned expression. Writes with one argument, such as increments, are not modelled. The source skips such a write unless it is visible: an earlier write of the reader's function whose target's `.reference` is the variable, or a write in the same statement whose target is the read itself. A visible one makes the source index `arguments[1]` and raise `IndexError`.
- A write target (`arguments[0]`) that is not a plain reference is treated as not writing the variable. The source reads `.reference` from the target only for a write of the reader's function whose statement comes earlier than the read's. It skips every other such write, as the model does. For those earlier writes, a target without that attribute, such as a plain integer, makes the source raise `AttributeError`. A target that has one is compared with the variable through it. The model gives up both behaviours.
- Cyclic parent chains: a valid tree numbers parents below children, so the walk in `get_control_depth` always reaches the root.
- Concurrent changes to the tree during a call: the code has none.
