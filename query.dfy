/**
  The fluent node selector `CppQuery`.

  A query holds a root node, a node category, a recursion flag and a table of
  attribute filters. The selector properties and the `where_*` methods
  overwrite these fields and return the query itself. `get` runs the tree's
  subtree filter and keeps the nodes that pass every recorded filter.
 */
module QueryEngine {
  import Wrappers
  import opened Ast

  /** The node classes a query can select: `CppReference` or `CppFunctionCall`. */
  datatype Category = References | FunctionCalls

  /** The attributes a filter can name, each with its accessor. */
  datatype Attribute = Name | ResultType

  /** A filter value: a single string is compared for equality; a collection is tested for membership. */
  datatype Expected = Exactly(text: string) | OneOf(texts: set<string>)

  /** A node produced by the subtree filter, with the attributes a query can test. */
  datatype Candidate = Candidate(id: NodeId, name: string, result: string)

  /** `root.filter(cls, recursive)`: given by the tree, outside this model. */
  type SubtreeFilter = (NodeId, Wrappers.Option<Category>, bool) -> seq<Candidate>

  function Attr(c: Candidate, a: Attribute): string {
    match a
    case Name => c.name
    case ResultType => c.result
  }

  predicate Matches(actual: string, expected: Expected) {
    match expected
    case Exactly(text) => actual == text
    case OneOf(texts) => actual in texts
  }

  /** The node passes every recorded filter. */
  predicate Passes(c: Candidate, attributes: map<Attribute, Expected>) {
    forall a | a in attributes :: Matches(Attr(c, a), attributes[a])
  }

  /** The candidates that pass every filter, in their original order. */
  function Select(candidates: seq<Candidate>, attributes: map<Attribute, Expected>): (kept: seq<Candidate>)
    ensures |kept| <= |candidates|
    ensures forall c | c in kept :: c in candidates && Passes(c, attributes)
  {
    if candidates == [] then []
    else (if Passes(candidates[0], attributes) then [candidates[0]] else [])
         + Select(candidates[1..], attributes)
  }

  class Query {
    const root: NodeId
    var category: Wrappers.Option<Category>
    var recursive: bool
    var attributes: map<Attribute, Expected>

    constructor (root: NodeId)
      ensures this.root == root
      ensures category == Wrappers.None && !recursive && attributes == map[]
    {
      this.root := root;
      category := Wrappers.None;
      recursive := false;
      attributes := map[];
    }

    /** `references`: direct references only. */
    method References() returns (q: Query)
      modifies this
      ensures q == this
      ensures category == Wrappers.Some(Category.References) && !recursive
      ensures attributes == old(attributes)
    {
      category := Wrappers.Some(Category.References);
      recursive := false;
      return this;
    }

    /** `all_references`: references anywhere in the subtree. */
    method AllReferences() returns (q: Query)
      modifies this
      ensures q == this
      ensures category == Wrappers.Some(Category.References) && recursive
      ensures attributes == old(attributes)
    {
      category := Wrappers.Some(Category.References);
      recursive := true;
      return this;
    }

    /** `calls`: direct function calls only. */
    method Calls() returns (q: Query)
      modifies this
      ensures q == this
      ensures category == Wrappers.Some(FunctionCalls) && !recursive
      ensures attributes == old(attributes)
    {
      category := Wrappers.Some(FunctionCalls);
      recursive := false;
      return this;
    }

    /** `all_calls`: function calls anywhere in the subtree. */
    method AllCalls() returns (q: Query)
      modifies this
      ensures q == this
      ensures category == Wrappers.Some(FunctionCalls) && recursive
      ensures attributes == old(attributes)
    {
      category := Wrappers.Some(FunctionCalls);
      recursive := true;
      return this;
    }

    /** `where_name`: records (or replaces) the filter on `name`. */
    method WhereName(name: Expected) returns (q: Query)
      modifies this
      ensures q == this
      ensures attributes == old(attributes)[Name := name]
      ensures category == old(category) && recursive == old(recursive)
    {
      attributes := attributes[Name := name];
      return this;
    }

    /** `where_result`: records (or replaces) the filter on `result`. */
    method WhereResult(result: Expected) returns (q: Query)
      modifies this
      ensures q == this
      ensures attributes == old(attributes)[ResultType := result]
      ensures category == old(category) && recursive == old(recursive)
    {
      attributes := attributes[ResultType := result];
      return this;
    }

    /** `get`: the filtered nodes that pass every recorded filter, in order. */
    method Get(filter: SubtreeFilter) returns (result: seq<Candidate>)
      ensures result == Select(filter(root, category, recursive), attributes)
    {
      var candidates := filter(root, category, recursive);
      result := [];
      for i := 0 to |candidates|
        invariant result == Select(candidates[..i], attributes)
      {
        var c := candidates[i];
        var passes := true;
        var pending := attributes.Keys;
        while pending != {}
          invariant pending <= attributes.Keys
          invariant passes <==> forall a | a in attributes.Keys - pending :: Matches(Attr(c, a), attributes[a])
          decreases pending
        {
          var key :| key in pending;
          pending := pending - {key};
          match attributes[key]
          case Exactly(text) =>
            if Attr(c, key) != text {
              passes := false;
            }
          case OneOf(texts) =>
            if Attr(c, key) !in texts {
              passes := false;
            }
        }
        SelectAppend(candidates[..i], [c], attributes);
        assert candidates[..i + 1] == candidates[..i] + [c];
        if passes {
          result := result + [c];
        }
      }
      assert candidates[..|candidates|] == candidates;
    }
  }

  // ---------------------------------------------------------------------------
  // What `get` returns
  // ---------------------------------------------------------------------------

  /** Selection keeps the order: selecting from a concatenation concatenates the selections. */
  lemma {:induction false} SelectAppend(xs: seq<Candidate>, ys: seq<Candidate>, attributes: map<Attribute, Expected>)
    ensures Select(xs + ys, attributes) == Select(xs, attributes) + Select(ys, attributes)
  {
    if xs != [] {
      assert (xs + ys)[1..] == xs[1..] + ys;
      SelectAppend(xs[1..], ys, attributes);
    } else {
      assert xs + ys == ys;
    }
  }

  /** A node is selected exactly when it is a candidate and passes every filter. */
  lemma {:induction false} SelectMembership(candidates: seq<Candidate>, attributes: map<Attribute, Expected>, c: Candidate)
    ensures c in Select(candidates, attributes) <==> c in candidates && Passes(c, attributes)
  {
    if candidates != [] {
      SelectMembership(candidates[1..], attributes, c);
      assert c in candidates <==> c == candidates[0] || c in candidates[1..];
    }
  }

  /** Each passing candidate is kept as often as it occurs, and every other candidate is dropped. */
  lemma {:induction false} SelectMultiplicity(candidates: seq<Candidate>, attributes: map<Attribute, Expected>, c: Candidate)
    ensures multiset(Select(candidates, attributes))[c]
         == if Passes(c, attributes) then multiset(candidates)[c] else 0
  {
    if candidates != [] {
      var head := candidates[0];
      SelectMultiplicity(candidates[1..], attributes, c);
      assert candidates == [head] + candidates[1..];
      assert multiset(Select(candidates, attributes))
          == multiset(if Passes(head, attributes) then [head] else []) + multiset(Select(candidates[1..], attributes));
    }
  }

  /** Without filters, `get` returns the subtree filter's output as it is. */
  lemma {:induction false} SelectWithoutFilters(candidates: seq<Candidate>)
    ensures Select(candidates, map[]) == candidates
  {
    if candidates != [] {
      SelectWithoutFilters(candidates[1..]);
    }
  }

  /**
    Chaining `all_calls`, `where_name(name)` and `get` on a fresh query: the
    result is exactly the recursive call candidates that have that name,
    in order.
   */
  method CallsNamed(root: NodeId, filter: SubtreeFilter, name: string) returns (calls: seq<Candidate>)
    ensures calls == Select(filter(root, Wrappers.Some(FunctionCalls), true), map[Name := Exactly(name)])
    ensures forall c | c in calls :: c.name == name
    ensures forall c | c in filter(root, Wrappers.Some(FunctionCalls), true) && c.name == name :: c in calls
  {
    var query := new Query(root);
    var q := query.AllCalls();
    q := q.WhereName(Exactly(name));
    calls := q.Get(filter);
    var attributes := map[Name := Exactly(name)];
    forall c | c in calls ensures c.name == name {
      SelectMembership(filter(root, Wrappers.Some(FunctionCalls), true), attributes, c);
      assert Name in attributes;
    }
    forall c | c in filter(root, Wrappers.Some(FunctionCalls), true) && c.name == name ensures c in calls {
      SelectMembership(filter(root, Wrappers.Some(FunctionCalls), true), attributes, c);
    }
  }
}
