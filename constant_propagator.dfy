/** Constant propagation (optimization/ConstantPropagator.java): a variable whose
    reaching definitions all assign it the same literal is replaced by that literal. */
module ConstantPropagators {
  import opened Wrappers
  import opened Ast
  import opened DataflowValues
  import opened TernaryOperations

  /** `isConstantScalarAbsoluteAssignment`: a candidate for propagation is an
      assignment to a scalar location, with `=` rather than `+=` or `-=`, of a native
      literal. */
  predicate IsConstantScalarAbsoluteAssignment(s: Statement) {
    s.Assignment? && s.location.ScalarLocation? && s.operation == SetEquals && IsNativeLiteral(s.expression)
  }

  /** The statement is `x = c` for a scalar `x`. */
  predicate AssignsConstant(s: Statement, c: Expr) {
    IsConstantScalarAbsoluteAssignment(s) && s.expression == c
  }

  /** `getConstantScalarAssignment`: the literal a candidate assigns. */
  function GetConstantScalarAssignment(s: Statement): (r: Expr)
    requires IsConstantScalarAbsoluteAssignment(s)
    ensures IsNativeLiteral(r) && AssignsConstant(s, r)
  {
    s.expression
  }

  /** `sameConstant(var, definitions)`, given the statements of the definitions: the
      literal `c` exactly when there is at least one definition and every one of them
      is `x = c`; absent otherwise. */
  method SameConstant(definitions: seq<ScopedStatement>) returns (r: Option<Expr>)
    ensures forall c :: r == Some(c) <==> |definitions| > 0 && forall d | d in definitions :: AssignsConstant(d.statement, c)
    ensures r.Some? ==> IsNativeLiteral(r.value)
  {
    if |definitions| == 0 {
      return None;
    }
    var same: Option<Expr> := None;
    for i := 0 to |definitions|
      invariant same.None? <==> i == 0
      invariant same.Some? ==> forall k | 0 <= k < i :: AssignsConstant(definitions[k].statement, same.value)
    {
      var statement := definitions[i].statement;
      if !IsConstantScalarAbsoluteAssignment(statement) {
        return None;
      }
      var constant := GetConstantScalarAssignment(statement);
      if same.None? {
        same := Some(constant);
      }
      if constant != same.value {
        assert AssignsConstant(definitions[0].statement, same.value);
        return None;
      }
    }
    assert AssignsConstant(definitions[0].statement, same.value);
    return same;
  }

  /** The reaching definitions of `v`; a variable without any has none. */
  function DefinitionsOf(definitions: map<ScopedVariable, seq<ScopedStatement>>, v: ScopedVariable): seq<ScopedStatement> {
    if v in definitions then definitions[v] else []
  }

  /** Every reaching definition of `v`, and there is one, assigns it the same literal. */
  predicate HasSameConstant(defs: seq<ScopedStatement>) {
    |defs| > 0 && IsConstantScalarAbsoluteAssignment(defs[0].statement) &&
    forall d | d in defs :: AssignsConstant(d.statement, defs[0].statement.expression)
  }

  lemma SameConstantPresence(defs: seq<ScopedStatement>, r: Option<Expr>)
    requires forall c :: r == Some(c) <==> |defs| > 0 && forall d | d in defs :: AssignsConstant(d.statement, c)
    ensures r.Some? <==> HasSameConstant(defs)
  {
    if HasSameConstant(defs) {
      assert r == Some(defs[0].statement.expression);
    }
    if r.Some? {
      assert defs[0] in defs;
    }
  }

  /** `Util.getReplacement(statement, expression)`: the statement with its expression
      replaced. */
  function WithExpression(s: Statement, e: Expr): (r: Statement)
    requires ExpressionOf(s).Some?
    ensures ExpressionOf(r) == Some(e)
    ensures ExpressionOf(s) == Some(e) ==> r == s
  {
    match s
    case Assignment(l, op, _) => Assignment(l, op, e)
    case CallStatement(_) => CallStatement(e)
    case Condition(_) => Condition(e)
  }

  /** `constantsPropagated(node, reachingDefs)` on the node's value: a NOP or a
      statement without an expression is copied unchanged; otherwise, for each variable
      the statement uses in turn, a variable with the same constant in all of its
      reaching definitions is replaced by it, so that it no longer occurs, and the
      statement keeps its scope. */
  method ConstantsPropagated(value: Option<ScopedStatement>, variables: seq<ScopedVariable>,
                             definitions: map<ScopedVariable, seq<ScopedStatement>>)
    returns (r: Option<ScopedStatement>)
    ensures value.None? || ExpressionOf(value.value.statement).None? ==> r == value
    ensures value.Some? ==> r.Some? && r.value.scope == value.value.scope
    ensures value.Some? && ExpressionOf(value.value.statement).Some? ==>
              ExpressionOf(r.value.statement).Some? &&
              forall v | v in variables && HasSameConstant(DefinitionsOf(definitions, v)) ::
                !Occurs(ScalarLocation(v.name), ExpressionOf(r.value.statement).value)
    ensures (forall v | v in variables :: !HasSameConstant(DefinitionsOf(definitions, v))) ==> r == value
  {
    if value.None? || ExpressionOf(value.value.statement).None? {
      return value;
    }
    var statement := value.value.statement;
    var expr := PropagateAll(ExpressionOf(statement).value, variables, definitions);
    r := Some(ScopedStatement(WithExpression(statement, expr), value.value.scope));
  }

  /** No scalar location named in `names` occurs in `e`. */
  predicate AbsentFrom(names: set<string>, e: Expr) {
    forall n | n in names :: !Occurs(ScalarLocation(n), e)
  }

  /** The loop of `constantsPropagated` over the variables the statement uses. */
  method PropagateAll(e: Expr, variables: seq<ScopedVariable>, definitions: map<ScopedVariable, seq<ScopedStatement>>)
    returns (expr: Expr)
    ensures forall v | v in variables && HasSameConstant(DefinitionsOf(definitions, v)) :: !Occurs(ScalarLocation(v.name), expr)
    ensures (forall v | v in variables :: !HasSameConstant(DefinitionsOf(definitions, v))) ==> expr == e
  {
    expr := e;
    ghost var cleared: set<string> := {};
    for i := 0 to |variables|
      invariant AbsentFrom(cleared, expr)
      invariant forall k | 0 <= k < i && HasSameConstant(DefinitionsOf(definitions, variables[k])) :: variables[k].name in cleared
      invariant (forall k | 0 <= k < i :: !HasSameConstant(DefinitionsOf(definitions, variables[k]))) ==> expr == e
    {
      var defs := DefinitionsOf(definitions, variables[i]);
      expr := PropagateVariable(expr, variables[i].name, defs, cleared);
      if HasSameConstant(defs) {
        cleared := cleared + {variables[i].name};
      }
    }
  }

  /** One turn of the loop of `constantsPropagated`: the variable named `name` is
      replaced by its constant if it has one, and the names already gone stay gone. */
  method PropagateVariable(expr: Expr, name: string, defs: seq<ScopedStatement>, ghost cleared: set<string>) returns (r: Expr)
    requires AbsentFrom(cleared, expr)
    ensures HasSameConstant(defs) ==> AbsentFrom(cleared + {name}, r)
    ensures !HasSameConstant(defs) ==> r == expr
  {
    var constant := SameConstant(defs);
    SameConstantPresence(defs, constant);
    r := expr;
    if constant.Some? {
      var target := ScalarLocation(name);
      forall n | n in cleared
        ensures !Occurs(ScalarLocation(n), WithReplacements(expr, target, constant.value))
      {
        LeafStaysAbsent(expr, target, constant.value, ScalarLocation(n));
      }
      ReplacementsRemoveLeaf(expr, target, constant.value);
      r := WithReplacements(expr, target, constant.value);
    }
  }

  /** Replacing anything by a literal brings no scalar location back. */
  lemma {:induction false} LeafStaysAbsent(e: Expr, toReplace: Expr, replacement: Expr, leaf: Expr)
    requires Children(leaf) == [] && !Occurs(leaf, e) && !Occurs(leaf, replacement)
    ensures !Occurs(leaf, WithReplacements(e, toReplace, replacement))
    decreases e
  {
    if !Equals(e, toReplace) {
      var r := WithReplacements(e, toReplace, replacement);
      var cs := Children(e);
      forall i | 0 <= i < |cs|
        ensures !Occurs(leaf, Children(r)[i])
      {
        assert Occurs(leaf, cs[i]) ==> Occurs(leaf, e);
        LeafStaysAbsent(cs[i], toReplace, replacement, leaf);
      }
      if |cs| == 0 {
        SameChildrenSame(e, toReplace, replacement);
      } else {
        assert |Children(Erase(r))| != |Children(Erase(leaf))|;
      }
      assert !Equals(r, leaf);
    }
  }
}
