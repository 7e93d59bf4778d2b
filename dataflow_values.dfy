/** The values attached to data-flow graph nodes: a statement with the scope it runs
    in, a variable resolved to the scope that declares it, and an expression with its
    scope (codegen/dataflow/ScopedStatement.java, optimization/ScopedVariable.java,
    optimization/ScopedExpression.java). A scope is seen here as the chain of frames
    from the innermost outwards; each frame knows the names it declares and whether
    it is the global scope. */
module DataflowValues {
  import opened Wrappers
  import opened Ast

  datatype ScopeFrame = ScopeFrame(id: nat, names: set<string>, global: bool)

  datatype ScopedStatement = ScopedStatement(statement: Statement, scope: seq<ScopeFrame>)

  datatype ScopedVariable = ScopedVariable(name: string, frame: ScopeFrame) {
    predicate IsGlobal() {
      frame.global
    }
  }

  datatype ScopedExpression = ScopedExpression(expression: Expr, scope: seq<ScopeFrame>)

  /** `ScopedVariable.getScopeOf`: the innermost frame declaring `name`; a name that no
      frame declares is an assertion failure. */
  function ScopeOf(name: string, chain: seq<ScopeFrame>): (r: Result<ScopeFrame>)
    ensures r.Ok? ==> r.value in chain && name in r.value.names
    ensures r.Err? <==> forall f | f in chain :: name !in f.names
    ensures r.Ok? ==> exists i | 0 <= i < |chain| :: chain[i] == r.value && forall j | 0 <= j < i :: name !in chain[j].names
  {
    if |chain| == 0 then Err(Assertion("Variable is not in any scope associated with immediateScope"))
    else if name in chain[0].names then Ok(chain[0])
    else ScopeOf(name, chain[1..])
  }

  /** The names `ScopedVariable.getVariablesOf` collects from an expression: a child
      that is a location gives its name, any other child is searched in turn. The
      expression itself is not looked at, so a bare location reads no variable. */
  function VariableNames(e: Expr): set<string>
    decreases e, 0
  {
    match e
    case BinaryOperation(_, l, r) => ChildNames(l) + ChildNames(r)
    case UnaryOperation(_, a) => ChildNames(a)
    case TernaryOperation(c, t, f, _) => ChildNames(c) + ChildNames(t) + ChildNames(f)
    case MethodCall(_, args) => set i, n | 0 <= i < |args| && n in ChildNames(args[i]) :: n
    case _ => {}
  }

  /** What one child contributes to `VariableNames`. */
  function ChildNames(c: Expr): set<string>
    decreases c, 1
  {
    if c.ScalarLocation? || c.ArrayLocation? then {LocationName(c)} else VariableNames(c)
  }

  /** Some frame of the chain declares each of the names. */
  predicate AllDeclared(names: set<string>, chain: seq<ScopeFrame>) {
    forall n | n in names :: ScopeOf(n, chain).Ok?
  }

  /** `ScopedVariable.getVariablesOf(expression, scope)`: the variables an expression
      reads, each resolved to the frame that declares it; a name no frame declares
      is an assertion failure. */
  function ResolvedVariables(e: Expr, chain: seq<ScopeFrame>): Result<set<ScopedVariable>> {
    if !AllDeclared(VariableNames(e), chain) then
      Err(Assertion("Variable is not in any scope associated with immediateScope"))
    else
      Ok(set n | n in VariableNames(e) :: ScopedVariable(n, ScopeOf(n, chain).value))
  }

  /** Resolving fails exactly when some variable is declared nowhere; otherwise each
      variable the expression reads is paired with the innermost frame declaring it. */
  lemma ResolvedVariablesExactly(e: Expr, chain: seq<ScopeFrame>)
    ensures ResolvedVariables(e, chain).Err? <==> exists n | n in VariableNames(e) :: forall f | f in chain :: n !in f.names
    ensures ResolvedVariables(e, chain).Ok? ==>
              forall v :: v in ResolvedVariables(e, chain).value <==> v.name in VariableNames(e) && ScopeOf(v.name, chain) == Ok(v.frame)
  {
    if ResolvedVariables(e, chain).Err? {
      assert !AllDeclared(VariableNames(e), chain);
      var n :| n in VariableNames(e) && !ScopeOf(n, chain).Ok?;
      assert forall f | f in chain :: n !in f.names;
      assert exists n' | n' in VariableNames(e) :: forall f | f in chain :: n' !in f.names;
    } else {
      forall n | n in VariableNames(e)
        ensures exists f | f in chain :: n in f.names
      {
        assert ScopeOf(n, chain).Ok?;
      }
    }
  }

  /** The search of `getGeneralScope` from `chain[0]` outwards for a frame declaring
      one of `names`. */
  function FirstDeclaring(names: set<string>, chain: seq<ScopeFrame>): Result<seq<ScopeFrame>> {
    if |chain| == 0 then Err(Assertion("Subexpression variables don't exist in Scope."))
    else if exists n | n in names :: n in chain[0].names then Ok(chain)
    else FirstDeclaring(names, chain[1..])
  }

  /** No frame before index `k` declares any of `names`. */
  predicate NoneDeclaredBefore(names: set<string>, chain: seq<ScopeFrame>, k: int) {
    forall j | 0 <= j < k && j < |chain| :: forall n | n in names :: n !in chain[j].names
  }

  /** The search stops at the innermost frame declaring one of the names, and fails
      only when no frame declares any. */
  lemma {:induction false} FirstDeclaringIsInnermost(names: set<string>, chain: seq<ScopeFrame>)
    ensures var r := FirstDeclaring(names, chain);
            r.Ok? ==> 0 < |r.value| <= |chain| && r.value == chain[|chain| - |r.value|..] &&
                      (exists n | n in names :: n in r.value[0].names) &&
                      NoneDeclaredBefore(names, chain, |chain| - |r.value|)
    ensures FirstDeclaring(names, chain).Err? <==> NoneDeclaredBefore(names, chain, |chain|)
    ensures FirstDeclaring(names, chain).Err? ==> FirstDeclaring(names, chain).error.Assertion?
  {
    if |chain| > 0 && !exists n | n in names :: n in chain[0].names {
      FirstDeclaringIsInnermost(names, chain[1..]);
      assert forall j | 1 <= j < |chain| :: chain[j] == chain[1..][j - 1];
    }
  }

  /** `ScopedExpression.getGeneralScope(scope)`: the scope an expression is filed
      under. A scope is the chain from its frame outwards, so the result is a suffix
      of `chain`. An empty chain is a missing scope. */
  function GeneralScope(names: set<string>, chain: seq<ScopeFrame>): Result<seq<ScopeFrame>> {
    if |chain| == 0 then Err(NullPointer("no scope"))
    else if names == {} then Ok(chain[|chain| - 1..])
    else FirstDeclaring(names, chain)
  }

  /** The general scope is the outermost (global) frame when the expression reads no
      variable, otherwise the innermost frame that declares one of its variables; no
      frame declaring any of them is an assertion failure. */
  lemma GeneralScopeIsInnermostDeclaring(names: set<string>, chain: seq<ScopeFrame>)
    ensures var r := GeneralScope(names, chain);
            r.Ok? ==> 0 < |r.value| <= |chain| && r.value == chain[|chain| - |r.value|..]
    ensures |chain| > 0 && names == {} ==> GeneralScope(names, chain) == Ok([chain[|chain| - 1]])
    ensures var r := GeneralScope(names, chain);
            names != {} && r.Ok? ==> (exists n | n in names :: n in r.value[0].names) &&
                                     NoneDeclaredBefore(names, chain, |chain| - |r.value|)
    ensures GeneralScope(names, chain).Err? <==> |chain| == 0 || (names != {} && NoneDeclaredBefore(names, chain, |chain|))
    ensures var r := GeneralScope(names, chain);
            r.Err? ==> (r.error.NullPointer? <==> |chain| == 0) && (r.error.Assertion? <==> |chain| > 0)
  {
    FirstDeclaringIsInnermost(names, chain);
    if |chain| > 0 {
      assert chain[|chain| - 1..] == [chain[|chain| - 1]];
    }
  }

  /** `new ScopedExpression(ne, scope)`: the expression with its general scope. */
  function NewScopedExpression(e: Expr, chain: seq<ScopeFrame>): (r: Result<ScopedExpression>)
    ensures r.Ok? ==> r.value.expression == e && GeneralScope(VariableNames(e), chain) == Ok(r.value.scope)
    ensures r.Err? <==> GeneralScope(VariableNames(e), chain).Err?
  {
    match GeneralScope(VariableNames(e), chain)
    case Ok(s) => Ok(ScopedExpression(e, s))
    case Err(err) => Err(err)
  }

  /** An expression whose variables are all declared further out than two sibling
      frames gets the same scoped expression in both: `t = a + b` in two sibling
      blocks yields one available expression, not two. */
  lemma {:induction false} SiblingFramesShareScopedExpression(e: Expr, a: ScopeFrame, b: ScopeFrame, outer: seq<ScopeFrame>)
    requires |outer| > 0
    requires forall n | n in VariableNames(e) :: n !in a.names && n !in b.names
    ensures NewScopedExpression(e, [a] + outer) == NewScopedExpression(e, [b] + outer)
  {
    var names := VariableNames(e);
    if names == {} {
      assert ([a] + outer)[|outer|..] == ([b] + outer)[|outer|..] == outer[|outer| - 1..];
    } else {
      assert ([a] + outer)[1..] == outer;
      assert ([b] + outer)[1..] == outer;
      assert !exists n | n in names :: n in ([a] + outer)[0].names;
      assert !exists n | n in names :: n in ([b] + outer)[0].names;
    }
  }

  /** An expression that reads a variable declared in its immediate frame is filed
      under that frame: the general scope is the statement's own scope. */
  lemma ImmediateDeclarationKeepsScope(e: Expr, chain: seq<ScopeFrame>, n: string)
    requires |chain| > 0 && n in VariableNames(e) && n in chain[0].names
    ensures NewScopedExpression(e, chain) == Ok(ScopedExpression(e, chain))
  {
  }

  /** `ScopedVariable.getAssigned`: the variable an assignment writes. */
  function AssignedVariable(location: Location, chain: seq<ScopeFrame>): Result<ScopedVariable> {
    match ScopeOf(LocationName(location), chain)
    case Ok(f) => Ok(ScopedVariable(LocationName(location), f))
    case Err(e) => Err(e)
  }
}
