/** Dead-code elimination (optimization/DeadCodeEliminator.java): an assignment whose
    effect nobody can observe is replaced by a NOP. */
module DeadCodeEliminators {
  import opened Wrappers
  import opened Ast
  import opened DataflowValues
  import opened GraphNode
  import opened AvailabilitySpec

  /** `isLive(statement, liveVars)`: a statement other than an assignment is always
      live; an assignment is live when the variable it writes is live after it, when its
      expression holds a (possibly side-effecting) method call, or when it writes a
      global. Resolving the written variable fails when no scope declares it. */
  function IsLive(ss: ScopedStatement, liveVars: set<ScopedVariable>): (r: Result<bool>)
    ensures !ss.statement.Assignment? ==> r == Ok(true)
    ensures ss.statement.Assignment? ==> (r.Err? <==> AssignedVariable(ss.statement.location, ss.scope).Err?)
  {
    if !ss.statement.Assignment? then Ok(true)
    else match AssignedVariable(ss.statement.location, ss.scope)
      case Err(e) => Err(e)
      case Ok(v) => Ok(v in liveVars || ContainsMethodCall(ss.statement.expression) || v.IsGlobal())
  }

  /** A statement found dead is an assignment, without a call, to a variable that is
      neither live after it nor global. */
  lemma DeadIsUnobservable(ss: ScopedStatement, liveVars: set<ScopedVariable>)
    requires IsLive(ss, liveVars) == Ok(false)
    ensures ss.statement.Assignment? && !ContainsMethodCall(ss.statement.expression)
    ensures AssignedVariable(ss.statement.location, ss.scope).Ok?
    ensures var v := AssignedVariable(ss.statement.location, ss.scope).value; v !in liveVars && !v.IsGlobal()
  {
  }

  /** A statement live for some live variables stays live for more of them. */
  lemma LiveIsMonotone(ss: ScopedStatement, fewer: set<ScopedVariable>, more: set<ScopedVariable>)
    requires fewer <= more && IsLive(ss, fewer) == Ok(true)
    ensures IsLive(ss, more) == Ok(true)
  {
  }

  /** An assignment to a variable that is live after it is live. */
  lemma LiveTargetIsLive(ss: ScopedStatement, liveVars: set<ScopedVariable>)
    requires ss.statement.Assignment?
    requires AssignedVariable(ss.statement.location, ss.scope).Ok?
    requires AssignedVariable(ss.statement.location, ss.scope).value in liveVars
    ensures IsLive(ss, liveVars) == Ok(true)
  {
  }

  /** The variables live after `node`; a node without any has none. */
  function LiveAt(liveVars: map<Node<ScopedStatement>, set<ScopedVariable>>, node: Node<ScopedStatement>): set<ScopedVariable> {
    if node in liveVars then liveVars[node] else {}
  }

  /** `deadCodeEliminated(original, liveVars)`, as the set of nodes the graph builder
      replaces with NOPs: NOP nodes are skipped, and exactly the other nodes whose
      statement is not live are chosen. It fails when some node's written variable has
      no scope. */
  method DeadCodeEliminated(nodes: set<Node<ScopedStatement>>, liveVars: map<Node<ScopedStatement>, set<ScopedVariable>>)
    returns (r: Result<set<Node<ScopedStatement>>>)
    ensures r.Err? <==> exists n | n in nodes && n.value.Some? :: IsLive(n.value.value, LiveAt(liveVars, n)).Err?
    ensures r.Ok? ==> forall n :: n in r.value <==> n in nodes && n.value.Some? && IsLive(n.value.value, LiveAt(liveVars, n)) == Ok(false)
  {
    var killed := {};
    var rest := nodes;
    while rest != {}
      invariant rest <= nodes
      invariant forall n | n in nodes - rest && n.value.Some? :: IsLive(n.value.value, LiveAt(liveVars, n)).Ok?
      invariant forall n :: n in killed <==> n in nodes - rest && n.value.Some? && IsLive(n.value.value, LiveAt(liveVars, n)) == Ok(false)
      decreases rest
    {
      var node :| node in rest;
      rest := rest - {node};
      if node.value.None? {
        continue;
      }
      var live := IsLive(node.value.value, LiveAt(liveVars, node));
      if live.Err? {
        return Err(live.error);
      }
      if !live.value {
        killed := killed + {node};
      }
    }
    return Ok(killed);
  }
}
