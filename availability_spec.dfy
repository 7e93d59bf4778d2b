/** The available-expressions analysis specification (optimization/AvailabilitySpec.java):
    its confluence (meet over predecessors), its transfer function, the GEN sets and the
    filter choosing the nodes the analysis looks at. */
module AvailabilitySpec {
  import opened Wrappers
  import opened Ast
  import opened DataflowValues
  import opened GraphNode
  import SetOperators

  /** `containsMethodCall`: a method call may have side effects and return different
      values on different calls, so it is never available. */
  function ContainsMethodCall(e: Expr): bool {
    match e
    case BinaryOperation(_, l, r) => ContainsMethodCall(l) || ContainsMethodCall(r)
    case MethodCall(_, _) => true
    case TernaryOperation(c, t, f, _) =>
      ContainsMethodCall(c) || ContainsMethodCall(t) || ContainsMethodCall(f)
    case UnaryOperation(_, a) => ContainsMethodCall(a)
    case _ => false
  }

  /** Apart from a call itself, an expression contains a call exactly when one of its
      children does. */
  lemma ContainsMethodCallOfChildren(e: Expr)
    requires !e.MethodCall?
    ensures ContainsMethodCall(e) <==> exists i | 0 <= i < |Children(e)| :: ContainsMethodCall(Children(e)[i])
  {
    var cs := Children(e);
    match e
    case BinaryOperation(_, l, r) =>
      assert cs[0] == l && cs[1] == r;
    case TernaryOperation(c, t, f, _) =>
      assert cs[0] == c && cs[1] == t && cs[2] == f;
    case UnaryOperation(_, a) =>
      assert cs[0] == a;
    case _ =>
  }

  /** The expression contains a call exactly when some subterm of it is a call. */
  lemma {:induction false} ContainsMethodCallIffCallSubterm(e: Expr)
    ensures ContainsMethodCall(e) <==> exists s :: IsSubterm(s, e) && s.MethodCall?
  {
    if ContainsMethodCall(e) {
      if e.MethodCall? {
        assert IsSubterm(e, e);
      } else {
        var cs := Children(e);
        ContainsMethodCallOfChildren(e);
        var i :| 0 <= i < |cs| && ContainsMethodCall(cs[i]);
        ContainsMethodCallIffCallSubterm(cs[i]);
        var s :| IsSubterm(s, cs[i]) && s.MethodCall?;
        assert IsSubterm(s, e);
      }
    }
    if s :| IsSubterm(s, e) && s.MethodCall? {
      if s != e && !e.MethodCall? {
        var cs := Children(e);
        var i :| 0 <= i < |cs| && IsSubterm(s, cs[i]);
        ContainsMethodCallIffCallSubterm(cs[i]);
        ContainsMethodCallOfChildren(e);
      }
    }
  }

  /** `getInSetFromPredecessors`: the seed with every predecessor's OUT set retained. */
  method GetInSetFromPredecessors<E>(outSets: seq<set<E>>, seed: set<E>) returns (r: set<E>)
    ensures forall x :: x in r <==> x in seed && forall i | 0 <= i < |outSets| :: x in outSets[i]
    ensures |outSets| == 0 ==> r == seed
  {
    r := seed;
    var i := 0;
    while i < |outSets|
      invariant 0 <= i <= |outSets|
      invariant r == SetOperators.MeetAll(seed, outSets[..i])
    {
      assert outSets[..i + 1][..i] == outSets[..i];
      r := r * outSets[i];
      i := i + 1;
    }
    assert outSets[..|outSets|] == outSets;
    forall x
      ensures x in r <==> x in seed && forall i | 0 <= i < |outSets| :: x in outSets[i]
    {
      SetOperators.MeetAllMembership(seed, outSets, x);
    }
  }

  /** `getOutSetFromInSet`: (gen ∪ in) − kill, so a killed expression is never in the
      OUT set, even when the node generates it. */
  method GetOutSetFromInSet<E>(gen: set<E>, inSet: set<E>, kill: set<E>) returns (r: set<E>)
    ensures forall x :: x in r <==> (x in gen || x in inSet) && x !in kill
  {
    r := gen;
    r := r + inSet;
    r := r - kill;
  }

  /** The node holds a statement that has an expression. */
  predicate HasExpression(n: Node<ScopedStatement>) {
    n.value.Some? && ExpressionOf(n.value.value.statement).Some?
  }

  /** `filterNodes`: the nodes the analysis looks at. */
  method FilterNodes(nodes: seq<Node<ScopedStatement>>) returns (r: set<Node<ScopedStatement>>)
    ensures forall n :: n in r <==> n in nodes && HasExpression(n)
  {
    r := {};
    var i := 0;
    while i < |nodes|
      invariant 0 <= i <= |nodes|
      invariant forall n :: n in r <==> n in nodes[..i] && HasExpression(n)
    {
      var node := nodes[i];
      assert nodes[..i + 1] == nodes[..i] + [node];
      if !node.HasValue() {
        i := i + 1;
        continue;
      }
      if ExpressionOf(node.value.value.statement).None? {
        i := i + 1;
        continue;
      }
      r := r + {node};
      i := i + 1;
    }
    assert nodes[..|nodes|] == nodes;
  }

  /** The expression a node of the analysis carries. */
  function ExprOf(n: Node<ScopedStatement>): Expr
    requires HasExpression(n)
  {
    ExpressionOf(n.value.value.statement).value
  }

  /** The scope chain of a node's statement. */
  function ChainOf(n: Node<ScopedStatement>): seq<ScopeFrame>
    requires n.value.Some?
  {
    n.value.value.scope
  }

  /** `new ScopedExpression(expression, scope)` for a node of the analysis. */
  function ScopedExpressionOf(n: Node<ScopedStatement>): Result<ScopedExpression>
    requires HasExpression(n)
  {
    NewScopedExpression(ExprOf(n), ChainOf(n))
  }

  /** `ScopedVariable.getVariablesOf(node.value())`. */
  function VariablesOfNode(n: Node<ScopedStatement>): Result<set<ScopedVariable>>
    requires HasExpression(n)
  {
    ResolvedVariables(ExprOf(n), ChainOf(n))
  }

  /** The node's expression reads the variable `v`. */
  predicate Reads(n: Node<ScopedStatement>, v: ScopedVariable)
    requires HasExpression(n)
  {
    VariablesOfNode(n).Ok? && v in VariablesOfNode(n).value
  }

  /** The node's statement is an assignment. */
  predicate IsAssignment(n: Node<ScopedStatement>)
    requires HasExpression(n)
  {
    n.value.value.statement.Assignment?
  }

  /** `ScopedVariable.getAssigned` for an assignment node. */
  function AssignedOf(n: Node<ScopedStatement>): Result<ScopedVariable>
    requires HasExpression(n) && IsAssignment(n)
  {
    AssignedVariable(n.value.value.statement.location, ChainOf(n))
  }

  /** The node-level pieces `getKillSets` builds on all resolve: the variables and the
      scoped expression of every node, and the target of every assignment. */
  predicate KillSetsDefined(nodes: set<Node<ScopedStatement>>)
    requires forall n | n in nodes :: HasExpression(n)
  {
    forall n | n in nodes ::
      VariablesOfNode(n).Ok? && ScopedExpressionOf(n).Ok? && (IsAssignment(n) ==> AssignedOf(n).Ok?)
  }

  /** `getGenSets`: each node generates its own expression, filed under its general
      scope, unless that expression contains a method call; such nodes are not keys
      of the (multi)map. Building a scoped expression that fails fails the whole
      call. */
  method GetGenSets(statementNodes: set<Node<ScopedStatement>>)
    returns (r: Result<map<Node<ScopedStatement>, set<ScopedExpression>>>)
    requires forall n | n in statementNodes :: HasExpression(n)
    ensures r.Err? <==> exists n | n in statementNodes :: !ContainsMethodCall(ExprOf(n)) && ScopedExpressionOf(n).Err?
    ensures r.Ok? ==> forall n :: n in r.value <==> n in statementNodes && !ContainsMethodCall(ExprOf(n))
    ensures r.Ok? ==> forall n | n in r.value :: ScopedExpressionOf(n).Ok? && r.value[n] == {ScopedExpressionOf(n).value}
  {
    var gen := map[];
    var rest := statementNodes;
    while rest != {}
      invariant rest <= statementNodes
      invariant forall n :: n in gen <==> n in statementNodes - rest && !ContainsMethodCall(ExprOf(n))
      invariant forall n | n in gen :: ScopedExpressionOf(n).Ok? && gen[n] == {ScopedExpressionOf(n).value}
      decreases rest
    {
      var node :| node in rest;
      rest := rest - {node};
      var ne := ExprOf(node);
      if ContainsMethodCall(ne) {
        continue;
      }
      var se := NewScopedExpression(ne, ChainOf(node));
      if se.Err? {
        return Err(se.error);
      }
      gen := gen[node := {se.value}];
    }
    r := Ok(gen);
  }

  /** `getInfinum`: the scoped expression of every node, method calls included. */
  method GetInfinum(nodes: set<Node<ScopedStatement>>) returns (r: Result<set<ScopedExpression>>)
    requires forall n | n in nodes :: HasExpression(n)
    ensures r.Err? <==> exists n | n in nodes :: ScopedExpressionOf(n).Err?
    ensures r.Ok? ==> forall x :: x in r.value <==> exists n | n in nodes :: ScopedExpressionOf(n) == Ok(x)
  {
    var all := {};
    var rest := nodes;
    while rest != {}
      invariant rest <= nodes
      invariant forall n | n in nodes - rest :: ScopedExpressionOf(n).Ok?
      invariant forall x :: x in all <==> exists n | n in nodes - rest :: ScopedExpressionOf(n) == Ok(x)
      decreases rest
    {
      var node :| node in rest;
      var se := ScopedExpressionOf(node);
      if se.Err? {
        return Err(se.error);
      }
      rest := rest - {node};
      all := all + {se.value};
    }
    r := Ok(all);
  }

  /** The global variables the nodes read (`getGlobals`). */
  function Globals(nodes: set<Node<ScopedStatement>>): set<ScopedVariable>
    requires forall n | n in nodes :: HasExpression(n)
  {
    set n, v | n in nodes && VariablesOfNode(n).Ok? && v in VariablesOfNode(n).value && v.IsGlobal() :: v
  }

  /** The variables a node may change, given the globals: the target of an
      assignment, and every global when its expression contains a call. */
  function Changed(n: Node<ScopedStatement>, globals: set<ScopedVariable>): set<ScopedVariable>
    requires HasExpression(n) && (IsAssignment(n) ==> AssignedOf(n).Ok?)
  {
    (if IsAssignment(n) then {AssignedOf(n).value} else {}) +
    (if ContainsMethodCall(ExprOf(n)) then globals else {})
  }

  /** The scoped expressions of the nodes that read `v`. */
  function Containing(v: ScopedVariable, nodes: set<Node<ScopedStatement>>): set<ScopedExpression>
    requires forall n | n in nodes :: HasExpression(n) && ScopedExpressionOf(n).Ok?
  {
    set n | n in nodes && Reads(n, v) :: ScopedExpressionOf(n).value
  }

  /** KILL[n]: the scoped expression of every node that reads a variable `n` may
      change. */
  function KillSet(n: Node<ScopedStatement>, nodes: set<Node<ScopedStatement>>): set<ScopedExpression>
    requires forall m | m in nodes :: HasExpression(m)
    requires KillSetsDefined(nodes) && n in nodes
  {
    set v, x | v in Changed(n, Globals(nodes)) && x in Containing(v, nodes) :: x
  }

  /** `getGlobals`: the global variables read by any node; resolving a node's
      variables can fail. */
  method GetGlobals(nodes: set<Node<ScopedStatement>>) returns (r: Result<set<ScopedVariable>>)
    requires forall n | n in nodes :: HasExpression(n)
    ensures r.Err? <==> exists n | n in nodes :: VariablesOfNode(n).Err?
    ensures r.Ok? ==> r.value == Globals(nodes)
    ensures r.Ok? ==> forall v :: v in r.value <==> v.IsGlobal() && exists n | n in nodes :: Reads(n, v)
  {
    var globalVars := {};
    var rest := nodes;
    while rest != {}
      invariant rest <= nodes
      invariant forall n | n in nodes - rest :: VariablesOfNode(n).Ok?
      invariant globalVars == Globals(nodes - rest)
      decreases rest
    {
      var node :| node in rest;
      var vars := VariablesOfNode(node);
      if vars.Err? {
        return Err(vars.error);
      }
      ghost var done := nodes - rest;
      rest := rest - {node};
      globalVars := globalVars + set v | v in vars.value && v.IsGlobal();
      assert nodes - rest == done + {node};
    }
    assert nodes - rest == nodes;
    r := Ok(globalVars);
  }

  /** `getPotentiallyChangedVariables`: for each node the variables it may change;
      nodes that change nothing are not keys of the (multi)map. */
  method GetPotentiallyChangedVariables(statementNodes: set<Node<ScopedStatement>>)
    returns (r: Result<map<Node<ScopedStatement>, set<ScopedVariable>>>)
    requires forall n | n in statementNodes :: HasExpression(n)
    ensures r.Err? <==> exists n | n in statementNodes :: VariablesOfNode(n).Err? || (IsAssignment(n) && AssignedOf(n).Err?)
    ensures r.Ok? ==> forall n | n in statementNodes :: IsAssignment(n) ==> AssignedOf(n).Ok?
    ensures r.Ok? ==> forall n :: n in r.value <==> n in statementNodes && Changed(n, Globals(statementNodes)) != {}
    ensures r.Ok? ==> forall n | n in r.value :: r.value[n] == Changed(n, Globals(statementNodes))
  {
    var globals := GetGlobals(statementNodes);
    if globals.Err? {
      return Err(globals.error);
    }
    var victims := map[];
    var rest := statementNodes;
    while rest != {}
      invariant rest <= statementNodes
      invariant forall n | n in statementNodes - rest :: IsAssignment(n) ==> AssignedOf(n).Ok?
      invariant forall n :: n in victims <==> n in statementNodes - rest && Changed(n, globals.value) != {}
      invariant forall n | n in victims :: victims[n] == Changed(n, globals.value)
      decreases rest
    {
      var node :| node in rest;
      var changed := {};
      if IsAssignment(node) {
        var target := AssignedOf(node);
        if target.Err? {
          return Err(target.error);
        }
        changed := changed + {target.value};
      }
      if ContainsMethodCall(ExprOf(node)) {
        changed := changed + globals.value;
      }
      rest := rest - {node};
      if changed != {} {
        victims := victims[node := changed];
      }
    }
    r := Ok(victims);
  }

  /** `getExpressionsContaining`: for each variable the scoped expressions of the
      nodes that read it. */
  method GetExpressionsContaining(statementNodes: set<Node<ScopedStatement>>)
    returns (r: Result<map<ScopedVariable, set<ScopedExpression>>>)
    requires forall n | n in statementNodes :: HasExpression(n)
    ensures r.Err? <==> exists n | n in statementNodes :: ScopedExpressionOf(n).Err? || VariablesOfNode(n).Err?
    ensures r.Ok? ==> forall n | n in statementNodes :: ScopedExpressionOf(n).Ok? && VariablesOfNode(n).Ok?
    ensures r.Ok? ==> forall v :: v in r.value <==> exists n | n in statementNodes :: Reads(n, v)
    ensures r.Ok? ==> forall v | v in r.value :: r.value[v] == Containing(v, statementNodes)
  {
    var containing := map[];
    var rest := statementNodes;
    while rest != {}
      invariant rest <= statementNodes
      invariant forall n | n in statementNodes - rest :: ScopedExpressionOf(n).Ok? && VariablesOfNode(n).Ok?
      invariant forall v :: v in containing <==> exists n | n in statementNodes - rest :: Reads(n, v)
      invariant forall v | v in containing :: containing[v] == Containing(v, statementNodes - rest)
      decreases rest
    {
      var node :| node in rest;
      var se := ScopedExpressionOf(node);
      var vars := VariablesOfNode(node);
      if se.Err? {
        return Err(se.error);
      }
      if vars.Err? {
        return Err(vars.error);
      }
      var containing' := AddContaining(containing, se.value, vars.value);
      ContainingUpdated(containing, containing', statementNodes - rest, node, se.value, vars.value);
      assert statementNodes - (rest - {node}) == (statementNodes - rest) + {node};
      containing := containing';
      rest := rest - {node};
    }
    r := Ok(containing);
  }

  /** The inner loop of `getExpressionsContaining`: file `se` under each of `vars`. */
  method AddContaining<V, X>(containing: map<V, set<X>>, se: X, vars: set<V>) returns (r: map<V, set<X>>)
    ensures forall v :: v in r <==> v in containing || v in vars
    ensures forall v | v in r :: r[v] == (if v in containing then containing[v] else {}) + (if v in vars then {se} else {})
  {
    r := containing;
    var rest := vars;
    while rest != {}
      invariant rest <= vars
      invariant forall v :: v in r <==> v in containing || v in vars - rest
      invariant forall v | v in r :: r[v] == (if v in containing then containing[v] else {}) + (if v in vars - rest then {se} else {})
      decreases rest
    {
      var v :| v in rest;
      rest := rest - {v};
      r := r[v := (if v in r then r[v] else {}) + {se}];
    }
  }

  /** Filing a node's scoped expression under the variables it reads turns the map
      for `done` into the map for `done + {node}`. */
  lemma ContainingUpdated(containing: map<ScopedVariable, set<ScopedExpression>>, r: map<ScopedVariable, set<ScopedExpression>>,
                          done: set<Node<ScopedStatement>>, node: Node<ScopedStatement>, se: ScopedExpression, vars: set<ScopedVariable>)
    requires forall n | n in done + {node} :: HasExpression(n) && ScopedExpressionOf(n).Ok?
    requires ScopedExpressionOf(node) == Ok(se) && VariablesOfNode(node) == Ok(vars)
    requires forall v :: v in containing <==> exists n | n in done :: Reads(n, v)
    requires forall v | v in containing :: containing[v] == Containing(v, done)
    requires forall v :: v in r <==> v in containing || v in vars
    requires forall v | v in r :: r[v] == (if v in containing then containing[v] else {}) + (if v in vars then {se} else {})
    ensures forall v :: v in r <==> exists n | n in done + {node} :: Reads(n, v)
    ensures forall v | v in r :: r[v] == Containing(v, done + {node})
  {
    forall v
      ensures v in r <==> exists n | n in done + {node} :: Reads(n, v)
    {
      if v in vars {
        assert Reads(node, v);
      }
    }
    forall v | v in r
      ensures r[v] == Containing(v, done + {node})
    {
      ContainingStep(v, done, node);
      if v !in containing {
        assert Containing(v, done) == {};
      }
    }
  }

  /** Adding a node to the set adds its scoped expression exactly under the
      variables it reads. */
  lemma ContainingStep(v: ScopedVariable, done: set<Node<ScopedStatement>>, node: Node<ScopedStatement>)
    requires forall n | n in done + {node} :: HasExpression(n) && ScopedExpressionOf(n).Ok?
    ensures Containing(v, done + {node}) ==
            Containing(v, done) + (if Reads(node, v) then {ScopedExpressionOf(node).value} else {})
  {
  }

  /** `getKillSets`: each node kills the scoped expression of every node that reads a
      variable it may change; nodes that kill nothing are not keys of the
      (multi)map. */
  method GetKillSets(statementNodes: set<Node<ScopedStatement>>)
    returns (r: Result<map<Node<ScopedStatement>, set<ScopedExpression>>>)
    requires forall n | n in statementNodes :: HasExpression(n)
    ensures r.Err? <==> !KillSetsDefined(statementNodes)
    ensures r.Ok? ==> forall n :: n in r.value <==> n in statementNodes && KillSet(n, statementNodes) != {}
    ensures r.Ok? ==> forall n | n in r.value :: r.value[n] == KillSet(n, statementNodes)
  {
    var victimVariables := GetPotentiallyChangedVariables(statementNodes);
    if victimVariables.Err? {
      return Err(victimVariables.error);
    }
    var expressionsContaining := GetExpressionsContaining(statementNodes);
    if expressionsContaining.Err? {
      return Err(expressionsContaining.error);
    }
    var kills := CollectKills(statementNodes, victimVariables.value, expressionsContaining.value);
    forall n | n in statementNodes
      ensures KillsVia(n, victimVariables.value, expressionsContaining.value) == KillSet(n, statementNodes)
    {
      KillsViaIsKillSet(n, statementNodes, victimVariables.value, expressionsContaining.value);
    }
    r := Ok(kills);
  }

  /** The expressions filed under the victims of `n`. */
  ghost function KillsVia<N, V, X>(n: N, victimVariables: map<N, set<V>>, containing: map<V, set<X>>): set<X> {
    set v, x | n in victimVariables && v in victimVariables[n] && v in containing && x in containing[v] :: x
  }

  /** The outer loop of `getKillSets`, over the maps built beforehand. */
  method CollectKills<N, V, X>(statementNodes: set<N>, victimVariables: map<N, set<V>>, containing: map<V, set<X>>)
    returns (kills: map<N, set<X>>)
    ensures forall n :: n in kills <==> n in statementNodes && KillsVia(n, victimVariables, containing) != {}
    ensures forall n | n in kills :: kills[n] == KillsVia(n, victimVariables, containing)
  {
    kills := map[];
    var rest := statementNodes;
    while rest != {}
      invariant rest <= statementNodes
      invariant forall n :: n in kills <==> n in statementNodes - rest && KillsVia(n, victimVariables, containing) != {}
      invariant forall n | n in kills :: kills[n] == KillsVia(n, victimVariables, containing)
      decreases rest
    {
      var node :| node in rest;
      rest := rest - {node};
      var victims := if node in victimVariables then victimVariables[node] else {};
      var killed := KillsOf(victims, containing);
      assert killed == KillsVia(node, victimVariables, containing);
      if killed != {} {
        kills := kills[node := killed];
      }
    }
  }

  /** The inner loops of `getKillSets`: every expression filed under a victim. */
  method KillsOf<V, X>(victims: set<V>, containing: map<V, set<X>>) returns (killed: set<X>)
    ensures forall x :: x in killed <==> exists v | v in victims && v in containing :: x in containing[v]
  {
    killed := {};
    var rest := victims;
    while rest != {}
      invariant rest <= victims
      invariant forall x :: x in killed <==> exists v | v in victims - rest && v in containing :: x in containing[v]
      decreases rest
    {
      var victim :| victim in rest;
      rest := rest - {victim};
      if victim in containing {
        killed := killed + containing[victim];
      }
    }
  }

  /** Over the maps `getPotentiallyChangedVariables` and `getExpressionsContaining`
      build, the expressions filed under the victims of `n` are KILL[n]. */
  lemma KillsViaIsKillSet(n: Node<ScopedStatement>, nodes: set<Node<ScopedStatement>>,
                          victimVariables: map<Node<ScopedStatement>, set<ScopedVariable>>,
                          containing: map<ScopedVariable, set<ScopedExpression>>)
    requires forall m | m in nodes :: HasExpression(m)
    requires KillSetsDefined(nodes) && n in nodes
    requires n in victimVariables <==> Changed(n, Globals(nodes)) != {}
    requires n in victimVariables ==> victimVariables[n] == Changed(n, Globals(nodes))
    requires forall v :: v in containing <==> exists m | m in nodes :: Reads(m, v)
    requires forall v | v in containing :: containing[v] == Containing(v, nodes)
    ensures KillsVia(n, victimVariables, containing) == KillSet(n, nodes)
  {
    forall x | x in KillSet(n, nodes)
      ensures x in KillsVia(n, victimVariables, containing)
    {
      var v :| v in Changed(n, Globals(nodes)) && x in Containing(v, nodes);
      var m :| m in nodes && Reads(m, v) && x == ScopedExpressionOf(m).value;
      assert v in containing;
    }
  }

  /** An assignment kills the expression of every node that reads its target. */
  lemma AssignmentKillsReaders(n: Node<ScopedStatement>, m: Node<ScopedStatement>, nodes: set<Node<ScopedStatement>>)
    requires forall k | k in nodes :: HasExpression(k)
    requires KillSetsDefined(nodes) && n in nodes && m in nodes
    requires IsAssignment(n) && Reads(m, AssignedOf(n).value)
    ensures ScopedExpressionOf(m).value in KillSet(n, nodes)
  {
    assert ScopedExpressionOf(m).value in Containing(AssignedOf(n).value, nodes);
  }

  /** A node whose expression contains a call kills the expression of every node
      that reads a global variable. */
  lemma CallKillsGlobalReaders(n: Node<ScopedStatement>, m: Node<ScopedStatement>, v: ScopedVariable,
                               nodes: set<Node<ScopedStatement>>)
    requires forall k | k in nodes :: HasExpression(k)
    requires KillSetsDefined(nodes) && n in nodes && m in nodes
    requires ContainsMethodCall(ExprOf(n)) && Reads(m, v) && v.IsGlobal()
    ensures ScopedExpressionOf(m).value in KillSet(n, nodes)
  {
    assert v in Globals(nodes);
    assert ScopedExpressionOf(m).value in Containing(v, nodes);
  }

  /** Nothing else is killed: a killed expression is that of a node reading the
      target of the assignment, or a global when the node contains a call. */
  lemma KilledOnlyThroughChangedVariables(n: Node<ScopedStatement>, nodes: set<Node<ScopedStatement>>, x: ScopedExpression)
    requires forall k | k in nodes :: HasExpression(k)
    requires KillSetsDefined(nodes) && n in nodes
    requires x in KillSet(n, nodes)
    ensures exists m, v | m in nodes && Reads(m, v) :: x == ScopedExpressionOf(m).value &&
              ((IsAssignment(n) && v == AssignedOf(n).value) || (ContainsMethodCall(ExprOf(n)) && v.IsGlobal()))
  {
    var v :| v in Changed(n, Globals(nodes)) && x in Containing(v, nodes);
    var m :| m in nodes && Reads(m, v) && x == ScopedExpressionOf(m).value;
    if !(IsAssignment(n) && v == AssignedOf(n).value) {
      assert v in Globals(nodes);
    }
  }

  /** An assignment whose expression reads its own target, `a = a + 1`, kills the
      expression it generates, so that expression is not in its OUT set. */
  lemma SelfKillingAssignment(n: Node<ScopedStatement>, nodes: set<Node<ScopedStatement>>, inSet: set<ScopedExpression>)
    requires forall k | k in nodes :: HasExpression(k)
    requires KillSetsDefined(nodes) && n in nodes
    requires IsAssignment(n) && Reads(n, AssignedOf(n).value)
    ensures var x := ScopedExpressionOf(n).value;
            x in KillSet(n, nodes) && x !in ((({x} + inSet) - KillSet(n, nodes)))
  {
    AssignmentKillsReaders(n, n, nodes);
  }
}
