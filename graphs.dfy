/** Graph utilities (graph/Graphs.java): depth-first search and edge reversal.
    A directed graph is seen through its node set and its predecessor and
    successor maps (the DiGraph interface). */
module Graphs {
  import opened Reachability

  datatype DiGraph<N> = DiGraph(nodes: set<N>, predecessors: map<N, set<N>>, successors: map<N, set<N>>)

  /** Predecessors and successors describe the same edges. */
  ghost predicate Consistent<N>(g: DiGraph<N>) {
    (forall a | a in g.successors :: forall b | b in g.successors[a] :: a in Succ(g.predecessors, b)) &&
    (forall b | b in g.predecessors :: forall a | a in g.predecessors[b] :: b in Succ(g.successors, a))
  }

  /** The nodes on an agenda. */
  function Elements<N>(s: seq<N>): set<N> {
    set x | x in s
  }

  lemma ElementsCons<N>(x: N, s: seq<N>)
    ensures Elements([x] + s) == Elements(s) + {x}
  {
    assert forall y :: y in [x] + s <==> y == x || y in s;
  }

  lemma ElementsTail<N>(s: seq<N>)
    requires |s| > 0
    ensures Elements(s) == Elements(s[1..]) + {s[0]}
  {
    ElementsCons(s[0], s[1..]);
    assert s == [s[0]] + s[1..];
  }

  /** Pushes every child onto the front of the agenda, in the set's iteration order. */
  method PushAll<N>(agenda: seq<N>, children: set<N>) returns (r: seq<N>)
    ensures Elements(r) == Elements(agenda) + children
  {
    r := agenda;
    var rest := children;
    while rest != {}
      invariant rest <= children
      invariant Elements(r) == Elements(agenda) + (children - rest)
      decreases rest
    {
      var child :| child in rest;
      ElementsCons(child, r);
      r := [child] + r;
      rest := rest - {child};
    }
  }

  /** `Graphs.dfs(graph, starts)`: every node reachable from a start. The agenda is
      a stack seeded with the starts in order; children are pushed in the (arbitrary)
      iteration order of the successor set. */
  method Dfs<N>(g: DiGraph<N>, starts: seq<N>) returns (visited: set<N>)
    ensures forall n :: n in visited <==> Reachable(g.successors, Elements(starts), n)
  {
    ghost var S := Elements(starts);
    ghost var universe := S + Targets(g.successors);
    visited := {};
    var agenda := starts;
    forall x | x in S
      ensures Reachable(g.successors, S, x)
    {
      StartIsReachable(g.successors, S, x);
    }
    while |agenda| > 0
      invariant Elements(agenda) <= universe
      invariant AllReachable(g.successors, S, Elements(agenda))
      invariant AllReachable(g.successors, S, visited)
      invariant visited <= universe
      invariant S <= visited + Elements(agenda)
      invariant forall v | v in visited :: Succ(g.successors, v) <= visited + Elements(agenda)
      decreases |universe - visited|, |agenda|
    {
      var node := agenda[0];
      ElementsTail(agenda);
      agenda := agenda[1..];
      if node in visited {
        continue;
      }
      ghost var before := visited;
      visited := visited + {node};
      assert universe - visited < universe - before by {
        assert node in universe - before;
      }
      var children := Succ(g.successors, node);
      forall c | c in children
        ensures Reachable(g.successors, S, c)
      {
        ReachableStep(g.successors, S, node, c);
      }
      ghost var rest := Elements(agenda);
      agenda := PushAll(agenda, children);
      ClosureStep(g.successors, before, node, rest, Elements(agenda));
    }
    ClosedReachableSet(g.successors, S, visited);
  }

  /** Visiting one more node and pushing its successors keeps every visited node's
      successors visited or on the agenda. */
  lemma ClosureStep<N>(g: map<N, set<N>>, visited: set<N>, node: N, rest: set<N>, pushed: set<N>)
    requires forall v | v in visited :: Succ(g, v) <= visited + (rest + {node})
    requires Succ(g, node) <= pushed && rest <= pushed
    ensures forall v | v in visited + {node} :: Succ(g, v) <= (visited + {node}) + pushed
  {
  }

  /** A set of reachable nodes that holds the starts and is closed under successors
      is exactly the reachable set. */
  lemma ClosedReachableSet<N>(g: map<N, set<N>>, S: set<N>, visited: set<N>)
    requires AllReachable(g, S, visited) && S <= visited
    requires forall v | v in visited :: Succ(g, v) <= visited
    ensures forall n :: n in visited <==> Reachable(g, S, n)
  {
    forall n | Reachable(g, S, n)
      ensures n in visited
    {
      ClosedSetHoldsReachable(g, S, visited, n);
    }
  }

  /** `Graphs.inverse`: the same nodes with every edge reversed. */
  function Inverse<N>(g: DiGraph<N>): (r: DiGraph<N>)
    ensures r.nodes == g.nodes
    ensures r.successors == g.predecessors && r.predecessors == g.successors
  {
    DiGraph(g.nodes, g.successors, g.predecessors)
  }

  /** Reversing twice gives back the graph. */
  lemma InverseIsInvolution<N>(g: DiGraph<N>)
    ensures Inverse(Inverse(g)) == g
  {
  }

  /** On a consistent graph, (a, b) is an edge of the inverse exactly when (b, a)
      is an edge of the original, and the inverse is consistent too. */
  lemma InverseReversesEdges<N>(g: DiGraph<N>)
    requires Consistent(g)
    ensures Consistent(Inverse(g))
    ensures forall a, b :: b in Succ(Inverse(g).successors, a) <==> a in Succ(g.successors, b)
  {
    forall a, b
      ensures b in Succ(Inverse(g).successors, a) <==> a in Succ(g.successors, b)
    {
      if a in Succ(g.successors, b) {
        assert b in g.successors;
      }
      if b in Succ(g.predecessors, a) {
        assert a in g.predecessors;
      }
    }
  }
}
