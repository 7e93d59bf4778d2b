/** Counting the control-flow edges that arrive at each node (codegen/SourceCounter.java),
    to find the nodes that are the next node of more than one node. The control-flow
    graph is given by its `getSinks()` lists. */
module SourceCounters {
  import opened Reachability

  /** `getSinks()`: the next nodes of `n`, in order; a branch may list the same node
      twice. A node the map lacks has none. */
  function Sinks<N>(sinks: map<N, seq<N>>, n: N): seq<N> {
    if n in sinks then sinks[n] else []
  }

  /** The successor sets of the control-flow graph. */
  function SinkSets<N>(sinks: map<N, seq<N>>): map<N, set<N>> {
    map n | n in sinks :: set c | c in sinks[n]
  }

  lemma SuccOfSinks<N>(sinks: map<N, seq<N>>, n: N)
    ensures Succ(SinkSets(sinks), n) == set c | c in Sinks(sinks, n)
  {
  }

  /** A count, 0 for a node that has none. */
  function CountIn<N>(counts: map<N, int>, n: N): int {
    if n in counts then counts[n] else 0
  }

  /** The places (source, position among its sinks) at which a node of `sources`
      lists `n` as a next node. */
  ghost function Arrivals<N>(sinks: map<N, seq<N>>, sources: set<N>, n: N): set<(N, int)> {
    set m, i | m in sources && 0 <= i < |Sinks(sinks, m)| && Sinks(sinks, m)[i] == n :: (m, i)
  }

  /** The places among the first `i` sinks of `node` that list `n`. */
  ghost function Positions<N>(node: N, children: seq<N>, i: int, n: N): set<(N, int)> {
    set k | 0 <= k < i && k < |children| && children[k] == n :: (node, k)
  }

  /** One call of `countFrom(node)` took the counts from `c0` to `c1`: it counted
      `node` once more and every arrival from the nodes it expanded. */
  ghost predicate Counted<N>(sinks: map<N, seq<N>>, c0: map<N, int>, c1: map<N, int>, node: N) {
    forall n | n in c1 ::
      CountIn(c1, n) == CountIn(c0, n) + (if n == node then 1 else 0) + |Arrivals(sinks, c1.Keys - c0.Keys, n)|
  }

  /** The nodes a call of `countFrom(node)` first met are reachable from `node`, and
      their next nodes have all been met. */
  ghost predicate Expanded<N>(sinks: map<N, seq<N>>, c0: map<N, int>, c1: map<N, int>, node: N) {
    c0.Keys + {node} <= c1.Keys &&
    forall m | m in c1.Keys - c0.Keys ::
      (forall c | c in Sinks(sinks, m) :: c in c1) && Reachable(SinkSets(sinks), {node}, m)
  }

  /** `Counted`, part way through the loop over the first `i` sinks of `node`. */
  ghost predicate PartlyCounted<N>(sinks: map<N, seq<N>>, c0: map<N, int>, c1: map<N, int>, node: N, i: int) {
    forall n | n in c1 ::
      CountIn(c1, n) == CountIn(c0, n) + (if n == node then 1 else 0)
                        + |Positions(node, Sinks(sinks, node), i, n)| + |Arrivals(sinks, c1.Keys - c0.Keys - {node}, n)|
  }

  /** `Expanded`, part way through the loop over the first `i` sinks of `node`. */
  ghost predicate PartlyExpanded<N>(sinks: map<N, seq<N>>, c0: map<N, int>, c1: map<N, int>, node: N, i: int) {
    node !in c0 && c0.Keys + {node} <= c1.Keys &&
    (forall k | 0 <= k < i && k < |Sinks(sinks, node)| :: Sinks(sinks, node)[k] in c1) &&
    forall m | m in c1.Keys - c0.Keys - {node} ::
      (forall c | c in Sinks(sinks, m) :: c in c1) && Reachable(SinkSets(sinks), {node}, m)
  }

  class SourceCounter<N(==)> {
    var sourceCounts: map<N, int>

    constructor ()
      ensures sourceCounts == map[]
    {
      sourceCounts := map[];
    }

    /** `getMultiSourceNodes(node)`: resets the counts and counts from `node`; then
        the nodes met are the nodes reachable from `node`, each counted once for every
        place a met node lists it as a next node (and `node` once more for the start),
        and the result is the nodes counted more than once. */
    method GetMultiSourceNodes(sinks: map<N, seq<N>>, node: N) returns (r: set<N>)
      modifies this
      ensures forall n :: n in sourceCounts <==> Reachable(SinkSets(sinks), {node}, n)
      ensures forall n | n in sourceCounts ::
                sourceCounts[n] == (if n == node then 1 else 0) + |Arrivals(sinks, sourceCounts.Keys, n)|
      ensures forall n :: n in r <==> n in sourceCounts && sourceCounts[n] > 1
    {
      sourceCounts := map[];
      ghost var start := sourceCounts;
      CountFrom(sinks, node);
      assert sourceCounts.Keys - start.Keys == sourceCounts.Keys;
      forall n | Reachable(SinkSets(sinks), {node}, n)
        ensures n in sourceCounts
      {
        forall v | v in sourceCounts
          ensures Succ(SinkSets(sinks), v) <= sourceCounts.Keys
        {
          SuccOfSinks(sinks, v);
        }
        ClosedSetHoldsReachable(SinkSets(sinks), {node}, sourceCounts.Keys, n);
      }
      r := {};
      var rest := sourceCounts.Keys;
      while rest != {}
        invariant rest <= sourceCounts.Keys
        invariant forall n :: n in r <==> n in sourceCounts.Keys - rest && sourceCounts[n] > 1
        decreases rest
      {
        var sink :| sink in rest;
        if sourceCounts[sink] > 1 {
          r := r + {sink};
        }
        rest := rest - {sink};
      }
    }

    /** `countFrom(node)`: a node met again is counted once more and not expanded;
        a node met for the first time is counted 1 and each of its sinks is counted
        from in turn. */
    method CountFrom(sinks: map<N, seq<N>>, node: N)
      modifies this
      ensures Counted(sinks, old(sourceCounts), sourceCounts, node)
      ensures Expanded(sinks, old(sourceCounts), sourceCounts, node)
      decreases |sinks.Keys - sourceCounts.Keys|
    {
      if node in sourceCounts {
        sourceCounts := sourceCounts[node := 1 + sourceCounts[node]];
        assert sourceCounts.Keys - old(sourceCounts).Keys == {};
      } else {
        sourceCounts := sourceCounts[node := 1];
        FirstVisit(sinks, old(sourceCounts), sourceCounts, node);
        var children := Sinks(sinks, node);
        for i := 0 to |children|
          invariant PartlyCounted(sinks, old(sourceCounts), sourceCounts, node, i)
          invariant PartlyExpanded(sinks, old(sourceCounts), sourceCounts, node, i)
        {
          FewerUncounted(sinks.Keys, old(sourceCounts).Keys, sourceCounts.Keys, node);
          ghost var mid := sourceCounts;
          CountFrom(sinks, children[i]);
          ChildCounted(sinks, old(sourceCounts), mid, sourceCounts, node, i);
        }
        LoopDone(sinks, old(sourceCounts), sourceCounts, node);
      }
    }
  }

  /** Counting a node met for the first time starts its loop. */
  lemma FirstVisit<N>(sinks: map<N, seq<N>>, c0: map<N, int>, c1: map<N, int>, node: N)
    requires node !in c0 && c1 == c0[node := 1]
    ensures PartlyCounted(sinks, c0, c1, node, 0) && PartlyExpanded(sinks, c0, c1, node, 0)
  {
    assert c1.Keys - c0.Keys - {node} == {};
    forall n | n in c1
      ensures Positions(node, Sinks(sinks, node), 0, n) == {} && Arrivals(sinks, {}, n) == {}
    {
    }
  }

  /** A node with sinks that has just been met leaves fewer nodes with sinks unmet. */
  lemma FewerUncounted<N>(universe: set<N>, before: set<N>, now: set<N>, node: N)
    requires before + {node} <= now && node !in before && node in universe
    ensures |universe - now| < |universe - before|
  {
    SubsetFewer(universe - now, (universe - before) - {node});
  }

  lemma {:induction false} SubsetFewer<N>(a: set<N>, b: set<N>)
    requires a <= b
    ensures |a| <= |b|
    decreases b
  {
    if a != {} {
      var x :| x in a;
      SubsetFewer(a - {x}, b - {x});
    }
  }

  lemma PositionsStep<N>(node: N, children: seq<N>, i: int, n: N)
    requires 0 <= i < |children|
    ensures |Positions(node, children, i + 1, n)| == |Positions(node, children, i, n)| + (if children[i] == n then 1 else 0)
  {
    if children[i] == n {
      assert Positions(node, children, i + 1, n) == Positions(node, children, i, n) + {(node, i)};
    } else {
      assert Positions(node, children, i + 1, n) == Positions(node, children, i, n);
    }
  }

  lemma ArrivalsSplit<N>(sinks: map<N, seq<N>>, a: set<N>, b: set<N>, n: N)
    requires a !! b
    ensures |Arrivals(sinks, a + b, n)| == |Arrivals(sinks, a, n)| + |Arrivals(sinks, b, n)|
  {
    assert Arrivals(sinks, a + b, n) == Arrivals(sinks, a, n) + Arrivals(sinks, b, n);
    assert Arrivals(sinks, a, n) * Arrivals(sinks, b, n) == {};
  }

  /** Nothing arrives at a node outside a set that holds every sink of the sources. */
  lemma NoArrivalsOutside<N>(sinks: map<N, seq<N>>, sources: set<N>, met: set<N>, n: N)
    requires forall m | m in sources :: forall c | c in Sinks(sinks, m) :: c in met
    requires n !in met
    ensures Arrivals(sinks, sources, n) == {}
  {
  }

  /** Counting from the `i`-th sink of `node` extends the loop's counts by one sink. */
  lemma ChildCounted<N>(sinks: map<N, seq<N>>, c0: map<N, int>, mid: map<N, int>, c1: map<N, int>, node: N, i: int)
    requires 0 <= i < |Sinks(sinks, node)|
    requires PartlyCounted(sinks, c0, mid, node, i) && PartlyExpanded(sinks, c0, mid, node, i)
    requires Counted(sinks, mid, c1, Sinks(sinks, node)[i]) && Expanded(sinks, mid, c1, Sinks(sinks, node)[i])
    ensures PartlyCounted(sinks, c0, c1, node, i + 1) && PartlyExpanded(sinks, c0, c1, node, i + 1)
  {
    forall n | n in c1
      ensures CountIn(c1, n) == CountIn(c0, n) + (if n == node then 1 else 0)
                                + |Positions(node, Sinks(sinks, node), i + 1, n)| + |Arrivals(sinks, c1.Keys - c0.Keys - {node}, n)|
    {
      ChildCountedAt(sinks, c0, mid, c1, node, i, n);
    }
    ChildExpanded(sinks, c0, mid, c1, node, i);
  }

  lemma ChildCountedAt<N>(sinks: map<N, seq<N>>, c0: map<N, int>, mid: map<N, int>, c1: map<N, int>, node: N, i: int, n: N)
    requires 0 <= i < |Sinks(sinks, node)|
    requires PartlyCounted(sinks, c0, mid, node, i) && PartlyExpanded(sinks, c0, mid, node, i)
    requires Counted(sinks, mid, c1, Sinks(sinks, node)[i]) && Expanded(sinks, mid, c1, Sinks(sinks, node)[i])
    requires n in c1
    ensures CountIn(c1, n) == CountIn(c0, n) + (if n == node then 1 else 0)
                              + |Positions(node, Sinks(sinks, node), i + 1, n)| + |Arrivals(sinks, c1.Keys - c0.Keys - {node}, n)|
  {
    var children := Sinks(sinks, node);
    var earlier := mid.Keys - c0.Keys - {node};
    var later := c1.Keys - mid.Keys;
    assert c1.Keys - c0.Keys - {node} == earlier + later;
    PositionsStep(node, children, i, n);
    ArrivalsSplit(sinks, earlier, later, n);
    if n !in mid {
      NoArrivalsOutside(sinks, earlier, mid.Keys, n);
      assert Positions(node, children, i, n) == {};
    }
  }

  lemma ChildExpanded<N>(sinks: map<N, seq<N>>, c0: map<N, int>, mid: map<N, int>, c1: map<N, int>, node: N, i: int)
    requires 0 <= i < |Sinks(sinks, node)|
    requires PartlyExpanded(sinks, c0, mid, node, i)
    requires Expanded(sinks, mid, c1, Sinks(sinks, node)[i])
    ensures PartlyExpanded(sinks, c0, c1, node, i + 1)
  {
    var child := Sinks(sinks, node)[i];
    var g := SinkSets(sinks);
    assert child in Succ(g, node) by {
      SuccOfSinks(sinks, node);
    }
    StartIsReachable(g, {node}, node);
    ReachableStep(g, {node}, node, child);
    forall m | m in c1.Keys - mid.Keys
      ensures Reachable(g, {node}, m)
    {
      ReachableTransitive(g, {node}, child, m);
    }
  }

  /** After the loop over all its sinks, one call of `countFrom(node)` is complete. */
  lemma LoopDone<N>(sinks: map<N, seq<N>>, c0: map<N, int>, c1: map<N, int>, node: N)
    requires PartlyCounted(sinks, c0, c1, node, |Sinks(sinks, node)|)
    requires PartlyExpanded(sinks, c0, c1, node, |Sinks(sinks, node)|)
    ensures Counted(sinks, c0, c1, node) && Expanded(sinks, c0, c1, node)
  {
    var children := Sinks(sinks, node);
    assert c1.Keys - c0.Keys == (c1.Keys - c0.Keys - {node}) + {node};
    forall n | n in c1
      ensures CountIn(c1, n) == CountIn(c0, n) + (if n == node then 1 else 0) + |Arrivals(sinks, c1.Keys - c0.Keys, n)|
    {
      ArrivalsSplit(sinks, c1.Keys - c0.Keys - {node}, {node}, n);
      assert Arrivals(sinks, {node}, n) == Positions(node, children, |children|, n);
    }
    forall c | c in children
      ensures c in c1
    {
      var k :| 0 <= k < |children| && children[k] == c;
    }
    StartIsReachable(SinkSets(sinks), {node}, node);
  }
}
