/** Live ranges and their conflict graph (regalloc/LiveRange.java): the undirected
    graph a register allocator colours, with an edge between every two ranges that
    are live at a common data-flow node. */
module LiveRanges {
  import opened Wrappers
  import opened GraphNode
  import opened Multimaps
  import opened DataflowValues

  /** The data-flow nodes over which one definition web of a variable is live. */
  datatype LiveRange = LiveRange(scopedVariable: ScopedVariable, liveNodes: set<Node<ScopedStatement>>)

  /** `conflict`: the two ranges are live at some common node. */
  predicate Conflict(first: LiveRange, second: LiveRange) {
    first.liveNodes * second.liveNodes != {}
  }

  /** Conflict means sharing a live node. */
  lemma ConflictIffSharedNode(first: LiveRange, second: LiveRange)
    ensures Conflict(first, second) <==> exists n :: n in first.liveNodes && n in second.liveNodes
  {
    if Conflict(first, second) {
      var n :| n in first.liveNodes * second.liveNodes;
      assert n in first.liveNodes && n in second.liveNodes;
    }
    if exists n :: n in first.liveNodes && n in second.liveNodes {
      var n :| n in first.liveNodes && n in second.liveNodes;
      assert n in first.liveNodes * second.liveNodes;
    }
  }

  lemma ConflictIsSymmetric(first: LiveRange, second: LiveRange)
    ensures Conflict(first, second) <==> Conflict(second, first)
  {
    assert first.liveNodes * second.liveNodes == second.liveNodes * first.liveNodes;
  }

  /** A range conflicts with itself exactly when it is live anywhere. */
  lemma SelfConflict(r: LiveRange)
    ensures Conflict(r, r) <==> r.liveNodes != {}
  {
    assert r.liveNodes * r.liveNodes == r.liveNodes;
  }

  /** Two conflict-graph nodes whose ranges conflict. */
  predicate NodesConflict(a: Node<LiveRange>, b: Node<LiveRange>) {
    a.value.Some? && b.value.Some? && Conflict(a.value.value, b.value.value)
  }

  /** The conflicting pairs with the first node in `firsts` and the second in `seconds`. */
  ghost function ConflictPairs(firsts: set<Node<LiveRange>>, seconds: set<Node<LiveRange>>): set<(Node<LiveRange>, Node<LiveRange>)> {
    set a, b | a in firsts && b in seconds && NodesConflict(a, b) :: (a, b)
  }

  /** `conflictGraph`: one fresh node per live range, in order, and an edge, linked
      both ways, between every two nodes whose ranges conflict. The built graph's
      nodes are the ends of its edges, so a range that is live nowhere is not one. */
  method ConflictGraph(liveRanges: seq<LiveRange>) returns (nodes: seq<Node<LiveRange>>, edges: map<Node<LiveRange>, set<Node<LiveRange>>>)
    ensures |nodes| == |liveRanges|
    ensures forall i | 0 <= i < |nodes| :: fresh(nodes[i]) && nodes[i].value == Some(liveRanges[i])
    ensures forall i, j | 0 <= i < j < |nodes| :: nodes[i] != nodes[j]
    ensures IsMultimap(edges)
    ensures forall a, b :: (a, b) in Entries(edges) <==> a in nodes && b in nodes && NodesConflict(a, b)
    ensures forall a :: a in edges <==> a in nodes && a.value.value.liveNodes != {}
  {
    nodes := [];
    for i := 0 to |liveRanges|
      invariant |nodes| == i
      invariant forall k | 0 <= k < i :: fresh(nodes[k]) && nodes[k].value == Some(liveRanges[k])
      invariant forall k, l | 0 <= k < l < i :: nodes[k] != nodes[l]
    {
      var node := new Node.Of(liveRanges[i]);
      nodes := nodes + [node];
    }
    edges := LinkConflicts(nodes);
    forall a | a in nodes
      ensures a in edges <==> a.value.value.liveNodes != {}
    {
      SelfConflict(a.value.value);
      EntryIsValue(edges, a, a);
      if a in edges {
        var b :| b in edges[a];
        EntryIsValue(edges, a, b);
        assert NodesConflict(a, b);
        assert a.value.value.liveNodes * b.value.value.liveNodes != {};
      }
    }
    forall a | a in edges
      ensures a in nodes
    {
      var b :| b in edges[a];
      EntryIsValue(edges, a, b);
    }
  }

  /** The two nested loops of `conflictGraph`: every ordered pair of nodes whose
      ranges conflict is linked, both ways. */
  method LinkConflicts(nodes: seq<Node<LiveRange>>) returns (edges: map<Node<LiveRange>, set<Node<LiveRange>>>)
    ensures IsMultimap(edges)
    ensures forall a, b :: (a, b) in Entries(edges) <==> a in nodes && b in nodes && NodesConflict(a, b)
  {
    ghost var all := set n | n in nodes;
    edges := map[];
    ghost var firsts: set<Node<LiveRange>> := {};
    for i := 0 to |nodes|
      invariant IsMultimap(edges)
      invariant firsts == set n | n in nodes[..i]
      invariant Entries(edges) == ConflictPairs(firsts, all) + ConflictPairs(all, firsts)
    {
      var first := nodes[i];
      edges := LinkRow(edges, first, nodes);
      PairsGrow(firsts, first, all);
      PrefixElements(nodes, i, i + 1);
      firsts := firsts + {first};
    }
    assert firsts == all by {
      assert nodes[..|nodes|] == nodes;
    }
  }

  /** The inner loop of `conflictGraph`: `first` linked, both ways, to every node
      whose range conflicts with its own. */
  method LinkRow(edges: map<Node<LiveRange>, set<Node<LiveRange>>>, first: Node<LiveRange>, nodes: seq<Node<LiveRange>>)
    returns (edges': map<Node<LiveRange>, set<Node<LiveRange>>>)
    requires IsMultimap(edges)
    ensures IsMultimap(edges')
    ensures Entries(edges') == Entries(edges) + ConflictPairs({first}, set n | n in nodes) + ConflictPairs(set n | n in nodes, {first})
  {
    edges' := edges;
    ghost var seconds: set<Node<LiveRange>> := {};
    for j := 0 to |nodes|
      invariant IsMultimap(edges')
      invariant seconds == set n | n in nodes[..j]
      invariant Entries(edges') == Entries(edges) + ConflictPairs({first}, seconds) + ConflictPairs(seconds, {first})
    {
      var second := nodes[j];
      ghost var before := Entries(edges');
      if NodesConflict(first, second) {
        edges' := LinkBoth(edges', first, second);
      }
      RowStep(Entries(edges), before, Entries(edges'), first, seconds, second);
      PrefixElements(nodes, j, j + 1);
      seconds := seconds + {second};
    }
    assert nodes[..|nodes|] == nodes;
  }

  /** The elements of a prefix one longer: one more element. */
  lemma PrefixElements(s: seq<Node<LiveRange>>, j: nat, k: nat)
    requires j < |s| && k == j + 1
    ensures (set x | x in s[..k]) == (set x | x in s[..j]) + {s[j]}
  {
    assert s[..k] == s[..j] + [s[j]];
  }

  /** `Graph.Builder.link`: the edge in both directions. */
  function LinkBoth<N>(m: map<N, set<N>>, a: N, b: N): (r: map<N, set<N>>)
    requires IsMultimap(m)
    ensures IsMultimap(r) && Entries(r) == Entries(m) + {(a, b), (b, a)}
  {
    Put(Put(m, a, b), b, a)
  }

  lemma RowStep(e0: set<(Node<LiveRange>, Node<LiveRange>)>, e1: set<(Node<LiveRange>, Node<LiveRange>)>, e2: set<(Node<LiveRange>, Node<LiveRange>)>,
                first: Node<LiveRange>, seconds: set<Node<LiveRange>>, second: Node<LiveRange>)
    requires e1 == e0 + ConflictPairs({first}, seconds) + ConflictPairs(seconds, {first})
    requires e2 == if NodesConflict(first, second) then e1 + {(first, second), (second, first)} else e1
    ensures e2 == e0 + ConflictPairs({first}, seconds + {second}) + ConflictPairs(seconds + {second}, {first})
  {
    PairsAdd(first, seconds, second);
  }

  /** One more second node adds at most its pair with `first`, both ways. */
  lemma PairsAdd(first: Node<LiveRange>, seconds: set<Node<LiveRange>>, second: Node<LiveRange>)
    ensures NodesConflict(first, second) ==>
              ConflictPairs({first}, seconds + {second}) + ConflictPairs(seconds + {second}, {first})
              == ConflictPairs({first}, seconds) + ConflictPairs(seconds, {first}) + {(first, second), (second, first)}
    ensures !NodesConflict(first, second) ==>
              ConflictPairs({first}, seconds + {second}) + ConflictPairs(seconds + {second}, {first})
              == ConflictPairs({first}, seconds) + ConflictPairs(seconds, {first})
  {
    if NodesConflict(first, second) {
      ConflictIsSymmetric(first.value.value, second.value.value);
      assert (second, first) in ConflictPairs(seconds + {second}, {first});
    }
  }

  /** One more first node adds its pairs with every node, both ways. */
  lemma PairsGrow(firsts: set<Node<LiveRange>>, first: Node<LiveRange>, all: set<Node<LiveRange>>)
    ensures ConflictPairs(firsts + {first}, all) + ConflictPairs(all, firsts + {first})
         == ConflictPairs(firsts, all) + ConflictPairs(all, firsts) + ConflictPairs({first}, all) + ConflictPairs(all, {first})
  {
  }

  /** In the built graph a node is linked to itself exactly when its range is live
      somewhere, and every edge can be followed either way. */
  lemma ConflictGraphShape(nodes: seq<Node<LiveRange>>, edges: map<Node<LiveRange>, set<Node<LiveRange>>>)
    requires forall n | n in nodes :: n.value.Some?
    requires forall a, b :: (a, b) in Entries(edges) <==> a in nodes && b in nodes && NodesConflict(a, b)
    ensures forall a | a in nodes :: (a, a) in Entries(edges) <==> a.value.value.liveNodes != {}
    ensures forall a, b :: (a, b) in Entries(edges) <==> (b, a) in Entries(edges)
  {
    forall a | a in nodes
      ensures (a, a) in Entries(edges) <==> a.value.value.liveNodes != {}
    {
      SelfConflict(a.value.value);
    }
    forall a: Node<LiveRange>, b: Node<LiveRange>
      ensures (a, b) in Entries(edges) <==> (b, a) in Entries(edges)
    {
      if a.value.Some? && b.value.Some? {
        ConflictIsSymmetric(a.value.value, b.value.value);
      }
    }
  }
}
