/** An undirected graph that is changed in place (graph/MutableGraph.java). Every edge
    a–b is kept as the two entries a→b and b→a of one multimap; a self-loop a–a is
    the single entry a→a. */
module MutableGraphs {
  import opened Wrappers
  import opened GraphNode
  import opened Multimaps

  /** Every entry a→b has its mirror b→a. */
  ghost predicate Symmetric<N>(m: map<N, set<N>>) {
    forall e | e in Entries(m) :: (e.1, e.0) in Entries(m)
  }

  /** The pairs of `s` with their mirrors added. */
  ghost function Both<N>(s: set<(N, N)>): set<(N, N)> {
    s + set e | e in s :: (e.1, e.0)
  }

  /** The entries of `m` with their mirrors added. */
  ghost function Mirrored<N>(m: map<N, set<N>>): set<(N, N)> {
    Both(Entries(m))
  }


  /** The entries of `e` that do not touch `n`. */
  ghost function WithoutNode<N>(e: set<(N, N)>, n: N): set<(N, N)> {
    set x | x in e && x.0 != n && x.1 != n
  }

  class MutableGraph<T> {
    var edges: map<Node<T>, set<Node<T>>>

    ghost predicate Valid()
      reads this
    {
      IsMultimap(edges) && Symmetric(edges)
    }

    /** `new MutableGraph()`. */
    constructor ()
      ensures Valid() && edges == map[]
    {
      edges := map[];
    }

    /** `new MutableGraph(graph)`: every edge of the directed graph `g`, linked both ways. */
    constructor FromGraph(g: map<Node<T>, set<Node<T>>>)
      ensures Valid() && Entries(edges) == Mirrored(g)
    {
      edges := map[];
      new;
      var nodes := g.Keys;
      ghost var done: set<Node<T>> := {};
      while nodes != {}
        invariant Valid()
        invariant nodes + done == g.Keys && nodes !! done
        invariant Entries(edges) == Both(EntriesFrom(g, done))
        decreases nodes
      {
        var node :| node in nodes;
        LinkAll(node, g[node]);
        BothAdd(g, done, node);
        nodes := nodes - {node};
        done := done + {node};
      }
      EntriesFromAll(g, done);
    }

    /** The inner loop of `new MutableGraph(graph)`: `node` linked to each of `successors`. */
    method LinkAll(node: Node<T>, successors: set<Node<T>>)
      requires Valid()
      modifies this
      ensures Valid()
      ensures Entries(edges) == old(Entries(edges)) + Touching(node, successors)
    {
      ghost var before := Entries(edges);
      var rest := successors;
      ghost var linked: set<Node<T>> := {};
      while rest != {}
        invariant Valid()
        invariant rest + linked == successors && rest !! linked
        invariant Entries(edges) == before + Touching(node, linked)
        decreases rest
      {
        var successor :| successor in rest;
        Link(node, successor);
        TouchingAdd(node, linked, successor);
        rest := rest - {successor};
        linked := linked + {successor};
      }
    }

    /** `link(node1, node2)`: both directions of the edge. */
    method Link(node1: Node<T>, node2: Node<T>)
      requires Valid()
      modifies this
      ensures Valid()
      ensures Entries(edges) == old(Entries(edges)) + {(node1, node2), (node2, node1)}
    {
      LinkKeepsSymmetric(edges, node1, node2);
      edges := Put(Put(edges, node1, node2), node2, node1);
    }

    /** `unlink(node1, node2)`: fails with IllegalState unless the edge is there, and
        otherwise removes both of its entries, the one entry of a self-loop once. */
    method Unlink(node1: Node<T>, node2: Node<T>) returns (s: Status)
      requires Valid()
      modifies this
      ensures Valid()
      ensures s.Done? <==> (node1, node2) in old(Entries(edges))
      ensures s.Failed? ==> s.error.IllegalState? && edges == old(edges)
      ensures Entries(edges) == old(Entries(edges)) - {(node1, node2), (node2, node1)}
    {
      EntryIsValue(edges, node1, node2);
      EntryIsValue(edges, node2, node1);
      if node2 !in Get(edges, node1) {
        return Failed(IllegalState("no such edge"));
      }
      UnlinkKeepsSymmetric(edges, node1, node2);
      edges := RemoveEntry(edges, node1, node2);
      s := Done;
      if node1 != node2 {
        var mirrored := node1 in Get(edges, node2);
        edges := RemoveEntry(edges, node2, node1);
        s := if mirrored then Done else Failed(IllegalState("no mirrored edge"));
      }
    }

    /** `remove(node)`: unlinks `node` from each of its neighbours, so no entry
        mentions it any more. */
    method Remove(node: Node<T>)
      requires Valid()
      modifies this
      ensures Valid()
      ensures Entries(edges) == WithoutNode(old(Entries(edges)), node)
      ensures node !in edges && forall k | k in edges :: node !in edges[k]
    {
      ghost var before := edges;
      var neighbors := Get(edges, node);
      var rest := neighbors;
      ghost var done: set<Node<T>> := {};
      while rest != {}
        invariant Valid() && rest + done == neighbors && rest !! done
        invariant Entries(edges) == Entries(before) - Touching(node, done)
        decreases rest
      {
        var neighbor :| neighbor in rest;
        StillLinked(before, edges, node, done, neighbor);
        var st := Unlink(node, neighbor);
        assert st.Done?;
        TouchingAdd(node, done, neighbor);
        rest := rest - {neighbor};
        done := done + {neighbor};
      }
      RemovedEverywhere(before, edges, node);
    }

    /** `getNodes()`. */
    function GetNodes(): (r: set<Node<T>>)
      reads this
      requires Valid()
      ensures forall e | e in Entries(edges) :: e.0 in r && e.1 in r
      ensures forall n | n in r :: GetSuccessors(n) != {}
    {
      forall e | e in Entries(edges)
        ensures e.1 in edges
      {
        SymmetricGet(edges, e.0, e.1);
      }
      edges.Keys
    }

    /** `getSuccessors(node)`: the neighbours of `node`. */
    function GetSuccessors(node: Node<T>): (r: set<Node<T>>)
      reads this
      ensures forall m | m in r :: (node, m) in Entries(edges)
      ensures forall e | e in Entries(edges) && e.0 == node :: e.1 in r
    {
      Get(edges, node)
    }

    /** `getPredecessors(node)`: the same set as the successors, which in a symmetric
        multimap is exactly the nodes with an entry into `node`. */
    function GetPredecessors(node: Node<T>): (r: set<Node<T>>)
      reads this
      requires Valid()
      ensures r <= edges.Keys
      ensures forall m | m in edges :: m in r <==> node in edges[m]
    {
      forall m | m in Get(edges, node)
        ensures m in edges && node in edges[m]
      {
        SymmetricGet(edges, node, m);
      }
      forall m | m in edges && node in edges[m]
        ensures m in Get(edges, node)
      {
        SymmetricGet(edges, node, m);
      }
      Get(edges, node)
    }
  }

  lemma BothAdd<N>(g: map<N, set<N>>, from: set<N>, node: N)
    requires node in g
    ensures Both(EntriesFrom(g, from + {node})) == Both(EntriesFrom(g, from)) + Touching(node, g[node])
  {
    EntriesFromAdd(g, from, node);
  }

  /** Linking both ways keeps the multimap symmetric. */
  lemma LinkKeepsSymmetric<N>(m: map<N, set<N>>, a: N, b: N)
    requires Symmetric(m)
    ensures Symmetric(Put(Put(m, a, b), b, a))
  {
    assert Entries(Put(Put(m, a, b), b, a)) == Entries(m) + {(a, b), (b, a)};
  }

  /** Removing an edge's entry and, unless it is a self-loop, its mirror keeps the
      multimap symmetric, and the mirror is there to remove. */
  lemma UnlinkKeepsSymmetric<N>(m: map<N, set<N>>, a: N, b: N)
    requires Symmetric(m) && (a, b) in Entries(m)
    ensures a != b ==> (b, a) in Entries(RemoveEntry(m, a, b))
    ensures Symmetric(if a == b then RemoveEntry(m, a, b) else RemoveEntry(RemoveEntry(m, a, b), b, a))
  {
    var r := if a == b then RemoveEntry(m, a, b) else RemoveEntry(RemoveEntry(m, a, b), b, a);
    assert Entries(r) == Entries(m) - {(a, b), (b, a)};
  }

  /** The entries between `n` and a node of `s`, both ways. */
  ghost function Touching<N>(n: N, s: set<N>): set<(N, N)> {
    (set x | x in s :: (n, x)) + (set x | x in s :: (x, n))
  }

  /** A neighbour not yet unlinked is still linked. */
  lemma StillLinked<N>(before: map<N, set<N>>, current: map<N, set<N>>, n: N, done: set<N>, x: N)
    requires Entries(current) == Entries(before) - Touching(n, done)
    requires x in Get(before, n) && x !in done
    ensures (n, x) in Entries(current)
  {
    EntryIsValue(before, n, x);
  }

  lemma TouchingAdd<N>(n: N, s: set<N>, x: N)
    ensures Touching(n, s + {x}) == Touching(n, s) + {(n, x), (x, n)}
  {
  }

  /** In a symmetric multimap an edge can be followed either way. */
  lemma SymmetricGet<N>(m: map<N, set<N>>, a: N, b: N)
    requires Symmetric(m)
    ensures b in Get(m, a) <==> a in Get(m, b)
  {
    EntryIsValue(m, a, b);
    EntryIsValue(m, b, a);
  }

  /** Removing every entry between `node` and its neighbours removes every entry
      that mentions `node`. */
  lemma RemovedEverywhere<N>(before: map<N, set<N>>, after: map<N, set<N>>, node: N)
    requires Symmetric(before) && IsMultimap(after)
    requires Entries(after) == Entries(before) - Touching(node, Get(before, node))
    ensures Entries(after) == WithoutNode(Entries(before), node)
    ensures node !in after && forall k | k in after :: node !in after[k]
  {
    forall x | x in Entries(before) && (x.0 == node || x.1 == node)
      ensures x in Touching(node, Get(before, node))
    {
      EntryIsValue(before, x.0, x.1);
      EntryIsValue(before, x.1, x.0);
    }
    if node in after {
      var m :| m in after[node];
      EntryIsValue(after, node, m);
    }
    forall k | k in after
      ensures node !in after[k]
    {
      EntryIsValue(after, k, node);
    }
  }

  /** The successors and the predecessors of a node are the same set: an edge can be
      followed either way. */
  lemma NeighboursAreSymmetric<T>(g: MutableGraph<T>, a: Node<T>, b: Node<T>)
    requires g.Valid()
    ensures b in g.GetSuccessors(a) <==> a in g.GetSuccessors(b)
  {
    SymmetricGet(g.edges, a, b);
  }
}
