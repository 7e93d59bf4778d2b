/** The control-flow graph with branch information (graph/BasicFlowGraph.java) and
    its Builder. A node with two successors is a branch point: one successor is its
    jump destination, taken under a jump condition, and the other is its non-jump
    ("default") branch. */
module BasicFlowGraphs {
  import opened Wrappers
  import opened GraphNode
  import opened Multimaps

  /** The jump conditions of codegen/asm/instructions/JumpType.java. */
  datatype JumpType = JZ | JNZ | JS | JNS | JO | JNO | JL | JLE | JGE | JG

  datatype JumpDestination<T> = JumpDestination(jumpType: JumpType, destination: Node<T>)

  /** A built graph: forward edges as a multimap, the jump destination of each
      branch point, and the start and end nodes. */
  datatype FlowGraph<T> = FlowGraph(forwardEdges: map<Node<T>, set<Node<T>>>,
                                    jumpDestinations: map<Node<T>, JumpDestination<T>>,
                                    start: Node<T>, end: Node<T>)

  /** The branch rules that `build` checks, for one source node. */
  predicate SourceConsistent<T>(edges: map<Node<T>, set<Node<T>>>, jumps: map<Node<T>, JumpDestination<T>>,
                                nonJump: set<Node<T>>, source: Node<T>)
    requires source in edges
  {
    (source in jumps ==> |edges[source]| == 2) &&
    (source in nonJump ==> |edges[source]| == 2) &&
    (|edges[source]| == 2 ==> source in jumps && source in nonJump)
  }

  /** The branch rules for every source node. */
  predicate BranchesConsistent<T>(edges: map<Node<T>, set<Node<T>>>, jumps: map<Node<T>, JumpDestination<T>>,
                                  nonJump: set<Node<T>>)
  {
    forall source | source in edges :: SourceConsistent(edges, jumps, nonJump, source)
  }

  /** What every graph returned by `build` satisfies. */
  ghost predicate WellFormed<T>(g: FlowGraph<T>) {
    IsMultimap(g.forwardEdges) &&
    (forall b | b in g.jumpDestinations ::
       b in g.forwardEdges && g.jumpDestinations[b].destination in g.forwardEdges[b]) &&
    (forall source | source in g.forwardEdges ::
       (source in g.jumpDestinations <==> |g.forwardEdges[source]| == 2) &&
       (source !in g.jumpDestinations ==> |g.forwardEdges[source]| == 1))
  }

  /** A source gets one successor from `link`, and at most one more from each of the
      two branch links. */
  predicate WithinBranchCount<T>(edges: map<Node<T>, set<Node<T>>>, jumps: map<Node<T>, JumpDestination<T>>,
                                 nonJump: set<Node<T>>)
  {
    forall source | source in edges ::
      |edges[source]| <= 1 + (if source in jumps then 1 else 0) + (if source in nonJump then 1 else 0)
  }

  /** `getNodes()`: the start, the end, and every node an edge leaves or enters. */
  function GetNodes<T>(g: FlowGraph<T>): (r: set<Node<T>>)
    ensures g.start in r && g.end in r
    ensures forall a | a in g.forwardEdges :: a in r && g.forwardEdges[a] <= r
    ensures forall n | n in r :: n == g.start || n == g.end || n in g.forwardEdges ||
                                 exists a | a in g.forwardEdges :: n in g.forwardEdges[a]
  {
    {g.start, g.end} + g.forwardEdges.Keys + set a, n | a in g.forwardEdges && n in g.forwardEdges[a] :: n
  }

  /** `getSuccessors(node)`. */
  function GetSuccessors<T>(g: FlowGraph<T>, node: Node<T>): (r: set<Node<T>>)
    ensures forall n | n in r :: (node, n) in Entries(g.forwardEdges)
    ensures forall e | e in Entries(g.forwardEdges) && e.0 == node :: e.1 in r
  {
    forall n | n in Get(g.forwardEdges, node)
      ensures (node, n) in Entries(g.forwardEdges)
    {
      EntryIsValue(g.forwardEdges, node, n);
    }
    Get(g.forwardEdges, node)
  }

  /** `isBranch(node)`. */
  predicate IsBranch<T>(g: FlowGraph<T>, node: Node<T>) {
    node in g.jumpDestinations
  }

  /** `getJumpSuccessor(node)`: IllegalArgument for a node that is not a branch. */
  function GetJumpSuccessor<T>(g: FlowGraph<T>, node: Node<T>): (r: Result<Node<T>>)
    ensures r.Ok? <==> IsBranch(g, node)
    ensures r.Err? ==> r.error.IllegalArgument?
    ensures WellFormed(g) && r.Ok? ==> r.value in GetSuccessors(g, node)
  {
    if IsBranch(g, node) then Ok(g.jumpDestinations[node].destination)
    else Err(IllegalArgument("not a branch node"))
  }

  /** `getJumpType(node)`: IllegalArgument for a node that is not a branch. */
  function GetJumpType<T>(g: FlowGraph<T>, node: Node<T>): (r: Result<JumpType>)
    ensures r.Ok? <==> IsBranch(g, node)
    ensures r.Err? ==> r.error.IllegalArgument?
  {
    if IsBranch(g, node) then Ok(g.jumpDestinations[node].jumpType)
    else Err(IllegalArgument("not a branch node"))
  }

  /** `getNonJumpSuccessor(node)`: the first successor, in the set's iteration order,
      that is not the jump destination. IllegalArgument for a node that is not a
      branch, AssertionError when every successor is the jump destination. */
  method GetNonJumpSuccessor<T>(g: FlowGraph<T>, node: Node<T>) returns (r: Result<Node<T>>)
    ensures r.Err? && r.error.IllegalArgument? <==> !IsBranch(g, node)
    ensures r.Err? && r.error.Assertion? <==>
              IsBranch(g, node) && GetSuccessors(g, node) <= {g.jumpDestinations[node].destination}
    ensures r.Err? ==> r.error.IllegalArgument? || r.error.Assertion?
    ensures r.Ok? ==> r.value in GetSuccessors(g, node) && r.value != g.jumpDestinations[node].destination
  {
    if !IsBranch(g, node) {
      return Err(IllegalArgument("not a branch node"));
    }
    var destination := g.jumpDestinations[node].destination;
    var successors := GetSuccessors(g, node);
    var rest := successors;
    while rest != {}
      invariant rest <= successors
      invariant successors - rest <= {destination}
      decreases rest
    {
      var successor :| successor in rest;
      if successor != destination {
        return Ok(successor);
      }
      rest := rest - {successor};
    }
    return Err(Assertion("no non-jump successor"));
  }

  /** In a built graph a branch point has exactly one successor besides its jump
      destination, so `getNonJumpSuccessor` finds it and cannot fail. */
  lemma BranchHasOneOtherSuccessor<T>(g: FlowGraph<T>, node: Node<T>)
    requires WellFormed(g) && IsBranch(g, node)
    ensures exists other :: other != g.jumpDestinations[node].destination &&
                            GetSuccessors(g, node) == {g.jumpDestinations[node].destination, other}
  {
    var d := g.jumpDestinations[node].destination;
    var s := g.forwardEdges[node];
    assert |s - {d}| == 1;
    var other :| other in s - {d};
    assert |(s - {d}) - {other}| == 0;
    assert (s - {d}) - {other} == {};
    assert s == {d, other};
  }

  /** The successors of a branch point in a built graph are its jump destination and
      any one other successor. */
  lemma BranchSuccessors<T>(g: FlowGraph<T>, node: Node<T>, other: Node<T>)
    requires WellFormed(g) && IsBranch(g, node)
    requires other in Get(g.forwardEdges, node) && other != g.jumpDestinations[node].destination
    ensures Get(g.forwardEdges, node) == {g.jumpDestinations[node].destination, other}
  {
    var d := g.jumpDestinations[node].destination;
    var s := g.forwardEdges[node];
    assert |(s - {d}) - {other}| == 0;
    assert (s - {d}) - {other} == {};
  }

  /** Linking a branch point's other successor and then its jump destination adds
      exactly its entries. */
  lemma BranchEntries<T>(g: FlowGraph<T>, node: Node<T>, other: Node<T>,
                         e0: set<(Node<T>, Node<T>)>, e1: set<(Node<T>, Node<T>)>, e2: set<(Node<T>, Node<T>)>)
    requires WellFormed(g) && IsBranch(g, node)
    requires other in Get(g.forwardEdges, node) && other != g.jumpDestinations[node].destination
    requires e1 == e0 + {(node, other)} && e2 == e1 + {(node, g.jumpDestinations[node].destination)}
    ensures e2 == e0 + set n | n in Get(g.forwardEdges, node) :: (node, n)
  {
    BranchSuccessors(g, node, other);
    var d := g.jumpDestinations[node].destination;
    assert (set n | n in {d, other} :: (node, n)) == {(node, d), (node, other)};
  }

  /** A node that is not a branch point has at most one successor in a built graph. */
  lemma NonBranchHasAtMostOneSuccessor<T>(g: FlowGraph<T>, node: Node<T>)
    requires WellFormed(g) && !IsBranch(g, node)
    ensures |GetSuccessors(g, node)| <= 1
  {
  }

  /** Putting one entry adds at most one value to its key. */
  lemma PutGrowsByOne<T>(m: map<Node<T>, set<Node<T>>>, k: Node<T>, v: Node<T>)
    ensures |Get(Put(m, k, v), k)| <= |Get(m, k)| + 1
  {
    if v !in Get(m, k) {
      assert Get(Put(m, k, v), k) == Get(m, k) + {v};
    } else {
      assert Get(Put(m, k, v), k) == Get(m, k);
    }
  }

  /** Copying one more entry keeps the jump destinations of the entries copied so
      far, and records the new entry's if it is a jump branch. */
  lemma JumpsKept<T>(otherJumps: map<Node<T>, JumpDestination<T>>, copied: set<(Node<T>, Node<T>)>,
                     entry: (Node<T>, Node<T>), before: map<Node<T>, JumpDestination<T>>,
                     after: map<Node<T>, JumpDestination<T>>)
    requires forall b | b in otherJumps && (b, otherJumps[b].destination) in copied ::
               b in before && before[b] == otherJumps[b]
    requires forall b | b in before :: b in after && after[b] == before[b]
    requires entry.0 in otherJumps && otherJumps[entry.0].destination == entry.1 ==>
               entry.0 in after && after[entry.0] == otherJumps[entry.0]
    ensures forall b | b in otherJumps && (b, otherJumps[b].destination) in copied + {entry} ::
              b in after && after[b] == otherJumps[b]
  {
  }

  class Builder<T> {
    var edges: map<Node<T>, set<Node<T>>>
    var jumpDestinations: map<Node<T>, JumpDestination<T>>
    /** The nodes given a non-jump branch; each must also get a jump branch. */
    var haveNonJumpBranch: set<Node<T>>
    var start: Node<T>
    var end: Node<T>

    /** What every operation keeps: a proper multimap, and every branch mark comes
        with the edge that was put alongside it. */
    ghost predicate Valid()
      reads this
    {
      IsMultimap(edges) && haveNonJumpBranch <= edges.Keys &&
      (forall b | b in jumpDestinations :: b in edges && jumpDestinations[b].destination in edges[b]) &&
      WithinBranchCount(edges, jumpDestinations, haveNonJumpBranch)
    }

    /** `new Builder()`: one seed NOP node that is both start and end. */
    constructor ()
      ensures Valid()
      ensures edges == map[] && jumpDestinations == map[] && haveNonJumpBranch == {}
      ensures start == end && fresh(start) && start.value.None?
    {
      var seed := new Node.Nop();
      edges, jumpDestinations, haveNonJumpBranch := map[], map[], {};
      start, end := seed, seed;
    }

    /** `link(source, sink)`: IllegalArgument if `source` already has an outgoing
        edge; a plain node has one successor. */
    method Link(source: Node<T>, sink: Node<T>) returns (s: Status)
      requires Valid()
      modifies this
      ensures Valid()
      ensures s.Failed? <==> source in old(edges)
      ensures s.Failed? ==> s.error.IllegalArgument? && edges == old(edges)
      ensures s.Done? ==> edges == old(edges)[source := {sink}]
      ensures s.Done? ==> Entries(edges) == old(Entries(edges)) + {(source, sink)}
      ensures jumpDestinations == old(jumpDestinations) && haveNonJumpBranch == old(haveNonJumpBranch)
      ensures start == old(start) && end == old(end)
    {
      if source in edges {
        return Failed(IllegalArgument("second sink for a non-branch node"));
      }
      assert Get(edges, source) + {sink} == {sink};
      edges := Put(edges, source, sink);
      s := Done;
    }

    /** `linkNonJumpBranch(branchPoint, nonJumpBranch)`: IllegalArgument on a second
        non-jump branch at the same point. */
    method LinkNonJumpBranch(branchPoint: Node<T>, nonJumpBranch: Node<T>) returns (s: Status)
      requires Valid()
      modifies this
      ensures Valid()
      ensures s.Failed? <==> branchPoint in old(haveNonJumpBranch)
      ensures s.Failed? ==> s.error.IllegalArgument? && edges == old(edges) &&
                            haveNonJumpBranch == old(haveNonJumpBranch)
      ensures s.Done? ==> edges == Put(old(edges), branchPoint, nonJumpBranch) &&
                          haveNonJumpBranch == old(haveNonJumpBranch) + {branchPoint}
      ensures s.Done? ==> Entries(edges) == old(Entries(edges)) + {(branchPoint, nonJumpBranch)}
      ensures jumpDestinations == old(jumpDestinations)
      ensures start == old(start) && end == old(end)
    {
      if branchPoint in haveNonJumpBranch {
        return Failed(IllegalArgument("second default branch"));
      }
      PutGrowsByOne(edges, branchPoint, nonJumpBranch);
      edges := Put(edges, branchPoint, nonJumpBranch);
      haveNonJumpBranch := haveNonJumpBranch + {branchPoint};
      s := Done;
    }

    /** `linkJumpBranch(branchPoint, type, jumpBranch)`: IllegalArgument on a second
        jump branch at the same point. */
    method LinkJumpBranch(branchPoint: Node<T>, jumpType: JumpType, jumpBranch: Node<T>) returns (s: Status)
      requires Valid()
      modifies this
      ensures Valid()
      ensures s.Failed? <==> branchPoint in old(jumpDestinations)
      ensures s.Failed? ==> s.error.IllegalArgument? && edges == old(edges) &&
                            jumpDestinations == old(jumpDestinations)
      ensures s.Done? ==> edges == Put(old(edges), branchPoint, jumpBranch) &&
                          jumpDestinations == old(jumpDestinations)[branchPoint := JumpDestination(jumpType, jumpBranch)]
      ensures s.Done? ==> Entries(edges) == old(Entries(edges)) + {(branchPoint, jumpBranch)}
      ensures haveNonJumpBranch == old(haveNonJumpBranch)
      ensures start == old(start) && end == old(end)
    {
      if branchPoint in jumpDestinations {
        return Failed(IllegalArgument("second jump branch"));
      }
      PutGrowsByOne(edges, branchPoint, jumpBranch);
      edges := Put(edges, branchPoint, jumpBranch);
      jumpDestinations := jumpDestinations[branchPoint := JumpDestination(jumpType, jumpBranch)];
      s := Done;
    }

    /** `append(node)`: the old end flows into `node`, which becomes the end. */
    method Append(node: Node<T>) returns (s: Status)
      requires Valid()
      modifies this
      ensures Valid()
      ensures s.Failed? <==> old(end) in old(edges)
      ensures s.Failed? ==> s.error.IllegalArgument? && edges == old(edges) && end == old(end)
      ensures s.Done? ==> edges == old(edges)[old(end) := {node}] && end == node
      ensures jumpDestinations == old(jumpDestinations) && haveNonJumpBranch == old(haveNonJumpBranch)
      ensures start == old(start)
    {
      s := Link(end, node);
      if s.Done? {
        end := node;
      }
    }

    /** `append(value)`: appends a new node carrying `value`. */
    method AppendValue(value: T) returns (s: Status, node: Node<T>)
      requires Valid()
      modifies this
      ensures Valid() && fresh(node) && node.value == Some(value)
      ensures s.Failed? <==> old(end) in old(edges)
      ensures s.Done? ==> edges == old(edges)[old(end) := {node}] && end == node
      ensures s.Failed? ==> edges == old(edges) && end == old(end)
    {
      node := new Node.Of(value);
      s := Append(node);
    }

    /** `setEndToSinkFor(node, otherNode)`: a fresh NOP becomes the end and both
        nodes flow into it. The end is replaced before the links are checked. */
    method SetEndToSinkFor(node: Node<T>, otherNode: Node<T>) returns (s: Status)
      requires Valid()
      modifies this
      ensures Valid() && fresh(end) && end.value.None?
      ensures s.Done? <==> node !in old(edges) && otherNode !in old(edges) && node != otherNode
      ensures s.Done? ==> edges == old(edges)[node := {end}][otherNode := {end}]
      ensures s.Failed? ==> s.error.IllegalArgument?
      ensures jumpDestinations == old(jumpDestinations) && haveNonJumpBranch == old(haveNonJumpBranch)
      ensures start == old(start)
    {
      end := new Node.Nop();
      s := Link(node, end);
      if s.Done? {
        s := Link(otherNode, end);
      }
    }

    /** `copyIn(builder)`: every link of `other` is made here too, as a jump branch,
        a non-jump branch or a plain link as it was there; the first link that this
        builder refuses fails the copy with IllegalArgument. */
    method CopyIn(other: Builder<T>) returns (s: Status)
      requires Valid() && other.Valid()
      modifies this
      ensures Valid()
      ensures s.Failed? ==> s.error.IllegalArgument?
      ensures s.Done? ==> Entries(edges) == old(Entries(edges)) + old(Entries(other.edges))
      ensures s.Done? ==> forall b | b in old(other.jumpDestinations) ::
                            b in jumpDestinations && jumpDestinations[b] == old(other.jumpDestinations[b])
      ensures start == old(start) && end == old(end)
    {
      var otherEdges, otherJumps, otherNonJump := other.edges, other.jumpDestinations, other.haveNonJumpBranch;
      s := CopyEntries(Entries(otherEdges), otherJumps, otherNonJump);
      if s.Failed? {
        return;
      }
      forall b | b in otherJumps
        ensures (b, otherJumps[b].destination) in Entries(otherEdges)
      {
        EntryIsValue(otherEdges, b, otherJumps[b].destination);
      }
    }

    /** The loop of `copyIn(builder)` over the given entries of the other builder,
        whose jump destinations and non-jump marks are given. */
    method CopyEntries(entries: set<(Node<T>, Node<T>)>, otherJumps: map<Node<T>, JumpDestination<T>>,
                       otherNonJump: set<Node<T>>) returns (s: Status)
      requires Valid()
      modifies this
      ensures Valid()
      ensures s.Failed? ==> s.error.IllegalArgument?
      ensures s.Done? ==> Entries(edges) == old(Entries(edges)) + entries
      ensures s.Done? ==> forall b | b in otherJumps && (b, otherJumps[b].destination) in entries ::
                            b in jumpDestinations && jumpDestinations[b] == otherJumps[b]
      ensures start == old(start) && end == old(end)
    {
      ghost var before := Entries(edges);
      var pending := entries;
      ghost var copied: set<(Node<T>, Node<T>)> := {};
      while pending != {}
        invariant Valid()
        invariant pending + copied == entries && pending !! copied
        invariant Entries(edges) == before + copied
        invariant forall b | b in otherJumps && (b, otherJumps[b].destination) in copied ::
                    b in jumpDestinations && jumpDestinations[b] == otherJumps[b]
        invariant start == old(start) && end == old(end)
        decreases pending
      {
        var entry :| entry in pending;
        ghost var jumps := jumpDestinations;
        s := CopyEntry(entry.0, entry.1, otherJumps, otherNonJump);
        if s.Failed? {
          return;
        }
        JumpsKept(otherJumps, copied, entry, jumps, jumpDestinations);
        pending := pending - {entry};
        copied := copied + {entry};
      }
      assert copied == entries;
      s := Done;
    }

    /** One entry of `copyIn(builder)`, linked as the kind of link it was in the
        builder whose jump destinations and non-jump marks are given. */
    method CopyEntry(source: Node<T>, sink: Node<T>, otherJumps: map<Node<T>, JumpDestination<T>>,
                     otherNonJump: set<Node<T>>) returns (s: Status)
      requires Valid()
      modifies this
      ensures Valid()
      ensures s.Failed? ==> s.error.IllegalArgument?
      ensures s.Done? ==> Entries(edges) == old(Entries(edges)) + {(source, sink)}
      ensures s.Done? && source in otherJumps && otherJumps[source].destination == sink ==>
                source in jumpDestinations && jumpDestinations[source] == otherJumps[source]
      ensures forall b | b in old(jumpDestinations) :: b in jumpDestinations && jumpDestinations[b] == old(jumpDestinations[b])
      ensures start == old(start) && end == old(end)
    {
      if source in otherJumps && otherJumps[source].destination == sink {
        s := LinkJumpBranch(source, otherJumps[source].jumpType, sink);
      } else if source in otherNonJump {
        s := LinkNonJumpBranch(source, sink);
      } else {
        s := Link(source, sink);
      }
    }

    /** `append(builder)`: copies `other` in, links the end to its start and takes
        its end. */
    method AppendBuilder(other: Builder<T>) returns (s: Status)
      requires Valid() && other.Valid()
      modifies this
      ensures Valid()
      ensures s.Failed? ==> s.error.IllegalArgument?
      ensures s.Done? ==> Entries(edges) == old(Entries(edges)) + old(Entries(other.edges)) + {(old(end), old(other.start))}
      ensures s.Done? ==> end == old(other.end)
      ensures start == old(start)
    {
      var otherStart, otherEnd := other.start, other.end;
      s := CopyIn(other);
      if s.Failed? {
        return;
      }
      s := Link(end, otherStart);
      if s.Failed? {
        return;
      }
      end := otherEnd;
    }

    /** `linkNonJumpBranch(branchPoint, builder)`: copies `other` in and makes its
        start the non-jump branch of `branchPoint`. */
    method LinkNonJumpBranchTo(branchPoint: Node<T>, other: Builder<T>) returns (s: Status)
      requires Valid() && other.Valid()
      modifies this
      ensures Valid()
      ensures s.Failed? ==> s.error.IllegalArgument?
      ensures s.Done? ==> Entries(edges) == old(Entries(edges)) + old(Entries(other.edges)) + {(branchPoint, old(other.start))}
      ensures s.Done? ==> branchPoint in haveNonJumpBranch
      ensures start == old(start) && end == old(end)
    {
      var otherStart := other.start;
      s := CopyIn(other);
      if s.Failed? {
        return;
      }
      s := LinkNonJumpBranch(branchPoint, otherStart);
    }

    /** `linkJumpBranch(branchPoint, type, builder)`: copies `other` in and makes its
        start the jump destination of `branchPoint`. */
    method LinkJumpBranchTo(branchPoint: Node<T>, jumpType: JumpType, other: Builder<T>) returns (s: Status)
      requires Valid() && other.Valid()
      modifies this
      ensures Valid()
      ensures s.Failed? ==> s.error.IllegalArgument?
      ensures s.Done? ==> Entries(edges) == old(Entries(edges)) + old(Entries(other.edges)) + {(branchPoint, old(other.start))}
      ensures s.Done? ==> branchPoint in jumpDestinations &&
                          jumpDestinations[branchPoint] == JumpDestination(jumpType, old(other.start))
      ensures start == old(start) && end == old(end)
    {
      var otherStart := other.start;
      s := CopyIn(other);
      if s.Failed? {
        return;
      }
      s := LinkJumpBranch(branchPoint, jumpType, otherStart);
    }

    /** `copyIn(graph)`: for every node of `graph`, its two branches if it is a branch
        point and its single successor otherwise. Fails with IllegalArgument on a link
        this builder refuses or a plain node with several successors, and with
        AssertionError on a branch point without a non-jump successor. */
    method CopyInGraph(g: FlowGraph<T>) returns (s: Status)
      requires Valid()
      modifies this
      ensures Valid()
      ensures s.Failed? ==> s.error.IllegalArgument? || s.error.Assertion?
      ensures s.Done? && WellFormed(g) ==> Entries(edges) == old(Entries(edges)) + Entries(g.forwardEdges)
      ensures start == old(start) && end == old(end)
    {
      var nodes := GetNodes(g);
      s := CopyNodes(g, nodes);
      if s.Done? && WellFormed(g) {
        EntriesFromAll(g.forwardEdges, nodes);
      }
    }

    /** The loop of `copyIn(graph)` over the given nodes of `graph`. */
    method CopyNodes(g: FlowGraph<T>, nodes: set<Node<T>>) returns (s: Status)
      requires Valid()
      modifies this
      ensures Valid()
      ensures s.Failed? ==> s.error.IllegalArgument? || s.error.Assertion?
      ensures s.Done? && WellFormed(g) ==> Entries(edges) == old(Entries(edges)) + EntriesFrom(g.forwardEdges, nodes)
      ensures start == old(start) && end == old(end)
    {
      ghost var before := Entries(edges);
      var pending := nodes;
      ghost var done: set<Node<T>> := {};
      while pending != {}
        invariant Valid()
        invariant pending + done == nodes && pending !! done
        invariant WellFormed(g) ==> Entries(edges) == before + EntriesFrom(g.forwardEdges, done)
        invariant start == old(start) && end == old(end)
        decreases pending
      {
        var source :| source in pending;
        ghost var e0 := Entries(edges);
        s := CopyNode(g, source);
        if s.Failed? {
          return;
        }
        if WellFormed(g) {
          EntriesFromStep(g.forwardEdges, done, source, before, e0, Entries(edges));
        }
        pending := pending - {source};
        done := done + {source};
      }
      assert done == nodes;
      s := Done;
    }

    /** The links `copyIn(graph)` makes for one node of `graph`. */
    method CopyNode(g: FlowGraph<T>, source: Node<T>) returns (s: Status)
      requires Valid()
      modifies this
      ensures Valid()
      ensures s.Failed? ==> s.error.IllegalArgument? || s.error.Assertion?
      ensures s.Done? && WellFormed(g) ==>
                Entries(edges) == old(Entries(edges)) + set n | n in Get(g.forwardEdges, source) :: (source, n)
      ensures start == old(start) && end == old(end)
    {
      if IsBranch(g, source) {
        s := CopyBranch(g, source);
      } else {
        s := CopyPlain(g, source);
      }
    }

    /** A branch point of `graph`: its non-jump branch, then its jump branch. */
    method CopyBranch(g: FlowGraph<T>, source: Node<T>) returns (s: Status)
      requires Valid() && IsBranch(g, source)
      modifies this
      ensures Valid()
      ensures s.Failed? ==> s.error.IllegalArgument? || s.error.Assertion?
      ensures s.Done? && WellFormed(g) ==>
                Entries(edges) == old(Entries(edges)) + set n | n in Get(g.forwardEdges, source) :: (source, n)
      ensures start == old(start) && end == old(end)
    {
      ghost var e0 := Entries(edges);
      var nonJump := GetNonJumpSuccessor(g, source);
      if nonJump.Err? {
        return Failed(nonJump.error);
      }
      s := LinkNonJumpBranch(source, nonJump.value);
      if s.Failed? {
        return;
      }
      ghost var e1 := Entries(edges);
      var jump := g.jumpDestinations[source];
      s := LinkJumpBranch(source, jump.jumpType, jump.destination);
      if s.Done? && WellFormed(g) {
        BranchEntries(g, source, nonJump.value, e0, e1, Entries(edges));
      }
    }

    /** Any other node of `graph`: a link to its only successor, if it has one. */
    method CopyPlain(g: FlowGraph<T>, source: Node<T>) returns (s: Status)
      requires Valid()
      modifies this
      ensures Valid()
      ensures s.Failed? ==> s.error.IllegalArgument?
      ensures s.Done? ==>
                Entries(edges) == old(Entries(edges)) + set n | n in Get(g.forwardEdges, source) :: (source, n)
      ensures start == old(start) && end == old(end)
    {
      var successors := GetSuccessors(g, source);
      if |successors| == 0 {
        return Done;
      }
      if |successors| > 1 {
        return Failed(IllegalArgument("more than one successor"));
      }
      var only :| only in successors;
      assert successors == {only} by {
        assert |successors - {only}| == 0;
      }
      s := Link(source, only);
    }

    /** `append(graph)`: copies `graph` in, links the end to its start and takes its end. */
    method AppendGraph(g: FlowGraph<T>) returns (s: Status)
      requires Valid()
      modifies this
      ensures Valid()
      ensures s.Failed? ==> s.error.IllegalArgument? || s.error.Assertion?
      ensures s.Done? && WellFormed(g) ==> Entries(edges) == old(Entries(edges)) + Entries(g.forwardEdges) + {(old(end), g.start)}
      ensures s.Done? ==> end == g.end
      ensures start == old(start)
    {
      s := CopyInGraph(g);
      if s.Failed? {
        return;
      }
      s := Link(end, g.start);
      if s.Failed? {
        return;
      }
      end := g.end;
    }

    /** `linkNonJumpBranch(branchPoint, graph)`. */
    method LinkNonJumpBranchToGraph(branchPoint: Node<T>, g: FlowGraph<T>) returns (s: Status)
      requires Valid()
      modifies this
      ensures Valid()
      ensures s.Failed? ==> s.error.IllegalArgument? || s.error.Assertion?
      ensures s.Done? && WellFormed(g) ==> Entries(edges) == old(Entries(edges)) + Entries(g.forwardEdges) + {(branchPoint, g.start)}
      ensures s.Done? ==> branchPoint in haveNonJumpBranch
      ensures start == old(start) && end == old(end)
    {
      s := CopyInGraph(g);
      if s.Failed? {
        return;
      }
      s := LinkNonJumpBranch(branchPoint, g.start);
    }

    /** `linkJumpBranch(branchPoint, type, graph)`. */
    method LinkJumpBranchToGraph(branchPoint: Node<T>, jumpType: JumpType, g: FlowGraph<T>) returns (s: Status)
      requires Valid()
      modifies this
      ensures Valid()
      ensures s.Failed? ==> s.error.IllegalArgument? || s.error.Assertion?
      ensures s.Done? && WellFormed(g) ==> Entries(edges) == old(Entries(edges)) + Entries(g.forwardEdges) + {(branchPoint, g.start)}
      ensures s.Done? ==> branchPoint in jumpDestinations &&
                          jumpDestinations[branchPoint] == JumpDestination(jumpType, g.start)
      ensures start == old(start) && end == old(end)
    {
      s := CopyInGraph(g);
      if s.Failed? {
        return;
      }
      s := LinkJumpBranch(branchPoint, jumpType, g.start);
    }

    /** `build()`: IllegalState unless every source obeys the branch rules. */
    method Build() returns (r: Result<FlowGraph<T>>)
      requires Valid()
      ensures r.Ok? <==> BranchesConsistent(edges, jumpDestinations, haveNonJumpBranch)
      ensures r.Err? ==> r.error.IllegalState?
      ensures r.Ok? ==> r.value == FlowGraph(edges, jumpDestinations, start, end) && WellFormed(r.value)
    {
      var sources := edges.Keys;
      while sources != {}
        invariant sources <= edges.Keys
        invariant forall source | source in edges.Keys - sources ::
                    SourceConsistent(edges, jumpDestinations, haveNonJumpBranch, source)
        decreases sources
      {
        var source :| source in sources;
        if source in jumpDestinations && |edges[source]| != 2 {
          return Err(IllegalState("jump branch without two successors"));
        }
        if source in haveNonJumpBranch && |edges[source]| != 2 {
          return Err(IllegalState("non-jump branch without two successors"));
        }
        if |edges[source]| == 2 && !(source in jumpDestinations && source in haveNonJumpBranch) {
          return Err(IllegalState("two successors without both branches"));
        }
        sources := sources - {source};
      }
      r := Ok(FlowGraph(edges, jumpDestinations, start, end));
    }
  }
}
