/** The available-expressions fixed point over basic blocks
    (optimization/AvailabilityCalculator.java). Blocks form a graph given by their
    successor map; GEN, KILL and the set E of all subexpressions are parameters. */
module AvailabilityCalculator {
  import opened Wrappers
  import opened Reachability

  /** The blocks with an edge into `b`. */
  function Preds<B>(succ: map<B, set<B>>, b: B): set<B> {
    set p | p in succ && b in succ[p]
  }

  /** IN[n]: the expressions of `all` found in the OUT set of every predecessor. */
  function MeetOfPredecessors<B, E>(all: set<E>, preds: set<B>, outSets: map<B, set<E>>): (r: set<E>)
    requires preds <= outSets.Keys
    ensures r <= all
    ensures forall p | p in preds :: r <= outSets[p]
  {
    set e | e in all && forall p | p in preds :: e in outSets[p]
  }

  /** OUT[n] = GEN[n] ∪ (IN[n] − KILL[n]): here a generated expression survives even
      when the block also kills it. */
  function Transfer<E>(inSet: set<E>, kill: set<E>, gen: set<E>): (r: set<E>)
    ensures gen <= r && r <= inSet + gen
    ensures forall x | x in inSet && x !in gen :: x in r <==> x !in kill
  {
    (inSet - kill) + gen
  }

  /** The meet only looks at the predecessors' OUT sets. */
  lemma MeetOnlyReadsPredecessors<B, E>(all: set<E>, preds: set<B>, o1: map<B, set<E>>, o2: map<B, set<E>>)
    requires preds <= o1.Keys && preds <= o2.Keys
    requires forall p | p in preds :: o1[p] == o2[p]
    ensures MeetOfPredecessors(all, preds, o1) == MeetOfPredecessors(all, preds, o2)
  {
  }

  /** The data-flow equations hold at block `b` for the given IN and OUT sets. */
  ghost predicate Holds<B, E>(inSets: map<B, set<E>>, outSets: map<B, set<E>>, b: B,
                              succ: map<B, set<B>>, gen: B -> set<E>, kill: B -> set<E>, all: set<E>)
  {
    b in inSets && b in outSets && Preds(succ, b) <= outSets.Keys &&
    inSets[b] == MeetOfPredecessors(all, Preds(succ, b), outSets) &&
    outSets[b] == Transfer(inSets[b], kill(b), gen(b))
  }

  /** The keys `createInSets` produces as written: only the entry's direct successors. */
  function AsWrittenInSetKeys<B>(succ: map<B, set<B>>, entry: B): set<B> {
    Succ(succ, entry)
  }

  /** On the straight-line flow 0 → 1 → 2 the IN sets created as written miss the
      entry itself, so the later `checkState(changed.remove(entryBlock))` fails, and
      they miss block 2, which the entry reaches. */
  lemma AsWrittenInSetsMissBlocks()
    ensures 0 !in AsWrittenInSetKeys(map[0 := {1}, 1 := {2}], 0)
    ensures 2 !in AsWrittenInSetKeys(map[0 := {1}, 1 := {2}], 0)
    ensures Reachable(map[0 := {1}, 1 := {2}], {0}, 2)
  {
    var g := map[0 := {1}, 1 := {2}];
    assert Succ(g, 0) == {1};
    StartIsReachable(g, {0}, 0);
    ReachableStep(g, {0}, 0, 1);
    ReachableStep(g, {0}, 1, 2);
  }

  /** Every IN set of `ins` is empty. */
  ghost predicate EmptyInSets<B, E>(ins: map<B, set<E>>) {
    forall b | b in ins :: ins[b] == {}
  }

  /** The inner loop of `createInSets`: every successor not yet visited is marked
      visited and given an empty IN set. */
  method AddEmptyInSets<B(==), E(==)>(successors: set<B>, visited: set<B>, ins: map<B, set<E>>)
    returns (visited': set<B>, ins': map<B, set<E>>)
    requires ins.Keys == visited && EmptyInSets(ins)
    ensures visited' == visited + successors && ins'.Keys == visited' && EmptyInSets(ins')
  {
    visited', ins' := visited, ins;
    var rest := successors;
    while rest != {}
      invariant rest <= successors
      invariant visited' == visited + (successors - rest) && ins'.Keys == visited'
      invariant EmptyInSets(ins')
      decreases rest
    {
      var newBlock :| newBlock in rest;
      rest := rest - {newBlock};
      if newBlock !in visited' {
        visited' := visited' + {newBlock};
        ins' := ins'[newBlock := {}];
      }
    }
  }

  /** What the search of `createInSets` keeps true: the visited blocks are exactly the
      keys, all reachable, with empty IN sets, and every visited block that is no longer
      queued has all its successors visited. */
  ghost predicate SearchState<B, E>(entry: B, succ: map<B, set<B>>, universe: set<B>,
                                    visited: set<B>, toBeVisited: set<B>, ins: map<B, set<E>>)
  {
    ins.Keys == visited &&
    toBeVisited <= visited <= universe && entry in visited &&
    EmptyInSets(ins) &&
    AllReachable(succ, {entry}, visited) &&
    (forall v | v in visited - toBeVisited :: Succ(succ, v) <= visited) &&
    universe == {entry} + Targets(succ)
  }

  /** The search of `createInSets`, with the found blocks queued: a worklist of
      blocks whose successors are still to be looked at. */
  method ExploreInSets<B(==), E(==)>(entry: B, succ: map<B, set<B>>) returns (ins: map<B, set<E>>)
    ensures forall b :: b in ins <==> Reachable(succ, {entry}, b)
    ensures forall b | b in ins :: ins[b] == {}
  {
    ghost var universe := {entry} + Targets(succ);
    var visited := {entry};
    var toBeVisited := {entry};
    ins := map[entry := {}];
    StartIsReachable(succ, {entry}, entry);
    while toBeVisited != {}
      invariant SearchState(entry, succ, universe, visited, toBeVisited, ins)
      decreases |universe - visited|, |toBeVisited|
    {
      var block :| block in toBeVisited;
      visited, toBeVisited, ins := VisitBlock(entry, succ, universe, visited, toBeVisited, ins, block);
    }
    ClosedSet(succ, entry, visited);
  }

  /** One turn of the search: take `block` off the queue, give its unvisited
      successors empty IN sets and queue them. */
  method VisitBlock<B(==), E(==)>(entry: B, succ: map<B, set<B>>, ghost universe: set<B>,
                          visited: set<B>, toBeVisited: set<B>, ins: map<B, set<E>>, block: B)
    returns (visited': set<B>, toBeVisited': set<B>, ins': map<B, set<E>>)
    requires SearchState(entry, succ, universe, visited, toBeVisited, ins) && block in toBeVisited
    ensures SearchState(entry, succ, universe, visited', toBeVisited', ins')
    ensures |universe - visited'| < |universe - visited| ||
            (|universe - visited'| == |universe - visited| && |toBeVisited'| < |toBeVisited|)
  {
    var successors := Succ(succ, block);
    var found := successors - visited;
    visited', ins' := AddEmptyInSets(successors, visited, ins);
    toBeVisited' := (toBeVisited - {block}) + found;
    VisitPreserves(entry, succ, universe, visited, toBeVisited, ins, block, ins');
  }

  lemma VisitPreserves<B, E>(entry: B, succ: map<B, set<B>>, universe: set<B>, visited: set<B>,
                             toBeVisited: set<B>, ins: map<B, set<E>>, block: B, ins': map<B, set<E>>)
    requires SearchState(entry, succ, universe, visited, toBeVisited, ins) && block in toBeVisited
    requires ins'.Keys == visited + Succ(succ, block) && EmptyInSets(ins')
    ensures SearchState(entry, succ, universe, visited + Succ(succ, block),
                        (toBeVisited - {block}) + (Succ(succ, block) - visited), ins')
    ensures var visited', toBeVisited' := visited + Succ(succ, block), (toBeVisited - {block}) + (Succ(succ, block) - visited);
      |universe - visited'| < |universe - visited| ||
      (|universe - visited'| == |universe - visited| && |toBeVisited'| < |toBeVisited|)
  {
    var successors := Succ(succ, block);
    SuccessorsStayReachable(entry, succ, visited, block);
    VisitKeepsClosure(succ, visited, toBeVisited, block);
    assert successors <= universe by {
      if block in succ {
        assert succ[block] <= Targets(succ);
      }
    }
    if visited + successors != visited {
      FewerUnvisited(universe, visited, visited + successors);
    } else {
      assert successors - visited == {};
    }
  }

  /** The successors of a reachable block are reachable. */
  lemma SuccessorsStayReachable<B>(entry: B, succ: map<B, set<B>>, visited: set<B>, block: B)
    requires AllReachable(succ, {entry}, visited) && block in visited
    ensures AllReachable(succ, {entry}, visited + Succ(succ, block))
  {
    forall n | n in visited + Succ(succ, block)
      ensures Reachable(succ, {entry}, n)
    {
      if n !in visited {
        ReachableStep(succ, {entry}, block, n);
      }
    }
  }

  /** Taking `block` off the queue and visiting its successors keeps every block that
      has left the queue closed under successors. */
  lemma VisitKeepsClosure<B>(succ: map<B, set<B>>, visited: set<B>, toBeVisited: set<B>, block: B)
    requires toBeVisited <= visited && block in toBeVisited
    requires forall v | v in visited - toBeVisited :: Succ(succ, v) <= visited
    ensures forall v | v in (visited + Succ(succ, block)) - ((toBeVisited - {block}) + (Succ(succ, block) - visited)) ::
              Succ(succ, v) <= visited + Succ(succ, block)
  {
  }

  class Calculator<B(==), E(==)> {
    /** IN[n] for each block n the analysis visited. */
    var inSets: map<B, set<E>>
    /** OUT[n]; a local of `calculateAvailability`, kept so contracts can speak of it. */
    ghost var outSets: map<B, set<E>>

    /** The data-flow equations hold at block `b`. */
    ghost predicate SolvedAt(b: B, succ: map<B, set<B>>, gen: B -> set<E>, kill: B -> set<E>, all: set<E>)
      reads this
    {
      Holds(inSets, outSets, b, succ, gen, kill, all)
    }

    /** The calculator before `calculateAvailability` has run: the `inSets` field
        is not yet assigned. */
    constructor ()
      ensures inSets == map[] && outSets == map[]
    {
      inSets := map[];
      outSets := map[];
    }

    /** `new AvailabilityCalculator(entryBlock)`: the constructor runs
        `calculateAvailability`, here with the corrected in-set construction
        (`CreateInSets`), and an exception it raises leaves the caller with no
        calculator. `converged` says whether the worklist emptied within `fuel`
        steps. */
    static method New(entry: B, succ: map<B, set<B>>, gen: B -> set<E>, kill: B -> set<E>, all: set<E>, fuel: nat)
      returns (r: Result<Calculator<B, E>>, converged: bool)
      ensures r.Err? ==> r.error.NullPointer? && !converged
      ensures r.Ok? ==> fresh(r.value)
      ensures r.Ok? ==> forall b :: Reachable(succ, {entry}, b) ==> b in r.value.inSets
      ensures r.Ok? && converged ==>
                forall b | b in r.value.inSets && b != entry :: r.value.SolvedAt(b, succ, gen, kill, all)
      ensures r.Ok? && converged ==>
                r.value.SolvedAt(entry, succ, gen, kill, all) ||
                (entry in r.value.outSets && r.value.outSets[entry] == gen(entry))
    {
      var c := new Calculator();
      var run := c.CalculateAvailability(entry, succ, gen, kill, all, fuel);
      if run.Err? {
        return Err(run.error), false;
      }
      return Ok(c), run.value;
    }

    /** `createInSets`, corrected: an empty IN set for every block reachable from the
        entry, the entry included. */
    method CreateInSets(entry: B, succ: map<B, set<B>>)
      modifies this
      ensures forall b :: b in inSets <==> Reachable(succ, {entry}, b)
      ensures forall b | b in inSets :: inSets[b] == {}
      ensures outSets == old(outSets)
    {
      inSets := ExploreInSets(entry, succ);
    }

    /** `createInSets` as written: the blocks found are never queued, so only the
        entry's direct successors get an IN set. */
    method CreateInSetsAsWritten(entry: B, succ: map<B, set<B>>)
      modifies this
      ensures inSets.Keys == AsWrittenInSetKeys(succ, entry)
      ensures forall b | b in inSets :: inSets[b] == {}
      ensures outSets == old(outSets)
    {
      var visited: set<B> := {};
      var toBeVisited := {entry};
      var ins: map<B, set<E>> := map[];
      while toBeVisited != {}
        invariant (toBeVisited == {entry} && visited == {}) || (toBeVisited == {} && visited == Succ(succ, entry))
        invariant ins.Keys == visited && EmptyInSets(ins)
        invariant outSets == old(outSets)
        decreases |toBeVisited|
      {
        var block :| block in toBeVisited;
        toBeVisited := toBeVisited - {block};
        visited, ins := AddEmptyInSets(Succ(succ, block), visited, ins);
      }
      inSets := ins;
    }

    /** `calculateAvailability`: the IN sets, then the worklist. */
    method CalculateAvailability(entry: B, succ: map<B, set<B>>, gen: B -> set<E>, kill: B -> set<E>, all: set<E>, fuel: nat)
      returns (r: Result<bool>)
      modifies this
      ensures r.Err? ==> r.error.NullPointer?
      ensures r == Ok(true) ==> entry in inSets && forall b | b in inSets && b != entry :: SolvedAt(b, succ, gen, kill, all)
      ensures r == Ok(true) ==> SolvedAt(entry, succ, gen, kill, all) || (entry in outSets && outSets[entry] == gen(entry))
      ensures r.Ok? ==> forall b :: Reachable(succ, {entry}, b) ==> b in inSets
    {
      CreateInSets(entry, succ);
      StartIsReachable(succ, {entry}, entry);
      r := RunWorklist(entry, succ, gen, kill, all, fuel);
    }

    /** The meet over the predecessors' OUT sets; a predecessor without an OUT set is
        a null dereference. */
    static method MeetPredecessors(all: set<E>, preds: set<B>, outSets: map<B, set<E>>) returns (r: Result<set<E>>)
      ensures r.Ok? <==> preds <= outSets.Keys
      ensures r.Ok? ==> r.value == MeetOfPredecessors(all, preds, outSets)
      ensures r.Err? ==> r.error.NullPointer?
    {
      var acc := all;
      var rest := preds;
      while rest != {}
        invariant rest <= preds
        invariant preds - rest <= outSets.Keys
        invariant acc == set e | e in all && forall p | p in preds - rest :: e in outSets[p]
        decreases rest
      {
        var predecessor :| predecessor in rest;
        if predecessor !in outSets {
          return Err(NullPointer("no OUT set for a predecessor"));
        }
        rest := rest - {predecessor};
        acc := acc * outSets[predecessor];
      }
      r := Ok(acc);
    }

    /** The worklist loop of `calculateAvailability` (lines 36-96), run on the IN sets
        already created. `fuel` bounds the number of iterations; the result says
        whether the changed set became empty. */
    method RunWorklist(entry: B, succ: map<B, set<B>>, gen: B -> set<E>, kill: B -> set<E>, all: set<E>, fuel: nat)
      returns (r: Result<bool>)
      modifies this
      ensures (r.Err? && r.error.IllegalState?) <==> entry !in old(inSets)
      ensures r.Err? && r.error.IllegalState? ==> inSets == old(inSets)
      ensures r.Err? ==> r.error.IllegalState? || r.error.NullPointer?
      ensures old(inSets).Keys <= inSets.Keys
      ensures r == Ok(true) ==> forall b | b in inSets && b != entry :: SolvedAt(b, succ, gen, kill, all)
      ensures r == Ok(true) ==> entry in inSets && entry in outSets
      ensures r == Ok(true) ==> SolvedAt(entry, succ, gen, kill, all) || outSets[entry] == gen(entry)
    {
      var blocks := inSets.Keys;
      var out := map b | b in blocks :: all;
      out := out[entry := gen(entry)];
      var changed := blocks;
      if entry !in changed {
        return Err(IllegalState("entryBlock is not in set of all blocks."));
      }
      changed := changed - {entry};
      ghost var processed: set<B> := {};
      var steps := fuel;
      while changed != {} && steps > 0
        invariant blocks <= inSets.Keys && inSets.Keys == blocks + processed
        invariant blocks <= out.Keys && processed <= out.Keys
        invariant blocks - {entry} <= processed + changed
        invariant entry in out && (entry !in processed ==> out[entry] == gen(entry))
        invariant forall b | b in processed && b !in changed :: Holds(inSets, out, b, succ, gen, kill, all)
        decreases steps
      {
        steps := steps - 1;
        var block :| block in changed;
        ghost var changed0, in0, out0 := changed, inSets, out;
        changed := changed - {block};
        var meet := MeetPredecessors(all, Preds(succ, block), out);
        if meet.Err? {
          outSets := out;
          return Err(meet.error);
        }
        inSets := inSets[block := meet.value];
        var newOut := meet.value;
        newOut := newOut - kill(block);
        newOut := newOut + gen(block);
        if block !in out || newOut != out[block] {
          out := out[block := newOut];
          changed := changed + Succ(succ, block);
        }
        WorklistStep(in0, out0, inSets, out, processed, changed0, changed, block, succ, gen, kill, all);
        processed := processed + {block};
      }
      outSets := out;
      r := Ok(changed == {});
    }

    /** `getAvailableSubexpressionsOfBasicBlock`: the IN set of a block, or null. */
    function AvailableAt(b: B): (r: Option<set<E>>)
      reads this
      ensures r.Some? <==> b in inSets
      ensures r.Some? ==> r.value == inSets[b]
    {
      if b in inSets then Some(inSets[b]) else None
    }
  }

  /** One step of the worklist keeps the equations at every processed block that is
      not queued again. */
  lemma WorklistStep<B, E>(inS: map<B, set<E>>, out: map<B, set<E>>, inS': map<B, set<E>>, out': map<B, set<E>>,
                           processed: set<B>, changed: set<B>, changed': set<B>, block: B,
                           succ: map<B, set<B>>, gen: B -> set<E>, kill: B -> set<E>, all: set<E>)
    requires forall b | b in processed && b !in changed :: Holds(inS, out, b, succ, gen, kill, all)
    requires block in changed && Preds(succ, block) <= out.Keys
    requires inS' == inS[block := MeetOfPredecessors(all, Preds(succ, block), out)]
    requires var newOut := Transfer(inS'[block], kill(block), gen(block));
      (out' == out && changed' == changed - {block} && block in out && newOut == out[block]) ||
      (out' == out[block := newOut] && changed' == changed - {block} + Succ(succ, block))
    ensures forall b | b in processed + {block} && b !in changed' :: Holds(inS', out', b, succ, gen, kill, all)
  {
    forall b | b in processed + {block} && b !in changed'
      ensures Holds(inS', out', b, succ, gen, kill, all)
    {
      if out' != out {
        assert block !in Preds(succ, b);
        MeetOnlyReadsPredecessors(all, Preds(succ, b), out, out');
      }
    }
  }

  /** Visiting a new block leaves fewer blocks of the universe unvisited. */
  lemma FewerUnvisited<B>(universe: set<B>, visited: set<B>, visited': set<B>)
    requires visited <= visited' <= universe && visited' != visited
    ensures |universe - visited'| < |universe - visited|
  {
    var x :| x in visited' && x !in visited;
    var a, c := universe - visited, universe - visited';
    assert a == c + (a - c) && c * (a - c) == {};
    assert x in a - c;
  }

  /** A visited set holding the entry and closed under successors, all of whose
      members are reachable, is exactly the reachable set. */
  lemma ClosedSet<B>(succ: map<B, set<B>>, entry: B, visited: set<B>)
    requires entry in visited
    requires forall v | v in visited :: Succ(succ, v) <= visited
    ensures forall b :: Reachable(succ, {entry}, b) ==> b in visited
  {
    forall b | Reachable(succ, {entry}, b)
      ensures b in visited
    {
      ClosedSetHoldsReachable(succ, {entry}, visited, b);
    }
  }
}
