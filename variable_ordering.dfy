/** A total order on variables (common/variableordering/VariableOrdering.java). The
    variables added so far form a singly linked chain from the newest (the tail) back
    to the first (the head); `order` maps each variable to its number, and `compare`
    compares numbers. */
module VariableOrderings {
  import opened Wrappers
  import opened Variables

  /** A link of the chain; the head has no next link. Java compares these by
      identity; here each added link is a separate element of `variables`. */
  datatype OrderedVariable = OrderedVariable(variable: Variable, next: Option<OrderedVariable>)

  /** The variables of a sequence of links, in the same order. */
  function VariablesOf(nodes: seq<OrderedVariable>): (r: seq<Variable>)
    ensures |r| == |nodes|
    ensures forall i | 0 <= i < |nodes| :: r[i] == nodes[i].variable
  {
    if |nodes| == 0 then [] else VariablesOf(nodes[..|nodes| - 1]) + [nodes[|nodes| - 1].variable]
  }

  /** Each link points to the one added just before it; the first has no link. */
  predicate Chained(nodes: seq<OrderedVariable>) {
    (|nodes| > 0 ==> nodes[0].next == None) &&
    forall i | 0 < i < |nodes| :: nodes[i].next == Some(nodes[i - 1])
  }

  /** The variables met walking from `n` towards the head, stopping before the head:
      the walk of `buildOrdering`. */
  function WalkToHead(n: OrderedVariable): seq<Variable>
    decreases n
  {
    if n.next.None? then [] else [n.variable] + WalkToHead(n.next.value)
  }

  /** The same walk, the head included. */
  function WalkAll(n: OrderedVariable): seq<Variable>
    decreases n
  {
    [n.variable] + if n.next.None? then [] else WalkAll(n.next.value)
  }

  /** `m` with `vs[0]` numbered `k`, `vs[1]` numbered `k + 1` and so on, a later put
      of the same variable replacing an earlier one. */
  function Numbered(m: map<Variable, int>, vs: seq<Variable>, k: int): map<Variable, int>
    decreases |vs|
  {
    if |vs| == 0 then m else Numbered(m[vs[0] := k], vs[1..], k + 1)
  }

  /** The variables numbered are the old ones and those of the walk. */
  lemma {:induction false} NumberedKeys(m: map<Variable, int>, vs: seq<Variable>, k: int, v: Variable)
    ensures v in Numbered(m, vs, k) <==> v in m || v in vs
    decreases |vs|
  {
    if |vs| > 0 {
      NumberedKeys(m[vs[0] := k], vs[1..], k + 1, v);
      assert v in vs <==> v == vs[0] || v in vs[1..];
    }
  }

  /** With no variable repeated, each gets its position in the walk plus `k`. */
  lemma {:induction false} NumberedPositions(m: map<Variable, int>, vs: seq<Variable>, k: int, i: nat)
    requires i < |vs| && forall a, b | 0 <= a < b < |vs| :: vs[a] != vs[b]
    ensures vs[i] in Numbered(m, vs, k) && Numbered(m, vs, k)[vs[i]] == k + i
    decreases |vs|
  {
    NumberedKeys(m[vs[0] := k], vs[1..], k + 1, vs[i]);
    if i == 0 {
      NumberedUntouched(m[vs[0] := k], vs[1..], k + 1, vs[0]);
    } else {
      NumberedPositions(m[vs[0] := k], vs[1..], k + 1, i - 1);
    }
  }

  lemma {:induction false} NumberedUntouched(m: map<Variable, int>, vs: seq<Variable>, k: int, v: Variable)
    requires v in m && v !in vs
    ensures v in Numbered(m, vs, k) && Numbered(m, vs, k)[v] == m[v]
    decreases |vs|
  {
    if |vs| > 0 {
      assert vs[0] != v;
      NumberedKeys(m[vs[0] := k], vs[1..], k + 1, v);
      NumberedUntouched(m[vs[0] := k], vs[1..], k + 1, v);
    }
  }

  /** The numbering `addToOrdering` builds when it is the only operation used: each
      variable gets the position at which it was last added. */
  function Insertions(vs: seq<Variable>): map<Variable, int> {
    if |vs| == 0 then map[] else Insertions(vs[..|vs| - 1])[vs[|vs| - 1] := |vs| - 1]
  }

  /** The position at which `v` was last added. */
  function LastIndex(vs: seq<Variable>, v: Variable): (k: nat)
    requires v in vs
    ensures k < |vs| && vs[k] == v && forall j | k < j < |vs| :: vs[j] != v
  {
    if vs[|vs| - 1] == v then |vs| - 1
    else
      assert v in vs[..|vs| - 1] by {
        var j :| 0 <= j < |vs| && vs[j] == v;
        assert vs[..|vs| - 1][j] == v;
      }
      LastIndex(vs[..|vs| - 1], v)
  }

  /** The numbering holds exactly the added variables, each at its last position. */
  lemma {:induction false} InsertionsAreLastPositions(vs: seq<Variable>, v: Variable)
    ensures v in Insertions(vs) <==> v in vs
    ensures v in vs ==> Insertions(vs)[v] == LastIndex(vs, v)
    decreases |vs|
  {
    if |vs| > 0 {
      var init := vs[..|vs| - 1];
      InsertionsAreLastPositions(init, v);
      assert vs == init + [vs[|vs| - 1]];
    }
  }

  /** `compare(x, y)`: 0 for equal variables; otherwise -1 or 1 by their numbers, and
      a NullPointerException when either has no number (the missing Integer is
      unboxed). */
  function CompareIn(order: map<Variable, int>, x: Variable, y: Variable): (r: Result<int>)
    ensures r.Ok? ==> r.value in {-1, 0, 1}
    ensures r == Ok(0) <==> x == y
    ensures r.Err? <==> x != y && (x !in order || y !in order)
  {
    if VariableEquals(x, y) then Ok(0)
    else if x !in order || y !in order then Err(NullPointer("compare: a variable with no number"))
    else Ok(if order[x] < order[y] then -1 else 1)
  }

  /** After adding some variables with `addToOrdering`, every two of them compare by
      when they were last added, and the comparison is antisymmetric and
      transitive: a strict total order on the added variables. */
  lemma {:induction false} CompareFollowsInsertion(vs: seq<Variable>, x: Variable, y: Variable)
    requires x in vs && y in vs && x != y
    ensures CompareIn(Insertions(vs), x, y) == Ok(if LastIndex(vs, x) < LastIndex(vs, y) then -1 else 1)
    ensures CompareIn(Insertions(vs), x, y).value == -CompareIn(Insertions(vs), y, x).value
  {
    InsertionsAreLastPositions(vs, x);
    InsertionsAreLastPositions(vs, y);
  }

  lemma {:induction false} CompareTransitive(vs: seq<Variable>, x: Variable, y: Variable, z: Variable)
    requires x in vs && y in vs && z in vs && x != y && y != z && x != z
    requires CompareIn(Insertions(vs), x, y) == Ok(-1) && CompareIn(Insertions(vs), y, z) == Ok(-1)
    ensures CompareIn(Insertions(vs), x, z) == Ok(-1)
  {
    CompareFollowsInsertion(vs, x, y);
    CompareFollowsInsertion(vs, y, z);
    CompareFollowsInsertion(vs, x, z);
  }

  /** On an ordering built by `addToOrdering` alone, the tail's variable always has a
      number, so `addToOrdering` never fails, and the new numbering is again the
      positions at which each variable was last added. */
  lemma {:induction false} AddToOrderingKeepsInsertions(nodes: seq<OrderedVariable>, v: Variable)
    requires Chained(nodes)
    ensures var order := Insertions(VariablesOf(nodes));
            var tail := if |nodes| == 0 then None else Some(nodes[|nodes| - 1]);
            var node := if |nodes| == 0 then OrderedVariable(v, None) else OrderedVariable(v, tail);
            (tail.None? || tail.value.variable in order) &&
            Chained(nodes + [node]) &&
            order[v := if tail.None? then 0 else order[tail.value.variable] + 1] ==
              Insertions(VariablesOf(nodes + [node]))
  {
    var added := VariablesOf(nodes);
    var tail := if |nodes| == 0 then None else Some(nodes[|nodes| - 1]);
    var node := if |nodes| == 0 then OrderedVariable(v, None) else OrderedVariable(v, tail);
    if |nodes| > 0 {
      InsertionsAreLastPositions(added, added[|added| - 1]);
      assert Insertions(added)[tail.value.variable] + 1 == |added|;
    }
    ChainedSnoc(nodes, node);
    VariablesOfSnoc(nodes, node);
    InsertionsSnoc(added, v);
  }

  lemma ChainedSnoc(nodes: seq<OrderedVariable>, node: OrderedVariable)
    requires Chained(nodes)
    requires node.next == if |nodes| == 0 then None else Some(nodes[|nodes| - 1])
    ensures Chained(nodes + [node])
  {
    var all := nodes + [node];
    forall i | 0 < i < |all| ensures all[i].next == Some(all[i - 1]) {
      if i < |nodes| {
        assert all[i] == nodes[i] && all[i - 1] == nodes[i - 1];
      }
    }
  }

  lemma InsertionsSnoc(vs: seq<Variable>, v: Variable)
    ensures Insertions(vs + [v]) == Insertions(vs)[v := |vs|]
  {
    assert (vs + [v])[..|vs|] == vs;
  }

  /** Walking a chain from its last link visits the added variables newest first. */
  lemma {:induction false} WalkAllIsNewestFirst(nodes: seq<OrderedVariable>, k: nat)
    requires Chained(nodes) && k < |nodes|
    ensures WalkAll(nodes[k]) == Reversed(VariablesOf(nodes[..k + 1]))
    ensures WalkToHead(nodes[k]) == Reversed(VariablesOf(nodes[1..k + 1]))
  {
    if k > 0 {
      WalkAllIsNewestFirst(nodes, k - 1);
      assert nodes[k].next == Some(nodes[k - 1]);
      assert VariablesOf(nodes[..k + 1]) == VariablesOf(nodes[..k]) + [nodes[k].variable];
      assert VariablesOf(nodes[1..k + 1]) == VariablesOf(nodes[1..k]) + [nodes[k].variable];
    } else {
      assert nodes[0].next == None;
      assert VariablesOf(nodes[1..1]) == [];
    }
  }

  function Reversed(vs: seq<Variable>): (r: seq<Variable>)
    ensures |r| == |vs| && forall i | 0 <= i < |vs| :: r[i] == vs[|vs| - 1 - i]
  {
    if |vs| == 0 then [] else [vs[|vs| - 1]] + Reversed(vs[..|vs| - 1])
  }

  class VariableOrdering {
    /** The links created so far, in the order they were added. */
    var variables: seq<OrderedVariable>
    var order: map<Variable, int>
    var tail: Option<OrderedVariable>

    /** The links form one chain and the tail is its newest link. */
    ghost predicate Valid()
      reads this
    {
      Chained(variables) && tail == if |variables| == 0 then None else Some(variables[|variables| - 1])
    }

    /** `BasicOrdering()`: an ordering with no variables. */
    constructor ()
      ensures variables == [] && order == map[] && tail == None && Valid()
    {
      variables := [];
      order := map[];
      tail := None;
    }

    /** `addVariable`: a new link at the tail; no number is given. */
    method AddVariable(v: Variable)
      modifies this
      ensures variables == old(variables) + [if |old(variables)| == 0 then OrderedVariable(v, None)
                                             else OrderedVariable(v, old(tail))]
      ensures tail == Some(variables[|variables| - 1]) && order == old(order)
      ensures old(Valid()) ==> Valid()
    {
      var orderedVariable := if |variables| == 0 then OrderedVariable(v, None) else OrderedVariable(v, tail);
      variables := variables + [orderedVariable];
      tail := Some(orderedVariable);
    }

    /** `addToOrdering`: a new link at the tail, numbered one more than the old tail's
        variable, or 0 for the first. A tail whose variable has no number is a
        NullPointerException, after the link was added and before the tail moved. */
    method AddToOrdering(v: Variable) returns (s: Status)
      modifies this
      ensures variables == old(variables) + [if |old(variables)| == 0 then OrderedVariable(v, None)
                                             else OrderedVariable(v, old(tail))]
      ensures old(tail).Some? && old(tail).value.variable !in old(order) ==>
                s.Failed? && s.error.NullPointer? && order == old(order) && tail == old(tail)
      ensures old(tail).None? || old(tail).value.variable in old(order) ==>
                s == Done && tail == Some(variables[|variables| - 1]) &&
                order == old(order)[v := if old(tail).None? then 0 else old(order)[old(tail).value.variable] + 1]
    {
      var orderedVariable := if |variables| == 0 then OrderedVariable(v, None) else OrderedVariable(v, tail);
      variables := variables + [orderedVariable];
      if tail.None? {
        order := order[v := 0];
      } else {
        if tail.value.variable !in order {
          return Failed(NullPointer("addToOrdering: the tail has no number"));
        }
        order := order[v := order[tail.value.variable] + 1];
      }
      tail := Some(orderedVariable);
      s := Done;
    }

    /** `buildOrdering` as written: numbers from 0 up along the walk from the tail,
        which stops before the head, so the first variable added gets no number; an
        ordering with no variables has no tail, a NullPointerException. */
    method BuildOrderingAsWritten() returns (s: Status)
      modifies this
      ensures variables == old(variables) && tail == old(tail) && (old(Valid()) ==> Valid())
      ensures tail.None? ==> s.Failed? && s.error.NullPointer? && order == old(order)
      ensures tail.Some? ==> s == Done && order == Numbered(old(order), WalkToHead(tail.value), 0)
    {
      if tail.None? {
        return Failed(NullPointer("buildOrdering: no tail"));
      }
      var value := 0;
      var orderedVariable := tail.value;
      while orderedVariable.next.Some?
        invariant variables == old(variables) && tail == old(tail)
        invariant Numbered(order, WalkToHead(orderedVariable), value) == Numbered(old(order), WalkToHead(tail.value), 0)
        decreases orderedVariable
      {
        assert WalkToHead(orderedVariable)[1..] == WalkToHead(orderedVariable.next.value);
        order := order[orderedVariable.variable := value];
        value := value + 1;
        orderedVariable := orderedVariable.next.value;
      }
      s := Done;
    }

    /** `buildOrdering` corrected: the walk numbers every link, the head included, and
        an ordering with no variables is left as it is. */
    method BuildOrdering()
      modifies this
      ensures variables == old(variables) && tail == old(tail) && (old(Valid()) ==> Valid())
      ensures tail.None? ==> order == old(order)
      ensures tail.Some? ==> order == Numbered(old(order), WalkAll(tail.value), 0)
    {
      if tail.None? {
        return;
      }
      var value := 0;
      var orderedVariable := tail.value;
      while true
        invariant variables == old(variables) && tail == old(tail)
        invariant Numbered(order, WalkAll(orderedVariable), value) == Numbered(old(order), WalkAll(tail.value), 0)
        decreases orderedVariable
      {
        assert WalkAll(orderedVariable)[1..] == if orderedVariable.next.None? then [] else WalkAll(orderedVariable.next.value);
        order := order[orderedVariable.variable := value];
        value := value + 1;
        if orderedVariable.next.None? {
          return;
        }
        orderedVariable := orderedVariable.next.value;
      }
    }

    /** `compare`. */
    method Compare(x: Variable, y: Variable) returns (r: Result<int>)
      ensures r == CompareIn(order, x, y)
    {
      if VariableEquals(x, y) {
        return Ok(0);
      }
      if x !in order || y !in order {
        return Err(NullPointer("compare: a variable with no number"));
      }
      r := if order[x] < order[y] then Ok(-1) else Ok(1);
    }
  }

  /** `BasicOrdering(order)` with the corrected `buildOrdering`: the variables of
      `other` are added in the unspecified order in which its hash set yields them,
      then numbered. Every variable of `other` gets a number, and nothing else. */
  method BasicOrderingOf(other: VariableOrdering) returns (o: VariableOrdering)
    ensures fresh(o) && o.Valid()
    ensures multiset(VariablesOf(o.variables)) == multiset(VariablesOf(other.variables))
    ensures forall v :: v in o.order <==> v in VariablesOf(other.variables)
  {
    var source := VariablesOf(other.variables);
    o := new VariableOrdering();
    AddAll(o, source);
    o.BuildOrdering();
    CopiedNumbers(o.variables, source, o.order);
  }

  /** The loop of `BasicOrdering(order)`: each of `source` is added with
      `addVariable`, in an order the model leaves open. */
  method AddAll(o: VariableOrdering, source: seq<Variable>)
    requires o.Valid()
    modifies o
    ensures o.Valid() && o.order == old(o.order)
    ensures multiset(VariablesOf(o.variables)) == multiset(VariablesOf(old(o.variables))) + multiset(source)
  {
    ghost var start := VariablesOf(o.variables);
    var pending := source;
    while pending != []
      invariant o.Valid() && o.order == old(o.order)
      invariant multiset(VariablesOf(o.variables)) + multiset(pending) == multiset(start) + multiset(source)
      decreases |pending|
    {
      var k :| 0 <= k < |pending|;
      ghost var before := o.variables;
      o.AddVariable(pending[k]);
      CopyStep(before, o.variables[|before|], pending, k, start + source);
      pending := pending[..k] + pending[k + 1..];
    }
  }

  /** A chain holding the variables of `vs`, walked by the corrected walk, numbers
      exactly those variables. */
  lemma {:induction false} CopiedNumbers(nodes: seq<OrderedVariable>, vs: seq<Variable>, order: map<Variable, int>)
    requires Chained(nodes) && multiset(VariablesOf(nodes)) == multiset(vs)
    requires order == if |nodes| == 0 then map[] else Numbered(map[], WalkAll(nodes[|nodes| - 1]), 0)
    ensures forall v :: v in order <==> v in vs
  {
    forall v
      ensures v in order <==> v in vs
    {
      if |nodes| > 0 {
        CorrectedCopyKeys(nodes, v);
      }
      assert v in VariablesOf(nodes) <==> v in multiset(VariablesOf(nodes));
      assert v in vs <==> v in multiset(vs);
    }
  }

  lemma {:induction false} VariablesOfSnoc(nodes: seq<OrderedVariable>, n: OrderedVariable)
    ensures VariablesOf(nodes + [n]) == VariablesOf(nodes) + [n.variable]
  {
    assert (nodes + [n])[..|nodes|] == nodes;
  }

  /** One more link for a pending variable keeps the copied and the pending ones
      together equal to the source. */
  lemma CopyStep(before: seq<OrderedVariable>, node: OrderedVariable, pending: seq<Variable>, k: nat, source: seq<Variable>)
    requires k < |pending| && node.variable == pending[k]
    requires multiset(VariablesOf(before)) + multiset(pending) == multiset(source)
    ensures multiset(VariablesOf(before + [node])) + multiset(pending[..k] + pending[k + 1..]) == multiset(source)
  {
    VariablesOfSnoc(before, node);
    MoveOne(VariablesOf(before), pending, k);
  }

  /** Moving one pending variable to the copied ones keeps the two together. */
  lemma {:induction false} MoveOne(copied: seq<Variable>, pending: seq<Variable>, k: nat)
    requires k < |pending|
    ensures multiset(copied + [pending[k]]) + multiset(pending[..k] + pending[k + 1..]) ==
            multiset(copied) + multiset(pending)
  {
    assert pending == pending[..k] + [pending[k]] + pending[k + 1..];
  }

  /** The corrected walk numbers exactly the variables of the chain. */
  lemma {:induction false} CorrectedCopyKeys(nodes: seq<OrderedVariable>, v: Variable)
    requires Chained(nodes) && |nodes| > 0
    ensures v in Numbered(map[], WalkAll(nodes[|nodes| - 1]), 0) <==> v in VariablesOf(nodes)
  {
    NumberedKeys(map[], WalkAll(nodes[|nodes| - 1]), 0, v);
    WalkAllIsNewestFirst(nodes, |nodes| - 1);
    assert nodes[..|nodes|] == nodes;
    ReversedSameElements(VariablesOf(nodes), v);
  }

  lemma {:induction false} ReversedSameElements(vs: seq<Variable>, v: Variable)
    ensures v in Reversed(vs) <==> v in vs
  {
    if v in vs {
      var i :| 0 <= i < |vs| && vs[i] == v;
      assert Reversed(vs)[|vs| - 1 - i] == v;
    }
    if v in Reversed(vs) {
      var i :| 0 <= i < |vs| && Reversed(vs)[i] == v;
    }
  }

  /** Copying the ordering of `x` then `y`: as written the walk from the tail stops
      at the head `x`, so the copy numbers only `y` and comparing `x` with `y` is a
      NullPointerException; the corrected walk numbers both, and the comparison
      succeeds. */
  lemma {:induction false} CopyAsWrittenLosesHead(x: Variable, y: Variable)
    requires x != y
    ensures var tail := OrderedVariable(y, Some(OrderedVariable(x, None)));
            var asWritten := Numbered(map[], WalkToHead(tail), 0);
            var corrected := Numbered(map[], WalkAll(tail), 0);
            asWritten == map[y := 0] && CompareIn(asWritten, x, y).Err? &&
            corrected == map[y := 0, x := 1] && CompareIn(corrected, x, y) == Ok(1)
  {
    var head := OrderedVariable(x, None);
    var tail := OrderedVariable(y, Some(head));
    assert WalkToHead(tail) == [y];
    assert Numbered(map[y := 0], [y][1..], 1) == map[y := 0];
    assert WalkAll(tail) == [y, x];
    assert Numbered(map[y := 0], [y, x][1..], 1) == Numbered(map[y := 0, x := 1], [], 2);
  }

  lemma ReversedDistinct(vs: seq<Variable>)
    requires forall a, b | 0 <= a < b < |vs| :: vs[a] != vs[b]
    ensures forall a, b | 0 <= a < b < |vs| :: Reversed(vs)[a] != Reversed(vs)[b]
  {
    var r := Reversed(vs);
    forall a, b | 0 <= a < b < |vs|
      ensures r[a] != r[b]
    {
      assert r[a] == vs[|vs| - 1 - a] && r[b] == vs[|vs| - 1 - b];
    }
  }

  /** With distinct variables added, the corrected copy numbers the newest 0 and the
      first `|variables| - 1`: the reverse of the order they were added in. */
  lemma {:induction false} CorrectedCopyNumbersNewestFirst(nodes: seq<OrderedVariable>, i: nat)
    requires Chained(nodes) && i < |nodes|
    requires forall a, b | 0 <= a < b < |nodes| :: nodes[a].variable != nodes[b].variable
    ensures var order := Numbered(map[], WalkAll(nodes[|nodes| - 1]), 0);
            nodes[i].variable in order && order[nodes[i].variable] == |nodes| - 1 - i
  {
    var n := |nodes| - 1;
    var vs := VariablesOf(nodes);
    WalkAllIsNewestFirst(nodes, n);
    assert nodes[..n + 1] == nodes;
    var w := WalkAll(nodes[n]);
    ReversedDistinct(vs);
    assert w[n - i] == vs[i];
    NumberedPositions(map[], w, 0, n - i);
  }
}
