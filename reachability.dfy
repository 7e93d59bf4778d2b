/** Reachability over a successor map, shared by the depth-first search and by the
    construction of the availability analysis' IN sets. */
module Reachability {

  /** The successors of `n`; a node that is not a key has none. */
  function Succ<N>(g: map<N, set<N>>, n: N): set<N> {
    if n in g then g[n] else {}
  }

  /** Every node that is a successor of some node. */
  function Targets<N>(g: map<N, set<N>>): (r: set<N>)
    ensures forall n | n in g :: g[n] <= r
  {
    set n, m | n in g && m in g[n] :: m
  }

  /** `n` is a start or is reached from one along at most `k` edges. */
  ghost predicate ReachableWithin<N>(g: map<N, set<N>>, starts: set<N>, n: N, k: nat)
    decreases k
  {
    n in starts || (k > 0 && exists m | m in g && n in g[m] :: ReachableWithin(g, starts, m, k - 1))
  }

  /** `n` is reached from some start along edges of `g` (every start reaches itself). */
  ghost predicate Reachable<N>(g: map<N, set<N>>, starts: set<N>, n: N) {
    exists k: nat :: ReachableWithin(g, starts, n, k)
  }

  /** Every node of `xs` is reachable from `starts`. */
  ghost predicate AllReachable<N>(g: map<N, set<N>>, starts: set<N>, xs: set<N>) {
    forall x | x in xs :: Reachable(g, starts, x)
  }

  lemma StartIsReachable<N>(g: map<N, set<N>>, starts: set<N>, n: N)
    requires n in starts
    ensures Reachable(g, starts, n)
  {
    assert ReachableWithin(g, starts, n, 0);
  }

  lemma ReachableStep<N>(g: map<N, set<N>>, starts: set<N>, n: N, m: N)
    requires Reachable(g, starts, n) && m in Succ(g, n)
    ensures Reachable(g, starts, m)
  {
    var k: nat :| ReachableWithin(g, starts, n, k);
    assert ReachableWithin(g, starts, m, k + 1);
  }

  /** A set that holds the starts and is closed under successors holds every node
      reached within `k` edges. */
  lemma {:induction false} ClosedSetHoldsReachableWithin<N>(g: map<N, set<N>>, starts: set<N>, s: set<N>, n: N, k: nat)
    requires starts <= s
    requires forall v | v in s :: Succ(g, v) <= s
    requires ReachableWithin(g, starts, n, k)
    ensures n in s
  {
    if n !in starts {
      var m :| m in g && n in g[m] && ReachableWithin(g, starts, m, k - 1);
      ClosedSetHoldsReachableWithin(g, starts, s, m, k - 1);
      assert n in Succ(g, m);
    }
  }

  lemma ClosedSetHoldsReachable<N>(g: map<N, set<N>>, starts: set<N>, s: set<N>, n: N)
    requires starts <= s
    requires forall v | v in s :: Succ(g, v) <= s
    requires Reachable(g, starts, n)
    ensures n in s
  {
    var k: nat :| ReachableWithin(g, starts, n, k);
    ClosedSetHoldsReachableWithin(g, starts, s, n, k);
  }

  /** What a reachable node reaches is reachable. */
  lemma {:induction false} ReachableWithinTransitive<N>(g: map<N, set<N>>, starts: set<N>, c: N, m: N, k: nat)
    requires Reachable(g, starts, c) && ReachableWithin(g, {c}, m, k)
    ensures Reachable(g, starts, m)
  {
    if m != c {
      var p :| p in g && m in g[p] && ReachableWithin(g, {c}, p, k - 1);
      ReachableWithinTransitive(g, starts, c, p, k - 1);
      ReachableStep(g, starts, p, m);
    }
  }

  lemma ReachableTransitive<N>(g: map<N, set<N>>, starts: set<N>, c: N, m: N)
    requires Reachable(g, starts, c) && Reachable(g, {c}, m)
    ensures Reachable(g, starts, m)
  {
    var k: nat :| ReachableWithin(g, {c}, m, k);
    ReachableWithinTransitive(g, starts, c, m, k);
  }
}
