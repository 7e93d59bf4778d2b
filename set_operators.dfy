/** Set algebra over families of sets (common/SetOperators.java). Each operation
    copies its first argument into a fresh set and then folds the rest into it. */
module SetOperators {

  /** `seed` with every set of `sets` retained in turn. */
  function MeetAll<T>(seed: set<T>, sets: seq<set<T>>): set<T>
    decreases |sets|
  {
    if |sets| == 0 then seed else MeetAll(seed, sets[..|sets| - 1]) * sets[|sets| - 1]
  }

  /** `seed` with every set of `sets` added in turn. */
  function JoinAll<T>(seed: set<T>, sets: seq<set<T>>): set<T>
    decreases |sets|
  {
    if |sets| == 0 then seed else JoinAll(seed, sets[..|sets| - 1]) + sets[|sets| - 1]
  }

  /** `Iterables.getFirst(sets, {})`. */
  function First<T>(sets: seq<set<T>>): set<T> {
    if |sets| == 0 then {} else sets[0]
  }

  /** An element survives the meet exactly when the seed and every set hold it. */
  lemma {:induction false} MeetAllMembership<T>(seed: set<T>, sets: seq<set<T>>, x: T)
    ensures x in MeetAll(seed, sets) <==> x in seed && forall i | 0 <= i < |sets| :: x in sets[i]
    decreases |sets|
  {
    if |sets| > 0 {
      var init := sets[..|sets| - 1];
      MeetAllMembership(seed, init, x);
      assert forall i | 0 <= i < |init| :: init[i] == sets[i];
    }
  }

  /** An element is in the join exactly when the seed or some set holds it. */
  lemma {:induction false} JoinAllMembership<T>(seed: set<T>, sets: seq<set<T>>, x: T)
    ensures x in JoinAll(seed, sets) <==> x in seed || exists i | 0 <= i < |sets| :: x in sets[i]
    decreases |sets|
  {
    if |sets| > 0 {
      var init := sets[..|sets| - 1];
      JoinAllMembership(seed, init, x);
      assert forall i | 0 <= i < |init| :: init[i] == sets[i];
      if x in sets[|sets| - 1] {
        assert exists i | 0 <= i < |sets| :: x in sets[i];
      }
    }
  }

  /** `intersection(sets)`: the elements common to every set; empty for no sets. */
  method Intersection<T>(sets: seq<set<T>>) returns (r: set<T>)
    ensures r == MeetAll(First(sets), sets)
  {
    r := First(sets);
    var i := 0;
    while i < |sets|
      invariant 0 <= i <= |sets|
      invariant r == MeetAll(First(sets), sets[..i])
    {
      assert sets[..i + 1][..i] == sets[..i];
      r := r * sets[i];
      i := i + 1;
    }
    assert sets[..|sets|] == sets;
  }

  /** `union(sets)`: the elements of any set. */
  method Union<T>(sets: seq<set<T>>) returns (r: set<T>)
    ensures r == JoinAll(First(sets), sets)
  {
    r := First(sets);
    var i := 0;
    while i < |sets|
      invariant 0 <= i <= |sets|
      invariant r == JoinAll(First(sets), sets[..i])
    {
      assert sets[..i + 1][..i] == sets[..i];
      r := r + sets[i];
      i := i + 1;
    }
    assert sets[..|sets|] == sets;
  }

  /** `difference(start, toRemove)`. */
  method Difference<T>(start: set<T>, toRemove: set<T>) returns (r: set<T>)
    ensures forall x :: x in r <==> x in start && x !in toRemove
  {
    r := start;
    r := r - toRemove;
  }

  /** The intersection is contained in every input set, holds whatever they all hold,
      and is empty for an empty family. */
  lemma IntersectionIsGreatestLowerBound<T>(sets: seq<set<T>>)
    ensures forall i | 0 <= i < |sets| :: MeetAll(First(sets), sets) <= sets[i]
    ensures forall x :: x in MeetAll(First(sets), sets) <==> |sets| > 0 && forall i | 0 <= i < |sets| :: x in sets[i]
    ensures |sets| == 0 ==> MeetAll(First(sets), sets) == {}
  {
    forall x
      ensures x in MeetAll(First(sets), sets) <==> x in First(sets) && forall i | 0 <= i < |sets| :: x in sets[i]
    {
      MeetAllMembership(First(sets), sets, x);
    }
  }

  /** The union holds exactly the elements of the inputs. */
  lemma UnionIsExact<T>(sets: seq<set<T>>)
    ensures forall x :: x in JoinAll(First(sets), sets) <==> exists i | 0 <= i < |sets| :: x in sets[i]
  {
    forall x
      ensures x in JoinAll(First(sets), sets) <==> x in First(sets) || exists i | 0 <= i < |sets| :: x in sets[i]
    {
      JoinAllMembership(First(sets), sets, x);
    }
  }
}
