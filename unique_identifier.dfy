/** Dense identifiers for items (common/UniqueIdentifier.java): the first time an
    item is seen it gets the next number, starting at 0, and it keeps that number. */
module UniqueIdentifiers {

  /** The elements of `s` are pairwise distinct. */
  predicate NoRepeats<T(==)>(s: seq<T>) {
    forall i, j | 0 <= i < j < |s| :: s[i] != s[j]
  }

  class UniqueIdentifier<T(==)> {
    var id: int
    var ids: map<T, int>
    /** The items in the order they were first seen. */
    ghost var seen: seq<T>

    /** The counter is the number of items seen, the map holds exactly those items,
        and each maps to its position in first-seen order. */
    ghost predicate Valid()
      reads this
    {
      id == |seen| && NoRepeats(seen) &&
      (forall x | x in ids :: x in seen) &&
      (forall i | 0 <= i < |seen| :: seen[i] in ids && ids[seen[i]] == i)
    }

    constructor ()
      ensures Valid() && seen == [] && ids == map[] && id == 0
    {
      id := 0;
      ids := map[];
      seen := [];
    }

    /** `getId`: a known item keeps its number; a new one gets the counter, which then
        moves on. */
    method GetId(item: T) returns (r: int)
      requires Valid()
      modifies this
      ensures Valid()
      ensures item in old(ids) ==> r == old(ids)[item] && ids == old(ids) && id == old(id) && seen == old(seen)
      ensures item !in old(ids) ==> r == old(id) && ids == old(ids)[item := r] && id == old(id) + 1 &&
                                    seen == old(seen) + [item]
      ensures 0 <= r < id && seen[r] == item
    {
      if item !in ids {
        ids := ids[item := id];
        seen := seen + [item];
        id := id + 1;
      }
      r := ids[item];
    }
  }

  /** Two items get the same number exactly when they are equal, and the numbers in
      use are exactly 0 up to the counter. */
  lemma IdsIdentifyItems<T>(u: UniqueIdentifier<T>, x: T, y: T)
    requires u.Valid() && x in u.ids && y in u.ids
    ensures u.ids[x] == u.ids[y] <==> x == y
    ensures 0 <= u.ids[x] < u.id
  {
    var i :| 0 <= i < |u.seen| && u.seen[i] == x;
    var j :| 0 <= j < |u.seen| && u.seen[j] == y;
  }

  /** Every number below the counter has been handed out. */
  lemma IdsAreDense<T>(u: UniqueIdentifier<T>, k: int)
    requires u.Valid() && 0 <= k < u.id
    ensures exists x | x in u.ids :: u.ids[x] == k
  {
    assert u.seen[k] in u.ids;
  }
}
