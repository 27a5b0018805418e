/** Listing a set of positions in increasing order. */
module Listing {

  /** `ps` names every position of the set, each once and the smaller before the larger. */
  ghost predicate Lists(ps: seq<int>, positions: set<int>) {
    && (forall i, j | 0 <= i < j < |ps| :: ps[i] < ps[j])
    && (forall p :: p in ps <==> p in positions)
  }

  lemma ListsFirst(ps: seq<int>, positions: set<int>, first: int)
    requires Lists(ps, positions) && first in positions && forall p | p in positions :: first <= p
    ensures ps != [] && ps[0] == first && Lists(ps[1..], positions - {first})
  {
    assert first in ps && ps[0] in ps;
  }

  lemma ListsNothing(ps: seq<int>, positions: set<int>)
    requires Lists(ps, positions)
    ensures positions == {} ==> ps == []
    ensures forall p | p in positions :: ps != []
  {
    assert ps == [] || ps[0] in ps;
    assert forall p | p in positions :: p in ps;
  }
}
