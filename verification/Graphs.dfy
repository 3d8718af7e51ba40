/** Walks and reachability over a relation on step ids. */
module Graphs {
  import opened Basics

  type Relation = (string, string) -> bool

  ghost predicate Walk(edge: Relation, w: seq<string>) {
    w != [] && forall i | 0 < i < |w| :: edge(w[i - 1], w[i])
  }

  ghost predicate Joins(edge: Relation, w: seq<string>, a: string, b: string) {
    Walk(edge, w) && w[0] == a && w[|w| - 1] == b
  }

  ghost predicate Reach(edge: Relation, a: string, b: string) {
    exists w :: Joins(edge, w, a, b)
  }

  lemma ReachSelf(edge: Relation, a: string)
    ensures Reach(edge, a, a)
  {
    assert Joins(edge, [a], a, a);
  }

  lemma ReachStep(edge: Relation, a: string, b: string, c: string)
    requires Reach(edge, a, b) && edge(b, c)
    ensures Reach(edge, a, c)
  {
    var w :| Joins(edge, w, a, b);
    assert Joins(edge, w + [c], a, c);
  }

  /** A set that holds the start and is closed under the relation holds everything reachable. */
  lemma {:induction false} ClosedSetHoldsWalk(edge: Relation, closed: set<string>, w: seq<string>)
    requires Walk(edge, w) && w[0] in closed
    requires forall a, b | a in closed && edge(a, b) :: b in closed
    ensures w[|w| - 1] in closed
  {
    if |w| > 1 {
      ClosedSetHoldsWalk(edge, closed, w[..|w| - 1]);
    }
  }

  /** No walk that starts at a vertex reachable from `start` comes back to a vertex it has visited. */
  ghost predicate AcyclicFrom(edge: Relation, live: Relation, start: string) {
    forall w | Walk(edge, w) && Reach(live, start, w[0]) :: NoDuplicates(w)
  }
}
