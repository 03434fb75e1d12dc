/** Reachability in a directed graph given by its successor lists. */
module Graphs {

  ghost predicate ReachesIn<T(!new)>(next: T -> seq<T>, source: T, goal: T, steps: nat) {
    if steps == 0 then source == goal
    else exists via :: via in next(source) && ReachesIn(next, via, goal, steps - 1)
  }

  /** There is a path of any length, including none, from `source` to `goal`. */
  ghost predicate Reaches<T(!new)>(next: T -> seq<T>, source: T, goal: T) {
    exists steps: nat :: ReachesIn(next, source, goal, steps)
  }

  /** There is a path of at least one step from `source` to `goal`. */
  ghost predicate Descends<T(!new)>(next: T -> seq<T>, source: T, goal: T) {
    exists via :: via in next(source) && Reaches(next, via, goal)
  }

  ghost predicate OnCycle<T(!new)>(next: T -> seq<T>, node: T) {
    Descends(next, node, node)
  }

  lemma {:induction false} ReachesUnfold<T(!new)>(next: T -> seq<T>, source: T, goal: T)
    ensures Reaches(next, source, goal) <==> source == goal || Descends(next, source, goal)
  {
    assert source == goal ==> ReachesIn(next, source, goal, 0);
    if Reaches(next, source, goal) && source != goal {
      var steps: nat :| ReachesIn(next, source, goal, steps);
      var via :| via in next(source) && ReachesIn(next, via, goal, steps - 1);
    }
    if Descends(next, source, goal) {
      var via :| via in next(source) && Reaches(next, via, goal);
      var steps: nat :| ReachesIn(next, via, goal, steps);
      assert ReachesIn(next, source, goal, steps + 1);
    }
  }

  lemma {:induction false} ReachesInThenReaches<T(!new)>(next: T -> seq<T>, a: T, b: T, c: T, steps: nat)
    requires ReachesIn(next, a, b, steps) && Reaches(next, b, c)
    ensures Reaches(next, a, c)
  {
    if steps != 0 {
      var via :| via in next(a) && ReachesIn(next, via, b, steps - 1);
      ReachesInThenReaches(next, via, b, c, steps - 1);
      ReachesUnfold(next, a, c);
    }
  }

  lemma {:induction false} ReachesTransitive<T(!new)>(next: T -> seq<T>, a: T, b: T, c: T)
    requires Reaches(next, a, b) && Reaches(next, b, c)
    ensures Reaches(next, a, c)
  {
    var steps: nat :| ReachesIn(next, a, b, steps);
    ReachesInThenReaches(next, a, b, c, steps);
  }

  /** What every successor inherits holds of everything reached. */
  lemma {:induction false} ReachesInherits<T(!new)>(next: T -> seq<T>, inherited: T -> bool, source: T, goal: T)
    requires forall x, y :: inherited(x) && y in next(x) ==> inherited(y)
    requires inherited(source) && Reaches(next, source, goal)
    ensures inherited(goal)
  {
    var steps: nat :| ReachesIn(next, source, goal, steps);
    StepsInherit(next, inherited, source, goal, steps);
  }

  lemma {:induction false} StepsInherit<T(!new)>(next: T -> seq<T>, inherited: T -> bool, source: T, goal: T,
                                                 steps: nat)
    requires forall x, y :: inherited(x) && y in next(x) ==> inherited(y)
    requires inherited(source) && ReachesIn(next, source, goal, steps)
    ensures inherited(goal)
  {
    if steps != 0 {
      var via :| via in next(source) && ReachesIn(next, via, goal, steps - 1);
      StepsInherit(next, inherited, via, goal, steps - 1);
    }
  }

  /**
   A path to a good goal is a path of another graph that keeps the links to good nodes, which only good
   nodes have.
   */
  lemma {:induction false} ReachesAlong<T(!new)>(next: T -> seq<T>, other: T -> seq<T>, good: T -> bool, source: T,
                                                 goal: T)
    requires forall x, y :: y in next(x) && good(y) ==> good(x) && y in other(x)
    requires Reaches(next, source, goal) && good(goal)
    ensures good(source) && Reaches(other, source, goal)
  {
    var steps: nat :| ReachesIn(next, source, goal, steps);
    StepsAlong(next, other, good, source, goal, steps);
  }

  lemma {:induction false} StepsAlong<T(!new)>(next: T -> seq<T>, other: T -> seq<T>, good: T -> bool, source: T,
                                               goal: T,
                                               steps: nat)
    requires forall x, y :: y in next(x) && good(y) ==> good(x) && y in other(x)
    requires ReachesIn(next, source, goal, steps) && good(goal)
    ensures good(source) && ReachesIn(other, source, goal, steps)
  {
    if steps != 0 {
      var via :| via in next(source) && ReachesIn(next, via, goal, steps - 1);
      StepsAlong(next, other, good, via, goal, steps - 1);
    }
  }
}
