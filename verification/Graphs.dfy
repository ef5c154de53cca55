/** Reachability in a directed graph given by its successor function. */
module Graphs {

  ghost predicate InSteps<N>(succ: N -> set<N>, a: N, b: N, n: nat) {
    if n == 0 then a == b
    else exists c :: c in succ(a) && InSteps(succ, c, b, n - 1)
  }

  ghost predicate Reaches<N>(succ: N -> set<N>, a: N, b: N) {
    exists n: nat :: InSteps(succ, a, b, n)
  }

  ghost predicate ReachedFrom<N>(succ: N -> set<N>, roots: set<N>, b: N) {
    exists a :: a in roots && Reaches(succ, a, b)
  }

  ghost predicate IsClosed<N>(succ: N -> set<N>, s: set<N>) {
    forall a :: a in s ==> succ(a) <= s
  }

  lemma ReachesSelf<N>(succ: N -> set<N>, a: N)
    ensures Reaches(succ, a, a)
  {
    assert InSteps(succ, a, a, 0);
  }

  /** One edge in front of a path. */
  lemma ReachesAfterEdge<N>(succ: N -> set<N>, a: N, b: N, c: N)
    requires b in succ(a) && Reaches(succ, b, c)
    ensures Reaches(succ, a, c)
  {
    var n: nat :| InSteps(succ, b, c, n);
    assert InSteps(succ, a, c, n + 1);
  }

  lemma {:induction false} JoinSteps<N>(succ: N -> set<N>, a: N, b: N, c: N, m: nat, n: nat)
    requires InSteps(succ, a, b, m) && InSteps(succ, b, c, n)
    ensures InSteps(succ, a, c, m + n)
    decreases m
  {
    if m > 0 {
      var d :| d in succ(a) && InSteps(succ, d, b, m - 1);
      JoinSteps(succ, d, b, c, m - 1, n);
    }
  }

  lemma ReachesTransitive<N>(succ: N -> set<N>, a: N, b: N, c: N)
    requires Reaches(succ, a, b) && Reaches(succ, b, c)
    ensures Reaches(succ, a, c)
  {
    var m: nat :| InSteps(succ, a, b, m);
    var n: nat :| InSteps(succ, b, c, n);
    JoinSteps(succ, a, b, c, m, n);
  }

  lemma ReachesEdge<N>(succ: N -> set<N>, a: N, b: N)
    requires b in succ(a)
    ensures Reaches(succ, a, b)
  {
    ReachesSelf(succ, b);
    ReachesAfterEdge(succ, a, b, b);
  }

  lemma {:induction false} StepsWithMoreEdges<N>(few: N -> set<N>, more: N -> set<N>, a: N, b: N, n: nat)
    requires (forall x :: few(x) <= more(x)) && InSteps(few, a, b, n)
    ensures InSteps(more, a, b, n)
  {
    if n > 0 {
      var c :| c in few(a) && InSteps(few, c, b, n - 1);
      StepsWithMoreEdges(few, more, c, b, n - 1);
    }
  }

  lemma ReachesWithMoreEdges<N>(few: N -> set<N>, more: N -> set<N>, a: N, b: N)
    requires (forall x :: few(x) <= more(x)) && Reaches(few, a, b)
    ensures Reaches(more, a, b)
  {
    var n: nat :| InSteps(few, a, b, n);
    StepsWithMoreEdges(few, more, a, b, n);
  }

  lemma {:induction false} StepsStayInClosed<N>(succ: N -> set<N>, s: set<N>, a: N, b: N, n: nat)
    requires IsClosed(succ, s) && a in s && InSteps(succ, a, b, n)
    ensures b in s
    decreases n
  {
    if n > 0 {
      var c :| c in succ(a) && InSteps(succ, c, b, n - 1);
      StepsStayInClosed(succ, s, c, b, n - 1);
    }
  }

  /** A closed set that holds the roots holds everything reached from them. */
  lemma ClosedHoldsReached<N>(succ: N -> set<N>, roots: set<N>, s: set<N>, b: N)
    requires IsClosed(succ, s) && roots <= s && ReachedFrom(succ, roots, b)
    ensures b in s
  {
    var a :| a in roots && Reaches(succ, a, b);
    var n: nat :| InSteps(succ, a, b, n);
    StepsStayInClosed(succ, s, a, b, n);
  }

  /** A set that holds the roots, is closed, and holds only reached nodes is what is reached. */
  lemma ClosedAndReached<N>(succ: N -> set<N>, roots: set<N>, s: set<N>)
    requires IsClosed(succ, s) && roots <= s
    requires forall b | b in s :: ReachedFrom(succ, roots, b)
    ensures forall b :: b in s <==> ReachedFrom(succ, roots, b)
  {
    forall b | ReachedFrom(succ, roots, b)
      ensures b in s
    {
      ClosedHoldsReached(succ, roots, s, b);
    }
  }
}
