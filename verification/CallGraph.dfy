/** Directed graphs as successor maps, and reachability by explicit paths.
    The three call-graph analyses all specify what they compute with `Reaches`. */
module CallGraph {

  // A node outside the domain has no successors.
  type Graph<!N> = map<N, set<N>>

  ghost predicate Edge<N>(g: Graph<N>, a: N, b: N) {
    a in g && b in g[a]
  }

  ghost predicate IsPath<N>(g: Graph<N>, p: seq<N>) {
    && p != []
    && forall i {:trigger p[i]} :: 0 < i < |p| ==> Edge(g, p[i - 1], p[i])
  }

  ghost predicate PathFromTo<N>(g: Graph<N>, p: seq<N>, a: N, b: N) {
    IsPath(g, p) && p[0] == a && p[|p| - 1] == b
  }

  ghost predicate Reaches<N(!new)>(g: Graph<N>, a: N, b: N) {
    exists p :: PathFromTo(g, p, a, b)
  }

  // a lies on a cycle: one of its successors leads back to it.
  ghost predicate OnCycle<N(!new)>(g: Graph<N>, a: N) {
    exists c :: Edge(g, a, c) && Reaches(g, c, a)
  }

  ghost predicate Closed<N(!new)>(g: Graph<N>, s: set<N>) {
    forall a, b :: a in s && Edge(g, a, b) ==> b in s
  }

  lemma ReachRefl<N(!new)>(g: Graph<N>, a: N)
    ensures Reaches(g, a, a)
  {
    assert PathFromTo(g, [a], a, a);
  }

  lemma ReachStep<N(!new)>(g: Graph<N>, a: N, b: N, c: N)
    requires Reaches(g, a, b) && Edge(g, b, c)
    ensures Reaches(g, a, c)
  {
    var p :| PathFromTo(g, p, a, b);
    assert PathFromTo(g, p + [c], a, c);
  }

  lemma ReachTrans<N(!new)>(g: Graph<N>, a: N, b: N, c: N)
    requires Reaches(g, a, b) && Reaches(g, b, c)
    ensures Reaches(g, a, c)
  {
    var p :| PathFromTo(g, p, a, b);
    var q :| PathFromTo(g, q, b, c);
    var r := p + q[1..];
    forall i | 0 < i < |r| ensures Edge(g, r[i - 1], r[i]) {
      if i == |p| {
        assert Edge(g, q[0], q[1]);
      } else if i > |p| {
        assert r[i] == q[i - |p| + 1] && r[i - 1] == q[i - |p|];
      }
    }
    assert PathFromTo(g, r, a, c);
  }

  lemma EdgeReaches<N(!new)>(g: Graph<N>, a: N, b: N)
    requires Edge(g, a, b)
    ensures Reaches(g, a, b)
  {
    assert PathFromTo(g, [a, b], a, b);
  }

  // A proper walk starts with an edge.
  lemma ReachFirst<N(!new)>(g: Graph<N>, a: N, b: N)
    requires Reaches(g, a, b)
    ensures a == b || exists c :: Edge(g, a, c) && Reaches(g, c, b)
  {
    var p :| PathFromTo(g, p, a, b);
    if |p| > 1 {
      assert Edge(g, p[0], p[1]);
      assert forall i {:trigger p[1..][i]} :: 0 < i < |p| - 1 ==> p[1..][i] == p[i + 1] && p[1..][i - 1] == p[i];
      assert PathFromTo(g, p[1..], p[1], b);
    }
  }

  // ... and ends with one.
  lemma ReachLast<N(!new)>(g: Graph<N>, a: N, b: N)
    requires Reaches(g, a, b)
    ensures a == b || exists c :: Reaches(g, a, c) && Edge(g, c, b)
  {
    var p :| PathFromTo(g, p, a, b);
    if |p| > 1 {
      assert PathFromTo(g, p[..|p| - 1], a, p[|p| - 2]);
    }
  }

  lemma PathPieceReaches<N(!new)>(g: Graph<N>, p: seq<N>, i: nat, j: nat)
    requires IsPath(g, p) && i <= j < |p|
    ensures Reaches(g, p[i], p[j])
  {
    var q := p[i..j + 1];
    forall k | 0 < k < |q| ensures Edge(g, q[k - 1], q[k]) {
      assert q[k] == p[i + k] && q[k - 1] == p[i + k - 1];
    }
    assert PathFromTo(g, q, p[i], p[j]);
  }

  // A successor-closed set holds everything reachable from its members.
  lemma {:induction false} ClosedHoldsReach<N(!new)>(g: Graph<N>, s: set<N>, a: N, b: N)
    requires Closed(g, s) && a in s && Reaches(g, a, b)
    ensures b in s
  {
    var p :| PathFromTo(g, p, a, b);
    var i := 0;
    while i + 1 < |p|
      invariant 0 <= i < |p| && p[i] in s
    {
      assert Edge(g, p[i], p[i + 1]);
      i := i + 1;
    }
  }

  // A repetition on a path is a cycle.
  lemma RepeatIsCycle<N(!new)>(g: Graph<N>, p: seq<N>, i: nat, j: nat)
    requires IsPath(g, p) && i < j < |p| && p[i] == p[j]
    ensures OnCycle(g, p[i])
  {
    assert Edge(g, p[i], p[i + 1]);
    PathPieceReaches(g, p, i + 1, j);
  }

  ghost predicate Distinct<N>(p: seq<N>) {
    forall i, j :: 0 <= i < j < |p| ==> p[i] != p[j]
  }

  // Pigeonhole: a repetition-free sequence over a finite set is no longer than the set.
  lemma {:induction false} DistinctBound<N>(p: seq<N>, s: set<N>)
    requires Distinct(p) && forall i :: 0 <= i < |p| ==> p[i] in s
    ensures |p| <= |s|
  {
    if p != [] {
      var last := p[|p| - 1];
      DistinctBound(p[..|p| - 1], s - {last});
    }
  }
}
