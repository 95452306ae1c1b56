/** The memoising Crucible-safety analyzer (src/transform/crucible_safety.rs).

    A module is a map from symbol to body; a body is the sequence of its lines as
    `classify_instruction` sees them. The analyzer answers with a cache that outlives
    a query and a visited set that does not. */
module CrucibleSafety {
  import opened CallGraph

  type Name = string

  datatype Inst = Safe | Unsafe(reason: string) | Call(callees: seq<Name>)

  type Bodies = map<Name, seq<Inst>>

  // Why a symbol was refused: the structure behind the source's diagnostic text.
  datatype Why =
    | RecursiveCall(n: Name)
    | NoBody(n: Name)
    | Forbidden(reason: string)
    | Transitive(callee: Name, why: Why)

  datatype Report = SafeReport | UnsafeReport(why: Why)

  // ---------------------------------------------------------------- specification

  ghost function Callees(body: seq<Inst>): set<Name> {
    set i, j | 0 <= i < |body| && body[i].Call? && 0 <= j < |body[i].callees| :: body[i].callees[j]
  }

  ghost function GraphOf(bodies: Bodies): Graph<Name> {
    map n | n in bodies :: Callees(bodies[n])
  }

  // Defined, and every line on the allow-list.
  ghost predicate Allowed(bodies: Bodies, n: Name) {
    n in bodies && forall i :: 0 <= i < |bodies[n]| ==> !bodies[n][i].Unsafe?
  }

  // Everything reachable is defined, allowed, off every cycle and outside `avoid`.
  ghost predicate SafeAvoiding(bodies: Bodies, avoid: set<Name>, n: Name) {
    forall b :: Reaches(GraphOf(bodies), n, b) ==>
      Allowed(bodies, b) && !OnCycle(GraphOf(bodies), b) && b !in avoid
  }

  ghost predicate SafeIn(bodies: Bodies, n: Name) {
    SafeAvoiding(bodies, {}, n)
  }

  // The diagnostic names a real defect at the end of a real chain of calls from n.
  ghost predicate Justifies(bodies: Bodies, avoid: set<Name>, n: Name, why: Why)
    decreases why
  {
    match why
    case RecursiveCall(m) => m == n && (n in avoid || OnCycle(GraphOf(bodies), n))
    case NoBody(m) => m == n && n !in bodies
    case Forbidden(reason) => n in bodies && Unsafe(reason) in bodies[n]
    case Transitive(c, w) => Edge(GraphOf(bodies), n, c) && Justifies(bodies, avoid, c, w)
  }

  ghost predicate Exact(bodies: Bodies, avoid: set<Name>, n: Name, r: Report) {
    match r
    case SafeReport => SafeAvoiding(bodies, avoid, n)
    case UnsafeReport(why) => Justifies(bodies, avoid, n, why)
  }

  // A justified refusal and safety exclude one another.
  lemma {:induction false} JustifiedIsUnsafe(bodies: Bodies, avoid: set<Name>, n: Name, why: Why)
    requires Justifies(bodies, avoid, n, why)
    ensures !SafeAvoiding(bodies, avoid, n)
    decreases why
  {
    var g := GraphOf(bodies);
    ReachRefl(g, n);
    if why.Transitive? {
      JustifiedIsUnsafe(bodies, avoid, why.callee, why.why);
      forall b | Reaches(g, why.callee, b) ensures Reaches(g, n, b) {
        EdgeReaches(g, n, why.callee);
        ReachTrans(g, n, why.callee, b);
      }
    } else if why.Forbidden? {
      var i :| 0 <= i < |bodies[n]| && bodies[n][i] == Unsafe(why.reason);
    }
  }

  // Safety of a body from the safety of its callees: the step the analyzer's loop takes.
  lemma SafeFromCallees(bodies: Bodies, avoid: set<Name>, n: Name)
    requires Allowed(bodies, n) && n !in avoid
    requires forall c :: Edge(GraphOf(bodies), n, c) ==> SafeAvoiding(bodies, avoid, c)
    ensures SafeAvoiding(bodies, avoid, n)
  {
    var g := GraphOf(bodies);
    forall b | Reaches(g, n, b) ensures Allowed(bodies, b) && !OnCycle(g, b) && b !in avoid {
      ReachFirst(g, n, b);
      if b != n {
        var c :| Edge(g, n, c) && Reaches(g, c, b);
      }
      forall c | Edge(g, n, c) ensures !Reaches(g, c, n) {
        assert SafeAvoiding(bodies, avoid, c);
      }
    }
  }

  // ---------------------------------------------------------------- what safety buys

  // Call chains under a safe symbol never repeat a function, so Crucible's unrolling is
  // bounded by the number of bodies in the module.
  lemma SafeCallDepth(bodies: Bodies, n: Name, p: seq<Name>)
    requires SafeIn(bodies, n) && IsPath(GraphOf(bodies), p) && p[0] == n
    ensures Distinct(p) && |p| <= |bodies|
    ensures forall i :: 0 <= i < |p| ==> Allowed(bodies, p[i])
  {
    var g := GraphOf(bodies);
    forall i | 0 <= i < |p| ensures Allowed(bodies, p[i]) && !OnCycle(g, p[i]) {
      PathPieceReaches(g, p, 0, i);
    }
    forall i, j | 0 <= i < j < |p| ensures p[i] != p[j] {
      if p[i] == p[j] { RepeatIsCycle(g, p, i, j); }
    }
    DistinctBound(p, bodies.Keys);
  }

  // Conversely, a cycle lets call chains grow past any bound.
  lemma {:induction false} CycleUnbounded(g: Graph<Name>, a: Name, k: nat)
    requires OnCycle(g, a)
    ensures exists p :: IsPath(g, p) && p[0] == a && p[|p| - 1] == a && |p| > k
  {
    if k == 0 {
      assert IsPath(g, [a]) && [a][0] == a;
    } else {
      CycleUnbounded(g, a, k - 1);
      var p :| IsPath(g, p) && p[0] == a && p[|p| - 1] == a && |p| > k - 1;
      var c :| Edge(g, a, c) && Reaches(g, c, a);
      var q :| PathFromTo(g, q, c, a);
      var r := p + q;
      forall i | 0 < i < |r| ensures Edge(g, r[i - 1], r[i]) {
        if i > |p| { assert r[i] == q[i - |p|] && r[i - 1] == q[i - |p| - 1]; }
      }
      assert IsPath(g, r) && r[0] == a && r[|r| - 1] == a && |r| > k;
    }
  }

  lemma UnboundedBelow(g: Graph<Name>, n: Name, b: Name, k: nat)
    requires Reaches(g, n, b) && OnCycle(g, b)
    ensures exists p :: IsPath(g, p) && p[0] == n && |p| > k
  {
    CycleUnbounded(g, b, k);
    var q :| IsPath(g, q) && q[0] == b && q[|q| - 1] == b && |q| > k;
    var p :| PathFromTo(g, p, n, b);
    var r := p + q[1..];
    forall i | 0 < i < |r| ensures Edge(g, r[i - 1], r[i]) {
      if i >= |p| { assert r[i] == q[i - |p| + 1] && r[i - 1] == q[i - |p|]; }
    }
    assert IsPath(g, r) && r[0] == n && |r| > k;
  }

  ghost predicate ChainsBounded(bodies: Bodies, n: Name, k: nat) {
    forall p :: IsPath(GraphOf(bodies), p) && p[0] == n ==> |p| <= k
  }

  // The flag characterised without cycles: only allowed bodies below n, and finite unrolling.
  lemma SafeIffBoundedAndAllowed(bodies: Bodies, n: Name)
    ensures SafeIn(bodies, n) <==>
      && (forall b :: Reaches(GraphOf(bodies), n, b) ==> Allowed(bodies, b))
      && (exists k: nat :: ChainsBounded(bodies, n, k))
  {
    var g := GraphOf(bodies);
    if SafeIn(bodies, n) {
      forall p | IsPath(g, p) && p[0] == n ensures |p| <= |bodies| { SafeCallDepth(bodies, n, p); }
      assert ChainsBounded(bodies, n, |bodies|);
    }
    if k: nat :| ChainsBounded(bodies, n, k) && forall b :: Reaches(g, n, b) ==> Allowed(bodies, b) {
      forall b | Reaches(g, n, b) ensures !OnCycle(g, b) {
        if OnCycle(g, b) { UnboundedBelow(g, n, b, k); }
      }
    }
  }

  // A chain of calls, read off the lines: each symbol is called on some line of the one before.
  ghost predicate CallChain(bodies: Bodies, p: seq<Name>) {
    p != [] && forall i {:trigger p[i]} :: 0 < i < |p| ==> CallsOn(bodies, p[i - 1], p[i])
  }

  ghost predicate CallsOn(bodies: Bodies, n: Name, c: Name) {
    n in bodies && exists line :: line in bodies[n] && line.Call? && c in line.callees
  }

  lemma CallsOnIsEdge(bodies: Bodies, n: Name, c: Name)
    ensures CallsOn(bodies, n, c) <==> Edge(GraphOf(bodies), n, c)
  {
    if CallsOn(bodies, n, c) {
      var line :| line in bodies[n] && line.Call? && c in line.callees;
      var i :| 0 <= i < |bodies[n]| && bodies[n][i] == line;
      var j :| 0 <= j < |line.callees| && line.callees[j] == c;
      CalleeIsEdge(bodies, n, i, j);
    }
    if Edge(GraphOf(bodies), n, c) {
      var i, j :| 0 <= i < |bodies[n]| && bodies[n][i].Call? && 0 <= j < |bodies[n][i].callees| &&
        c == bodies[n][i].callees[j];
      assert bodies[n][i] in bodies[n];
    }
  }

  lemma ChainIsPath(bodies: Bodies, p: seq<Name>)
    ensures CallChain(bodies, p) <==> IsPath(GraphOf(bodies), p)
  {
    forall n, c ensures CallsOn(bodies, n, c) <==> Edge(GraphOf(bodies), n, c) { CallsOnIsEdge(bodies, n, c); }
  }

  // What the analyzer decides, said of one chain: it ends in a body without an unsafe line,
  // and no symbol repeats on it.
  ghost predicate ChainSafe(bodies: Bodies, p: seq<Name>)
    requires p != []
  {
    && p[|p| - 1] in bodies && (forall line :: line in bodies[p[|p| - 1]] ==> !line.Unsafe?)
    && forall i, j :: 0 <= i < j < |p| ==> p[i] != p[j]
  }

  lemma AllowedIs(bodies: Bodies, n: Name)
    ensures Allowed(bodies, n) <==> n in bodies && forall line :: line in bodies[n] ==> !line.Unsafe?
  {
    if n in bodies && Allowed(bodies, n) {
      forall line | line in bodies[n] ensures !line.Unsafe? {
        var i :| 0 <= i < |bodies[n]| && bodies[n][i] == line;
      }
    }
  }

  lemma Joined(g: Graph<Name>, p: seq<Name>, q: seq<Name>)
    requires IsPath(g, p) && IsPath(g, q) && Edge(g, p[|p| - 1], q[0])
    ensures IsPath(g, p + q)
  {
    var r := p + q;
    forall i | 0 < i < |r| ensures Edge(g, r[i - 1], r[i]) {
      if i > |p| { assert r[i] == q[i - |p|] && r[i - 1] == q[i - |p| - 1]; }
    }
  }

  lemma LoopUnsafe(bodies: Bodies, n: Name, b: Name)
    requires Reaches(GraphOf(bodies), n, b) && OnCycle(GraphOf(bodies), b)
    ensures exists p :: CallChain(bodies, p) && p[0] == n && !ChainSafe(bodies, p)
  {
    var g := GraphOf(bodies);
    var q :| PathFromTo(g, q, n, b);
    var c :| Edge(g, b, c) && Reaches(g, c, b);
    var r :| PathFromTo(g, r, c, b);
    Joined(g, q, r);
    ChainIsPath(bodies, q + r);
    RepeatUnsafe(bodies, q + r, |q| - 1, |q + r| - 1);
  }

  lemma RepeatUnsafe(bodies: Bodies, p: seq<Name>, i: nat, j: nat)
    requires i < j < |p| && p[i] == p[j]
    ensures !ChainSafe(bodies, p)
  {
  }

  /** The flag, read off the lines: every chain of calls below the symbol is safe. */
  lemma SafeInIs(bodies: Bodies, n: Name)
    ensures SafeIn(bodies, n) <==> forall p :: CallChain(bodies, p) && p[0] == n ==> ChainSafe(bodies, p)
  {
    var g := GraphOf(bodies);
    if SafeIn(bodies, n) {
      forall p | CallChain(bodies, p) && p[0] == n ensures ChainSafe(bodies, p) {
        ChainIsPath(bodies, p);
        SafeCallDepth(bodies, n, p);
        AllowedIs(bodies, p[|p| - 1]);
      }
    }
    if forall p :: CallChain(bodies, p) && p[0] == n ==> ChainSafe(bodies, p) {
      forall b | Reaches(g, n, b) ensures Allowed(bodies, b) && !OnCycle(g, b) {
        var p :| PathFromTo(g, p, n, b);
        ChainIsPath(bodies, p);
        AllowedIs(bodies, b);
        if OnCycle(g, b) { LoopUnsafe(bodies, n, b); }
      }
    }
  }

  // ---------------------------------------------------------------- the analyzer

  class SafetyAnalyzer {
    const bodies: Bodies
    var cache: map<Name, Report>

    constructor (bodies: Bodies)
      ensures this.bodies == bodies && cache == map[]
      ensures Valid()
    {
      this.bodies := bodies;
      cache := map[];
    }

    // Every cached verdict is exact. `avoid` is what the enclosing query started from:
    // empty for `IsSafe`.
    ghost predicate CacheExact(avoid: set<Name>)
      reads this
    {
      forall n :: n in cache ==> Exact(bodies, avoid, n, cache[n])
    }

    ghost predicate Valid()
      reads this
    {
      CacheExact({})
    }

    // The query on a persistent analyzer. The verdict is a function of the module alone:
    // earlier queries cannot change it.
    method IsSafe(mangled: Name) returns (r: Report)
      requires Valid()
      modifies this
      ensures Valid() && old(cache.Keys) <= cache.Keys && mangled in cache && cache[mangled] == r
      ensures r.SafeReport? <==> SafeIn(bodies, mangled)
      ensures r.UnsafeReport? ==> Justifies(bodies, {}, mangled, r.why)
    {
      var visited;
      r, visited := Check(mangled, {}, {}, []);
    }

    // Every visited name is cached, on the stack of calls being checked, or was handed in.
    // This is what turns "visited and not cached" into "recursive".
    ghost predicate Accounted(visited: set<Name>, avoid: set<Name>, stack: seq<Name>)
      reads this
    {
      forall n :: n in visited ==> n in avoid || n in stack || n in cache
    }

    method Check(mangled: Name, visited0: set<Name>, ghost avoid: set<Name>, ghost stack: seq<Name>)
      returns (r: Report, visited: set<Name>)
      requires CacheExact(avoid) && Accounted(visited0, avoid, stack)
      requires avoid <= visited0 && forall n :: n in stack ==> n in visited0
      requires IsPath(GraphOf(bodies), stack + [mangled])
      modifies this
      ensures CacheExact(avoid) && Accounted(visited, avoid, stack)
      ensures visited0 <= visited && old(cache.Keys) <= cache.Keys
      ensures mangled in cache && cache[mangled] == r
      ensures r.SafeReport? <==> SafeAvoiding(bodies, avoid, mangled)
      decreases bodies.Keys - visited0, 1
    {
      visited := visited0;
      if mangled in cache {
        r := cache[mangled];
        if r.UnsafeReport? { JustifiedIsUnsafe(bodies, avoid, mangled, r.why); }
        return;
      }
      if mangled in visited {
        if mangled !in avoid { OnStackIsCycle(GraphOf(bodies), stack, mangled); }
        r := Refuse(mangled, RecursiveCall(mangled), avoid);
        return;
      }
      visited := visited + {mangled};
      if mangled !in bodies {
        r := Refuse(mangled, NoBody(mangled), avoid);
        return;
      }
      r, visited := CheckBody(mangled, visited, avoid, stack + [mangled]);
    }

    // The loop over the body's lines.
    method CheckBody(mangled: Name, visited0: set<Name>, ghost avoid: set<Name>, ghost stack: seq<Name>)
      returns (r: Report, visited: set<Name>)
      requires mangled in bodies && mangled !in avoid
      requires CacheExact(avoid) && Accounted(visited0, avoid, stack)
      requires avoid <= visited0 && forall n :: n in stack ==> n in visited0
      requires IsPath(GraphOf(bodies), stack) && stack[|stack| - 1] == mangled
      modifies this
      ensures CacheExact(avoid) && Accounted(visited, avoid, stack[..|stack| - 1])
      ensures visited0 <= visited && old(cache.Keys) <= cache.Keys
      ensures mangled in cache && cache[mangled] == r
      ensures r.SafeReport? <==> SafeAvoiding(bodies, avoid, mangled)
      decreases bodies.Keys - visited0, 2
    {
      visited := visited0;
      var body := bodies[mangled];
      for i := 0 to |body|
        invariant CacheExact(avoid) && Accounted(visited, avoid, stack)
        invariant visited0 <= visited && old(cache.Keys) <= cache.Keys
        invariant forall k :: 0 <= k < i ==> LineSafe(body[k], avoid)
      {
        match body[i]
        case Safe =>
        case Unsafe(reason) =>
          r := Refuse(mangled, Forbidden(reason), avoid);
          return;
        case Call(callees) =>
          for j := 0 to |callees|
            invariant CacheExact(avoid) && Accounted(visited, avoid, stack)
            invariant visited0 <= visited && old(cache.Keys) <= cache.Keys
            invariant forall k :: 0 <= k < j ==> SafeAvoiding(bodies, avoid, callees[k])
          {
            CalleeIsEdge(bodies, mangled, i, j);
            var sub;
            sub, visited := Check(callees[j], visited, avoid, stack);
            if sub.UnsafeReport? {
              r := Refuse(mangled, Transitive(callees[j], sub.why), avoid);
              return;
            }
          }
      }
      AllLinesSafe(mangled, avoid);
      r := SafeReport;
      cache := cache[mangled := r];
    }

    ghost predicate LineSafe(line: Inst, avoid: set<Name>) {
      match line
      case Safe => true
      case Unsafe(_) => false
      case Call(callees) => forall k :: 0 <= k < |callees| ==> SafeAvoiding(bodies, avoid, callees[k])
    }

    lemma AllLinesSafe(n: Name, avoid: set<Name>)
      requires n in bodies && n !in avoid
      requires forall k :: 0 <= k < |bodies[n]| ==> LineSafe(bodies[n][k], avoid)
      ensures SafeAvoiding(bodies, avoid, n)
    {
      forall c | Edge(GraphOf(bodies), n, c) ensures SafeAvoiding(bodies, avoid, c) {
        var i, j :| 0 <= i < |bodies[n]| && bodies[n][i].Call? && 0 <= j < |bodies[n][i].callees| &&
          c == bodies[n][i].callees[j];
        assert LineSafe(bodies[n][i], avoid);
      }
      SafeFromCallees(bodies, avoid, n);
    }

    method Refuse(mangled: Name, why: Why, ghost avoid: set<Name>) returns (r: Report)
      requires CacheExact(avoid) && Justifies(bodies, avoid, mangled, why)
      modifies this
      ensures r == UnsafeReport(why) && cache == old(cache)[mangled := r]
      ensures CacheExact(avoid) && !SafeAvoiding(bodies, avoid, mangled)
    {
      JustifiedIsUnsafe(bodies, avoid, mangled, why);
      r := UnsafeReport(why);
      cache := cache[mangled := r];
    }
  }

  lemma OnStackIsCycle(g: Graph<Name>, stack: seq<Name>, n: Name)
    requires n in stack && IsPath(g, stack + [n])
    ensures OnCycle(g, n)
  {
    var i :| 0 <= i < |stack| && stack[i] == n;
    RepeatIsCycle(g, stack + [n], i, |stack|);
  }

  lemma CalleeIsEdge(bodies: Bodies, n: Name, i: nat, j: nat)
    requires n in bodies && i < |bodies[n]| && bodies[n][i].Call? && j < |bodies[n][i].callees|
    ensures Edge(GraphOf(bodies), n, bodies[n][i].callees[j])
  {
  }

  // The one-shot entry point accepts a caller's visited set. Its verdict is exact for
  // "safe and reaching nothing in that set", which is weaker than safe when it is not empty.
  method IsCrucibleSafe(mangled: Name, bodies: Bodies, visited: set<Name>) returns (r: Report, visited': set<Name>)
    ensures r.SafeReport? <==> SafeAvoiding(bodies, visited, mangled)
    ensures r.SafeReport? <==>
      SafeIn(bodies, mangled) && forall b :: Reaches(GraphOf(bodies), mangled, b) ==> b !in visited
    ensures visited <= visited'
  {
    var analyzer := new SafetyAnalyzer(bodies);
    r, visited' := analyzer.Check(mangled, visited, visited, []);
  }
}
