/** The call-graph walk and the external-call filter (src/gen_verify_callgraph.rs).

    The walk decides where symbolic execution descends, the filter which calls get an
    adversarial override; both ask the same stateful safety analyzer, at different times. */
module GenVerifyCallgraph {
  import opened CallGraph
  import opened Options
  import CrucibleSafety

  datatype CalledFunction = CalledFunction(name: string, mangled: string)

  datatype FunctionInfo = FunctionInfo(
    name: string,
    mangled: Option<string>,
    hasBody: bool,
    isSystem: bool,
    isVirtual: bool,
    called: seq<CalledFunction>)

  datatype SpecConstraint = SpecConstraint(
    functionName: string,
    mangled: Option<string>,
    hasBody: bool,
    isVirtual: bool)

  // The two indices over all functions; the last function of a name wins.
  datatype Tables = Tables(byMangled: map<string, FunctionInfo>, byName: map<string, FunctionInfo>)

  // What the gate depends on besides the function: the STL override registry, the
  // no-system-recursion switch and the module's bodies.
  datatype Gate = Gate(stl: string -> bool, noSystem: bool, bodies: CrucibleSafety.Bodies)

  function Key(f: FunctionInfo): string {
    if f.mangled.Some? then f.mangled.value else f.name
  }

  function TablesOf(fns: seq<FunctionInfo>): (t: Tables)
    ensures forall k :: k in t.byMangled ==> t.byMangled[k] in fns && t.byMangled[k].mangled == Some(k)
    ensures forall k :: k in t.byName ==> t.byName[k] in fns && t.byName[k].name == k
    ensures forall f :: f in fns && f.mangled.Some? ==> f.mangled.value in t.byMangled
    ensures forall f :: f in fns ==> f.name in t.byName
  {
    if fns == [] then Tables(map[], map[])
    else
      var f := fns[|fns| - 1];
      var t := TablesOf(fns[..|fns| - 1]);
      assert forall e :: e in fns ==> e in fns[..|fns| - 1] || e == f;
      Tables(if f.mangled.Some? then t.byMangled[f.mangled.value := f] else t.byMangled, t.byName[f.name := f])
  }

  // The last function under a symbol, and the last under a name.
  ghost predicate LastOfSymbol(fns: seq<FunctionInfo>, i: nat, m: string) {
    i < |fns| && fns[i].mangled == Some(m) && forall j :: i < j < |fns| ==> fns[j].mangled != Some(m)
  }

  ghost predicate LastOfName(fns: seq<FunctionInfo>, i: nat, name: string) {
    i < |fns| && fns[i].name == name && forall j :: i < j < |fns| ==> fns[j].name != name
  }

  lemma TablesStep(fns: seq<FunctionInfo>)
    requires fns != []
    ensures
      var f, before, t := fns[|fns| - 1], TablesOf(fns[..|fns| - 1]), TablesOf(fns);
      && t.byName == before.byName[f.name := f]
      && t.byMangled == if f.mangled.Some? then before.byMangled[f.mangled.value := f] else before.byMangled
  {
  }

  lemma LastBefore(fns: seq<FunctionInfo>, i: nat, k: string)
    requires i < |fns| - 1
    ensures LastOfSymbol(fns, i, k) ==> LastOfSymbol(fns[..|fns| - 1], i, k) && fns[|fns| - 1].mangled != Some(k)
    ensures LastOfName(fns, i, k) ==> LastOfName(fns[..|fns| - 1], i, k) && fns[|fns| - 1].name != k
  {
  }

  lemma {:induction false} LastWins(fns: seq<FunctionInfo>, i: nat, k: string)
    requires i < |fns|
    ensures LastOfSymbol(fns, i, k) ==> k in TablesOf(fns).byMangled && TablesOf(fns).byMangled[k] == fns[i]
    ensures LastOfName(fns, i, k) ==> k in TablesOf(fns).byName && TablesOf(fns).byName[k] == fns[i]
  {
    TablesStep(fns);
    if i < |fns| - 1 {
      LastBefore(fns, i, k);
      LastWins(fns[..|fns| - 1], i, k);
    }
  }

  function Lookup(t: Tables, mangled: Option<string>, name: string): Option<FunctionInfo> {
    if mangled.Some? && mangled.value in t.byMangled then Some(t.byMangled[mangled.value])
    else if name in t.byName then Some(t.byName[name])
    else None
  }

  /** A lookup answers with the last function under the symbol, for want of one with the last
      under the name, and otherwise with nothing. */
  lemma LookupIsLast(fns: seq<FunctionInfo>, mangled: Option<string>, name: string, i: nat)
    requires i < |fns|
    ensures mangled.Some? && LastOfSymbol(fns, i, mangled.value) ==>
      Lookup(TablesOf(fns), mangled, name) == Some(fns[i])
    ensures (forall f :: f in fns ==> mangled.None? || f.mangled != mangled) && LastOfName(fns, i, name) ==>
      Lookup(TablesOf(fns), mangled, name) == Some(fns[i])
    ensures Lookup(TablesOf(fns), mangled, name).None? <==>
      forall f :: f in fns ==> (mangled.None? || f.mangled != mangled) && f.name != name
  {
    LastWins(fns, i, name);
    if mangled.Some? { LastWins(fns, i, mangled.value); }
  }

  function Resolve(t: Tables, c: CalledFunction): Option<FunctionInfo> {
    Lookup(t, Some(c.mangled), c.name)
  }

  predicate StlOverrideMatches(stl: string -> bool, f: FunctionInfo) {
    (f.mangled.Some? && stl(f.mangled.value)) || stl(f.name)
  }

  // ---------------------------------------------------------------- the gate

  // Whether the walk should descend, as a function of the module alone.
  ghost predicate Descends(gate: Gate, f: FunctionInfo) {
    && f.hasBody && !StlOverrideMatches(gate.stl, f)
    && (f.isSystem ==> !gate.noSystem && CrucibleSafety.SafeIn(gate.bodies, Key(f)))
  }

  method CrucibleSafe(f: FunctionInfo, safety: CrucibleSafety.SafetyAnalyzer, gate: Gate) returns (ok: bool)
    requires safety.Valid() && safety.bodies == gate.bodies
    modifies safety
    ensures safety.Valid()
    ensures ok <==> !StlOverrideMatches(gate.stl, f) && !gate.noSystem && CrucibleSafety.SafeIn(gate.bodies, Key(f))
    ensures ok ==> !gate.stl(f.name) && (f.mangled.Some? ==> !gate.stl(f.mangled.value))
  {
    if StlOverrideMatches(gate.stl, f) || gate.noSystem { return false; }
    var r := safety.IsSafe(Key(f));
    ok := r.SafeReport?;
  }

  method ShouldRecurse(f: FunctionInfo, safety: CrucibleSafety.SafetyAnalyzer, gate: Gate) returns (ok: bool)
    requires safety.Valid() && safety.bodies == gate.bodies
    modifies safety
    ensures safety.Valid()
    ensures ok <==> Descends(gate, f)
    ensures ok <==>
      && f.hasBody && !gate.stl(f.name) && (f.mangled.Some? ==> !gate.stl(f.mangled.value))
      && (f.isSystem ==> !gate.noSystem && CrucibleSafety.SafeIn(gate.bodies, f.mangled.GetOr(f.name)))
  {
    if !f.hasBody || StlOverrideMatches(gate.stl, f) { return false; }
    if !f.isSystem { return true; }
    ok := CrucibleSafe(f, safety, gate);
  }

  // ---------------------------------------------------------------- the walks' graphs

  ghost function Functions(t: Tables, target: FunctionInfo): set<FunctionInfo> {
    {target} + t.byMangled.Values + t.byName.Values
  }

  ghost function ResolvedCallees(t: Tables, f: FunctionInfo): set<FunctionInfo> {
    set i | 0 <= i < |f.called| && Resolve(t, f.called[i]).Some? :: Resolve(t, f.called[i]).value
  }

  // Calls the gated walk follows.
  ghost function GatedGraph(t: Tables, target: FunctionInfo, gate: Gate): Graph<FunctionInfo> {
    map f | f in Functions(t, target) :: set c | c in ResolvedCallees(t, f) && Descends(gate, c)
  }

  // Calls the ungated walk follows.
  ghost function FullGraph(t: Tables, target: FunctionInfo): Graph<FunctionInfo> {
    map f | f in Functions(t, target) :: ResolvedCallees(t, f)
  }

  // Keys identify the functions the walk can reach: what its visited set of keys takes for
  // granted. Functions out of reach may share keys.
  ghost predicate KeysUnique(g: Graph<FunctionInfo>, target: FunctionInfo) {
    forall f, h :: Reaches(g, target, f) && Reaches(g, target, h) && Key(f) == Key(h) ==> f == h
  }

  // A finished walk processed exactly the functions in reach.
  ghost predicate WalkExact(g: Graph<FunctionInfo>, target: FunctionInfo, done: set<FunctionInfo>) {
    forall f :: f in done <==> Reaches(g, target, f)
  }

  ghost predicate CallsSymbol(f: FunctionInfo, m: string) {
    exists i :: 0 <= i < |f.called| && f.called[i].mangled == m
  }

  ghost predicate CallsNamed(f: FunctionInfo, m: string) {
    m != "" && exists i :: 0 <= i < |f.called| && (f.called[i].mangled == m || f.called[i].name == m)
  }

  // m is a call target of some function of the gated closure.
  ghost predicate GatedTarget(t: Tables, target: FunctionInfo, gate: Gate, m: string) {
    exists f :: Reaches(GatedGraph(t, target, gate), target, f) && CallsSymbol(f, m)
  }

  ghost predicate FullTarget(t: Tables, target: FunctionInfo, m: string) {
    exists f :: Reaches(FullGraph(t, target), target, f) && CallsNamed(f, m)
  }

  // A chain of calls, read off the functions: each resolves a call of the one before, and
  // the walk may enter it.
  ghost predicate GatedChain(t: Tables, gate: Gate, p: seq<FunctionInfo>) {
    && FullChain(t, p)
    && forall i {:trigger p[i]} :: 0 < i < |p| ==>
         && p[i].hasBody && !gate.stl(p[i].name) && (p[i].mangled.Some? ==> !gate.stl(p[i].mangled.value))
         && (p[i].isSystem ==> !gate.noSystem && CrucibleSafety.SafeIn(gate.bodies, p[i].mangled.GetOr(p[i].name)))
  }

  ghost predicate FullChain(t: Tables, p: seq<FunctionInfo>) {
    p != [] && forall i {:trigger p[i]} :: 0 < i < |p| ==> CallsFunction(t, p[i - 1], p[i])
  }

  ghost predicate CallsFunction(t: Tables, f: FunctionInfo, h: FunctionInfo) {
    exists c :: c in f.called && Lookup(t, Some(c.mangled), c.name) == Some(h)
  }

  lemma CalleeIs(t: Tables, f: FunctionInfo, h: FunctionInfo)
    ensures h in ResolvedCallees(t, f) <==> CallsFunction(t, f, h)
  {
    if c :| c in f.called && Lookup(t, Some(c.mangled), c.name) == Some(h) {
      var i :| 0 <= i < |f.called| && f.called[i] == c;
    }
  }

  lemma {:induction false} ChainWithin(t: Tables, target: FunctionInfo, p: seq<FunctionInfo>, j: nat)
    requires FullChain(t, p) && p[0] == target && j < |p|
    ensures p[j] in Functions(t, target)
  {
    if j > 0 {
      var c :| c in p[j - 1].called && Lookup(t, Some(c.mangled), c.name) == Some(p[j]);
      var i :| 0 <= i < |p[j - 1].called| && p[j - 1].called[i] == c;
      ResolvedInUniverse(t, target, p[j - 1], i);
    }
  }

  lemma FullChainIsPath(t: Tables, target: FunctionInfo, p: seq<FunctionInfo>)
    requires p != [] && p[0] == target
    ensures FullChain(t, p) <==> IsPath(FullGraph(t, target), p)
  {
    forall i | 0 < i < |p| { CalleeIs(t, p[i - 1], p[i]); }
    if FullChain(t, p) {
      forall i | 0 < i < |p| ensures Edge(FullGraph(t, target), p[i - 1], p[i]) {
        ChainWithin(t, target, p, i - 1);
      }
    }
    if IsPath(FullGraph(t, target), p) {
      forall i | 0 < i < |p|
        ensures CallsFunction(t, p[i - 1], p[i])
      {
        assert Edge(FullGraph(t, target), p[i - 1], p[i]);
      }
    }
  }

  lemma GatedChainIsPath(t: Tables, target: FunctionInfo, gate: Gate, p: seq<FunctionInfo>)
    requires p != [] && p[0] == target
    ensures GatedChain(t, gate, p) <==> IsPath(GatedGraph(t, target, gate), p)
  {
    FullChainIsPath(t, target, p);
    if GatedChain(t, gate, p) {
      forall i | 0 < i < |p| ensures Edge(GatedGraph(t, target, gate), p[i - 1], p[i]) {
        assert Edge(FullGraph(t, target), p[i - 1], p[i]);
        assert Descends(gate, p[i]);
      }
    }
    if IsPath(GatedGraph(t, target, gate), p) {
      forall i | 0 < i < |p| ensures Edge(FullGraph(t, target), p[i - 1], p[i]) && Descends(gate, p[i]) {
        assert Edge(GatedGraph(t, target, gate), p[i - 1], p[i]);
      }
    }
  }

  lemma CallsSymbolIs(f: FunctionInfo, m: string)
    ensures CallsSymbol(f, m) <==> exists c :: c in f.called && c.mangled == m
    ensures CallsNamed(f, m) <==> m != "" && exists c :: c in f.called && (c.mangled == m || c.name == m)
  {
    forall i | 0 <= i < |f.called| ensures f.called[i] in f.called {}
  }

  /** What the walk records, read off the functions: the symbols called at the end of a chain
      of calls it may enter. */
  lemma GatedTargetIs(t: Tables, target: FunctionInfo, gate: Gate, m: string)
    ensures GatedTarget(t, target, gate, m) <==> exists p: seq<FunctionInfo>, c: CalledFunction ::
      GatedChain(t, gate, p) && p[0] == target && c in p[|p| - 1].called && c.mangled == m
  {
    var g := GatedGraph(t, target, gate);
    if f :| Reaches(g, target, f) && CallsSymbol(f, m) {
      var p :| PathFromTo(g, p, target, f);
      GatedChainIsPath(t, target, gate, p);
      CallsSymbolIs(f, m);
      assert GatedChain(t, gate, p);
    }
    if p: seq<FunctionInfo>, c: CalledFunction :|
      GatedChain(t, gate, p) && p[0] == target && c in p[|p| - 1].called && c.mangled == m
    {
      GatedChainIsPath(t, target, gate, p);
      CallsSymbolIs(p[|p| - 1], m);
      assert PathFromTo(g, p, target, p[|p| - 1]);
    }
  }

  // The ungated walk records symbols and names, at the end of any chain of calls.
  lemma FullTargetIs(t: Tables, target: FunctionInfo, m: string)
    ensures FullTarget(t, target, m) <==> m != "" && exists p: seq<FunctionInfo>, c: CalledFunction ::
      FullChain(t, p) && p[0] == target && c in p[|p| - 1].called && (c.mangled == m || c.name == m)
  {
    var g := FullGraph(t, target);
    if f :| Reaches(g, target, f) && CallsNamed(f, m) {
      var p :| PathFromTo(g, p, target, f);
      FullChainIsPath(t, target, p);
      CallsSymbolIs(f, m);
      assert FullChain(t, p);
    }
    if m != "" {
      if p: seq<FunctionInfo>, c: CalledFunction :|
        FullChain(t, p) && p[0] == target && c in p[|p| - 1].called && (c.mangled == m || c.name == m)
      {
        FullChainIsPath(t, target, p);
        CallsSymbolIs(p[|p| - 1], m);
        assert PathFromTo(g, p, target, p[|p| - 1]);
      }
    }
  }

  // ---------------------------------------------------------------- worklist invariants

  ghost function KeySet(fs: set<FunctionInfo>): set<string> {
    set f | f in fs :: Key(f)
  }

  // `done` holds the functions processed so far, one for each visited key.
  ghost predicate Walked(g: Graph<FunctionInfo>, start: FunctionInfo, visited: set<string>, done: set<FunctionInfo>,
                         pending: seq<FunctionInfo>) {
    && visited == KeySet(done)
    && (start in done || (done == {} && pending == [start]))
    && (forall f, h :: f in done && h in done && Key(f) == Key(h) ==> f == h)
    && (forall f :: f in done || f in pending ==> f in g && Reaches(g, start, f))
    && (forall a, b :: a in done && Edge(g, a, b) ==> Key(b) in visited || b in pending)
  }

  // A finished walk: the target and one function for each key the walk met, closed under
  // the graph's edges up to key.
  ghost predicate WalkDone(g: Graph<FunctionInfo>, start: FunctionInfo, done: set<FunctionInfo>) {
    Walked(g, start, KeySet(done), done, [])
  }

  /** Every finished walk processes only functions in reach, and all of them exactly when
      keys identify those. */
  lemma WalkExactIff(g: Graph<FunctionInfo>, target: FunctionInfo, done: set<FunctionInfo>)
    requires WalkDone(g, target, done)
    ensures forall f :: f in done ==> Reaches(g, target, f)
    ensures WalkExact(g, target, done) <==> KeysUnique(g, target)
  {
    if KeysUnique(g, target) {
      forall a, b | a in done && Edge(g, a, b) ensures b in done {
        ReachStep(g, target, a, b);
        var h :| h in done && Key(h) == Key(b);
      }
      forall f | Reaches(g, target, f) ensures f in done { ClosedHoldsReach(g, done, target, f); }
    }
  }

  // Popping an already visited key, or processing a new one, keeps the walk on course.
  lemma WalkSkip(g: Graph<FunctionInfo>, start: FunctionInfo, visited: set<string>, done: set<FunctionInfo>,
                 pending: seq<FunctionInfo>)
    requires pending != [] && Walked(g, start, visited, done, pending) && Key(pending[|pending| - 1]) in visited
    ensures Walked(g, start, visited, done, pending[..|pending| - 1])
  {
    var f := pending[|pending| - 1];
    assert forall h :: h in pending ==> h in pending[..|pending| - 1] || h == f;
  }

  lemma WalkStep(g: Graph<FunctionInfo>, start: FunctionInfo, visited: set<string>, done: set<FunctionInfo>,
                 pending: seq<FunctionInfo>, pending': seq<FunctionInfo>)
    requires pending != [] && Walked(g, start, visited, done, pending) && Key(pending[|pending| - 1]) !in visited
    requires forall h :: h in pending[..|pending| - 1] ==> h in pending'
    requires forall h :: h in pending' ==> h in g && (h in pending || Edge(g, pending[|pending| - 1], h))
    requires forall h :: Edge(g, pending[|pending| - 1], h) ==> h in pending'
    ensures Walked(g, start, visited + {Key(pending[|pending| - 1])}, done + {pending[|pending| - 1]}, pending')
  {
    var f := pending[|pending| - 1];
    assert forall h :: h in pending ==> h in pending[..|pending| - 1] || h == f;
    forall h | h in pending' ensures Reaches(g, start, h) {
      if Edge(g, f, h) { ReachStep(g, start, f, h); }
    }
    assert KeySet(done + {f}) == KeySet(done) + {Key(f)};
  }

  lemma ResolvedInUniverse(t: Tables, target: FunctionInfo, f: FunctionInfo, i: nat)
    requires i < |f.called| && Resolve(t, f.called[i]).Some?
    ensures Resolve(t, f.called[i]).value in Functions(t, target)
    ensures Resolve(t, f.called[i]).value in ResolvedCallees(t, f)
  {
    var c := f.called[i];
    if c.mangled in t.byMangled {
      assert t.byMangled[c.mangled] in t.byMangled.Values;
    } else {
      assert t.byName[c.name] in t.byName.Values;
    }
  }

  // One function's calls in the gated walk: record every symbol, queue what to descend into.
  method ExpandGated(f: FunctionInfo, ghost target: FunctionInfo, t: Tables, safety: CrucibleSafety.SafetyAnalyzer,
                     gate: Gate,
                     symbols: set<string>, pending: seq<FunctionInfo>)
    returns (symbols': set<string>, pending': seq<FunctionInfo>)
    requires safety.Valid() && safety.bodies == gate.bodies
    modifies safety
    ensures safety.Valid()
    ensures forall m :: m in symbols' <==> m in symbols || CallsSymbol(f, m)
    ensures forall h :: h in pending ==> h in pending'
    ensures forall h :: h in pending' ==>
      h in pending || (h in ResolvedCallees(t, f) && Descends(gate, h) && h in Functions(t, target))
    ensures forall h :: h in ResolvedCallees(t, f) && Descends(gate, h) ==> h in pending'
  {
    symbols', pending' := symbols, pending;
    for i := 0 to |f.called|
      invariant safety.Valid()
      invariant forall m :: m in symbols' <==> m in symbols || exists k :: 0 <= k < i && f.called[k].mangled == m
      invariant forall h :: h in pending ==> h in pending'
      invariant forall h :: h in pending' ==>
        h in pending || (h in ResolvedCallees(t, f) && Descends(gate, h) && h in Functions(t, target))
      invariant forall k :: 0 <= k < i ==>
        var h := Resolve(t, f.called[k]); h.Some? && Descends(gate, h.value) ==> h.value in pending'
    {
      symbols' := symbols' + {f.called[i].mangled};
      var callee := Resolve(t, f.called[i]);
      if callee.Some? {
        ResolvedInUniverse(t, target, f, i);
        var descend := ShouldRecurse(callee.value, safety, gate);
        if descend { pending' := pending' + [callee.value]; }
      }
    }
  }

  // The gated walk so far.
  ghost predicate GatedSoFar(g: Graph<FunctionInfo>, target: FunctionInfo, visited: set<string>,
                             done: set<FunctionInfo>, symbols: set<string>, pending: seq<FunctionInfo>) {
    && Walked(g, target, visited, done, pending)
    && (forall m :: m in symbols <==> exists f :: f in done && CallsSymbol(f, m))
  }

  /** The gated walk. Everything it records is a call target of the gated closure. It
      processes the whole closure exactly when keys identify its functions, and then it
      records every call target. */
  method WalkCallgraph(target: FunctionInfo, t: Tables, safety: CrucibleSafety.SafetyAnalyzer, gate: Gate)
    returns (calledMangled: set<string>, ghost done: set<FunctionInfo>)
    requires safety.Valid() && safety.bodies == gate.bodies
    modifies safety
    ensures safety.Valid()
    ensures WalkDone(GatedGraph(t, target, gate), target, done)
    ensures WalkExact(GatedGraph(t, target, gate), target, done) <==> KeysUnique(GatedGraph(t, target, gate), target)
    ensures forall m :: m in calledMangled <==> exists f :: f in done && CallsSymbol(f, m)
    ensures forall m :: m in calledMangled ==> GatedTarget(t, target, gate, m)
    ensures KeysUnique(GatedGraph(t, target, gate), target) ==>
      forall m :: GatedTarget(t, target, gate, m) ==> m in calledMangled
  {
    ghost var g := GatedGraph(t, target, gate);
    var visited: set<string> := {};
    done := {};
    calledMangled := {};
    var worklist := [target];
    ReachRefl(g, target);
    while worklist != []
      invariant safety.Valid()
      invariant GatedSoFar(g, target, visited, done, calledMangled, worklist)
      decreases KeySet(Functions(t, target)) - visited, |worklist|
    {
      ghost var before, symbols := worklist, calledMangled;
      var f := worklist[|worklist| - 1];
      worklist := worklist[..|worklist| - 1];
      if Key(f) in visited {
        WalkSkip(g, target, visited, done, before);
        continue;
      }
      calledMangled, worklist := ExpandGated(f, target, t, safety, gate, calledMangled, worklist);
      WalkStep(g, target, visited, done, before, worklist);
      SymbolsStep(done, f, symbols, calledMangled);
      visited := visited + {Key(f)};
      done := done + {f};
    }
    WalkExactIff(g, target, done);
    TargetsRecorded(g, target, done, calledMangled);
  }

  lemma SymbolsStep(done: set<FunctionInfo>, f: FunctionInfo, symbols: set<string>, symbols': set<string>)
    requires forall m :: m in symbols <==> exists h :: h in done && CallsSymbol(h, m)
    requires forall m :: m in symbols' <==> m in symbols || CallsSymbol(f, m)
    ensures forall m :: m in symbols' <==> exists h :: h in done + {f} && CallsSymbol(h, m)
  {
    forall m | CallsSymbol(f, m) ensures exists h :: h in done + {f} && CallsSymbol(h, m) {
      assert f in done + {f};
    }
  }

  lemma TargetsRecorded(g: Graph<FunctionInfo>, target: FunctionInfo, done: set<FunctionInfo>, symbols: set<string>)
    requires forall f :: f in done ==> Reaches(g, target, f)
    requires forall m :: m in symbols <==> exists f :: f in done && CallsSymbol(f, m)
    ensures forall m :: m in symbols ==> exists f :: Reaches(g, target, f) && CallsSymbol(f, m)
    ensures WalkExact(g, target, done) ==>
      forall m :: (exists f :: Reaches(g, target, f) && CallsSymbol(f, m)) ==> m in symbols
  {
  }

  // Without unique keys the walk can lose a target: `Helper` carries the target's key as
  // its mangled name, so it is never expanded and its call goes unrecorded.
  const CLASHING_TARGET := FunctionInfo("f", None, true, false, false, [CalledFunction("helper", "f")])
  const CLASHING_HELPER := FunctionInfo("helper", Some("f"), true, false, false, [CalledFunction("lost", "lost")])

  lemma DuplicateKeyLosesTarget(stl: string -> bool)
    requires !stl("f") && !stl("helper")
    ensures
      var t, gate := TablesOf([CLASHING_TARGET, CLASHING_HELPER]), Gate(stl, false, map[]);
      && GatedTarget(t, CLASHING_TARGET, gate, "lost")
      && forall done, f :: WalkDone(GatedGraph(t, CLASHING_TARGET, gate), CLASHING_TARGET, done) && f in done ==>
         !CallsSymbol(f, "lost")
  {
    var target, helper := CLASHING_TARGET, CLASHING_HELPER;
    var t, gate := TablesOf([target, helper]), Gate(stl, false, map[]);
    var g := GatedGraph(t, target, gate);
    ClashingTables();
    assert Resolve(t, target.called[0]) == Some(helper);
    ResolvedInUniverse(t, target, target, 0);
    EdgeReaches(g, target, helper);
    assert helper.called[0].mangled == "lost";
    assert CallsSymbol(helper, "lost");
    forall done, f | WalkDone(g, target, done) && f in done ensures !CallsSymbol(f, "lost") {
      assert f in Functions(t, target);
      assert Key(f) == Key(target);
    }
  }

  lemma ClashingTables()
    ensures TablesOf([CLASHING_TARGET, CLASHING_HELPER]) ==
      Tables(map["f" := CLASHING_HELPER], map["f" := CLASHING_TARGET, "helper" := CLASHING_HELPER])
    ensures Functions(TablesOf([CLASHING_TARGET, CLASHING_HELPER]), CLASHING_TARGET) ==
      {CLASHING_TARGET, CLASHING_HELPER}
  {
    var fns := [CLASHING_TARGET, CLASHING_HELPER];
    assert fns[..1] == [CLASHING_TARGET] && [CLASHING_TARGET][..0] == [];
    var t := TablesOf(fns);
    assert t == Tables(map["f" := CLASHING_HELPER], map["f" := CLASHING_TARGET, "helper" := CLASHING_HELPER]);
    assert CLASHING_HELPER in t.byName.Values by { assert t.byName["helper"] == CLASHING_HELPER; }
    assert CLASHING_TARGET in t.byName.Values by { assert t.byName["f"] == CLASHING_TARGET; }
    assert CLASHING_HELPER in t.byMangled.Values by { assert t.byMangled["f"] == CLASHING_HELPER; }
  }

  method ExpandFull(f: FunctionInfo, ghost target: FunctionInfo, t: Tables, symbols: set<string>,
                    pending: seq<FunctionInfo>)
    returns (symbols': set<string>, pending': seq<FunctionInfo>)
    ensures forall m :: m in symbols' <==> m in symbols || CallsNamed(f, m)
    ensures forall h :: h in pending ==> h in pending'
    ensures forall h :: h in pending' ==> h in pending || (h in ResolvedCallees(t, f) && h in Functions(t, target))
    ensures forall h :: h in ResolvedCallees(t, f) ==> h in pending'
  {
    symbols', pending' := symbols, pending;
    for i := 0 to |f.called|
      invariant forall m :: m in symbols' <==>
        m in symbols || exists k :: 0 <= k < i && m != "" && (f.called[k].mangled == m || f.called[k].name == m)
      invariant forall h :: h in pending ==> h in pending'
      invariant forall h :: h in pending' ==> h in pending || (h in ResolvedCallees(t, f) && h in Functions(t, target))
      invariant forall k :: 0 <= k < i && Resolve(t, f.called[k]).Some? ==> Resolve(t, f.called[k]).value in pending'
    {
      var c := f.called[i];
      if c.mangled != "" { symbols' := symbols' + {c.mangled}; }
      if c.name != "" { symbols' := symbols' + {c.name}; }
      var callee := Resolve(t, c);
      if callee.Some? {
        ResolvedInUniverse(t, target, f, i);
        pending' := pending' + [callee.value];
      }
    }
  }

  // The ungated walk behind the vtable-stub decision.
  method ReachableCallTargets(target: FunctionInfo, t: Tables) returns (reached: set<string>)
    ensures forall m :: m in reached ==> FullTarget(t, target, m)
    ensures KeysUnique(FullGraph(t, target), target) ==> forall m :: FullTarget(t, target, m) ==> m in reached
  {
    ghost var g := FullGraph(t, target);
    var visited: set<string> := {};
    ghost var done: set<FunctionInfo> := {};
    reached := {};
    var worklist := [target];
    ReachRefl(g, target);
    while worklist != []
      invariant Walked(g, target, visited, done, worklist)
      invariant forall m :: m in reached <==> exists f :: f in done && CallsNamed(f, m)
      decreases KeySet(Functions(t, target)) - visited, |worklist|
    {
      ghost var before := worklist;
      var f := worklist[|worklist| - 1];
      worklist := worklist[..|worklist| - 1];
      if Key(f) in visited {
        WalkSkip(g, target, visited, done, before);
        continue;
      }
      reached, worklist := ExpandFull(f, target, t, reached, worklist);
      WalkStep(g, target, visited, done, before, worklist);
      visited := visited + {Key(f)};
      done := done + {f};
    }
    WalkExactIff(g, target, done);
  }

  // A dispatch the gated walk sees is one the ungated walk sees: the vtable-stub decision
  // never misses a call the override collection recorded.
  lemma {:induction false} GatedWithinFull(t: Tables, target: FunctionInfo, gate: Gate, m: string)
    requires GatedTarget(t, target, gate, m) && m != ""
    ensures FullTarget(t, target, m)
  {
    var f :| Reaches(GatedGraph(t, target, gate), target, f) && CallsSymbol(f, m);
    var p :| PathFromTo(GatedGraph(t, target, gate), p, target, f);
    forall i | 0 < i < |p| ensures Edge(FullGraph(t, target), p[i - 1], p[i]) {
      assert Edge(GatedGraph(t, target, gate), p[i - 1], p[i]);
    }
    assert PathFromTo(FullGraph(t, target), p, target, f);
    assert CallsNamed(f, m);
  }

  ghost predicate Dispatched(vmethods: seq<Option<string>>, m: string) {
    Some(m) in vmethods
  }

  /** The gate on vtable stubs: some interface method is a call target of the full closure.
      With unique keys it opens for every method the gated walk can record, whatever the gate. */
  method AnyInterfaceReachable(target: FunctionInfo, t: Tables, vmethods: seq<Option<string>>) returns (any: bool)
    ensures any ==> exists m :: Dispatched(vmethods, m) && FullTarget(t, target, m)
    ensures KeysUnique(FullGraph(t, target), target) ==>
      forall m :: Dispatched(vmethods, m) && FullTarget(t, target, m) ==> any
    ensures KeysUnique(FullGraph(t, target), target) ==>
      forall gate, m :: Dispatched(vmethods, m) && m != "" && GatedTarget(t, target, gate, m) ==> any
  {
    if vmethods == [] { return false; }
    var reached := ReachableCallTargets(target, t);
    any := exists i :: 0 <= i < |vmethods| && vmethods[i].Some? && vmethods[i].value in reached;
    if any {
      var i :| 0 <= i < |vmethods| && vmethods[i].Some? && vmethods[i].value in reached;
      assert Dispatched(vmethods, vmethods[i].value);
    }
    forall gate, m | GatedTarget(t, target, gate, m) && m != "" ensures FullTarget(t, target, m) {
      GatedWithinFull(t, target, gate, m);
    }
  }

  // Where keys clash the ungated walk can miss what every gated walk sees: `b` carries the
  // name of a bodiless `k` as its symbol, so a walk that meets `k` first never expands `b`.
  const BESIDE := FunctionInfo("k", None, false, false, false, [])
  const BEHIND := FunctionInfo("b", Some("k"), true, false, false, [CalledFunction("v", "vm")])
  const BEFORE := FunctionInfo("main", None, true, false, false, [CalledFunction("b", "k"), CalledFunction("k", "zz")])

  // What matters of these tables.
  ghost predicate IsBeside(t: Tables) {
    && Functions(t, BEFORE) == {BEFORE, BESIDE, BEHIND}
    && Resolve(t, BEFORE.called[0]) == Some(BEHIND) && Resolve(t, BEFORE.called[1]) == Some(BESIDE)
  }

  lemma BesideTables()
    ensures IsBeside(TablesOf([BEFORE, BESIDE, BEHIND]))
  {
    var fns := [BEFORE, BESIDE, BEHIND];
    assert fns[..2] == [BEFORE, BESIDE] && [BEFORE, BESIDE][..1] == [BEFORE] && [BEFORE][..0] == [];
    var t := TablesOf(fns);
    assert TablesOf([BEFORE]) == Tables(map[], map["main" := BEFORE]);
    assert TablesOf([BEFORE, BESIDE]) == Tables(map[], map["main" := BEFORE, "k" := BESIDE]);
    assert t == Tables(map["k" := BEHIND], map["main" := BEFORE, "k" := BESIDE, "b" := BEHIND]);
    assert t.byName["main"] == BEFORE && t.byName["k"] == BESIDE && t.byName["b"] == BEHIND;
    assert t.byName.Values == {BEFORE, BESIDE, BEHIND} && t.byMangled.Values == {BEHIND};
    assert |"zz"| == 2 && |"k"| == 1;
  }

  lemma ClashMissesDispatch(stl: string -> bool, t: Tables) returns (done: set<FunctionInfo>)
    requires !stl("b") && !stl("k") && t == TablesOf([BEFORE, BESIDE, BEHIND])
    ensures GatedTarget(t, BEFORE, Gate(stl, false, map[]), "vm")
    ensures WalkDone(FullGraph(t, BEFORE), BEFORE, done) && forall f :: f in done ==> !CallsNamed(f, "vm")
  {
    BesideTables();
    done := BesideWalk(stl, t);
  }

  lemma BesideWalk(stl: string -> bool, t: Tables) returns (done: set<FunctionInfo>)
    requires !stl("b") && !stl("k") && IsBeside(t)
    ensures GatedTarget(t, BEFORE, Gate(stl, false, map[]), "vm")
    ensures WalkDone(FullGraph(t, BEFORE), BEFORE, done) && forall f :: f in done ==> !CallsNamed(f, "vm")
  {
    BehindReached(stl, t);
    BesideEdges(t);
    BesideSilent();
    TwoWalked(FullGraph(t, BEFORE), BEFORE, BESIDE, BEHIND);
    done := {BEFORE, BESIDE};
  }

  lemma BehindReached(stl: string -> bool, t: Tables)
    requires !stl("b") && !stl("k") && IsBeside(t)
    ensures GatedTarget(t, BEFORE, Gate(stl, false, map[]), "vm")
  {
    var gate := Gate(stl, false, map[]);
    ResolvedInUniverse(t, BEFORE, BEFORE, 0);
    EdgeReaches(GatedGraph(t, BEFORE, gate), BEFORE, BEHIND);
    assert BEHIND.called[0].mangled == "vm" && CallsSymbol(BEHIND, "vm");
  }

  // A walk that met a and b, and only sees a function under b's key besides.
  lemma TwoWalked(g: Graph<FunctionInfo>, a: FunctionInfo, b: FunctionInfo, c: FunctionInfo)
    requires a in g && b in g && Key(a) != Key(b) && Key(c) == Key(b)
    requires (forall h :: Edge(g, a, h) <==> h == b || h == c) && forall h :: !Edge(g, b, h)
    ensures WalkDone(g, a, {a, b})
  {
    ReachRefl(g, a);
    EdgeReaches(g, a, b);
    assert Key(b) in KeySet({a, b});
  }

  lemma BesideEdges(t: Tables)
    requires IsBeside(t)
    ensures var g := FullGraph(t, BEFORE);
      && BEFORE in g && BESIDE in g
      && (forall b :: Edge(g, BEFORE, b) <==> b == BEHIND || b == BESIDE)
      && (forall b :: !Edge(g, BESIDE, b))
    ensures Key(BEFORE) != Key(BESIDE) && Key(BEHIND) == Key(BESIDE)
  {
    ResolvedInUniverse(t, BEFORE, BEFORE, 0);
    ResolvedInUniverse(t, BEFORE, BEFORE, 1);
    assert Key(BEFORE)[0] != Key(BESIDE)[0];
  }

  lemma BesideSilent()
    ensures !CallsNamed(BEFORE, "vm") && !CallsNamed(BESIDE, "vm")
  {
    assert |"vm"| == 2 && "vm"[0] != "zz"[0] && |"b"| == 1 && |"k"| == 1;
  }

  // ---------------------------------------------------------------- the filter

  ghost predicate TreatedExternal(gate: Gate, t: Tables, s: SpecConstraint) {
    match Lookup(t, s.mangled, s.functionName)
    case Some(f) =>
      || !f.hasBody
      || StlOverrideMatches(gate.stl, f)
      || (f.isSystem && (StlOverrideMatches(gate.stl, f) || gate.noSystem ||
         !CrucibleSafety.SafeIn(gate.bodies, Key(f))))
    case None => !s.hasBody || gate.stl(s.functionName)
  }

  predicate Excluded(t: Tables, s: SpecConstraint) {
    var info := Lookup(t, s.mangled, s.functionName);
    || s.isVirtual
    || (info.Some? && info.value.isVirtual)
    || "__builtin_" <= s.functionName
    || (s.mangled.Some? && "__builtin_" <= s.mangled.value)
  }

  ghost predicate Overridden(gate: Gate, t: Tables, called: set<string>, s: SpecConstraint) {
    TreatedExternal(gate, t, s) && !Excluded(t, s) && s.mangled.Some? && s.mangled.value in called
  }

  ghost function Kept(gate: Gate, t: Tables, called: set<string>,
                      specs: seq<SpecConstraint>): (out: seq<SpecConstraint>)
    ensures forall s :: s in out <==> s in specs && Overridden(gate, t, called, s)
  {
    if specs == [] then []
    else
      var n := |specs| - 1;
      assert forall s :: s in specs ==> s in specs[..n] || s == specs[n];
      Kept(gate, t, called, specs[..n]) + if Overridden(gate, t, called, specs[n]) then [specs[n]] else []
  }

  method FilterExternalSpecs(specs: seq<SpecConstraint>, t: Tables, called: set<string>,
                             safety: CrucibleSafety.SafetyAnalyzer, gate: Gate)
    returns (out: seq<SpecConstraint>)
    requires safety.Valid() && safety.bodies == gate.bodies
    modifies safety
    ensures safety.Valid()
    ensures out == Kept(gate, t, called, specs)
    ensures forall s :: s in out <==>
      && s in specs && s.mangled.Some? && s.mangled.value in called && !s.isVirtual
      && !("__builtin_" <= s.functionName) && !("__builtin_" <= s.mangled.value)
      && match Lookup(t, s.mangled, s.functionName)
         case None => !s.hasBody || gate.stl(s.functionName)
         case Some(f) =>
           && !f.isVirtual
           && (!f.hasBody || gate.stl(f.name) || (f.mangled.Some? && gate.stl(f.mangled.value)) || (f.isSystem &&
               (gate.noSystem || !CrucibleSafety.SafeIn(gate.bodies, f.mangled.GetOr(f.name)))))
  {
    out := [];
    for i := 0 to |specs|
      invariant safety.Valid()
      invariant out == Kept(gate, t, called, specs[..i])
    {
      var s := specs[i];
      assert specs[..i + 1][..i] == specs[..i];
      var info := Lookup(t, s.mangled, s.functionName);
      var external;
      match info {
        case Some(f) =>
          external := !f.hasBody || StlOverrideMatches(gate.stl, f);
          if !external && f.isSystem {
            var safe := CrucibleSafe(f, safety, gate);
            external := !safe;
          }
        case None =>
          external := !s.hasBody || gate.stl(s.functionName);
      }
      if external && !Excluded(t, s) && s.mangled.Some? && s.mangled.value in called {
        out := out + [s];
      }
    }
    assert specs[..|specs|] == specs;
  }

  /** Walk, then filter, on one analyzer: exactly the specs of the gated call targets that
      are treated as external. */
  method CollectExternalCallSpecs(target: FunctionInfo, fns: seq<FunctionInfo>, specs: seq<SpecConstraint>,
                                  safety: CrucibleSafety.SafetyAnalyzer, gate: Gate)
    returns (out: seq<SpecConstraint>)
    requires safety.Valid() && safety.bodies == gate.bodies
    modifies safety
    ensures safety.Valid()
    ensures forall s :: s in out ==> IsExternalCallSpec(target, fns, specs, gate, s)
    ensures KeysUnique(GatedGraph(TablesOf(fns), target, gate), target) ==>
      forall s :: IsExternalCallSpec(target, fns, specs, gate, s) ==> s in out
  {
    var t := TablesOf(fns);
    var called, done := WalkCallgraph(target, t, safety, gate);
    out := FilterExternalSpecs(specs, t, called, safety, gate);
  }

  ghost predicate IsExternalCallSpec(target: FunctionInfo, fns: seq<FunctionInfo>, specs: seq<SpecConstraint>,
                                     gate: Gate, s: SpecConstraint) {
    var t := TablesOf(fns);
    && s in specs && TreatedExternal(gate, t, s) && !Excluded(t, s)
    && s.mangled.Some? && GatedTarget(t, target, gate, s.mangled.value)
  }

  /** What is returned in all, read off the functions and specs. */
  lemma ExternalCallSpecIs(target: FunctionInfo, fns: seq<FunctionInfo>, specs: seq<SpecConstraint>,
                           gate: Gate, s: SpecConstraint)
    ensures IsExternalCallSpec(target, fns, specs, gate, s) <==>
      && s in specs && s.mangled.Some? && !s.isVirtual
      && !("__builtin_" <= s.functionName) && !("__builtin_" <= s.mangled.value)
      && (exists p: seq<FunctionInfo>, c: CalledFunction ::
           && GatedChain(TablesOf(fns), gate, p) && p[0] == target
           && c in p[|p| - 1].called && c.mangled == s.mangled.value)
      && match Lookup(TablesOf(fns), s.mangled, s.functionName)
         case None => !s.hasBody || gate.stl(s.functionName)
         case Some(f) =>
           && !f.isVirtual
           && (!f.hasBody || gate.stl(f.name) || (f.mangled.Some? && gate.stl(f.mangled.value)) || (f.isSystem &&
               (gate.noSystem || !CrucibleSafety.SafeIn(gate.bodies, f.mangled.GetOr(f.name)))))
  {
    GatedTargetIs(TablesOf(fns), target, gate, s.mangled.GetOr(""));
  }

  // ---------------------------------------------------------------- descend or override

  // Two tests written separately in the source, over an analyzer that changes between
  // them, are exact negations.
  lemma ExternalIffNotDescended(gate: Gate, t: Tables, s: SpecConstraint, f: FunctionInfo)
    requires Lookup(t, s.mangled, s.functionName) == Some(f)
    ensures TreatedExternal(gate, t, s) <==> !Descends(gate, f)
  {
  }

  ghost predicate ReachedCall(t: Tables, target: FunctionInfo, gate: Gate, c: CalledFunction) {
    exists f, i :: Reaches(GatedGraph(t, target, gate), target, f) && 0 <= i < |f.called| && f.called[i] == c
  }

  ghost predicate DescendsInto(t: Tables, gate: Gate, c: CalledFunction) {
    Resolve(t, c).Some? && Descends(gate, Resolve(t, c).value)
  }

  // The specs as the tool derives them: one for each function, under its names
  // (src/constraints/derive.rs).
  predicate DerivedFrom(fns: seq<FunctionInfo>, specs: seq<SpecConstraint>) {
    forall s :: s in specs ==> exists f :: f in fns && f.name == s.functionName && f.mangled == s.mangled
  }

  function DeriveConstraints(fns: seq<FunctionInfo>): (specs: seq<SpecConstraint>)
    ensures DerivedFrom(fns, specs) && |specs| == |fns|
    ensures forall i :: 0 <= i < |fns| ==> specs[i].functionName == fns[i].name && specs[i].mangled == fns[i].mangled
    ensures forall i :: 0 <= i < |fns| ==> specs[i].hasBody == fns[i].hasBody && specs[i].isVirtual == fns[i].isVirtual
  {
    seq(|fns|, i requires 0 <= i < |fns| =>
      SpecConstraint(fns[i].name, fns[i].mangled, fns[i].hasBody, fns[i].isVirtual))
  }

  // An indexed symbol means the same function for a call and for a spec.
  lemma MangledSameFunction(t: Tables, c: CalledFunction, s: SpecConstraint)
    requires s.mangled == Some(c.mangled) && c.mangled in t.byMangled
    ensures Resolve(t, c).Some? && Lookup(t, s.mangled, s.functionName) == Resolve(t, c)
  {
  }

  lemma ReachedIsTarget(t: Tables, target: FunctionInfo, gate: Gate, c: CalledFunction)
    requires ReachedCall(t, target, gate, c)
    ensures GatedTarget(t, target, gate, c.mangled)
  {
    var f, i :| Reaches(GatedGraph(t, target, gate), target, f) && 0 <= i < |f.called| && f.called[i] == c;
    assert CallsSymbol(f, c.mangled);
  }

  // A spec for a call: of the function the call resolves to, or under the call's symbol.
  ghost predicate OwnSpec(t: Tables, c: CalledFunction, s: SpecConstraint) {
    Resolve(t, c).Some? && Lookup(t, s.mangled, s.functionName) == Resolve(t, c)
  }

  ghost predicate SpecFor(t: Tables, c: CalledFunction, s: SpecConstraint) {
    OwnSpec(t, c, s) || s.mangled == Some(c.mangled)
  }

  // Some reached call uses the spec's symbol; only then does the filter return the spec.
  ghost predicate SymbolReached(t: Tables, target: FunctionInfo, gate: Gate, s: SpecConstraint) {
    s.mangled.Some? && GatedTarget(t, target, gate, s.mangled.value)
  }

  /** With specs derived from the functions the walk knows, a reached call is never descended
      into and returned. It is descended into, returned, or excluded as virtual or builtin,
      exactly unless it should be overridden and no reached call uses its spec's symbol. */
  lemma DescendOrOverride(target: FunctionInfo, fns: seq<FunctionInfo>, specs: seq<SpecConstraint>, gate: Gate,
                          c: CalledFunction, s: SpecConstraint)
    requires DerivedFrom(fns, specs)
    requires ReachedCall(TablesOf(fns), target, gate, c) && s in specs && SpecFor(TablesOf(fns), c, s)
    ensures
      var t := TablesOf(fns);
      var descended, returned := DescendsInto(t, gate, c), IsExternalCallSpec(target, fns, specs, gate, s);
      && !(descended && returned)
      && (descended || returned || Excluded(t, s) <==>
            descended || Excluded(t, s) || SymbolReached(t, target, gate, s))
  {
    var t := TablesOf(fns);
    ReachedIsTarget(t, target, gate, c);
    if s.mangled == Some(c.mangled) { MangledSameFunction(t, c, s); }
  }

  // In particular, a call by its spec's own symbol always goes one of the three ways.
  lemma SymbolCallHandled(target: FunctionInfo, fns: seq<FunctionInfo>, specs: seq<SpecConstraint>, gate: Gate,
                          c: CalledFunction, s: SpecConstraint)
    requires DerivedFrom(fns, specs)
    requires ReachedCall(TablesOf(fns), target, gate, c) && s in specs && s.mangled == Some(c.mangled)
    ensures
      var t := TablesOf(fns);
      DescendsInto(t, gate, c) || IsExternalCallSpec(target, fns, specs, gate, s) || Excluded(t, s)
  {
    ReachedIsTarget(TablesOf(fns), target, gate, c);
    DescendOrOverride(target, fns, specs, gate, c, s);
  }

  // What the filter believes of the spec's own function: that the walk runs it.
  ghost predicate SpecRuns(gate: Gate, t: Tables, s: SpecConstraint) {
    match Lookup(t, s.mangled, s.functionName)
    case Some(f) => Descends(gate, f)
    case None => s.hasBody && !gate.stl(s.functionName)
  }

  /** Exactly when any spec list breaks the partition. Both happen only where call and spec
      share a symbol and are resolved by two names, the call's function is entered and the
      spec's is not run. Neither happens if the callee is not entered and its own spec's
      symbol is unreached, or another function's spec says that it runs. */
  lemma PartitionFailsIff(target: FunctionInfo, fns: seq<FunctionInfo>, specs: seq<SpecConstraint>, gate: Gate,
                          c: CalledFunction, s: SpecConstraint)
    requires ReachedCall(TablesOf(fns), target, gate, c) && s in specs && SpecFor(TablesOf(fns), c, s)
    ensures
      var t := TablesOf(fns);
      var descended, returned := DescendsInto(t, gate, c), IsExternalCallSpec(target, fns, specs, gate, s);
      var own := OwnSpec(t, c, s);
      && (descended && returned <==> !Excluded(t, s) && !own && descended && !SpecRuns(gate, t, s))
      && (!descended && !returned && !Excluded(t, s) <==>
            !Excluded(t, s) && !descended && if own then !SymbolReached(t, target, gate, s) else SpecRuns(gate, t, s))
      && (!own ==> c.mangled !in t.byMangled)
  {
    var t := TablesOf(fns);
    ReachedIsTarget(t, target, gate, c);
    if s.mangled == Some(c.mangled) && c.mangled in t.byMangled { MangledSameFunction(t, c, s); }
  }

  // The target calls `g` by its plain name, which is how a call without a symbol is recorded.
  const PLAIN_CALL := CalledFunction("g", "g")
  const PLAIN_CALLER := FunctionInfo("main", None, true, false, false, [PLAIN_CALL])

  function Bodiless(mangled: Option<string>): FunctionInfo {
    FunctionInfo("g", mangled, false, false, false, [])
  }

  lemma PlainTables(mangled: Option<string>)
    requires mangled == None || mangled == Some("_Z1gv")
    ensures
      var t, g := TablesOf([PLAIN_CALLER, Bodiless(mangled)]), Bodiless(mangled);
      && t.byName == map["main" := PLAIN_CALLER, "g" := g]
      && t.byMangled == (if mangled.Some? then map["_Z1gv" := g] else map[])
  {
    var fns := [PLAIN_CALLER, Bodiless(mangled)];
    assert fns[..1] == [PLAIN_CALLER] && [PLAIN_CALLER][..0] == [];
    assert TablesOf([PLAIN_CALLER]) == Tables(map[], map["main" := PLAIN_CALLER]);
  }

  lemma PlainClosure(mangled: Option<string>, gate: Gate, f: FunctionInfo)
    requires mangled == None || mangled == Some("_Z1gv")
    requires Reaches(GatedGraph(TablesOf([PLAIN_CALLER, Bodiless(mangled)]), PLAIN_CALLER, gate), PLAIN_CALLER, f)
    ensures f == PLAIN_CALLER
  {
    var t := TablesOf([PLAIN_CALLER, Bodiless(mangled)]);
    PlainTables(mangled);
    assert "g"[0] != "_Z1gv"[0];
    assert Resolve(t, PLAIN_CALL) == Some(Bodiless(mangled));
    ClosedHoldsReach(GatedGraph(t, PLAIN_CALLER, gate), {PLAIN_CALLER}, PLAIN_CALLER, f);
  }

  /** The override that goes missing: `g` is declared only, with no symbol or with one the call
      does not use. It is reached, has its own derived spec, and gets neither a body nor an
      override. */
  lemma PlainCallForgotten(mangled: Option<string>, stl: string -> bool)
    requires mangled == None || mangled == Some("_Z1gv")
    ensures
      var fns, gate := [PLAIN_CALLER, Bodiless(mangled)], Gate(stl, false, map[]);
      var t, specs := TablesOf(fns), DeriveConstraints(fns);
      && ReachedCall(t, PLAIN_CALLER, gate, PLAIN_CALL) && OwnSpec(t, PLAIN_CALL, specs[1])
      && !DescendsInto(t, gate, PLAIN_CALL) && !Excluded(t, specs[1])
      && !IsExternalCallSpec(PLAIN_CALLER, fns, specs, gate, specs[1])
  {
    var fns, gate := [PLAIN_CALLER, Bodiless(mangled)], Gate(stl, false, map[]);
    PlainTables(mangled);
    PlainReached(mangled, gate);
    PlainSpec(mangled);
  }

  lemma PlainReached(mangled: Option<string>, gate: Gate)
    requires mangled == None || mangled == Some("_Z1gv")
    ensures
      var t := TablesOf([PLAIN_CALLER, Bodiless(mangled)]);
      ReachedCall(t, PLAIN_CALLER, gate, PLAIN_CALL) && !GatedTarget(t, PLAIN_CALLER, gate, "_Z1gv")
  {
    var t := TablesOf([PLAIN_CALLER, Bodiless(mangled)]);
    ReachRefl(GatedGraph(t, PLAIN_CALLER, gate), PLAIN_CALLER);
    assert PLAIN_CALLER.called[0] == PLAIN_CALL && "g"[0] != "_Z1gv"[0];
    forall f | Reaches(GatedGraph(t, PLAIN_CALLER, gate), PLAIN_CALLER, f) ensures !CallsSymbol(f, "_Z1gv") {
      PlainClosure(mangled, gate, f);
    }
  }

  lemma PlainSpec(mangled: Option<string>)
    requires mangled == None || mangled == Some("_Z1gv")
    ensures
      var fns := [PLAIN_CALLER, Bodiless(mangled)];
      var t, s := TablesOf(fns), DeriveConstraints(fns)[1];
      OwnSpec(t, PLAIN_CALL, s) && Resolve(t, PLAIN_CALL) == Some(Bodiless(mangled)) && !Excluded(t, s)
  {
    PlainTables(mangled);
    assert "g"[0] != "_Z1gv"[0] && "g"[0] != "__builtin_"[0] && "_Z1gv"[1] != "__builtin_"[1];
  }

  // The target calls `bar` by a symbol no function carries.
  const BAR_CALL := CalledFunction("bar", "_Z3barv")
  const BAR_CALLER := FunctionInfo("main", None, true, false, false, [BAR_CALL])
  const BAR := FunctionInfo("bar", None, true, false, false, [])

  lemma BarReached(fns: seq<FunctionInfo>, gate: Gate)
    ensures ReachedCall(TablesOf(fns), BAR_CALLER, gate, BAR_CALL)
  {
    ReachRefl(GatedGraph(TablesOf(fns), BAR_CALLER, gate), BAR_CALLER);
    assert BAR_CALLER.called[0] == BAR_CALL;
  }

  // A spec of that symbol under another name: the call is entered and overridden as well.
  lemma DescendedAndReturned(stl: string -> bool)
    requires !stl("bar")
    ensures
      var gate, s := Gate(stl, false, map[]), SpecConstraint("ns::bar", Some("_Z3barv"), false, false);
      DescendsInto(TablesOf([BAR]), gate, BAR_CALL) && IsExternalCallSpec(BAR_CALLER, [BAR], [s], gate, s)
  {
    var gate := Gate(stl, false, map[]);
    BarTables();
    BarReached([BAR], gate);
    ReachedIsTarget(TablesOf([BAR]), BAR_CALLER, gate, BAR_CALL);
    assert "ns::bar"[0] != "__builtin_"[0] && "_Z3barv"[1] != "__builtin_"[1];
  }

  lemma BarTables()
    ensures var t := TablesOf([BAR]);
      t.byMangled == map[] && t.byName == map["bar" := BAR] && "ns::bar" !in t.byName
  {
    assert [BAR][..0] == [];
    assert TablesOf([BAR]) == Tables(map[], map["bar" := BAR]);
    assert "ns::bar"[0] != "bar"[0];
  }

  // A call nothing resolves, with a spec that claims a body: neither.
  lemma NeitherDescendedNorReturned(stl: string -> bool)
    requires !stl("bar")
    ensures
      var gate, s := Gate(stl, false, map[]), SpecConstraint("bar", Some("_Z3barv"), true, false);
      && !DescendsInto(TablesOf([]), gate, BAR_CALL) && !IsExternalCallSpec(BAR_CALLER, [], [s], gate, s)
      && ReachedCall(TablesOf([]), BAR_CALLER, gate, BAR_CALL) && !Excluded(TablesOf([]), s)
  {
    BarReached([], Gate(stl, false, map[]));
    assert "bar"[0] != "__builtin_"[0] && "_Z3barv"[1] != "__builtin_"[1];
  }

  // A returned spec belongs to a function the walk entered only if that is the target itself.
  lemma ReturnedNotEntered(target: FunctionInfo, fns: seq<FunctionInfo>, specs: seq<SpecConstraint>, gate: Gate,
                           s: SpecConstraint, f: FunctionInfo)
    requires IsExternalCallSpec(target, fns, specs, gate, s)
    requires Lookup(TablesOf(fns), s.mangled, s.functionName) == Some(f)
    ensures Reaches(GatedGraph(TablesOf(fns), target, gate), target, f) <==> f == target
  {
    var g := GatedGraph(TablesOf(fns), target, gate);
    ReachRefl(g, target);
    if f != target && Reaches(g, target, f) { ReachLast(g, target, f); }
  }
}
