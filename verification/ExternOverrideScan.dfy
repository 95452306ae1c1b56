/** The override scan over a bitcode module (src/transform/extern_override_scan.rs):
    which functions must be overridden for a target, and which globals each override
    may clobber. */
module ExternOverrideScan {
  import opened CallGraph
  import opened Options

  type Name = string

  // Signature parts copied verbatim into the override target.
  datatype Signature = Signature(fixedParams: seq<string>, returnType: string, isVariadic: bool)

  datatype IrFunc =
    | Declare(name: Name, sig: Signature)
    | Define(name: Name, sig: Signature, calls: seq<Name>, usesVa: bool, stores: seq<Name>)

  datatype Reason = DeclareOnly | UsesVarargsIntrinsic | StlOverride | MsvcMutexHelper

  datatype OverrideTarget =
    OverrideTarget(symbol: Name, sig: Signature, reason: Reason, globalsWritten: set<Name>)

  // The two hard-coded name registries, left uninterpreted.
  datatype Registry = Registry(stl: string -> bool, mutexHelper: string -> bool)

  // Mutable globals of the module, and those other translation units can name.
  datatype Globals = Globals(all: set<Name>, visible: set<Name>)
  type MutableGlobals = g: Globals | g.visible <= g.all witness Globals({}, {})

  type Index = map<Name, IrFunc>

  predicate IsIntrinsic(n: Name) {
    "llvm." <= n
  }

  // The name index the source collects into a hash map: the last entry of a name wins.
  function ByName(funcs: seq<IrFunc>): (m: Index)
    ensures forall n :: n in m ==> m[n] in funcs && m[n].name == n
    ensures forall f :: f in funcs ==> f.name in m
  {
    if funcs == [] then map[]
    else
      var f := funcs[|funcs| - 1];
      assert forall e :: e in funcs ==> e in funcs[..|funcs| - 1] || e == f;
      ByName(funcs[..|funcs| - 1])[f.name := f]
  }

  lemma {:induction false} LastEntryWins(funcs: seq<IrFunc>, i: nat)
    requires i < |funcs| && forall j :: i < j < |funcs| ==> funcs[j].name != funcs[i].name
    ensures ByName(funcs)[funcs[i].name] == funcs[i]
  {
    if i < |funcs| - 1 { LastEntryWins(funcs[..|funcs| - 1], i); }
  }

  // ---------------------------------------------------------------- specification

  ghost function CallsOf(f: IrFunc): set<Name> {
    if f.Define? then set i | 0 <= i < |f.calls| :: f.calls[i] else {}
  }

  ghost function GraphOf(m: Index): Graph<Name> {
    map n | n in m :: CallsOf(m[n])
  }

  // What a function may write by itself.
  ghost function Own(m: Index, mg: MutableGlobals, n: Name): set<Name> {
    if n !in m then {}
    else if m[n].Define? then (set g | g in mg.all && g in m[n].stores)
    else if IsIntrinsic(n) then {}
    else mg.visible
  }

  ghost predicate MayWrite(m: Index, mg: MutableGlobals, start: Name, g: Name) {
    exists f :: Reaches(GraphOf(m), start, f) && g in Own(m, mg, f)
  }

  ghost function Frame(m: Index, mg: MutableGlobals, start: Name): (s: set<Name>)
    ensures forall g :: g in s <==> MayWrite(m, mg, start, g)
  {
    assert forall f :: Own(m, mg, f) <= mg.all;
    set g | g in mg.all && MayWrite(m, mg, start, g)
  }

  // A chain of calls, read off the bodies: each function is defined and calls the next.
  ghost predicate CallChain(m: Index, p: seq<Name>) {
    p != [] && forall i {:trigger p[i]} :: 0 < i < |p| ==> CallsNext(m, p[i - 1], p[i])
  }

  ghost predicate CallsNext(m: Index, a: Name, c: Name) {
    a in m && m[a].Define? && c in m[a].calls
  }

  lemma ChainIsPath(m: Index, p: seq<Name>)
    ensures CallChain(m, p) <==> IsPath(GraphOf(m), p)
  {
    forall a, c ensures CallsNext(m, a, c) <==> Edge(GraphOf(m), a, c) {}
  }

  lemma ReachedByChain(m: Index, a: Name, b: Name)
    ensures Reaches(GraphOf(m), a, b) <==> exists p :: CallChain(m, p) && p[0] == a && p[|p| - 1] == b
  {
    if Reaches(GraphOf(m), a, b) {
      var p :| PathFromTo(GraphOf(m), p, a, b);
      ChainIsPath(m, p);
      assert CallChain(m, p);
      assert exists q :: CallChain(m, q) && q[0] == a && q[|q| - 1] == b;
    }
    if p :| CallChain(m, p) && p[0] == a && p[|p| - 1] == b {
      ChainIsPath(m, p);
      assert PathFromTo(GraphOf(m), p, a, b);
    }
  }

  /** The frame, read off the module: at the end of some chain of calls stands a defined body
      that names the mutable global in a store, or an opaque declared function and the global
      is one other translation units can name. */
  lemma FrameIs(m: Index, mg: MutableGlobals, start: Name, g: Name)
    ensures g in Frame(m, mg, start) <==> exists p ::
      && CallChain(m, p) && p[0] == start && p[|p| - 1] in m
      && match m[p[|p| - 1]]
         case Define(_, _, _, _, stores) => g in stores && g in mg.all
         case Declare(_, _) => !("llvm." <= p[|p| - 1]) && g in mg.visible
  {
    forall f ensures g in Own(m, mg, f) <==> f in m && match m[f]
      case Define(_, _, _, _, stores) => g in stores && g in mg.all
      case Declare(_, _) => !("llvm." <= f) && g in mg.visible
    {}
    if f :| Reaches(GraphOf(m), start, f) && g in Own(m, mg, f) {
      ReachedByChain(m, start, f);
    }
    forall p | CallChain(m, p) && p[0] == start ensures Reaches(GraphOf(m), start, p[|p| - 1]) {
      ReachedByChain(m, start, p[|p| - 1]);
    }
  }

  function ReasonFor(reg: Registry, f: IrFunc): (r: Option<Reason>)
    ensures r.Some? <==> Broken(reg, f)
    ensures r == Some(DeclareOnly) <==> f.Declare?
    ensures r == Some(UsesVarargsIntrinsic) <==> f.Define? && f.usesVa
    ensures r == Some(StlOverride) <==> f.Define? && !f.usesVa && reg.stl(f.name)
    ensures r == Some(MsvcMutexHelper) <==> f.Define? && !f.usesVa && !reg.stl(f.name) && reg.mutexHelper(f.name)
  {
    if f.Declare? then Some(DeclareOnly)
    else if f.usesVa then Some(UsesVarargsIntrinsic)
    else if reg.stl(f.name) then Some(StlOverride)
    else if reg.mutexHelper(f.name) then Some(MsvcMutexHelper)
    else None
  }

  predicate Broken(reg: Registry, f: IrFunc) {
    f.Declare? || f.usesVa || reg.stl(f.name) || reg.mutexHelper(f.name)
  }

  // The scan's answer: one target per reachable broken function other than the target
  // under verification and the intrinsics.
  ghost predicate IsOverride(funcs: seq<IrFunc>, mg: MutableGlobals, reg: Registry, target: Name, f: IrFunc,
                             t: OverrideTarget) {
    var m := ByName(funcs);
    && f in funcs
    && Reaches(GraphOf(m), target, f.name)
    && f.name != target && !IsIntrinsic(f.name) && Broken(reg, f)
    && t.symbol == f.name && t.sig == f.sig
    && Some(t.reason) == ReasonFor(reg, f)
    && t.globalsWritten == Frame(m, mg, f.name)
  }

  /** What is overridden, read off the module: a function at the end of some chain of calls
      from the target, other than the target and the intrinsics, that is only declared, uses
      varargs, or stands in one of the two registries. */
  lemma IsOverrideMeans(funcs: seq<IrFunc>, mg: MutableGlobals, reg: Registry, target: Name, f: IrFunc,
                        t: OverrideTarget)
    ensures IsOverride(funcs, mg, reg, target, f, t) <==>
      && f in funcs && f.name != target && !("llvm." <= f.name)
      && (exists p :: CallChain(ByName(funcs), p) && p[0] == target && p[|p| - 1] == f.name)
      && (f.Declare? || f.usesVa || reg.stl(f.name) || reg.mutexHelper(f.name))
      && t == OverrideTarget(f.name, f.sig, t.reason, Frame(ByName(funcs), mg, f.name))
      && ReasonFor(reg, f) == Some(t.reason)
  {
    ReachedByChain(ByName(funcs), target, f.name);
  }

  // ---------------------------------------------------------------- the worklists

  ghost function Callable(m: Index, start: Name): set<Name> {
    {start} + set n, c | n in m && c in CallsOf(m[n]) :: c
  }

  // What both worklists keep: everything seen is reachable, and whatever is missing from
  // the processed set is still queued.
  ghost predicate Explored(g: Graph<Name>, start: Name, done: set<Name>, pending: seq<Name>) {
    && (start in done || start in pending)
    && (forall n :: n in done || n in pending ==> Reaches(g, start, n))
    && (forall a, b :: a in done && Edge(g, a, b) ==> b in done || b in pending)
  }

  // Taking a name off the queue: it has been processed already ...
  lemma ExploredSkip(g: Graph<Name>, start: Name, done: set<Name>, pending: seq<Name>, x: Name, rest: seq<Name>)
    requires Explored(g, start, done, pending) && x in done
    requires forall n :: (n in pending ==> n in rest || n == x) && (n in rest ==> n in pending)
    ensures Explored(g, start, done, rest)
  {
  }

  // ... or it is processed now, and what it calls is queued.
  lemma ExploredStep(g: Graph<Name>, start: Name, done: set<Name>, pending: seq<Name>, x: Name, rest: seq<Name>)
    requires Explored(g, start, done, pending) && x in pending
    requires forall n :: n in pending ==> n in rest || n == x
    requires forall n :: n in rest ==> Reaches(g, start, n)
    requires forall b :: Edge(g, x, b) ==> b in done || b == x || b in rest
    ensures Explored(g, start, done + {x}, rest)
  {
  }

  lemma ExploredAll(g: Graph<Name>, start: Name, done: set<Name>)
    requires Explored(g, start, done, [])
    ensures forall n :: n in done <==> Reaches(g, start, n)
  {
    forall n | Reaches(g, start, n) ensures n in done { ClosedHoldsReach(g, done, start, n); }
  }

  method ReachableFrom(target: Name, m: Index) returns (reachable: set<Name>)
    requires forall n :: n in m ==> m[n].name == n
    ensures forall n :: n in reachable <==> Reaches(GraphOf(m), target, n)
  {
    ghost var g := GraphOf(m);
    reachable := {};
    var worklist := [target];
    ReachRefl(g, target);
    while worklist != []
      invariant Explored(g, target, reachable, worklist)
      invariant forall n :: n in reachable || n in worklist ==> n in Callable(m, target)
      decreases Callable(m, target) - reachable, |worklist|
    {
      ghost var before := worklist;
      var s := worklist[|worklist| - 1];
      worklist := worklist[..|worklist| - 1];
      assert forall n :: n in before ==> n in worklist || n == s;
      if s in reachable {
        ExploredSkip(g, target, reachable, before, s, worklist);
        continue;
      }
      if s in m && m[s].Define? {
        worklist := Push(m, target, s, reachable + {s}, worklist);
      }
      ExploredStep(g, target, reachable, before, s, worklist);
      reachable := reachable + {s};
    }
    ExploredAll(g, target, reachable);
  }

  // The inner loop of both worklists.
  method Push(m: Index, ghost start: Name, s: Name, done: set<Name>, pending: seq<Name>) returns (pending': seq<Name>)
    requires s in m && m[s].Define? && Reaches(GraphOf(m), start, s)
    requires forall n :: n in pending ==> Reaches(GraphOf(m), start, n) && n in Callable(m, start)
    ensures pending <= pending'
    ensures forall n :: n in pending' ==> Reaches(GraphOf(m), start, n) && n in Callable(m, start)
    ensures forall b :: Edge(GraphOf(m), s, b) ==> b in done || b in pending'
  {
    pending' := pending;
    var calls := m[s].calls;
    for i := 0 to |calls|
      invariant pending <= pending'
      invariant forall n :: n in pending' ==> Reaches(GraphOf(m), start, n) && n in Callable(m, start)
      invariant forall k :: 0 <= k < i ==> calls[k] in done || calls[k] in pending'
    {
      if calls[i] !in done {
        assert calls[i] in CallsOf(m[s]);
        ReachStep(GraphOf(m), start, s, calls[i]);
        pending' := pending' + [calls[i]];
      }
    }
  }

  method CollectGlobalsWrittenFrom(start: Name, m: Index, mg: MutableGlobals) returns (written: set<Name>)
    requires forall n :: n in m ==> m[n].name == n
    ensures written == Frame(m, mg, start)
  {
    ghost var g := GraphOf(m);
    written := {};
    var visited: set<Name> := {};
    var worklist := [start];
    ReachRefl(g, start);
    while worklist != []
      invariant Explored(g, start, visited, worklist)
      invariant forall n :: n in visited || n in worklist ==> n in Callable(m, start)
      invariant WrittenBy(m, mg, visited, written)
      decreases Callable(m, start) - visited, |worklist|
    {
      ghost var before, writtenBefore := worklist, written;
      var s := worklist[0];
      worklist := worklist[1..];
      assert forall n :: n in before ==> n in worklist || n == s;
      if s in visited {
        ExploredSkip(g, start, visited, before, s, worklist);
        continue;
      }
      if s in m && m[s].Declare? && !IsIntrinsic(s) {
        written := written + mg.visible;
      }
      if s in m && m[s].Define? {
        written := AddStores(written, m[s].stores, mg);
        worklist := Push(m, start, s, visited + {s}, worklist);
      }
      ExploredStep(g, start, visited, before, s, worklist);
      WrittenStep(m, mg, visited, s, writtenBefore, written);
      visited := visited + {s};
    }
    ExploredAll(g, start, visited);
  }

  // What the functions processed so far write by themselves.
  ghost predicate WrittenBy(m: Index, mg: MutableGlobals, done: set<Name>, written: set<Name>) {
    forall x :: x in written <==> exists f :: f in done && x in Own(m, mg, f)
  }

  lemma WrittenStep(m: Index, mg: MutableGlobals, done: set<Name>, s: Name, written: set<Name>, written': set<Name>)
    requires WrittenBy(m, mg, done, written) && written' == written + Own(m, mg, s)
    ensures WrittenBy(m, mg, done + {s}, written')
  {
    forall x | x in Own(m, mg, s) ensures exists f :: f in done + {s} && x in Own(m, mg, f) {
      assert s in done + {s};
    }
  }

  method AddStores(written: set<Name>, stores: seq<Name>, mg: MutableGlobals) returns (written': set<Name>)
    ensures written' == written + set g | g in mg.all && g in stores
  {
    written' := written;
    for i := 0 to |stores|
      invariant written' == written + set g | g in mg.all && g in stores[..i]
    {
      assert stores[..i + 1] == stores[..i] + [stores[i]];
      if stores[i] in mg.all { written' := written' + {stores[i]}; }
    }
    assert stores[..|stores|] == stores;
  }

  // ---------------------------------------------------------------- the result, in order

  // Lexicographic order of symbols.
  predicate NotAfter(a: string, b: string) {
    a == "" || (b != "" && (a[0] < b[0] || (a[0] == b[0] && NotAfter(a[1..], b[1..]))))
  }

  // a is b or a prefix of it, or has the smaller character where the two first differ.
  lemma {:induction false} NotAfterIs(a: string, b: string)
    ensures NotAfter(a, b) <==> a <= b || exists n: nat :: n < |a| && n < |b| && FirstDifference(a, b, n) && a[n] < b[n]
    decreases |a|
  {
    if a != "" && b != "" {
      NotAfterIs(a[1..], b[1..]);
      if a[0] == b[0] {
        assert a <= b <==> a[1..] <= b[1..] by { assert a == [a[0]] + a[1..] && b == [b[0]] + b[1..]; }
        forall n: nat | n < |a| - 1 && n < |b| - 1
          ensures FirstDifference(a[1..], b[1..], n) <==> FirstDifference(a, b, n + 1)
        {
          DifferenceTail(a, b, n);
        }
        if n: nat :| n < |a| && n < |b| && FirstDifference(a, b, n) && a[n] < b[n] {
          assert FirstDifference(a[1..], b[1..], n - 1);
        }
        if n: nat :| n < |a| - 1 && n < |b| - 1 && FirstDifference(a[1..], b[1..], n) && a[1..][n] < b[1..][n] {
          assert FirstDifference(a, b, n + 1);
        }
      } else {
        assert FirstDifference(a, b, 0);
        forall n: nat | 0 < n < |a| && n < |b| ensures !FirstDifference(a, b, n) {}
      }
    }
  }

  ghost predicate FirstDifference(a: string, b: string, n: nat)
    requires n < |a| && n < |b|
  {
    a[n] != b[n] && forall k :: 0 <= k < n ==> a[k] == b[k]
  }

  lemma DifferenceTail(a: string, b: string, n: nat)
    requires a != "" && b != "" && a[0] == b[0] && n < |a| - 1 && n < |b| - 1
    ensures FirstDifference(a[1..], b[1..], n) <==> FirstDifference(a, b, n + 1)
  {
    if FirstDifference(a[1..], b[1..], n) {
      forall k | 0 < k < n + 1 ensures a[k] == b[k] { assert a[1..][k - 1] == b[1..][k - 1]; }
    }
    if FirstDifference(a, b, n + 1) {
      forall k | 0 <= k < n ensures a[1..][k] == b[1..][k] { assert a[k + 1] == b[k + 1]; }
    }
  }

  predicate Sorted(ts: seq<OverrideTarget>) {
    forall i, j :: 0 <= i < j < |ts| ==> NotAfter(ts[i].symbol, ts[j].symbol)
  }

  // Insert behind every target that does not sort after it.
  function Insert(ts: seq<OverrideTarget>, t: OverrideTarget): seq<OverrideTarget> {
    if ts == [] then [t]
    else if NotAfter(ts[0].symbol, t.symbol) then [ts[0]] + Insert(ts[1..], t)
    else [t] + ts
  }

  function SortBySymbol(ts: seq<OverrideTarget>): seq<OverrideTarget> {
    if ts == [] then [] else Insert(SortBySymbol(ts[..|ts| - 1]), ts[|ts| - 1])
  }

  lemma {:induction false} NotAfterOrder(a: string, b: string, c: string)
    ensures NotAfter(a, b) || NotAfter(b, a)
    ensures NotAfter(a, b) && NotAfter(b, c) ==> NotAfter(a, c)
    decreases |a|
  {
    if a != "" && b != "" { NotAfterOrder(a[1..], b[1..], if c == "" then "" else c[1..]); }
  }

  lemma {:induction false} InsertSorts(ts: seq<OverrideTarget>, t: OverrideTarget)
    requires Sorted(ts)
    ensures Sorted(Insert(ts, t)) && multiset(Insert(ts, t)) == multiset(ts) + multiset{t}
  {
    if ts != [] {
      assert ts == [ts[0]] + ts[1..];
      if NotAfter(ts[0].symbol, t.symbol) {
        InsertSorts(ts[1..], t);
        FrontSorts(ts[0], ts[1..], t, Insert(ts[1..], t));
      } else {
        forall k | 0 <= k < |ts| ensures NotAfter(t.symbol, ts[k].symbol) {
          NotAfterOrder(t.symbol, ts[0].symbol, ts[k].symbol);
        }
      }
    }
  }

  lemma FrontSorts(first: OverrideTarget, more: seq<OverrideTarget>, t: OverrideTarget, rest: seq<OverrideTarget>)
    requires Sorted([first] + more) && Sorted(rest) && NotAfter(first.symbol, t.symbol)
    requires multiset(rest) == multiset(more) + multiset{t}
    ensures Sorted([first] + rest)
  {
    forall k | 0 <= k < |rest| ensures NotAfter(first.symbol, rest[k].symbol) {
      assert rest[k] in multiset(rest);
      if rest[k] != t {
        assert rest[k] in multiset(more);
        var j :| 0 <= j < |more| && more[j] == rest[k];
        var all := [first] + more;
        assert all[0] == first && all[j + 1] == more[j];
      }
    }
  }

  // The final sort keeps every target and puts them in order.
  lemma {:induction false} SortedTargets(ts: seq<OverrideTarget>)
    ensures Sorted(SortBySymbol(ts)) && multiset(SortBySymbol(ts)) == multiset(ts)
  {
    if ts != [] {
      var n := |ts| - 1;
      SortedTargets(ts[..n]);
      InsertSorts(SortBySymbol(ts[..n]), ts[n]);
      assert ts == ts[..n] + [ts[n]];
    }
  }

  ghost predicate Selected(funcs: seq<IrFunc>, reg: Registry, target: Name, f: IrFunc) {
    && f in funcs && Reaches(GraphOf(ByName(funcs)), target, f.name)
    && f.name != target && !IsIntrinsic(f.name) && Broken(reg, f)
  }

  ghost function TargetFor(funcs: seq<IrFunc>, mg: MutableGlobals, reg: Registry, f: IrFunc): OverrideTarget
    requires Broken(reg, f)
  {
    OverrideTarget(f.name, f.sig, ReasonFor(reg, f).value, Frame(ByName(funcs), mg, f.name))
  }

  lemma SelectedOnly(funcs: seq<IrFunc>, mg: MutableGlobals, reg: Registry, target: Name, f: IrFunc, t: OverrideTarget)
    ensures IsOverride(funcs, mg, reg, target, f, t) <==>
      Selected(funcs, reg, target, f) && t == TargetFor(funcs, mg, reg, f)
  {
  }

  // One target for each overridden function, in the module's order.
  ghost function Found(funcs: seq<IrFunc>, mg: MutableGlobals, reg: Registry, target: Name, n: nat): seq<OverrideTarget>
    requires n <= |funcs|
  {
    if n == 0 then []
    else
      var f := funcs[n - 1];
      Found(funcs, mg, reg, target, n - 1) +
        if Selected(funcs, reg, target, f) then [TargetFor(funcs, mg, reg, f)] else []
  }

  ghost predicate FoundAt(funcs: seq<IrFunc>, mg: MutableGlobals, reg: Registry, target: Name, k: nat,
                          t: OverrideTarget) {
    k < |funcs| && IsOverride(funcs, mg, reg, target, funcs[k], t)
  }

  lemma FoundNext(funcs: seq<IrFunc>, mg: MutableGlobals, reg: Registry, target: Name, n: nat, t: OverrideTarget)
    requires n < |funcs|
    ensures t in Found(funcs, mg, reg, target, n + 1) <==>
      t in Found(funcs, mg, reg, target, n) || FoundAt(funcs, mg, reg, target, n, t)
  {
    SelectedOnly(funcs, mg, reg, target, funcs[n], t);
  }

  lemma FoundAre(funcs: seq<IrFunc>, mg: MutableGlobals, reg: Registry, target: Name, t: OverrideTarget)
    ensures t in Found(funcs, mg, reg, target, |funcs|) <==> exists k: nat :: FoundAt(funcs, mg, reg, target, k, t)
  {
    forall n: nat | n < |funcs|
      ensures t in Found(funcs, mg, reg, target, n + 1) <==>
        t in Found(funcs, mg, reg, target, n) || FoundAt(funcs, mg, reg, target, n, t)
    {
      FoundNext(funcs, mg, reg, target, n, t);
    }
    var so := (n: nat) => n <= |funcs| && t in Found(funcs, mg, reg, target, n);
    var here := (k: nat) => FoundAt(funcs, mg, reg, target, k, t);
    Accumulated(|funcs|, so, here);
    if t in Found(funcs, mg, reg, target, |funcs|) {
      assert so(|funcs|);
      var k: nat :| k < |funcs| && here(k);
      assert FoundAt(funcs, mg, reg, target, k, t);
    }
    if k: nat :| FoundAt(funcs, mg, reg, target, k, t) {
      assert here(k);
    }
  }

  lemma {:induction false} Accumulated(n: nat, so: nat -> bool, here: nat -> bool)
    requires !so(0) && forall i: nat :: i < n ==> (so(i + 1) <==> so(i) || here(i))
    ensures so(n) <==> exists k: nat :: k < n && here(k)
  {
    if n > 0 {
      Accumulated(n - 1, so, here);
      assert so(n) <==> so(n - 1) || here(n - 1);
    }
  }

  // One function of the module: a target, or nothing.
  lemma FoundStep(funcs: seq<IrFunc>, mg: MutableGlobals, reg: Registry, target: Name, reachable: set<Name>, i: nat)
    requires i < |funcs| && forall n :: n in reachable <==> Reaches(GraphOf(ByName(funcs)), target, n)
    ensures
      var f, now := funcs[i], Found(funcs, mg, reg, target, i);
      Found(funcs, mg, reg, target, i + 1) ==
        if f.name in reachable && f.name != target && !IsIntrinsic(f.name) && ReasonFor(reg, f).Some?
        then now + [OverrideTarget(f.name, f.sig, ReasonFor(reg, f).value, Frame(ByName(funcs), mg, f.name))] else now
  {
    var f := funcs[i];
    assert Selected(funcs, reg, target, f) <==>
      f.name in reachable && f.name != target && !IsIntrinsic(f.name) && ReasonFor(reg, f).Some?;
  }

  // The filter loop, in the module's order.
  method FindTargets(funcs: seq<IrFunc>, mg: MutableGlobals, reg: Registry, target: Name, m: Index,
                     reachable: set<Name>)
    returns (found: seq<OverrideTarget>)
    requires m == ByName(funcs) && forall n :: n in reachable <==> Reaches(GraphOf(m), target, n)
    ensures found == Found(funcs, mg, reg, target, |funcs|)
  {
    found := [];
    for i := 0 to |funcs|
      invariant found == Found(funcs, mg, reg, target, i)
    {
      var f := funcs[i];
      FoundStep(funcs, mg, reg, target, reachable, i);
      if f.name !in reachable || f.name == target || IsIntrinsic(f.name) { continue; }
      var reason := ReasonFor(reg, f);
      if reason.None? { continue; }
      var written := CollectGlobalsWrittenFrom(f.name, m, mg);
      found := found + [OverrideTarget(f.name, f.sig, reason.value, written)];
    }
  }

  /** The scan: exactly the reachable broken functions, once per entry of the module, sorted by
      symbol. */
  method Scan(funcs: seq<IrFunc>, mg: MutableGlobals, reg: Registry, target: Name) returns (out: seq<OverrideTarget>)
    ensures forall t :: t in out <==> exists f :: IsOverride(funcs, mg, reg, target, f, t)
    ensures Sorted(out) && multiset(out) == multiset(Found(funcs, mg, reg, target, |funcs|))
    ensures out == SortBySymbol(Found(funcs, mg, reg, target, |funcs|))
  {
    var m := ByName(funcs);
    var reachable := ReachableFrom(target, m);
    var found := FindTargets(funcs, mg, reg, target, m, reachable);
    out := SortBySymbol(found);
    ScanResult(funcs, mg, reg, target);
  }

  lemma ScanResult(funcs: seq<IrFunc>, mg: MutableGlobals, reg: Registry, target: Name)
    ensures
      var found := Found(funcs, mg, reg, target, |funcs|);
      var out := SortBySymbol(found);
      && Sorted(out) && multiset(out) == multiset(found)
      && forall t :: t in out <==> exists f :: IsOverride(funcs, mg, reg, target, f, t)
  {
    var found := Found(funcs, mg, reg, target, |funcs|);
    SortedTargets(found);
    SameMembers(SortBySymbol(found), found);
    forall t ensures t in found <==> exists f :: IsOverride(funcs, mg, reg, target, f, t) {
      FoundAre(funcs, mg, reg, target, t);
      if f :| IsOverride(funcs, mg, reg, target, f, t) {
        var k :| 0 <= k < |funcs| && funcs[k] == f;
        assert FoundAt(funcs, mg, reg, target, k, t);
      }
    }
  }

  lemma SameMembers(a: seq<OverrideTarget>, b: seq<OverrideTarget>)
    requires multiset(a) == multiset(b)
    ensures forall t :: t in a <==> t in b
  {
    assert forall t :: t in a <==> t in multiset(a);
    assert forall t :: t in b <==> t in multiset(b);
  }

  // ---------------------------------------------------------------- the write frame

  // The frame solves "own writes plus callees' writes" on any graph, cyclic or not ...
  lemma FrameEquation(m: Index, mg: MutableGlobals, n: Name, g: Name)
    ensures g in Frame(m, mg, n) <==>
      g in Own(m, mg, n) || exists c :: Edge(GraphOf(m), n, c) && g in Frame(m, mg, c)
  {
    var gr := GraphOf(m);
    if f :| Reaches(gr, n, f) && g in Own(m, mg, f) {
      ReachFirst(gr, n, f);
    }
    ReachRefl(gr, n);
    forall c, f | Edge(gr, n, c) && Reaches(gr, c, f) ensures Reaches(gr, n, f) {
      EdgeReaches(gr, n, c);
      ReachTrans(gr, n, c, f);
    }
  }

  ghost predicate Solves(m: Index, mg: MutableGlobals, w: Name -> set<Name>) {
    && (forall n :: Own(m, mg, n) <= w(n))
    && (forall n, c :: Edge(GraphOf(m), n, c) ==> w(c) <= w(n))
  }

  // ... and is below every other solution.
  lemma FrameLeast(m: Index, mg: MutableGlobals, w: Name -> set<Name>, start: Name)
    requires Solves(m, mg, w)
    ensures Frame(m, mg, start) <= w(start)
  {
    forall g | g in Frame(m, mg, start) ensures g in w(start) {
      var f :| Reaches(GraphOf(m), start, f) && g in Own(m, mg, f);
      var p :| PathFromTo(GraphOf(m), p, start, f);
      SolutionAlong(m, mg, w, p, g);
    }
  }

  lemma {:induction false} SolutionAlong(m: Index, mg: MutableGlobals, w: Name -> set<Name>, p: seq<Name>, g: Name)
    requires Solves(m, mg, w) && IsPath(GraphOf(m), p) && g in w(p[|p| - 1])
    ensures g in w(p[0])
  {
    if |p| > 1 {
      var q := p[1..];
      assert forall i :: 0 < i < |q| ==> q[i - 1] == p[i] && q[i] == p[i + 1];
      assert Edge(GraphOf(m), p[0], p[1]);
      SolutionAlong(m, mg, w, q, g);
    }
  }
}
