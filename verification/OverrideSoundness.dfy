/** What the override scan is for, stated over executions.

    A module runs on a call-stack machine over a memory of globals. A defined body may
    store to the globals it names and call its callees, in any order and any number of
    times; an opaque declared callee may write any globally visible mutable global and
    call back any of the module's entries; an intrinsic writes nothing. */
module OverrideSoundness {
  import opened CallGraph
  import opened ExternOverrideScan

  type Memory = map<Name, int>

  // The innermost call is the last element of the stack.
  datatype State = State(stack: seq<Name>, mem: Memory)

  // A module and the functions code outside it may call back. The scan knows no callbacks:
  // it is about machines without entries.
  datatype Machine = Machine(m: Index, mg: MutableGlobals, entries: set<Name>)

  ghost predicate Opaque(m: Index, n: Name) {
    n in m && m[n].Declare? && !IsIntrinsic(n)
  }

  ghost function Calling(k: Machine): Graph<Name> {
    map n | n in k.m :: if Opaque(k.m, n) then k.entries else CallsOf(k.m[n])
  }

  // The rules of execution, read off the module: a defined body calls what it names, and
  // code behind a declaration, if not an intrinsic, calls back entries ...
  ghost predicate MayCall(k: Machine, f: Name, c: Name) {
    f in k.m && match k.m[f]
      case Define(_, _, calls, _, _) => c in calls
      case Declare(_, _) => !("llvm." <= f) && c in k.entries
  }

  // ... a defined body stores to the globals it names, and code behind a declaration, if not
  // an intrinsic, to those visible outside the module.
  ghost predicate MayStore(k: Machine, f: Name, g: Name) {
    f in k.m && match k.m[f]
      case Define(_, _, _, _, stores) => g in stores && g in k.mg.all
      case Declare(_, _) => !("llvm." <= f) && g in k.mg.visible
  }

  lemma CallingIsMayCall(k: Machine, f: Name, c: Name)
    ensures Edge(Calling(k), f, c) <==> MayCall(k, f, c)
  {
  }

  // The scan's frames are built from just what the functions may store.
  lemma OwnIsMayStore(k: Machine, f: Name, g: Name)
    ensures g in Own(k.m, k.mg, f) <==> MayStore(k, f, g)
  {
  }

  lemma CallingWithoutEntries(k: Machine)
    requires k.entries == {}
    ensures Calling(k) == GraphOf(k.m)
  {
  }

  ghost function Top(s: State): Name
    requires s.stack != []
  {
    s.stack[|s.stack| - 1]
  }

  ghost function Popped(stack: seq<Name>): seq<Name>
    requires stack != []
  {
    stack[..|stack| - 1]
  }

  ghost predicate Returns(s: State, s': State) {
    s.stack != [] && s' == State(Popped(s.stack), s.mem)
  }

  ghost predicate Calls(k: Machine, s: State, s': State, c: Name) {
    s.stack != [] && MayCall(k, Top(s), c) && s' == State(s.stack + [c], s.mem)
  }

  ghost predicate Writes(k: Machine, s: State, s': State, g: Name, v: int) {
    s.stack != [] && MayStore(k, Top(s), g) && s' == State(s.stack, s.mem[g := v])
  }

  ghost predicate Step(k: Machine, s: State, s': State) {
    || Returns(s, s')
    || (exists c :: Calls(k, s, s', c))
    || (exists g, v :: Writes(k, s, s', g, v))
  }

  ghost predicate IsRun(k: Machine, run: seq<State>, first: State, last: State) {
    && run != [] && run[0] == first && run[|run| - 1] == last
    && forall i {:trigger run[i]} :: 0 < i < |run| ==> Step(k, run[i - 1], run[i])
  }

  ghost predicate Agree(a: Memory, b: Memory, g: Name) {
    (g in a <==> g in b) && (g in a ==> a[g] == b[g])
  }

  lemma RunPrefix(k: Machine, run: seq<State>, first: State, last: State)
    requires IsRun(k, run, first, last) && |run| > 1
    ensures IsRun(k, run[..|run| - 1], first, run[|run| - 2])
    ensures Step(k, run[|run| - 2], last)
  {
  }

  // ---------------------------------------------------------------- the frame is exact

  // Some function the machine can get to from `start` may write g.
  ghost predicate Touches(k: Machine, start: Name, g: Name) {
    exists f :: Reaches(Calling(k), start, f) && MayStore(k, f, g)
  }

  // Nothing else ever changes, however long `start` runs.
  lemma {:induction false} RunTouches(k: Machine, start: Name, m0: Memory, run: seq<State>, last: State)
    requires IsRun(k, run, State([start], m0), last)
    ensures forall n :: n in last.stack ==> Reaches(Calling(k), start, n)
    ensures forall g :: !Touches(k, start, g) ==> Agree(m0, last.mem, g)
    decreases |run|
  {
    if |run| == 1 {
      ReachRefl(Calling(k), start);
    } else {
      RunPrefix(k, run, State([start], m0), last);
      var prev := run[|run| - 2];
      RunTouches(k, start, m0, run[..|run| - 1], prev);
      if c :| Calls(k, prev, last, c) {
        ReachStep(Calling(k), start, Top(prev), c);
      } else if g, v :| Writes(k, prev, last, g, v) {
        assert Touches(k, start, g);
      }
    }
  }

  // Walk down a path of calls, store, and return all the way.
  lemma {:induction false} WriteAlong(k: Machine, below: seq<Name>, p: seq<Name>, m0: Memory, g: Name, v: int)
    returns (run: seq<State>)
    requires IsPath(Calling(k), p) && MayStore(k, p[|p| - 1], g)
    ensures IsRun(k, run, State(below + [p[0]], m0), State(below, m0[g := v]))
    decreases |p|
  {
    var first := State(below + [p[0]], m0);
    var done := State(below + [p[0]], m0[g := v]);
    assert Popped(done.stack) == below;
    if |p| == 1 {
      assert Writes(k, first, done, g, v);
      run := [first, done, State(below, m0[g := v])];
    } else {
      assert IsPath(Calling(k), p[1..]) by {
        forall i | 0 < i < |p| - 1 ensures Edge(Calling(k), p[1..][i - 1], p[1..][i]) {
          assert p[1..][i] == p[i + 1] && p[1..][i - 1] == p[i];
        }
      }
      var inner := WriteAlong(k, below + [p[0]], p[1..], m0, g, v);
      assert Edge(Calling(k), p[0], p[1]);
      assert Calls(k, first, inner[0], p[1]);
      run := [first] + inner + [State(below, m0[g := v])];
      forall i | 0 < i < |run| ensures Step(k, run[i - 1], run[i]) {
        if i == 1 {
        } else if i == |run| - 1 {
          assert run[i - 1] == inner[|inner| - 1] == done;
        } else {
          assert run[i] == inner[i - 1] && run[i - 1] == inner[i - 2];
        }
      }
    }
  }

  ghost predicate CanChange(k: Machine, start: Name, g: Name) {
    exists m0, run, last :: IsRun(k, run, State([start], m0), State([], last)) && !Agree(m0, last, g)
  }

  // What some completed call of `start` changes is exactly what it touches.
  lemma TouchesExact(k: Machine, start: Name, g: Name)
    ensures Touches(k, start, g) <==> CanChange(k, start, g)
  {
    if Touches(k, start, g) {
      var f :| Reaches(Calling(k), start, f) && MayStore(k, f, g);
      var p :| PathFromTo(Calling(k), p, start, f);
      var m0: Memory := map[g := 0];
      var run := WriteAlong(k, [], p, m0, g, 1);
      assert [] + [start] == [start];
      assert !Agree(m0, m0[g := 1], g);
    } else {
      forall m0, run, last | IsRun(k, run, State([start], m0), State([], last)) ensures Agree(m0, last, g) {
        RunTouches(k, start, m0, run, State([], last));
      }
    }
  }

  /** Without callbacks the frame of a function is exactly the set of globals some completed
      call of it changes. */
  lemma FrameExact(k: Machine, start: Name, g: Name)
    requires k.entries == {}
    ensures g in Frame(k.m, k.mg, start) <==> CanChange(k, start, g)
  {
    CallingWithoutEntries(k);
    TouchesExact(k, start, g);
  }

  // ---------------------------------------------------------------- callbacks

  // Nothing outside the frame of `start` can change, callbacks or not.
  ghost predicate FrameHolds(k: Machine, start: Name) {
    forall g :: Touches(k, start, g) ==> g in Frame(k.m, k.mg, start)
  }

  lemma {:induction false} GraphWithin(k: Machine, p: seq<Name>)
    requires IsPath(GraphOf(k.m), p)
    ensures IsPath(Calling(k), p)
  {
    forall i | 0 < i < |p| ensures Edge(Calling(k), p[i - 1], p[i]) {
      assert Edge(GraphOf(k.m), p[i - 1], p[i]);
    }
  }

  lemma ReachesWithin(k: Machine, a: Name, b: Name)
    requires Reaches(GraphOf(k.m), a, b)
    ensures Reaches(Calling(k), a, b)
  {
    var p :| PathFromTo(GraphOf(k.m), p, a, b);
    GraphWithin(k, p);
    assert PathFromTo(Calling(k), p, a, b);
  }

  ghost predicate ReachesOpaque(m: Index, start: Name) {
    exists o :: Opaque(m, o) && Reaches(GraphOf(m), start, o)
  }

  // Whatever is reached is reached by the module's own calls, or that way from an entry an
  // opaque function called back.
  lemma {:induction false} CalledBack(k: Machine, p: seq<Name>, j: nat)
    requires IsPath(Calling(k), p) && j < |p|
    ensures Reaches(GraphOf(k.m), p[0], p[j]) ||
      (ReachesOpaque(k.m, p[0]) && exists e :: e in k.entries && Reaches(GraphOf(k.m), e, p[j]))
  {
    var g := GraphOf(k.m);
    if j == 0 {
      ReachRefl(g, p[0]);
    } else {
      CalledBack(k, p, j - 1);
      assert Edge(Calling(k), p[j - 1], p[j]);
      if Opaque(k.m, p[j - 1]) {
        ReachRefl(g, p[j]);
      } else if Reaches(g, p[0], p[j - 1]) {
        ReachStep(g, p[0], p[j - 1], p[j]);
      } else {
        var e :| e in k.entries && Reaches(g, e, p[j - 1]);
        ReachStep(g, e, p[j - 1], p[j]);
      }
    }
  }

  lemma EntryTouches(k: Machine, start: Name, e: Name, g: Name)
    requires ReachesOpaque(k.m, start) && e in k.entries && g in Frame(k.m, k.mg, e)
    ensures Touches(k, start, g)
  {
    var o :| Opaque(k.m, o) && Reaches(GraphOf(k.m), start, o);
    var f :| Reaches(GraphOf(k.m), e, f) && MayStore(k, f, g);
    ReachesWithin(k, start, o);
    ReachesWithin(k, e, f);
    ReachStep(Calling(k), start, o, e);
    ReachTrans(Calling(k), start, e, f);
  }

  /** The frame still holds under callbacks exactly when no opaque function is reached, or
      the frame of everything that can be called back is part of it. */
  lemma FrameHoldsIff(k: Machine, start: Name)
    ensures FrameHolds(k, start) <==>
      !ReachesOpaque(k.m, start) || forall e :: e in k.entries ==> Frame(k.m, k.mg, e) <= Frame(k.m, k.mg, start)
    ensures FrameHolds(k, start) <==> forall g :: CanChange(k, start, g) ==> g in Frame(k.m, k.mg, start)
  {
    forall g ensures Touches(k, start, g) <==> CanChange(k, start, g) { TouchesExact(k, start, g); }
    if FrameHolds(k, start) && ReachesOpaque(k.m, start) {
      forall e, g | e in k.entries && g in Frame(k.m, k.mg, e) ensures g in Frame(k.m, k.mg, start) {
        EntryTouches(k, start, e, g);
      }
    }
    if !ReachesOpaque(k.m, start) || forall e :: e in k.entries ==> Frame(k.m, k.mg, e) <= Frame(k.m, k.mg, start) {
      forall g | Touches(k, start, g) ensures g in Frame(k.m, k.mg, start) {
        var f :| Reaches(Calling(k), start, f) && MayStore(k, f, g);
        var p :| PathFromTo(Calling(k), p, start, f);
        CalledBack(k, p, |p| - 1);
        if !Reaches(GraphOf(k.m), start, f) {
          var e :| e in k.entries && Reaches(GraphOf(k.m), e, f);
          assert g in Frame(k.m, k.mg, e);
        }
      }
    }
  }

  // `f` calls the declared `o`, which calls back `cb`, which stores to the internal `g`.
  const SIG := Signature([], "void", false)
  const CALLBACK := Machine(
    map["f" := Define("f", SIG, ["o"], false, []),
        "o" := Declare("o", SIG),
        "cb" := Define("cb", SIG, [], false, ["g"])],
    Globals({"g"}, {}),
    {"cb"})

  lemma CallbackNames()
    ensures "f" != "o" && "f" != "cb" && "o" != "cb" && !IsIntrinsic("o")
  {
    assert |"f"| == |"o"| == 1 && |"cb"| == 2 && "f"[0] != "o"[0] && "o"[0] != "llvm."[0];
  }

  /** The frame of `f` is empty, and `f` can change `g`. */
  lemma CallbackEscapesFrame()
    ensures Frame(CALLBACK.m, CALLBACK.mg, "f") == {} && CanChange(CALLBACK, "f", "g")
  {
    var k, m := CALLBACK, CALLBACK.m;
    CallbackNames();
    forall g ensures !MayWrite(m, k.mg, "f", g) {
      forall n | Reaches(GraphOf(m), "f", n) ensures g !in Own(m, k.mg, n) {
        CallbackOwn(n);
      }
    }
    assert m["f"].calls[0] == "o" && "o" in CallsOf(m["f"]);
    EdgeReaches(Calling(k), "f", "o");
    assert Edge(Calling(k), "o", "cb");
    ReachStep(Calling(k), "f", "o", "cb");
    assert "g" in m["cb"].stores && "g" in Own(m, k.mg, "cb");
    assert Touches(k, "f", "g");
    TouchesExact(k, "f", "g");
  }

  lemma CallbackOwn(n: Name)
    requires Reaches(GraphOf(CALLBACK.m), "f", n)
    ensures Own(CALLBACK.m, CALLBACK.mg, n) == {}
  {
    CallbackNames();
    ClosedHoldsReach(GraphOf(CALLBACK.m), {"f", "o"}, "f", n);
  }

  // In every run nothing outside the frame changes, if there are no callbacks or they stay in it.
  lemma FrameSound(k: Machine, start: Name, m0: Memory, run: seq<State>, last: State)
    requires IsRun(k, run, State([start], m0), last) && FrameHolds(k, start)
    ensures forall g :: g !in Frame(k.m, k.mg, start) ==> Agree(m0, last.mem, g)
  {
    RunTouches(k, start, m0, run, last);
  }

  // ---------------------------------------------------------------- running with overrides

  // With overrides in force, a call to an overridden symbol is not entered: it havocs
  // globals in that symbol's frame from the call site.
  ghost predicate OverrideStep(k: Machine, over: set<Name>, s: State, s': State) {
    || Returns(s, s')
    || (exists c :: c !in over && Calls(k, s, s', c))
    || (exists g, v :: Writes(k, s, s', g, v))
    || (exists c, g, v :: Havocs(k, over, s, s', c, g, v))
  }

  ghost predicate Havocs(k: Machine, over: set<Name>, s: State, s': State, c: Name, g: Name, v: int) {
    && s.stack != [] && c in over && MayCall(k, Top(s), c)
    && g in Frame(k.m, k.mg, c) && s' == State(s.stack, s.mem[g := v])
  }

  ghost predicate IsOverrideRun(k: Machine, over: set<Name>, run: seq<State>, first: State, last: State) {
    && run != [] && run[0] == first && run[|run| - 1] == last
    && forall i {:trigger run[i]} :: 0 < i < |run| ==> OverrideStep(k, over, run[i - 1], run[i])
  }

  // The part of the real stack the overridden run sees: up to the first overridden call.
  ghost function Visible(over: set<Name>, stack: seq<Name>): (r: seq<Name>)
    ensures r <= stack
    ensures forall n :: n in r ==> n !in over
    ensures r != stack ==> stack[|r|] in over
  {
    if stack == [] then []
    else
      var r := Visible(over, Popped(stack));
      if r == Popped(stack) && stack[|stack| - 1] !in over then stack else r
  }

  ghost predicate Chain(k: Machine, target: Name, stack: seq<Name>) {
    stack != [] ==> stack[0] == target && IsPath(Calling(k), stack)
  }

  lemma StepKeepsChain(k: Machine, target: Name, s: State, s': State)
    requires Chain(k, target, s.stack) && Step(k, s, s')
    ensures Chain(k, target, s'.stack)
  {
    if c :| Calls(k, s, s', c) {
      var st := s'.stack;
      forall i | 0 < i < |st| ensures Edge(Calling(k), st[i - 1], st[i]) {
        if i < |st| - 1 { assert st[i] == s.stack[i] && st[i - 1] == s.stack[i - 1]; }
      }
    }
  }

  // Every override's frame holds, so its havoc covers what it replaces.
  ghost predicate FramesHold(k: Machine, over: set<Name>) {
    forall c :: c in over ==> FrameHolds(k, c)
  }

  // One real step is at most one overridden step, on the same memory.
  lemma StepSimulated(k: Machine, over: set<Name>, target: Name, s: State, s': State)
    requires target !in over && FramesHold(k, over) && Chain(k, target, s.stack) && Step(k, s, s')
    ensures
      var a, a' := State(Visible(over, s.stack), s.mem), State(Visible(over, s'.stack), s'.mem);
      a' == a || OverrideStep(k, over, a, a')
  {
    if Returns(s, s') {
      ReturnSimulated(k, over, s, s');
    } else if c :| Calls(k, s, s', c) {
      CallSimulated(k, over, s, s', c);
    } else {
      var g, x :| Writes(k, s, s', g, x);
      WriteSimulated(k, over, target, s, s', g, x);
    }
  }

  lemma WriteSimulated(k: Machine, over: set<Name>, target: Name, s: State, s': State, g: Name, x: int)
    requires target !in over && FramesHold(k, over) && Chain(k, target, s.stack) && Writes(k, s, s', g, x)
    ensures OverrideStep(k, over, State(Visible(over, s.stack), s.mem), State(Visible(over, s'.stack), s'.mem))
  {
    var v := Visible(over, s.stack);
    if v != s.stack {
      HiddenWrite(k, over, target, s.stack, g);
      HavocStep(k, over, v, s, s', s.stack[|v|], g, x);
    } else {
      WriteStep(k, over, s, s', g, x);
    }
  }

  lemma WriteStep(k: Machine, over: set<Name>, s: State, s': State, g: Name, x: int)
    requires Writes(k, s, s', g, x)
    ensures OverrideStep(k, over, s, s')
  {
  }

  lemma ReturnSimulated(k: Machine, over: set<Name>, s: State, s': State)
    requires Returns(s, s')
    ensures
      var a, a' := State(Visible(over, s.stack), s.mem), State(Visible(over, s'.stack), s'.mem);
      a' == a || OverrideStep(k, over, a, a')
  {
    var v, v' := Visible(over, s.stack), Visible(over, s'.stack);
    assert v == s.stack ==> v' == Popped(v);
  }

  lemma CallSimulated(k: Machine, over: set<Name>, s: State, s': State, c: Name)
    requires Calls(k, s, s', c)
    ensures
      var a, a' := State(Visible(over, s.stack), s.mem), State(Visible(over, s'.stack), s'.mem);
      a' == a || OverrideStep(k, over, a, a')
  {
    var v, v' := Visible(over, s.stack), Visible(over, s'.stack);
    assert Popped(s'.stack) == s.stack;
    if v == s.stack && c !in over {
      assert Calls(k, State(v, s.mem), State(v', s'.mem), c);
    }
  }

  // A write below an overridden call is within that call's frame.
  lemma HiddenWrite(k: Machine, over: set<Name>, target: Name, stack: seq<Name>, g: Name)
    requires target !in over && FramesHold(k, over) && Chain(k, target, stack) && Visible(over, stack) != stack
    requires stack != [] && MayStore(k, stack[|stack| - 1], g)
    ensures var v := Visible(over, stack);
      && 0 < |v| < |stack| && stack[|v|] in over
      && Edge(Calling(k), v[|v| - 1], stack[|v|]) && g in Frame(k.m, k.mg, stack[|v|])
  {
    VisibleTop(over, target, stack);
    OneFrame(k, over, stack[|Visible(over, stack)|]);
    StackWrite(k, stack, |Visible(over, stack)|, g);
  }

  lemma OneFrame(k: Machine, over: set<Name>, c: Name)
    requires FramesHold(k, over) && c in over
    ensures FrameHolds(k, c)
  {
  }

  lemma VisibleTop(over: set<Name>, target: Name, stack: seq<Name>)
    requires target !in over && stack != [] && stack[0] == target && Visible(over, stack) != stack
    ensures var v := Visible(over, stack);
      0 < |v| < |stack| && stack[|v|] in over && v[|v| - 1] == stack[|v| - 1]
  {
  }

  lemma HavocStep(k: Machine, over: set<Name>, v: seq<Name>, s: State, s': State, c: Name, g: Name, x: int)
    requires v != [] && c in over && Edge(Calling(k), v[|v| - 1], c)
    requires g in Frame(k.m, k.mg, c) && s'.mem == s.mem[g := x]
    ensures OverrideStep(k, over, State(v, s.mem), State(v, s'.mem))
  {
    assert Havocs(k, over, State(v, s.mem), State(v, s'.mem), c, g, x);
  }

  lemma StackWrite(k: Machine, stack: seq<Name>, i: nat, g: Name)
    requires IsPath(Calling(k), stack) && 0 < i < |stack| && MayStore(k, stack[|stack| - 1], g)
    requires FrameHolds(k, stack[i])
    ensures Edge(Calling(k), stack[i - 1], stack[i]) && g in Frame(k.m, k.mg, stack[i])
  {
    PathEdge(Calling(k), stack, i);
    PathPieceReaches(Calling(k), stack, i, |stack| - 1);
    FrameCovers(k, stack[i], stack[|stack| - 1], g);
  }

  lemma PathEdge(g: Graph<Name>, p: seq<Name>, i: nat)
    requires IsPath(g, p) && 0 < i < |p|
    ensures Edge(g, p[i - 1], p[i])
  {
  }

  lemma FrameCovers(k: Machine, c: Name, f: Name, g: Name)
    requires FrameHolds(k, c) && Reaches(Calling(k), c, f) && MayStore(k, f, g)
    ensures g in Frame(k.m, k.mg, c)
  {
    assert Touches(k, c, g);
  }

  /** Overriding is sound: whatever set of symbols is overridden, as long as their frames
      hold, every real run of the target is matched by a run in which none of them is entered
      and each is replaced by a havoc of its write frame, ending in the same memory. */
  lemma {:induction false} OverridesCoverRuns(k: Machine, over: set<Name>, target: Name, m0: Memory,
                                              run: seq<State>, last: State)
    returns (abs: seq<State>)
    requires target !in over && FramesHold(k, over) && IsRun(k, run, State([target], m0), last)
    ensures IsOverrideRun(k, over, abs, State([target], m0), State(Visible(over, last.stack), last.mem))
    ensures Chain(k, target, last.stack)
    decreases |run|
  {
    if |run| == 1 {
      assert Popped([target]) == [];
      abs := [State([target], m0)];
    } else {
      RunPrefix(k, run, State([target], m0), last);
      var prev := run[|run| - 2];
      abs := OverridesCoverRuns(k, over, target, m0, run[..|run| - 1], prev);
      StepSimulated(k, over, target, prev, last);
      StepKeepsChain(k, target, prev, last);
      var next := State(Visible(over, last.stack), last.mem);
      if abs[|abs| - 1] != next { abs := abs + [next]; }
    }
  }

  // ---------------------------------------------------------------- the scan's overrides

  ghost function Symbols(out: seq<OverrideTarget>): set<Name> {
    set i | 0 <= i < |out| :: out[i].symbol
  }

  ghost predicate IsScanResult(funcs: seq<IrFunc>, mg: MutableGlobals, reg: Registry, target: Name,
                               out: seq<OverrideTarget>) {
    forall t :: t in out <==> exists f :: IsOverride(funcs, mg, reg, target, f, t)
  }

  // No opaque function is ever entered, so no callback is either.
  ghost predicate OpaqueOverridden(k: Machine, over: set<Name>, target: Name) {
    k.entries == {} || forall n :: Opaque(k.m, n) && Reaches(GraphOf(k.m), target, n) ==> n in over
  }

  lemma OwnCall(k: Machine, f: Name, c: Name)
    requires MayCall(k, f, c) && (k.entries == {} || !Opaque(k.m, f))
    ensures Edge(GraphOf(k.m), f, c)
  {
  }

  lemma {:induction false} OverrideRunReaches(k: Machine, over: set<Name>, target: Name, m0: Memory,
                                              run: seq<State>, last: State)
    requires target !in over && OpaqueOverridden(k, over, target)
    requires IsOverrideRun(k, over, run, State([target], m0), last)
    ensures forall n :: n in last.stack ==> Reaches(GraphOf(k.m), target, n) && n !in over
    decreases |run|
  {
    if |run| == 1 {
      ReachRefl(GraphOf(k.m), target);
    } else {
      var prev := run[|run| - 2];
      assert OverrideStep(k, over, prev, last);
      OverrideRunReaches(k, over, target, m0, run[..|run| - 1], prev);
      if c :| c !in over && Calls(k, prev, last, c) {
        OwnCall(k, Top(prev), c);
        ReachStep(GraphOf(k.m), target, Top(prev), c);
      }
    }
  }

  // The machine of the scanned module. With callbacks, the target must have a body.
  ghost predicate Scans(k: Machine, funcs: seq<IrFunc>, reg: Registry, target: Name, out: seq<OverrideTarget>) {
    && k.m == ByName(funcs) && IsScanResult(funcs, k.mg, reg, target, out)
    && (k.entries == {} || !Opaque(k.m, target))
  }

  // With the scan's overrides in force, execution only ever enters the target, intrinsics,
  // names the module does not declare, and defined bodies in no broken class.
  lemma ScanRunEntersNoBroken(k: Machine, funcs: seq<IrFunc>, reg: Registry, target: Name,
                              out: seq<OverrideTarget>, m0: Memory, run: seq<State>, last: State, n: Name)
    requires Scans(k, funcs, reg, target, out)
    requires IsOverrideRun(k, Symbols(out), run, State([target], m0), last)
    requires n in last.stack
    ensures n == target || IsIntrinsic(n) || n !in k.m || !Broken(reg, k.m[n])
  {
    TargetNotOverridden(k, funcs, reg, target, out);
    forall o | Opaque(k.m, o) && o != target && Reaches(GraphOf(k.m), target, o) ensures o in Symbols(out) {
      BrokenIsOverridden(funcs, k.mg, reg, target, out, o);
    }
    OverrideRunReaches(k, Symbols(out), target, m0, run, last);
    BrokenIsOverridden(funcs, k.mg, reg, target, out, n);
  }

  lemma TargetNotOverridden(k: Machine, funcs: seq<IrFunc>, reg: Registry, target: Name, out: seq<OverrideTarget>)
    requires IsScanResult(funcs, k.mg, reg, target, out)
    ensures target !in Symbols(out)
  {
    forall i | 0 <= i < |out| ensures out[i].symbol != target {
      assert out[i] in out;
      var f :| IsOverride(funcs, k.mg, reg, target, f, out[i]);
    }
  }

  lemma BrokenIsOverridden(funcs: seq<IrFunc>, mg: MutableGlobals, reg: Registry, target: Name,
                           out: seq<OverrideTarget>, n: Name)
    requires IsScanResult(funcs, mg, reg, target, out) && Reaches(GraphOf(ByName(funcs)), target, n)
    ensures n in ByName(funcs) && n != target && !IsIntrinsic(n) && Broken(reg, ByName(funcs)[n]) ==> n in Symbols(out)
  {
    var m := ByName(funcs);
    if n in m && n != target && !IsIntrinsic(n) && Broken(reg, m[n]) {
      var f := m[n];
      var t := OverrideTarget(n, f.sig, ReasonFor(reg, f).value, Frame(m, mg, n));
      assert IsOverride(funcs, mg, reg, target, f, t);
      assert t in out;
    }
  }

  ghost predicate EntersNoBroken(k: Machine, reg: Registry, target: Name, run: seq<State>) {
    forall i, n :: 0 <= i < |run| && n in run[i].stack ==>
      n == target || IsIntrinsic(n) || n !in k.m || !Broken(reg, k.m[n])
  }

  /** The scan as a whole: a completed real run of the target has a completed counterpart that
      enters no broken function and ends in the same memory. Without callbacks this always
      holds; with them, when the overrides' frames do. */
  lemma ScanSound(k: Machine, funcs: seq<IrFunc>, reg: Registry, target: Name,
                  out: seq<OverrideTarget>, m0: Memory, run: seq<State>, last: Memory)
    requires Scans(k, funcs, reg, target, out) && (k.entries == {} || FramesHold(k, Symbols(out)))
    requires IsRun(k, run, State([target], m0), State([], last))
    ensures exists abs ::
      && IsOverrideRun(k, Symbols(out), abs, State([target], m0), State([], last))
      && EntersNoBroken(k, reg, target, abs)
  {
    TargetNotOverridden(k, funcs, reg, target, out);
    if k.entries == {} {
      forall c | c in Symbols(out) ensures FrameHolds(k, c) { FrameHoldsIff(k, c); }
    }
    var abs := OverridesCoverRuns(k, Symbols(out), target, m0, run, State([], last));
    forall i, n | 0 <= i < |abs| && n in abs[i].stack
      ensures n == target || IsIntrinsic(n) || n !in k.m || !Broken(reg, k.m[n])
    {
      ScanRunEntersNoBroken(k, funcs, reg, target, out, m0, abs[..i + 1], abs[i], n);
    }
  }
}
