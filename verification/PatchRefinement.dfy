/** The instruction-level meaning of the patch passes (src/transform/patch_llvm_ir.rs) and
    the proof that the pipeline refines the program. */
module PatchRefinement {
  import opened Arithmetic
  import opened IrSemantics

  datatype Pass = PoisonToUndef | StripFlags | ExpandSat | ZeroAllocas

  function SumReg(d: Reg): Reg { "__sat_sum_" + d }
  function OvReg(d: Reg): Reg { "__sat_ov_" + d }

  predicate Fresh(r: Reg) {
    "__sat_" <= r
  }

  // ---------------------------------------------------------------- the passes

  function PassOperand(p: Pass, o: Operand): Operand {
    if p.PoisonToUndef? && o.PoisonLit? then UndefLit else o
  }

  function PassInstr(p: Pass, i: Instr): seq<Instr> {
    match p
    case PoisonToUndef => [UndefInstr(i)]
    case StripFlags => [if i.Bin? then i.(nsw := false, nuw := false) else i]
    case ExpandSat => if i.UaddSat? then Expansion(i.dst, i.w, i.a, i.b) else [i]
    case ZeroAllocas => if i.Alloca? then [i, Store(i.w, Zero, i.slot, i.align)] else [i]
  }

  function UndefInstr(i: Instr): Instr {
    var u := o => PassOperand(PoisonToUndef, o);
    match i
    case Bin(d, op, w, a, b, nsw, nuw) => Bin(d, op, w, u(a), u(b), nsw, nuw)
    case UDiv(d, w, a, b) => UDiv(d, w, u(a), u(b))
    case Icmp(d, p, w, a, b) => Icmp(d, p, w, u(a), u(b))
    case Select(d, c, w, a, b) => Select(d, u(c), w, u(a), u(b))
    case UaddSat(d, w, a, na, b, nb) => UaddSat(d, w, u(a), na, u(b), nb)
    case Alloca(_, _, _) => i
    case Store(w, a, slot, align) => Store(w, u(a), slot, align)
    case Load(_, _, _) => i
  }

  function Expansion(d: Reg, w: Width, a: Operand, b: Operand): seq<Instr> {
    ExpansionWith(SumReg(d), OvReg(d), d, w, a, b)
  }

  function ExpansionWith(sum: Reg, ov: Reg, d: Reg, w: Width, a: Operand, b: Operand): seq<Instr> {
    [Bin(sum, Add, w, a, b, false, false), Icmp(ov, Ult, w, R(sum), a), Select(d, R(ov), w, C(-1), R(sum))]
  }

  function PassBody(p: Pass, code: seq<Instr>): seq<Instr> {
    if code == [] then [] else PassInstr(p, code[0]) + PassBody(p, code[1..])
  }

  function PassPhi(p: Pass, phi: Phi): Phi {
    phi.(incoming := map l | l in phi.incoming :: PassOperand(p, phi.incoming[l]))
  }

  function PassTerm(p: Pass, t: Terminator): Terminator {
    match t
    case Ret(w, a) => Ret(w, PassOperand(p, a))
    case Br(l) => t
    case CondBr(c, yes, no) => CondBr(PassOperand(p, c), yes, no)
  }

  function PassBlock(p: Pass, b: Block): Block {
    Block(seq(|b.phis|, i requires 0 <= i < |b.phis| => PassPhi(p, b.phis[i])), PassBody(p, b.body),
      PassTerm(p, b.term))
  }

  function PassProgram(p: Pass, prog: Program): Program {
    map l | l in prog :: PassBlock(p, prog[l])
  }

  function Patch(prog: Program, initUndefAllocas: bool): Program {
    var out := PassProgram(ExpandSat, PassProgram(StripFlags, PassProgram(PoisonToUndef, prog)));
    if initUndefAllocas then PassProgram(ZeroAllocas, out) else out
  }

  // ---------------------------------------------------------------- refinement

  // Poison may become anything; otherwise a use may observe no new bit pattern.
  ghost predicate Refines(t: Value, s: Value) {
    s.Poison? || (t.Bits? && t.choices <= s.choices)
  }

  // What a pass keeps between target and source: the very value, or a refinement of it.
  ghost predicate ValueRel(exact: bool, t: Value, s: Value) {
    if exact then t == s else Refines(t, s)
  }

  // The expansion may also set the registers it introduces.
  ghost predicate StateRel(p: Pass, exact: bool, t: State, s: State) {
    && (forall r :: !(p.ExpandSat? && Fresh(r)) ==> ValueRel(exact, Get(t.regs, r), Get(s.regs, r)))
    && (forall r :: ValueRel(exact, Get(t.slots, r), Get(s.slots, r)))
  }

  // Only the expansion can keep values exactly.
  predicate Mode(p: Pass, exact: bool) {
    exact ==> p.ExpandSat?
  }

  predicate CleanOperand(o: Operand) {
    o.R? ==> !Fresh(o.name)
  }

  // No register the expansion invents occurs in the instruction.
  predicate CleanInstr(i: Instr) {
    match i
    case Bin(d, _, _, a, b, _, _) => !Fresh(d) && CleanOperand(a) && CleanOperand(b)
    case UDiv(d, _, a, b) => !Fresh(d) && CleanOperand(a) && CleanOperand(b)
    case Icmp(d, _, _, a, b) => !Fresh(d) && CleanOperand(a) && CleanOperand(b)
    case Select(d, c, _, a, b) => !Fresh(d) && CleanOperand(c) && CleanOperand(a) && CleanOperand(b)
    case UaddSat(d, _, a, _, b, _) => !Fresh(d) && CleanOperand(a) && CleanOperand(b)
    case Alloca(_, _, _) => true
    case Store(_, a, _, _) => CleanOperand(a)
    case Load(d, _, _) => !Fresh(d)
  }

  predicate CleanBlock(b: Block) {
    && (forall k :: 0 <= k < |b.phis| ==> !Fresh(b.phis[k].dst))
    && (forall k, l :: 0 <= k < |b.phis| && l in b.phis[k].incoming ==> CleanOperand(b.phis[k].incoming[l]))
    && (forall k :: 0 <= k < |b.body| ==> CleanInstr(b.body[k]))
    && (b.term.Ret? ==> CleanOperand(b.term.a))
    && (b.term.CondBr? ==> CleanOperand(b.term.cond))
  }

  // The program uses no register the expansion invents.
  predicate CleanProgram(prog: Program) {
    forall l :: l in prog ==> CleanBlock(prog[l])
  }

  // ---------------------------------------------------------------- monotonicity

  lemma MaskMono(t: Value, s: Value, w: Width)
    requires Refines(t, s)
    ensures Refines(Mask(t, w), Mask(s, w))
  {
  }

  // Dropping flags and refining operands refines the result.
  lemma BinMono(op: BinOp, w: Width, nsw: bool, nuw: bool, nsw': bool, nuw': bool,
                ta: Value, tb: Value, sa: Value, sb: Value)
    requires Refines(ta, sa) && Refines(tb, sb) && (nsw' ==> nsw) && (nuw' ==> nuw)
    ensures Refines(BinValue(op, w, nsw', nuw', ta, tb), BinValue(op, w, nsw, nuw, sa, sb))
  {
    var t, s := BinValue(op, w, nsw', nuw', ta, tb), BinValue(op, w, nsw, nuw, sa, sb);
    if s.Bits? {
      assert !exists x, y :: x in ta.choices && y in tb.choices && Overflows(op, w, nsw', nuw', x, y);
      forall z | z in t.choices ensures z in s.choices {
        var x, y :| x in ta.choices && y in tb.choices && z == Apply(op, x, y) % Pow2(w);
      }
    }
  }

  lemma IcmpMono(p: Pred, w: Width, ta: Value, tb: Value, sa: Value, sb: Value)
    requires Refines(ta, sa) && Refines(tb, sb)
    ensures Refines(IcmpValue(p, w, ta, tb), IcmpValue(p, w, sa, sb))
  {
  }

  lemma SelectMono(tc: Value, ta: Value, tb: Value, sc: Value, sa: Value, sb: Value)
    requires Refines(tc, sc) && Refines(ta, sa) && Refines(tb, sb)
    requires sc.Bits? ==> forall x :: x in sc.choices ==> x < 2
    ensures Refines(SelectValue(tc, ta, tb), SelectValue(sc, sa, sb))
  {
  }

  lemma SatMono(w: Width, ta: Value, tb: Value, sa: Value, sb: Value)
    requires Refines(ta, sa) && Refines(tb, sb)
    ensures Refines(SatValue(w, ta, tb), SatValue(w, sa, sb))
  {
  }

  lemma UDivMono(w: Width, ta: Value, tb: Value, sa: Value, sb: Value)
    requires Refines(ta, sa) && Refines(tb, sb) && sb.Bits? && 0 !in sb.choices
    ensures Refines(UDivValue(w, ta, tb), UDivValue(w, sa, sb))
  {
  }

  // A refinement of a defined value is that value.
  lemma DefinedMono(t: Value, s: Value)
    requires Refines(t, s) && Defined(s)
    ensures t == s
  {
    var x: nat :| s == Single(x);
    var y :| y in t.choices;
    assert t.choices == {x};
  }

  lemma EvalRel(p: Pass, exact: bool, o: Operand, w: Width, t: State, s: State)
    requires Mode(p, exact) && StateRel(p, exact, t, s) && (p.ExpandSat? ==> CleanOperand(o))
    ensures ValueRel(exact, Eval(PassOperand(p, o), w, t), Eval(o, w, s))
  {
    if o.R? && !exact { MaskMono(Get(t.regs, o.name), Get(s.regs, o.name), w); }
  }

  // ---------------------------------------------------------------- one instruction

  lemma ExecOne(i: Instr, s: State)
    ensures ExecSeq([i], s) == ExecInstr(i, s)
  {
    assert [i][1..] == [];
  }

  lemma UpdateRel(exact: bool, t: map<Reg, Value>, s: map<Reg, Value>, d: Reg, tv: Value, sv: Value, r: Reg)
    requires r == d ==> ValueRel(exact, tv, sv)
    requires r != d ==> ValueRel(exact, Get(t, r), Get(s, r))
    ensures ValueRel(exact, Get(t[d := tv], r), Get(s[d := sv], r))
  {
  }

  lemma AssignRel(p: Pass, exact: bool, t: State, s: State, d: Reg, tv: Value, sv: Value)
    requires StateRel(p, exact, t, s) && ValueRel(exact, tv, sv)
    ensures StateRel(p, exact, Assign(t, d, tv), Assign(s, d, sv))
  {
    var t', s' := Assign(t, d, tv), Assign(s, d, sv);
    forall r | !(p.ExpandSat? && Fresh(r)) ensures ValueRel(exact, Get(t'.regs, r), Get(s'.regs, r)) {
      UpdateRel(exact, t.regs, s.regs, d, tv, sv, r);
    }
  }

  lemma StoreRel(p: Pass, exact: bool, t: State, s: State, d: Reg, tv: Value, sv: Value)
    requires StateRel(p, exact, t, s) && ValueRel(exact, tv, sv)
    ensures StateRel(p, exact, State(t.regs, t.slots[d := tv]), State(s.regs, s.slots[d := sv]))
  {
    var t', s' := t.slots[d := tv], s.slots[d := sv];
    forall r ensures ValueRel(exact, Get(t', r), Get(s', r)) {
      UpdateRel(exact, t.slots, s.slots, d, tv, sv, r);
    }
  }

  // What a pass rewrites one for one: everything but the adds the expansion replaces.
  predicate OneToOne(p: Pass, i: Instr) {
    p.ExpandSat? ==> CleanInstr(i) && !i.UaddSat?
  }

  lemma RefiningResult(p: Pass, i: Instr, t: State, s: State)
    requires OneToOne(p, i) && StateRel(p, false, t, s) && HasResult(i) && Result(i, s).Some?
    ensures |PassInstr(p, i)| == 1
    ensures var j := PassInstr(p, i)[0];
      HasResult(j) && j.dst == i.dst && Result(j, t).Some? && Refines(Result(j, t).value, Result(i, s).value)
  {
    var j := PassInstr(p, i)[0];
    if i.Load? {
      MaskMono(Get(t.slots, i.slot), Get(s.slots, i.slot), i.w);
    } else {
      EvalRel(p, false, i.a, i.w, t, s);
      EvalRel(p, false, i.b, i.w, t, s);
      var ta, tb, sa, sb := Eval(j.a, i.w, t), Eval(j.b, i.w, t), Eval(i.a, i.w, s), Eval(i.b, i.w, s);
      match i
      case Bin(_, op, w, _, _, nsw, nuw) => BinMono(op, w, nsw, nuw, j.nsw, j.nuw, ta, tb, sa, sb);
      case UDiv(_, w, _, _) => UDivMono(w, ta, tb, sa, sb);
      case Icmp(_, pr, w, _, _) => IcmpMono(pr, w, ta, tb, sa, sb);
      case Select(_, c, w, _, _) =>
        EvalRel(p, false, c, 1, t, s);
        SelectMono(Eval(j.cond, 1, t), ta, tb, Eval(c, 1, s), sa, sb);
      case UaddSat(_, w, _, na, _, nb) =>
        if na { DefinedMono(ta, sa); }
        if nb { DefinedMono(tb, sb); }
        SatMono(w, ta, tb, sa, sb);
    }
  }

  lemma RefiningInstr(p: Pass, i: Instr, t: State, s: State)
    requires OneToOne(p, i) && StateRel(p, false, t, s) && ExecInstr(i, s).Ok?
    ensures var o := ExecSeq(PassInstr(p, i), t); o.Ok? && StateRel(p, false, o.s, ExecInstr(i, s).s)
  {
    var j := PassInstr(p, i)[0];
    if HasResult(i) {
      RefiningResult(p, i, t, s);
      ExecOne(j, t);
      AssignRel(p, false, t, s, i.dst, Result(j, t).value, Result(i, s).value);
    } else if i.Store? {
      EvalRel(p, false, i.a, i.w, t, s);
      ExecOne(j, t);
      StoreRel(p, false, t, s, i.slot, Eval(j.a, i.w, t), Eval(i.a, i.w, s));
    } else if p.ZeroAllocas? {
      // The inserted store narrows the fresh slot from "anything" to zero.
      var zero := Store(i.w, Zero, i.slot, i.align);
      assert [i, zero][1..] == [zero];
      ExecOne(zero, ExecInstr(i, t).s);
      assert t.slots[i.slot := Full(i.w)][i.slot := Single(0)] == t.slots[i.slot := Single(0)];
      StoreRel(p, false, t, s, i.slot, Single(0), Full(i.w));
    } else {
      ExecOne(j, t);
      StoreRel(p, false, t, s, i.slot, Full(i.w), Full(i.w));
    }
  }

  // ---------------------------------------------------------------- the expansion

  // What the three instructions compute from the two operand values: the first operand
  // and the sum are each used twice.
  ghost function ExpandedValue(w: Width, a: Value, b: Value): Value {
    var sum := BinValue(Add, w, false, false, a, b);
    SelectValue(IcmpValue(Ult, w, sum, a), Single(Pow2(w) - 1), sum)
  }

  ghost predicate InRange(v: Value, w: Width) {
    v.Bits? ==> forall x :: x in v.choices ==> x < Pow2(w)
  }

  lemma MaskInRange(v: Value, w: Width)
    requires InRange(v, w)
    ensures Mask(v, w) == v
  {
    if v.Bits? {
      forall x | x in v.choices ensures x % Pow2(w) == x { SmallMod(x, Pow2(w)); }
      assert Mask(v, w).choices == v.choices;
    }
  }

  // Later assignments to other registers do not disturb an operand.
  lemma EvalAfterAssign(o: Operand, w: Width, s: State, r: Reg, v: Value)
    requires o.R? ==> o.name != r
    ensures Eval(o, w, Assign(s, r, v)) == Eval(o, w, s)
  {
  }

  lemma BinRange(op: BinOp, w: Width, nsw: bool, nuw: bool, a: Value, b: Value)
    ensures InRange(BinValue(op, w, nsw, nuw, a, b), w)
  {
  }

  lemma IcmpRange(p: Pred, w: Width, a: Value, b: Value)
    ensures InRange(IcmpValue(p, w, a, b), 1)
  {
    assert Pow2(1) == 2;
  }

  lemma EvalAssigned(r: Reg, w: Width, s: State, v: Value)
    requires InRange(v, w)
    ensures Eval(R(r), w, Assign(s, r, v)) == v
  {
    MaskInRange(v, w);
  }

  lemma ExecThree(i: Instr, j: Instr, k: Instr, s: State)
    requires ExecInstr(i, s).Ok? && ExecInstr(j, ExecInstr(i, s).s).Ok?
    ensures ExecSeq([i, j, k], s) == ExecInstr(k, ExecInstr(j, ExecInstr(i, s).s).s)
  {
    assert [i, j, k][1..] == [j, k] && [j, k][1..] == [k];
    ExecOne(k, ExecInstr(j, ExecInstr(i, s).s).s);
  }

  // The two names are fresh, and no two destinations share one.
  lemma ExpansionNames(d: Reg)
    ensures Fresh(SumReg(d)) && Fresh(OvReg(d))
    ensures forall e :: SumReg(d) != OvReg(e)
    ensures forall e :: e != d ==> SumReg(e) != SumReg(d) && OvReg(e) != OvReg(d)
  {
    forall e ensures SumReg(d) != OvReg(e) { assert SumReg(d)[6] == 's' && OvReg(e)[6] == 'o'; }
    forall e | e != d ensures SumReg(e) != SumReg(d) && OvReg(e) != OvReg(d) {
      assert SumReg(d)[10..] == d && SumReg(e)[10..] == e && OvReg(d)[9..] == d && OvReg(e)[9..] == e;
    }
  }

  lemma CompareStep(ov: Reg, w: Width, sum: Reg, a: Operand, s: State, va: Value, v: Value)
    requires Eval(a, w, s) == va && (a.R? ==> a.name != sum) && InRange(v, w)
    ensures ExecInstr(Icmp(ov, Ult, w, R(sum), a), Assign(s, sum, v)) ==
      Ok(Assign(Assign(s, sum, v), ov, IcmpValue(Ult, w, v, va)))
  {
    EvalAssigned(sum, w, s, v);
    EvalAfterAssign(a, w, s, sum, v);
  }

  lemma SelectStep(d: Reg, ov: Reg, w: Width, sum: Reg, s: State, c: Value, v: Value)
    requires sum != ov && InRange(v, w) && InRange(c, 1)
    ensures var s2 := Assign(Assign(s, sum, v), ov, c);
      ExecInstr(Select(d, R(ov), w, C(-1), R(sum)), s2) == Ok(Assign(s2, d, SelectValue(c, Single(Pow2(w) - 1), v)))
  {
    var s1 := Assign(s, sum, v);
    EvalAssigned(ov, 1, s1, c);
    EvalAfterAssign(R(sum), w, s1, ov, c);
    EvalAssigned(sum, w, s, v);
    MinusOneMod(Pow2(w));
  }

  // Running the expansion computes that value and touches no register but its own.
  lemma ExpansionRuns(sum: Reg, ov: Reg, d: Reg, w: Width, a: Operand, b: Operand, s: State, va: Value, vb: Value)
    requires sum != ov && (a.R? ==> a.name != sum)
    requires va == Eval(a, w, s) && vb == Eval(b, w, s)
    ensures
      var v := BinValue(Add, w, false, false, va, vb);
      ExecSeq(ExpansionWith(sum, ov, d, w, a, b), s) ==
        Ok(Assign(Assign(Assign(s, sum, v), ov, IcmpValue(Ult, w, v, va)), d, ExpandedValue(w, va, vb)))
  {
    var v := BinValue(Add, w, false, false, va, vb);
    var c := IcmpValue(Ult, w, v, va);
    BinRange(Add, w, false, false, va, vb);
    IcmpRange(Ult, w, v, va);
    CompareStep(ov, w, sum, a, s, va, v);
    SelectStep(d, ov, w, sum, s, c, v);
    ExecThree(Bin(sum, Add, w, a, b, false, false), Icmp(ov, Ult, w, R(sum), a), Select(d, R(ov), w, C(-1), R(sum)), s);
  }

  // The arithmetic of the expansion: the wrapped sum is below an operand exactly when the
  // sum overflowed.
  lemma WrapCompare(w: Width, x: nat, y: nat)
    requires x < Pow2(w) && y < Pow2(w)
    ensures (if (x + y) % Pow2(w) < x then Pow2(w) - 1 else (x + y) % Pow2(w)) == Min(x + y, Pow2(w) - 1)
  {
    ModOnce(x + y, Pow2(w));
  }

  lemma DefinedValues(w: Width, x: nat, y: nat)
    ensures BinValue(Add, w, false, false, Single(x), Single(y)) == Single((x + y) % Pow2(w))
    ensures IcmpValue(Ult, w, Single(x), Single(y)) == Single(Flag(x < y))
    ensures SatValue(w, Single(x), Single(y)) == Single(Min(x + y, Pow2(w) - 1))
  {
    assert BinValue(Add, w, false, false, Single(x), Single(y)).choices == {(x + y) % Pow2(w)};
    assert IcmpValue(Ult, w, Single(x), Single(y)).choices == {Flag(x < y)};
    assert SatValue(w, Single(x), Single(y)).choices == {Min(x + y, Pow2(w) - 1)};
  }

  lemma SelectDefined(c: bool, a: Value, b: Value)
    ensures SelectValue(Single(Flag(c)), a, b) == if c then a else b
  {
  }

  lemma ExpansionOfNumbers(w: Width, x: nat, y: nat)
    requires x < Pow2(w) && y < Pow2(w)
    ensures ExpandedValue(w, Single(x), Single(y)) == SatValue(w, Single(x), Single(y))
  {
    var z := (x + y) % Pow2(w);
    DefinedValues(w, x, y);
    DefinedValues(w, z, x);
    WrapCompare(w, x, y);
    NumbersExpanded(w, x, y, z);
  }

  lemma NumbersExpanded(w: Width, x: nat, y: nat, z: nat)
    requires BinValue(Add, w, false, false, Single(x), Single(y)) == Single(z)
    requires IcmpValue(Ult, w, Single(z), Single(x)) == Single(Flag(z < x))
    ensures ExpandedValue(w, Single(x), Single(y)) == Single(if z < x then Pow2(w) - 1 else z)
  {
    SelectDefined(z < x, Single(Pow2(w) - 1), Single(z));
  }

  ghost predicate Settled(a: Value, b: Value) {
    a.Poison? || b.Poison? || (Defined(a) && Defined(b))
  }

  // On poison or defined operands the expansion computes exactly the saturating sum.
  lemma ExpansionOfDefined(w: Width, a: Value, b: Value)
    requires Settled(a, b) && InRange(a, w) && InRange(b, w)
    ensures ExpandedValue(w, a, b) == SatValue(w, a, b)
  {
    if a.Bits? && b.Bits? {
      var x: nat :| a == Single(x);
      var y: nat :| b == Single(y);
      assert x in a.choices && y in b.choices;
      ExpansionOfNumbers(w, x, y);
    }
  }

  // What the add shows of two uses, and what the intrinsic shows of them.
  function Wrapped(w: Width, x: nat, y: nat): nat {
    (x + y) % Pow2(w)
  }

  function Saturated(w: Width, x: nat, y: nat): nat {
    Min(x + y, Pow2(w) - 1)
  }

  ghost predicate IsSaturated(w: Width, a: Value, b: Value, z: nat)
    requires a.Bits? && b.Bits?
  {
    exists x, y :: x in a.choices && y in b.choices && z == Saturated(w, x, y)
  }

  // Some use of the sum can be below (or not below) some use of the first operand.
  ghost predicate CanCompare(w: Width, a: Value, b: Value, below: bool)
    requires a.Bits? && b.Bits?
  {
    exists x, y, z :: x in a.choices && y in b.choices && z in a.choices && (Wrapped(w, x, y) < z) == below
  }

  /** When the expansion is allowed, on the bit patterns the operands may show: if the
      compare can be true, the largest value must be a saturating sum; if it can be false,
      every wrapped sum must be one. */
  ghost predicate Allowed(w: Width, a: Value, b: Value) {
    || a.Poison? || b.Poison?
    || (&& (CanCompare(w, a, b, true) ==> IsSaturated(w, a, b, Pow2(w) - 1))
        && (CanCompare(w, a, b, false) ==>
              forall x, y :: x in a.choices && y in b.choices ==> IsSaturated(w, a, b, Wrapped(w, x, y))))
  }

  lemma SumChoices(w: Width, a: Value, b: Value)
    requires a.Bits? && b.Bits?
    ensures var sum := BinValue(Add, w, false, false, a, b);
      sum.Bits? && forall z :: z in sum.choices <==>
        exists x, y :: x in a.choices && y in b.choices && z == Wrapped(w, x, y)
  {
    assert forall x, y :: Apply(Add, x, y) == x + y;
  }

  lemma SatChoices(w: Width, a: Value, b: Value)
    requires a.Bits? && b.Bits?
    ensures SatValue(w, a, b).Bits?
    ensures forall z :: z in SatValue(w, a, b).choices <==> IsSaturated(w, a, b, z)
  {
  }

  lemma CompareChoices(w: Width, a: Value, b: Value)
    requires a.Bits? && b.Bits?
    ensures var c := IcmpValue(Ult, w, BinValue(Add, w, false, false, a, b), a);
      && c.Bits? && (1 in c.choices <==> CanCompare(w, a, b, true))
      && (0 in c.choices <==> CanCompare(w, a, b, false))
  {
    var sum := BinValue(Add, w, false, false, a, b);
    SumChoices(w, a, b);
    var c := IcmpValue(Ult, w, sum, a);
    forall below | CanCompare(w, a, b, below) ensures Flag(below) in c.choices {
      var x, y, z :| x in a.choices && y in b.choices && z in a.choices && (Wrapped(w, x, y) < z) == below;
      assert Wrapped(w, x, y) in sum.choices;
      assert Flag(Holds(Ult, w, Wrapped(w, x, y), z)) in c.choices;
    }
    forall below | Flag(below) in c.choices ensures CanCompare(w, a, b, below) {
      var u, z :| u in sum.choices && z in a.choices && Flag(Holds(Ult, w, u, z)) == Flag(below);
    }
  }

  lemma SelectChoices(c: Value, a: Value, b: Value, s: Value)
    requires c.Bits? && a.Bits? && b.Bits? && s.Bits? && forall x :: x in c.choices ==> x < 2
    ensures Refines(SelectValue(c, a, b), s) <==>
      (1 in c.choices ==> a.choices <= s.choices) && (0 in c.choices ==> b.choices <= s.choices)
  {
    var x :| x in c.choices;
    assert a.choices + b.choices <= s.choices <==> a.choices <= s.choices && b.choices <= s.choices;
  }

  /** Exactly when replacing one saturating add is allowed, for all operand values. The
      expansion uses an operand and the sum twice, and each use of an undefined value may
      differ. */
  lemma ExpansionRefinesIff(w: Width, a: Value, b: Value)
    requires InRange(a, w) && InRange(b, w)
    ensures Refines(ExpandedValue(w, a, b), SatValue(w, a, b)) <==> Allowed(w, a, b)
  {
    if a.Bits? && b.Bits? {
      var sum, sat, top := BinValue(Add, w, false, false, a, b), SatValue(w, a, b), Single(Pow2(w) - 1);
      SumChoices(w, a, b);
      SatChoices(w, a, b);
      CompareChoices(w, a, b);
      IcmpRange(Ult, w, sum, a);
      assert Pow2(1) == 2;
      SelectChoices(IcmpValue(Ult, w, sum, a), top, sum, sat);
      assert top.choices <= sat.choices <==> IsSaturated(w, a, b, Pow2(w) - 1);
      AllWrapped(w, a, b, sum, sat);
    }
  }

  lemma AllWrapped(w: Width, a: Value, b: Value, sum: Value, sat: Value)
    requires a.Bits? && b.Bits? && sum.Bits? && sat.Bits?
    requires forall z :: z in sum.choices <==>
      exists x, y :: x in a.choices && y in b.choices && z == Wrapped(w, x, y)
    requires forall z :: z in sat.choices <==> IsSaturated(w, a, b, z)
    ensures sum.choices <= sat.choices <==>
      forall x, y :: x in a.choices && y in b.choices ==> IsSaturated(w, a, b, Wrapped(w, x, y))
  {
    if sum.choices <= sat.choices {
      forall x, y | x in a.choices && y in b.choices ensures IsSaturated(w, a, b, Wrapped(w, x, y)) {
        assert Wrapped(w, x, y) in sum.choices;
      }
    }
  }

  // Poison or defined operands are always allowed.
  lemma SettledAllowed(w: Width, a: Value, b: Value)
    requires InRange(a, w) && InRange(b, w) && Settled(a, b)
    ensures Allowed(w, a, b)
  {
    ExpansionOfDefined(w, a, b);
    ExpansionRefinesIff(w, a, b);
  }

  // An operand as a program can spell it: poison, undef, or one value.
  ghost predicate Plain(v: Value, w: Width) {
    v == Poison || v == Full(w) || (Defined(v) && InRange(v, w))
  }

  ghost predicate NonzeroDefined(v: Value) {
    Defined(v) && v != Single(0)
  }

  lemma FullNotDefined(w: Width)
    ensures !Defined(Full(w)) && 0 in Full(w).choices && Pow2(w) - 1 in Full(w).choices && Pow2(w) > 1
  {
  }

  // Adding a nonzero value to undef can never saturate to zero, but its expansion can show zero.
  lemma UndefNotAllowed(w: Width, a: Value, b: Value, k: nat)
    requires 0 < k < Pow2(w) && ((a == Full(w) && b == Single(k)) || (a == Single(k) && b == Full(w)))
    ensures !Allowed(w, a, b)
  {
    FullNotDefined(w);
    WrapsToZero(w, k);
    assert k in Single(k).choices;
    if a == Full(w) {
      ShowsUnsaturated(w, a, b, Pow2(w) - k, k, 0, k);
    } else {
      ShowsUnsaturated(w, a, b, k, Pow2(w) - k, k, 0);
    }
  }

  lemma WrapsToZero(w: Width, k: nat)
    requires 0 < k < Pow2(w)
    ensures Wrapped(w, Pow2(w) - k, k) == Wrapped(w, k, Pow2(w) - k) == 0
    ensures Wrapped(w, 0, k) == Wrapped(w, k, 0) == k
    ensures Pow2(w) - k in Full(w).choices
  {
    ModOnce(Pow2(w), Pow2(w));
    ModOnce(k, Pow2(w));
  }

  lemma ShowsUnsaturated(w: Width, a: Value, b: Value, x: nat, y: nat, x0: nat, y0: nat)
    requires a.Bits? && b.Bits? && x in a.choices && y in b.choices && x0 in a.choices && y0 in b.choices
    requires Wrapped(w, x0, y0) >= x0 && Wrapped(w, x, y) == 0 && (0 !in a.choices || 0 !in b.choices) && Pow2(w) > 1
    ensures !Allowed(w, a, b)
  {
    assert !IsSaturated(w, a, b, 0);
    assert CanCompare(w, a, b, false);
  }

  // Undef with itself, or with zero, can saturate to anything.
  lemma UndefAllowed(w: Width, a: Value, b: Value)
    requires a.Bits? && b.Bits? && ((a == Full(w) && 0 in b.choices) || (b == Full(w) && 0 in a.choices))
    ensures Allowed(w, a, b)
  {
    forall z: nat | z < Pow2(w) ensures IsSaturated(w, a, b, z) {
      var x, y := if a == Full(w) && 0 in b.choices then z else 0, if a == Full(w) && 0 in b.choices then 0 else z;
      assert x in a.choices && y in b.choices && Saturated(w, x, y) == z;
    }
  }

  // For such operands: one of them undef and the other a nonzero value.
  lemma PlainAllowedIff(w: Width, a: Value, b: Value)
    requires Plain(a, w) && Plain(b, w)
    ensures Allowed(w, a, b) <==>
      !((a == Full(w) && NonzeroDefined(b)) || (b == Full(w) && NonzeroDefined(a)))
  {
    FullNotDefined(w);
    if a.Poison? || b.Poison? || (Defined(a) && Defined(b)) {
      SettledAllowed(w, a, b);
    } else if NonzeroDefined(a) || NonzeroDefined(b) {
      var k: nat :| (if NonzeroDefined(a) then a else b) == Single(k);
      assert k in (if NonzeroDefined(a) then a else b).choices;
      UndefNotAllowed(w, a, b, k);
    } else {
      UndefAllowed(w, a, b);
    }
  }

  // `select i1 undef, i2 1, i2 2` plus zero: neither operand is undef, yet the compare can
  // be true, and then the expansion shows 3.
  lemma PartlyUndefNotAllowed(a: Value)
    requires a == SelectValue(Full(1), Single(1), Single(2))
    ensures a.Bits? && a.choices == {1, 2} && InRange(a, 2)
    ensures !Allowed(2, a, Single(0))
    ensures !Refines(ExpandedValue(2, a, Single(0)), SatValue(2, a, Single(0)))
  {
    assert Pow2(1) == 2 && Pow2(2) == 4;
    assert 0 in Full(1).choices && 1 in Full(1).choices;
    var b := Single(0);
    assert 1 in a.choices && 2 in a.choices && 0 in b.choices && Wrapped(2, 1, 0) < 2;
    assert CanCompare(2, a, b, true) && !IsSaturated(2, a, b, 3);
    ExpansionRefinesIff(2, a, b);
  }

  // The expansion of refined operands refines the expansion.
  lemma ExpandedMono(w: Width, ta: Value, tb: Value, sa: Value, sb: Value)
    requires Refines(ta, sa) && Refines(tb, sb)
    ensures Refines(ExpandedValue(w, ta, tb), ExpandedValue(w, sa, sb))
  {
    var t, s := BinValue(Add, w, false, false, ta, tb), BinValue(Add, w, false, false, sa, sb);
    BinMono(Add, w, false, false, false, false, ta, tb, sa, sb);
    IcmpMono(Ult, w, t, ta, s, sa);
    IcmpRange(Ult, w, s, sa);
    assert Pow2(1) == 2;
    var top := Single(Pow2(w) - 1);
    SelectMono(IcmpValue(Ult, w, t, ta), top, t, IcmpValue(Ult, w, s, sa), top, s);
  }

  // ---------------------------------------------------------------- allowed runs

  // The condition on one executed add: exactly the same value, or a refinement of it.
  ghost predicate AddAllowed(exact: bool, i: Instr, s: State) {
    i.UaddSat? && ExecInstr(i, s).Ok? ==>
      var a, b := Eval(i.a, i.w, s), Eval(i.b, i.w, s);
      if exact then Settled(a, b) else Allowed(i.w, a, b)
  }

  ghost predicate BodyAllowed(exact: bool, code: seq<Instr>, s: State)
    decreases |code|
  {
    code == [] ||
    (AddAllowed(exact, code[0], s) &&
     (ExecInstr(code[0], s).Ok? ==> BodyAllowed(exact, code[1..], ExecInstr(code[0], s).s)))
  }

  ghost function Entry(b: Block, prev: Label, s: State): State {
    State(PhiRegs(b.phis, prev, s), s.slots)
  }

  // Every add of the block about to run; a block that runs into undefined behaviour allows all.
  ghost predicate BlockAllowed(exact: bool, prog: Program, c: Config) {
    c.At? && c.here in prog ==>
      var b := prog[c.here];
      ExecSeq(b.body, Entry(b, c.prev, c.s)).Ok? ==> BodyAllowed(exact, b.body, Entry(b, c.prev, c.s))
  }

  // Every add the program executes in its first n blocks.
  ghost predicate RunAllowed(exact: bool, prog: Program, c: Config, n: nat) {
    forall k: nat :: k < n ==> BlockAllowed(exact, prog, Run(prog, c, k))
  }

  lemma {:induction false} BodySettled(code: seq<Instr>, s: State)
    requires BodyAllowed(true, code, s)
    ensures BodyAllowed(false, code, s)
    decreases |code|
  {
    if code != [] {
      var i := code[0];
      if i.UaddSat? && ExecInstr(i, s).Ok? { SettledAllowed(i.w, Eval(i.a, i.w, s), Eval(i.b, i.w, s)); }
      if ExecInstr(i, s).Ok? { BodySettled(code[1..], ExecInstr(i, s).s); }
    }
  }

  lemma RunSettled(prog: Program, c: Config, n: nat)
    requires RunAllowed(true, prog, c, n)
    ensures RunAllowed(false, prog, c, n)
  {
    forall k: nat | k < n ensures BlockAllowed(false, prog, Run(prog, c, k)) {
      var d := Run(prog, c, k);
      assert BlockAllowed(true, prog, d);
      if d.At? && d.here in prog {
        var b := prog[d.here];
        if ExecSeq(b.body, Entry(b, d.prev, d.s)).Ok? { BodySettled(b.body, Entry(b, d.prev, d.s)); }
      }
    }
  }

  // What the text can show: both operands marked noundef, or constants.
  predicate Marked(i: Instr) {
    i.UaddSat? ==> (i.noundefA || i.a.C?) && (i.noundefB || i.b.C?)
  }

  predicate MarkedProgram(prog: Program) {
    forall l, k :: l in prog && 0 <= k < |prog[l].body| ==> Marked(prog[l].body[k])
  }

  lemma {:induction false} BodyMarked(code: seq<Instr>, s: State)
    requires forall k :: 0 <= k < |code| ==> Marked(code[k])
    ensures BodyAllowed(true, code, s)
    decreases |code|
  {
    if code != [] {
      assert Marked(code[0]);
      if ExecInstr(code[0], s).Ok? { BodyMarked(code[1..], ExecInstr(code[0], s).s); }
    }
  }

  // Marks in the text are enough, whatever the run.
  lemma MarkedRunAllowed(prog: Program, c: Config, n: nat)
    requires MarkedProgram(prog)
    ensures RunAllowed(true, prog, c, n) && RunAllowed(false, prog, c, n)
  {
    forall k: nat | k < n ensures BlockAllowed(true, prog, Run(prog, c, k)) {
      var d := Run(prog, c, k);
      if d.At? && d.here in prog { BodyMarked(prog[d.here].body, Entry(prog[d.here], d.prev, d.s)); }
    }
    RunSettled(prog, c, n);
  }

  // ---------------------------------------------------------------- simulation

  lemma ExpandedInstr(exact: bool, i: Instr, t: State, s: State)
    requires StateRel(ExpandSat, exact, t, s) && CleanInstr(i) && AddAllowed(exact, i, s) && ExecInstr(i, s).Ok?
    ensures var o := ExecSeq(PassInstr(ExpandSat, i), t);
      o.Ok? && StateRel(ExpandSat, exact, o.s, ExecInstr(i, s).s)
  {
    if i.UaddSat? {
      var w, ta, tb := i.w, Eval(i.a, i.w, t), Eval(i.b, i.w, t);
      ExpansionNames(i.dst);
      ExpansionRuns(SumReg(i.dst), OvReg(i.dst), i.dst, w, i.a, i.b, t, ta, tb);
      ExpandedAdd(exact, i, t, s);
      ExpansionRel(i.dst, exact, t, s, BinValue(Add, w, false, false, ta, tb),
        IcmpValue(Ult, w, BinValue(Add, w, false, false, ta, tb), ta), ExpandedValue(w, ta, tb), Result(i, s).value);
    } else if exact {
      ExecOne(i, t);
      PlainInstr(i, t, s);
    } else {
      RefiningInstr(ExpandSat, i, t, s);
    }
  }

  // The expansion's value in the target against the intrinsic's in the source.
  lemma ExpandedAdd(exact: bool, i: Instr, t: State, s: State)
    requires i.UaddSat? && StateRel(ExpandSat, exact, t, s) && CleanInstr(i)
    requires AddAllowed(exact, i, s) && ExecInstr(i, s).Ok?
    ensures ValueRel(exact, ExpandedValue(i.w, Eval(i.a, i.w, t), Eval(i.b, i.w, t)), Result(i, s).value)
  {
    var w, sa, sb := i.w, Eval(i.a, i.w, s), Eval(i.b, i.w, s);
    EvalRel(ExpandSat, exact, i.a, w, t, s);
    EvalRel(ExpandSat, exact, i.b, w, t, s);
    assert InRange(sa, w) && InRange(sb, w);
    if exact {
      ExpansionOfDefined(w, sa, sb);
    } else {
      ExpandedMono(w, Eval(i.a, w, t), Eval(i.b, w, t), sa, sb);
      ExpansionRefinesIff(w, sa, sb);
    }
  }

  // Two fresh registers and the destination, against the destination alone.
  lemma ExpansionRel(d: Reg, exact: bool, t: State, s: State, sum: Value, ov: Value, tv: Value, sv: Value)
    requires StateRel(ExpandSat, exact, t, s) && ValueRel(exact, tv, sv)
    ensures StateRel(ExpandSat, exact, Assign(Assign(Assign(t, SumReg(d), sum), OvReg(d), ov), d, tv), Assign(s, d, sv))
  {
    ExpansionNames(d);
    var t1 := Assign(t, SumReg(d), sum);
    FreshAssign(exact, t, s, SumReg(d), sum);
    FreshAssign(exact, t1, s, OvReg(d), ov);
    AssignRel(ExpandSat, exact, Assign(t1, OvReg(d), ov), s, d, tv, sv);
  }

  lemma FreshAssign(exact: bool, t: State, s: State, r: Reg, v: Value)
    requires StateRel(ExpandSat, exact, t, s) && Fresh(r)
    ensures StateRel(ExpandSat, exact, Assign(t, r, v), s)
  {
    var t' := Assign(t, r, v);
    forall x | !Fresh(x) ensures ValueRel(exact, Get(t'.regs, x), Get(s.regs, x)) {
      assert x != r && ValueRel(exact, Get(t.regs, x), Get(s.regs, x));
    }
  }

  lemma PlainInstr(i: Instr, t: State, s: State)
    requires StateRel(ExpandSat, true, t, s) && CleanInstr(i) && ExecInstr(i, s).Ok?
    ensures ExecInstr(i, t).Ok? && StateRel(ExpandSat, true, ExecInstr(i, t).s, ExecInstr(i, s).s)
  {
    if i.Alloca? {
      StoreRel(ExpandSat, true, t, s, i.slot, Full(i.w), Full(i.w));
    } else if i.Store? {
      EvalRel(ExpandSat, true, i.a, i.w, t, s);
      StoreRel(ExpandSat, true, t, s, i.slot, Eval(i.a, i.w, t), Eval(i.a, i.w, s));
    } else {
      if !i.Load? {
        EvalRel(ExpandSat, true, i.a, i.w, t, s);
        EvalRel(ExpandSat, true, i.b, i.w, t, s);
        if i.Select? { EvalRel(ExpandSat, true, i.cond, 1, t, s); }
      } else {
        assert Get(t.slots, i.slot) == Get(s.slots, i.slot);
      }
      AssignRel(ExpandSat, true, t, s, i.dst, Result(i, t).value, Result(i, s).value);
    }
  }

  lemma {:induction false} BodySim(p: Pass, exact: bool, code: seq<Instr>, t: State, s: State)
    requires Mode(p, exact) && StateRel(p, exact, t, s) && ExecSeq(code, s).Ok?
    requires p.ExpandSat? ==> (forall k :: 0 <= k < |code| ==> CleanInstr(code[k])) && BodyAllowed(exact, code, s)
    ensures var o := ExecSeq(PassBody(p, code), t); o.Ok? && StateRel(p, exact, o.s, ExecSeq(code, s).s)
  {
    if code != [] {
      if p.ExpandSat? { ExpandedInstr(exact, code[0], t, s); } else { RefiningInstr(p, code[0], t, s); }
      var t', s' := ExecSeq(PassInstr(p, code[0]), t).s, ExecInstr(code[0], s).s;
      BodySim(p, exact, code[1..], t', s');
      ExecAppend(PassInstr(p, code[0]), PassBody(p, code[1..]), t);
    }
  }

  lemma {:induction false} PhiSim(p: Pass, exact: bool, phis: seq<Phi>, phis': seq<Phi>, prev: Label, t: State,
                                  s: State)
    requires Mode(p, exact) && StateRel(p, exact, t, s)
    requires |phis'| == |phis| && forall k :: 0 <= k < |phis| ==> phis'[k] == PassPhi(p, phis[k])
    requires p.ExpandSat? ==>
      forall k, l :: 0 <= k < |phis| && l in phis[k].incoming ==> CleanOperand(phis[k].incoming[l])
    ensures StateRel(p, exact, State(PhiRegs(phis', prev, t), t.slots), State(PhiRegs(phis, prev, s), s.slots))
  {
    if phis != [] {
      var n := |phis| - 1;
      PhiSim(p, exact, phis[..n], phis'[..n], prev, t, s);
      var phi, phi' := phis[n], phis'[n];
      if prev in phi.incoming { EvalRel(p, exact, phi.incoming[prev], phi.w, t, s); }
      AssignRel(p, exact, State(PhiRegs(phis'[..n], prev, t), t.slots), State(PhiRegs(phis[..n], prev, s), s.slots),
                phi.dst,
                if prev in phi'.incoming then Eval(phi'.incoming[prev], phi.w, t) else Poison,
                if prev in phi.incoming then Eval(phi.incoming[prev], phi.w, s) else Poison);
    }
  }

  // Undefined behaviour of the source allows anything; otherwise the target is at the
  // same block in a related state, or has returned a related value.
  ghost predicate ConfigRel(p: Pass, exact: bool, t: Config, s: Config) {
    match s
    case Undefined => true
    case At(l, prev, st) => t.At? && t.here == l && t.prev == prev && StateRel(p, exact, t.s, st)
    case Returned(v) => t.Returned? && ValueRel(exact, t.v, v)
  }

  lemma LeaveSim(p: Pass, exact: bool, term: Terminator, l: Label, t: State, s: State)
    requires Mode(p, exact) && StateRel(p, exact, t, s)
    requires p.ExpandSat? ==> (term.Ret? ==> CleanOperand(term.a)) && (term.CondBr? ==> CleanOperand(term.cond))
    ensures ConfigRel(p, exact, Leave(PassTerm(p, term), l, t), Leave(term, l, s))
  {
    match term
    case Ret(w, a) => EvalRel(p, exact, a, w, t, s);
    case Br(_) =>
    case CondBr(c, _, _) =>
      EvalRel(p, exact, c, 1, t, s);
      var tv, sv := Eval(PassOperand(p, c), 1, t), Eval(c, 1, s);
      if Defined(sv) && !exact { DefinedMono(tv, sv); }
  }

  predicate Admissible(p: Pass, prog: Program) {
    p.ExpandSat? ==> CleanProgram(prog)
  }

  lemma StepSim(p: Pass, exact: bool, prog: Program, t: Config, s: Config)
    requires Mode(p, exact) && Admissible(p, prog) && ConfigRel(p, exact, t, s)
    requires p.ExpandSat? ==> BlockAllowed(exact, prog, s)
    ensures ConfigRel(p, exact, StepBlock(PassProgram(p, prog), t), StepBlock(prog, s))
  {
    if s.At? && s.here in prog {
      var b := prog[s.here];
      var b' := PassBlock(p, b);
      assert p.ExpandSat? ==> CleanBlock(b);
      PhiSim(p, exact, b.phis, b'.phis, s.prev, t.s, s.s);
      var t0, s0 := Entry(b', s.prev, t.s), Entry(b, s.prev, s.s);
      if ExecSeq(b.body, s0).Ok? {
        BodySim(p, exact, b.body, t0, s0);
        LeaveSim(p, exact, b.term, s.here, ExecSeq(b'.body, t0).s, ExecSeq(b.body, s0).s);
      }
    }
  }

  lemma {:induction false} RunSim(p: Pass, exact: bool, prog: Program, t: Config, s: Config, n: nat)
    requires Mode(p, exact) && Admissible(p, prog) && ConfigRel(p, exact, t, s)
    requires p.ExpandSat? ==> RunAllowed(exact, prog, s, n)
    ensures ConfigRel(p, exact, Run(PassProgram(p, prog), t, n), Run(prog, s, n))
  {
    if n > 0 {
      RunSim(p, exact, prog, t, s, n - 1);
      StepSim(p, exact, prog, Run(PassProgram(p, prog), t, n - 1), Run(prog, s, n - 1));
    }
  }

  // ---------------------------------------------------------------- the pipeline

  // What can be observed of a run: undefined, still going, or the value returned.
  ghost predicate OutcomeRefines(t: Config, s: Config) {
    match s
    case Undefined => true
    case At(l, _, _) => t.At? && t.here == l
    case Returned(v) => t.Returned? && Refines(t.v, v)
  }

  lemma PassRefines(p: Pass, prog: Program, c: Config, n: nat)
    requires p.ExpandSat? ==> CleanProgram(prog) && RunAllowed(false, prog, c, n)
    ensures OutcomeRefines(Run(PassProgram(p, prog), c, n), Run(prog, c, n))
  {
    assert ConfigRel(p, false, c, c);
    RunSim(p, false, prog, c, c, n);
  }

  /** Where every executed add has poison or defined operands, the expansion alone changes
      nothing observable: same blocks, same registers, same value returned. */
  lemma ExpansionExact(prog: Program, c: Config, n: nat)
    requires CleanProgram(prog) && RunAllowed(true, prog, c, n)
    ensures var t, s := Run(PassProgram(ExpandSat, prog), c, n), Run(prog, c, n);
      s.Undefined? || (s.Returned? && t == s) ||
      (s.At? && t.At? && t.here == s.here &&
       forall r :: !Fresh(r) ==> Get(t.s.regs, r) == Get(s.s.regs, r))
  {
    assert ConfigRel(ExpandSat, true, c, c);
    RunSim(ExpandSat, true, prog, c, c, n);
  }

  lemma {:induction false} OneForOne(p: Pass, code: seq<Instr>)
    requires p.PoisonToUndef? || p.StripFlags?
    ensures |PassBody(p, code)| == |code|
    ensures forall k :: 0 <= k < |code| ==> [PassBody(p, code)[k]] == PassInstr(p, code[k])
  {
    if code != [] { OneForOne(p, code[1..]); }
  }

  // The expansion commutes with the two passes before it, so it can be argued about on the
  // original program, where poison still allows anything.
  lemma {:induction false} PassBodyConcat(p: Pass, a: seq<Instr>, b: seq<Instr>)
    ensures PassBody(p, a + b) == PassBody(p, a) + PassBody(p, b)
  {
    if a == [] {
      assert a + b == b;
    } else {
      assert (a + b)[1..] == a[1..] + b;
      PassBodyConcat(p, a[1..], b);
    }
  }

  lemma ExpansionOneForOne(q: Pass, i: Instr)
    requires q.PoisonToUndef? || q.StripFlags?
    ensures PassBody(ExpandSat, PassInstr(q, i)) == PassBody(q, PassInstr(ExpandSat, i))
  {
    var j := PassInstr(q, i)[0];
    assert PassInstr(q, i) == [j] && [j][1..] == [] && [i][1..] == [];
    assert PassBody(ExpandSat, [j]) == PassInstr(ExpandSat, j) + PassBody(ExpandSat, []);
    if i.UaddSat? {
      var e := Expansion(i.dst, i.w, i.a, i.b);
      OneForOne(q, e);
      forall k | 0 <= k < 3 ensures PassBody(q, e)[k] == PassInstr(ExpandSat, j)[k] {
        assert [PassBody(q, e)[k]] == PassInstr(q, e[k]);
      }
    } else {
      assert PassBody(q, [i]) == [j] + PassBody(q, []);
    }
  }

  lemma {:induction false} ExpandLast(q: Pass, code: seq<Instr>)
    requires q.PoisonToUndef? || q.StripFlags?
    ensures PassBody(ExpandSat, PassBody(q, code)) == PassBody(q, PassBody(ExpandSat, code))
  {
    if code != [] {
      ExpandLast(q, code[1..]);
      ExpansionOneForOne(q, code[0]);
      PassBodyConcat(ExpandSat, PassInstr(q, code[0]), PassBody(q, code[1..]));
      PassBodyConcat(q, PassInstr(ExpandSat, code[0]), PassBody(ExpandSat, code[1..]));
    }
  }

  lemma ExpandLastProgram(q: Pass, prog: Program)
    requires q.PoisonToUndef? || q.StripFlags?
    ensures PassProgram(ExpandSat, PassProgram(q, prog)) == PassProgram(q, PassProgram(ExpandSat, prog))
  {
    forall l | l in prog
      ensures PassBlock(ExpandSat, PassBlock(q, prog[l])) == PassBlock(q, PassBlock(ExpandSat, prog[l]))
    {
      ExpandLast(q, prog[l].body);
      ExpandKeepsEdges(prog[l]);
      ExpandKeepsEdges(PassBlock(q, prog[l]));
    }
  }

  lemma ExpandKeepsEdges(b: Block)
    ensures PassBlock(ExpandSat, b) == Block(b.phis, PassBody(ExpandSat, b.body), b.term)
  {
    forall k | 0 <= k < |b.phis| ensures PassPhi(ExpandSat, b.phis[k]) == b.phis[k] {
      assert PassPhi(ExpandSat, b.phis[k]).incoming == b.phis[k].incoming;
    }
    assert PassBlock(ExpandSat, b).phis == b.phis;
  }

  // The passes around the expansion refine any program.
  function Surrounding(e: Program, initUndefAllocas: bool): Program {
    var f := PassProgram(StripFlags, PassProgram(PoisonToUndef, e));
    if initUndefAllocas then PassProgram(ZeroAllocas, f) else f
  }

  lemma SurroundingRefines(e: Program, initUndefAllocas: bool, c: Config, n: nat)
    ensures OutcomeRefines(Run(Surrounding(e, initUndefAllocas), c, n), Run(e, c, n))
  {
    var u := PassProgram(PoisonToUndef, e);
    var f := PassProgram(StripFlags, u);
    PassRefines(PoisonToUndef, e, c, n);
    PassRefines(StripFlags, u, c, n);
    if initUndefAllocas { PassRefines(ZeroAllocas, f, c, n); }
  }

  lemma ExpandFirst(prog: Program, initUndefAllocas: bool)
    ensures Patch(prog, initUndefAllocas) == Surrounding(PassProgram(ExpandSat, prog), initUndefAllocas)
  {
    ExpandLastProgram(StripFlags, PassProgram(PoisonToUndef, prog));
    ExpandLastProgram(PoisonToUndef, prog);
  }

  /** Whole-program refinement: after any number of blocks, whatever the patched program
      shows is something the original allows. The program must not use `__sat_` registers,
      and each saturating add it executes must be one whose expansion is allowed. */
  lemma PatchRefines(prog: Program, initUndefAllocas: bool, c: Config, n: nat)
    requires CleanProgram(prog) && RunAllowed(false, prog, c, n)
    ensures OutcomeRefines(Run(Patch(prog, initUndefAllocas), c, n), Run(prog, c, n))
  {
    ExpandFirst(prog, initUndefAllocas);
    PassRefines(ExpandSat, prog, c, n);
    SurroundingRefines(PassProgram(ExpandSat, prog), initUndefAllocas, c, n);
  }

  // In particular for programs whose saturating adds have noundef or constant operands.
  lemma PatchRefinesMarked(prog: Program, initUndefAllocas: bool, c: Config, n: nat)
    requires CleanProgram(prog) && MarkedProgram(prog)
    ensures OutcomeRefines(Run(Patch(prog, initUndefAllocas), c, n), Run(prog, c, n))
  {
    MarkedRunAllowed(prog, c, n);
    PatchRefines(prog, initUndefAllocas, c, n);
  }

  // ---------------------------------------------------------------- one add, exactly

  function SingleAdd(w: Width, a: Operand, b: Operand): Program {
    OneBlock([UaddSat("r", w, a, false, b, false)], w)
  }

  function OneBlock(code: seq<Instr>, w: Width): Program {
    map["entry" := Block([], code, Ret(w, R("r")))]
  }

  lemma PassOneBlock(p: Pass, i: Instr, w: Width)
    ensures PassProgram(p, OneBlock([i], w)) == OneBlock(PassInstr(p, i), w)
  {
    var prog := OneBlock([i], w);
    assert [i][1..] == [];
    assert PassBody(p, [i]) == PassInstr(p, i) + PassBody(p, []) == PassInstr(p, i);
    assert PassProgram(p, prog)["entry"] == PassBlock(p, prog["entry"]);
    assert PassBlock(p, prog["entry"]).phis == [];
  }

  lemma RunOneBlock(code: seq<Instr>, w: Width, s: State, v: Value)
    requires ExecSeq(code, s).Ok? && Get(ExecSeq(code, s).s.regs, "r") == v && InRange(v, w)
    ensures Run(OneBlock(code, w), At("entry", "", s), 1) == Returned(v)
  {
    var c := At("entry", "", s);
    assert Run(OneBlock(code, w), c, 0) == c;
    assert State(s.regs, s.slots) == s;
    MaskInRange(v, w);
  }

  lemma {:induction false} BodyUntouched(p: Pass, code: seq<Instr>)
    requires forall k :: 0 <= k < |code| ==> PassInstr(p, code[k]) == [code[k]]
    ensures PassBody(p, code) == code
  {
    if code != [] { BodyUntouched(p, code[1..]); }
  }

  lemma BlockUntouched(p: Pass, code: seq<Instr>, w: Width)
    requires forall k :: 0 <= k < |code| ==> PassInstr(p, code[k]) == [code[k]]
    ensures PassProgram(p, OneBlock(code, w)) == OneBlock(code, w)
  {
    var prog := OneBlock(code, w);
    BodyUntouched(p, code);
    assert PassProgram(p, prog)["entry"] == PassBlock(p, prog["entry"]);
    assert PassBlock(p, prog["entry"]).phis == [];
  }

  lemma PatchSingleAdd(w: Width, a: Operand, b: Operand, initUndefAllocas: bool)
    ensures Patch(SingleAdd(w, a, b), initUndefAllocas) ==
      OneBlock(Expansion("r", w, PassOperand(PoisonToUndef, a), PassOperand(PoisonToUndef, b)), w)
  {
    var i := UaddSat("r", w, a, false, b, false);
    var j := UndefInstr(i);
    PassOneBlock(PoisonToUndef, i, w);
    PassOneBlock(StripFlags, j, w);
    PassOneBlock(ExpandSat, j, w);
    BlockUntouched(ZeroAllocas, Expansion("r", w, j.a, j.b), w);
  }

  lemma SingleAddRuns(w: Width, a: Operand, b: Operand, s: State)
    ensures Run(SingleAdd(w, a, b), At("entry", "", s), 1) == Returned(SatValue(w, Eval(a, w, s), Eval(b, w, s)))
  {
    var v := SatValue(w, Eval(a, w, s), Eval(b, w, s));
    ExecOne(UaddSat("r", w, a, false, b, false), s);
    assert InRange(v, w);
    RunOneBlock([UaddSat("r", w, a, false, b, false)], w, s, v);
  }

  lemma ExpandedAddRuns(w: Width, a: Operand, b: Operand, s: State)
    requires CleanOperand(a)
    ensures Run(OneBlock(Expansion("r", w, a, b), w), At("entry", "", s), 1) ==
      Returned(ExpandedValue(w, Eval(a, w, s), Eval(b, w, s)))
  {
    var va, vb := Eval(a, w, s), Eval(b, w, s);
    ExpansionNames("r");
    ExpansionRuns(SumReg("r"), OvReg("r"), "r", w, a, b, s, va, vb);
    BinRange(Add, w, false, false, va, vb);
    assert InRange(ExpandedValue(w, va, vb), w);
    RunOneBlock(Expansion("r", w, a, b), w, s, ExpandedValue(w, va, vb));
  }

  /** The condition cannot be weakened for one add: a program that returns a saturating sum
      is refined by its patched form exactly when the operand values are allowed. */
  lemma SingleAddRefinesIff(w: Width, a: Operand, b: Operand, initUndefAllocas: bool, s: State)
    requires CleanOperand(a) && CleanOperand(b)
    ensures
      var prog, c := SingleAdd(w, a, b), At("entry", "", s);
      OutcomeRefines(Run(Patch(prog, initUndefAllocas), c, 1), Run(prog, c, 1)) <==>
        Allowed(w, Eval(a, w, s), Eval(b, w, s))
  {
    PatchSingleAdd(w, a, b, initUndefAllocas);
    SingleAddRuns(w, a, b, s);
    ExpandedAddRuns(w, PassOperand(PoisonToUndef, a), PassOperand(PoisonToUndef, b), s);
    PatchedOperands(w, a, b, s);
  }

  // Replacing poison by undef first makes no difference: poison operands allow anything.
  lemma PatchedOperands(w: Width, a: Operand, b: Operand, s: State)
    ensures
      var ua, ub := PassOperand(PoisonToUndef, a), PassOperand(PoisonToUndef, b);
      Refines(ExpandedValue(w, Eval(ua, w, s), Eval(ub, w, s)), SatValue(w, Eval(a, w, s), Eval(b, w, s))) <==>
        Allowed(w, Eval(a, w, s), Eval(b, w, s))
  {
    assert InRange(Eval(a, w, s), w) && InRange(Eval(b, w, s), w);
    ExpansionRefinesIff(w, Eval(a, w, s), Eval(b, w, s));
  }

  // Undef plus a nonzero constant, unmarked: the pipeline is not a refinement.
  lemma UnmarkedAddNotRefined(w: Width, k: nat, initUndefAllocas: bool, s: State)
    requires 0 < k < Pow2(w)
    ensures
      var prog, c := SingleAdd(w, UndefLit, C(k)), At("entry", "", s);
      !OutcomeRefines(Run(Patch(prog, initUndefAllocas), c, 1), Run(prog, c, 1))
  {
    UndefOperandNotAllowed(w, k, s);
    SingleAddRefinesIff(w, UndefLit, C(k), initUndefAllocas, s);
  }

  lemma UndefOperandNotAllowed(w: Width, k: nat, s: State)
    requires 0 < k < Pow2(w)
    ensures !Allowed(w, Eval(UndefLit, w, s), Eval(C(k), w, s))
  {
    SmallMod(k, Pow2(w));
    UndefNotAllowed(w, Full(w), Single(k), k);
  }

  // Nor is it when an operand is a choice of two values.
  lemma PartlyUndefAddNotRefined(initUndefAllocas: bool, s: State)
    requires Get(s.regs, "x") == SelectValue(Full(1), Single(1), Single(2))
    ensures
      var prog, c := SingleAdd(2, R("x"), C(0)), At("entry", "", s);
      !OutcomeRefines(Run(Patch(prog, initUndefAllocas), c, 1), Run(prog, c, 1))
  {
    var a := Get(s.regs, "x");
    PartlyUndefNotAllowed(a);
    MaskInRange(a, 2);
    SmallMod(0, Pow2(2));
    assert "x"[0] != "__sat_"[0];
    SingleAddRefinesIff(2, R("x"), C(0), initUndefAllocas, s);
  }
}
