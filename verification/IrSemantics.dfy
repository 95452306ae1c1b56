/** A small LLVM-like register language with poison and undef, following the "Poison
    Values" and "Undefined Values" sections of the LLVM Language Reference Manual.

    An undefined value may look different at each use, so a register holds the set of
    bit patterns a use may observe; a defined value is a singleton. */
module IrSemantics {
  import opened Arithmetic
  import opened Options

  type Reg = string
  type Label = string
  type Width = n: nat | n > 0 witness 1

  datatype RawValue = Poison | Bits(choices: set<nat>)
  type Value = v: RawValue | v.Bits? ==> v.choices != {} witness Poison

  datatype Operand = R(name: Reg) | C(n: int) | Zero | PoisonLit | UndefLit

  datatype BinOp = Add | Sub | Mul
  datatype Pred = Eq | Ne | Ult | Ule | Slt | Sle

  datatype Instr =
    | Bin(dst: Reg, op: BinOp, w: Width, a: Operand, b: Operand, nsw: bool, nuw: bool)
    | UDiv(dst: Reg, w: Width, a: Operand, b: Operand)
    | Icmp(dst: Reg, pred: Pred, w: Width, a: Operand, b: Operand)
    | Select(dst: Reg, cond: Operand, w: Width, a: Operand, b: Operand)
    | UaddSat(dst: Reg, w: Width, a: Operand, noundefA: bool, b: Operand, noundefB: bool)
    | Alloca(slot: Reg, w: Width, align: nat)
    | Store(w: Width, a: Operand, slot: Reg, align: nat)
    | Load(dst: Reg, w: Width, slot: Reg)

  datatype Phi = Phi(dst: Reg, w: Width, incoming: map<Label, Operand>)
  datatype Terminator = Ret(w: Width, a: Operand) | Br(to: Label) | CondBr(cond: Operand, yes: Label, no: Label)
  datatype Block = Block(phis: seq<Phi>, body: seq<Instr>, term: Terminator)
  type Program = map<Label, Block>

  datatype State = State(regs: map<Reg, Value>, slots: map<Reg, Value>)
  datatype Outcome = Ok(s: State) | UB

  // ---------------------------------------------------------------- values

  ghost function Below(n: nat): (s: set<nat>)
    ensures forall x: nat :: x in s <==> x < n
  {
    if n == 0 then {} else Below(n - 1) + {n - 1}
  }

  ghost function Full(w: Width): (v: Value) {
    assert 0 in Below(Pow2(w));
    Bits(Below(Pow2(w)))
  }

  ghost function Single(x: nat): (v: Value) {
    assert x in {x};
    Bits({x})
  }

  ghost predicate Defined(v: Value) {
    v.Bits? && exists x: nat :: v == Single(x)
  }

  // A use at width w sees the low w bits.
  ghost function Mask(v: Value, w: Width): (r: Value) {
    match v
    case Poison => Poison
    case Bits(xs) =>
      var x :| x in xs;
      var r := set y | y in xs :: y % Pow2(w);
      assert x % Pow2(w) in r;
      Bits(r)
  }

  ghost function Get(m: map<Reg, Value>, n: Reg): Value {
    if n in m then m[n] else Poison
  }

  ghost function Eval(o: Operand, w: Width, s: State): Value {
    match o
    case R(n) => Mask(Get(s.regs, n), w)
    case C(n) => Single(n % Pow2(w))
    case Zero => Single(0)
    case PoisonLit => Poison
    case UndefLit => Full(w)
  }

  ghost function Signed(x: int, w: Width): int {
    if x < Pow2(w - 1) then x else x - Pow2(w)
  }

  ghost function Apply(op: BinOp, x: int, y: int): int {
    match op
    case Add => x + y
    case Sub => x - y
    case Mul => x * y
  }

  // The flag the instruction carries is broken by these operands.
  ghost predicate Overflows(op: BinOp, w: Width, nsw: bool, nuw: bool, x: int, y: int) {
    || (nuw && !(0 <= Apply(op, x, y) < Pow2(w)))
    || (nsw && !(0 - Pow2(w - 1) <= Apply(op, Signed(x, w), Signed(y, w)) < Pow2(w - 1)))
  }

  ghost function BinValue(op: BinOp, w: Width, nsw: bool, nuw: bool, a: Value, b: Value): Value {
    if a.Poison? || b.Poison? then Poison
    else if exists x, y :: x in a.choices && y in b.choices && Overflows(op, w, nsw, nuw, x, y) then Poison
    else
      var x, y :| x in a.choices && y in b.choices;
      var r := set x, y | x in a.choices && y in b.choices :: Apply(op, x, y) % Pow2(w);
      assert Apply(op, x, y) % Pow2(w) in r;
      Bits(r)
  }

  ghost predicate Holds(p: Pred, w: Width, x: nat, y: nat) {
    match p
    case Eq => x == y
    case Ne => x != y
    case Ult => x < y
    case Ule => x <= y
    case Slt => Signed(x, w) < Signed(y, w)
    case Sle => Signed(x, w) <= Signed(y, w)
  }

  ghost function Flag(b: bool): nat {
    if b then 1 else 0
  }

  ghost function IcmpValue(p: Pred, w: Width, a: Value, b: Value): Value {
    if a.Poison? || b.Poison? then Poison
    else
      var x, y :| x in a.choices && y in b.choices;
      var r := set x, y | x in a.choices && y in b.choices :: Flag(Holds(p, w, x, y));
      assert Flag(Holds(p, w, x, y)) in r;
      Bits(r)
  }

  ghost function SelectValue(c: Value, a: Value, b: Value): Value {
    if c.Poison? then Poison
    else if 0 !in c.choices then a
    else if 1 !in c.choices then b
    else if a.Poison? || b.Poison? then Poison
    else Bits(a.choices + b.choices)
  }

  function Min(x: int, y: int): int {
    if x < y then x else y
  }

  // "'llvm.uadd.sat.*' Intrinsics": the sum, clamped to the largest unsigned value.
  ghost function SatValue(w: Width, a: Value, b: Value): Value {
    if a.Poison? || b.Poison? then Poison
    else
      var x, y :| x in a.choices && y in b.choices;
      var r := set x, y | x in a.choices && y in b.choices :: Min(x + y, Pow2(w) - 1) as nat;
      assert Min(x + y, Pow2(w) - 1) in r;
      Bits(r)
  }

  ghost function UDivValue(w: Width, a: Value, b: Value): Value
    requires b.Bits? && 0 !in b.choices
  {
    if a.Poison? then Poison
    else
      var x, y :| x in a.choices && y in b.choices;
      var r := set x, y | x in a.choices && y in b.choices :: if y == 0 then 0 else x / y;
      assert x / y in r;
      Bits(r)
  }

  // ---------------------------------------------------------------- execution

  predicate HasResult(i: Instr) {
    !i.Alloca? && !i.Store?
  }

  // The value an instruction computes; None is immediate undefined behaviour.
  ghost function Result(i: Instr, s: State): Option<Value>
    requires HasResult(i)
  {
    match i
    case Bin(_, op, w, a, b, nsw, nuw) => Some(BinValue(op, w, nsw, nuw, Eval(a, w, s), Eval(b, w, s)))
    case UDiv(_, w, a, b) =>
      var divisor := Eval(b, w, s);
      if divisor.Poison? || 0 in divisor.choices then None else Some(UDivValue(w, Eval(a, w, s), divisor))
    case Icmp(_, p, w, a, b) => Some(IcmpValue(p, w, Eval(a, w, s), Eval(b, w, s)))
    case Select(_, c, w, a, b) => Some(SelectValue(Eval(c, 1, s), Eval(a, w, s), Eval(b, w, s)))
    case UaddSat(_, w, a, na, b, nb) =>
      // A noundef argument must be a defined value.
      if (na && !Defined(Eval(a, w, s))) || (nb && !Defined(Eval(b, w, s))) then None
      else Some(SatValue(w, Eval(a, w, s), Eval(b, w, s)))
    case Load(_, w, slot) => Some(Mask(Get(s.slots, slot), w))
  }

  ghost function Assign(s: State, r: Reg, v: Value): State {
    State(s.regs[r := v], s.slots)
  }

  ghost function ExecInstr(i: Instr, s: State): Outcome {
    if i.Alloca? then Ok(State(s.regs, s.slots[i.slot := Full(i.w)]))
    else if i.Store? then Ok(State(s.regs, s.slots[i.slot := Eval(i.a, i.w, s)]))
    else if Result(i, s).None? then UB
    else Ok(Assign(s, i.dst, Result(i, s).value))
  }

  ghost function ExecSeq(code: seq<Instr>, s: State): Outcome {
    if code == [] then Ok(s)
    else
      var o := ExecInstr(code[0], s);
      if o.UB? then UB else ExecSeq(code[1..], o.s)
  }

  lemma {:induction false} ExecAppend(a: seq<Instr>, b: seq<Instr>, s: State)
    ensures ExecSeq(a + b, s) == if ExecSeq(a, s).UB? then UB else ExecSeq(b, ExecSeq(a, s).s)
  {
    if a == [] {
      assert a + b == b;
    } else {
      assert (a + b)[1..] == a[1..] + b;
      var o := ExecInstr(a[0], s);
      if o.Ok? { ExecAppend(a[1..], b, o.s); }
    }
  }

  // All phis of a block read the state on entry.
  ghost function PhiRegs(phis: seq<Phi>, prev: Label, s: State): map<Reg, Value> {
    if phis == [] then s.regs
    else
      var p := phis[|phis| - 1];
      PhiRegs(phis[..|phis| - 1], prev, s)[p.dst := if prev in p.incoming then Eval(p.incoming[prev], p.w, s)
        else Poison]
  }

  datatype Config = At(here: Label, prev: Label, s: State) | Returned(v: Value) | Undefined

  ghost function Leave(t: Terminator, here: Label, s: State): Config {
    match t
    case Ret(w, a) => Returned(Eval(a, w, s))
    case Br(l) => At(l, here, s)
    case CondBr(c, yes, no) =>
      var v := Eval(c, 1, s);
      if !Defined(v) then Undefined else if 0 in v.choices then At(no, here, s) else At(yes, here, s)
  }

  // One whole block.
  ghost function StepBlock(p: Program, c: Config): Config {
    if !c.At? then c
    else if c.here !in p then Undefined
    else
      var blk := p[c.here];
      var o := ExecSeq(blk.body, State(PhiRegs(blk.phis, c.prev, c.s), c.s.slots));
      if o.UB? then Undefined else Leave(blk.term, c.here, o.s)
  }

  ghost function Run(p: Program, c: Config, n: nat): Config {
    if n == 0 then c else StepBlock(p, Run(p, c, n - 1))
  }
}
