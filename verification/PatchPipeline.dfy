/** The patcher's passes in the order it runs them (src/transform/patch_llvm_ir.rs): its text
    is the text of the refined program. */
module PatchPipeline {
  import opened Options
  import opened Text
  import opened IrSemantics
  import opened PatchRefinement
  import opened IrText
  import opened PatchText
  import opened LinePass
  import SatText
  import AllocaText
  import PoisonWords
  import StripFlags

  datatype PatchStats = PatchStats(
    ehGlobalsStripped: nat,
    itaniumTypeinfoStripped: nat,
    poisonReplaced: nat,
    nswNuwStripped: nat,
    satIntrinsicsExpanded: nat,
    allocasZeroed: nat)

  const NO_CHANGE := PatchStats(0, 0, 0, 0, 0, 0)

  predicate StartsWithAt(line: string) {
    var t := TrimStart(line);
    t != "" && t[0] == '@'
  }

  // The two exception-global passes rewrite definitions of globals only
  // (src/transform/eh_globals.rs); what they make of those is left uninterpreted.
  type GlobalPass = f: Rewriter | forall line :: !StartsWithAt(line) ==> f(line).None? witness line => None

  datatype EhPasses = EhPasses(msvc: GlobalPass, itanium: GlobalPass)

  function PatchedText(text: string, eh: EhPasses, initUndefAllocas: bool): string {
    var clean := OnText(eh.itanium, OnText(eh.msvc, text));
    var out := OnText(SatText.TryExpandUaddSat, StripFlags.StripText(PoisonWords.ReplacePoison(clean)));
    if initUndefAllocas then OnText(AllocaText.WithStore, out) else out
  }

  // The loop of both exception-global passes.
  method StripGlobals(text: string, f: GlobalPass) returns (buf: string, count: nat)
    ensures buf == OnText(f, text) && count == Hits(f, StripFlags.Lines(text))
    ensures count == 0 ==> buf == text
  {
    var ls := StripFlags.Lines(text);
    buf := "";
    count := 0;
    for k := 0 to |ls|
      invariant Done(f, ls, k, buf, count)
    {
      DoneStep(f, ls, k, buf, count);
      var decl := f(ls[k]);
      if decl.Some? {
        buf := buf + decl.value;
        count := count + 1;
      } else {
        buf := buf + ls[k];
      }
    }
    DoneAll(f, text, buf, count);
  }

  method PatchLlvmIr(text: string, eh: EhPasses, initUndefAllocas: bool) returns (out: string, stats: PatchStats)
    ensures out == PatchedText(text, eh, initUndefAllocas)
    ensures stats.ehGlobalsStripped == Hits(eh.msvc, StripFlags.Lines(text))
    ensures stats.poisonReplaced == |PoisonWords.Positions(OnText(eh.itanium, OnText(eh.msvc, text)), 0)|
    ensures stats == NO_CHANGE ==> out == text
  {
    var msvc, itanium, poison, flags, sat, zeroed := 0, 0, 0, 0, 0, 0;
    out, msvc := StripGlobals(text, eh.msvc);
    out, itanium := StripGlobals(out, eh.itanium);
    PoisonWords.NoPoisonUnchanged(out);
    out, poison := PoisonWords.ReplacePoisonWithUndef(out);
    out, flags := StripFlags.StripNswNuwFlags(out);
    out, sat := SatText.ExpandUaddSatIntrinsics(out);
    if initUndefAllocas {
      out, zeroed := AllocaText.ZeroUndefAllocas(out);
    }
    stats := PatchStats(msvc, itanium, poison, flags, sat, zeroed);
  }

  // ---------------------------------------------------------------- printed code

  function PatchBody(code: seq<Instr>, initUndefAllocas: bool): seq<Instr> {
    var out := PassBody(ExpandSat, PassBody(Pass.StripFlags, PassBody(PoisonToUndef, code)));
    if initUndefAllocas then PassBody(ZeroAllocas, out) else out
  }

  // Names, widths and alignments the text form can carry.
  ghost predicate Printable(code: seq<Instr>) {
    AllNamed(code) && AllSafe(code) && SatText.WidthsFit(code) && AllocaText.AlignsFit(code)
  }

  lemma OneForOneKeeps(p: Pass, code: seq<Instr>)
    requires (p.PoisonToUndef? || p.StripFlags?) && AllNamed(code) && SatText.WidthsFit(code) &&
      AllocaText.AlignsFit(code)
    ensures var out := PassBody(p, code); AllNamed(out) && SatText.WidthsFit(out) && AllocaText.AlignsFit(out)
  {
    var out := PassBody(p, code);
    OneForOne(p, code);
    forall k | 0 <= k < |out|
      ensures Named(out[k]) && out[k].UaddSat? == code[k].UaddSat? && out[k].Alloca? == code[k].Alloca? &&
        out[k].w == code[k].w
      ensures out[k].Alloca? ==> out[k] == code[k]
    {
      assert [out[k]] == PassInstr(p, code[k]);
    }
  }

  // The names the expansion adds are printable too, and it adds no slots.
  lemma {:induction false} ExpandKeeps(code: seq<Instr>)
    requires AllNamed(code) && AllocaText.AlignsFit(code)
    ensures var out := PassBody(ExpandSat, code); AllNamed(out) && AllocaText.AlignsFit(out)
  {
    if code != [] {
      ExpandKeeps(code[1..]);
      InstrKeeps(code[0]);
    }
  }

  lemma InstrKeeps(i: Instr)
    requires Named(i)
    ensures AllNamed(PassInstr(ExpandSat, i))
    ensures forall k :: 0 <= k < |PassInstr(ExpandSat, i)| && PassInstr(ExpandSat, i)[k].Alloca? ==>
      PassInstr(ExpandSat, i)[k] == i
  {
    if i.UaddSat? { FreshNames(i.dst); }
  }

  lemma FreshNames(d: Reg)
    requires IsName(d)
    ensures IsName(SumReg(d)) && IsName(OvReg(d))
  {
  }

  // Instructions are not definitions of globals.
  lemma {:induction false} GlobalPassKeepsLines(f: GlobalPass, code: seq<Instr>)
    requires AllNamed(code)
    ensures EachLine(f, CodeLines(code)) == CodeLines(code)
  {
    if code != [] {
      InstrStart(code[0]);
      PrintedIsProcessed(code[0]);
      GlobalPassKeepsLines(f, code[1..]);
      assert CodeLines(code)[1..] == CodeLines(code[1..]);
    }
  }

  lemma GlobalPassKeepsCode(f: GlobalPass, code: seq<Instr>)
    requires AllNamed(code)
    ensures OnText(f, CodeText(code)) == CodeText(code)
  {
    LinesOfCode(code);
    GlobalPassKeepsLines(f, code);
    CodeTextIsLines(code);
  }

  /** Running the text passes on any printed code prints the code the instruction passes give. */
  lemma PatchedCode(code: seq<Instr>, eh: EhPasses, initUndefAllocas: bool)
    requires Printable(code)
    ensures PatchedText(CodeText(code), eh, initUndefAllocas) == CodeText(PatchBody(code, initUndefAllocas))
  {
    var undef := PassBody(PoisonToUndef, code);
    var stripped := PassBody(Pass.StripFlags, undef);
    GlobalPassKeepsCode(eh.msvc, code);
    GlobalPassKeepsCode(eh.itanium, code);
    PoisonCode(code);
    OneForOneKeeps(PoisonToUndef, code);
    StripCode(undef);
    OneForOneKeeps(Pass.StripFlags, undef);
    SatText.ExpandCode(stripped);
    ExpandKeeps(stripped);
    if initUndefAllocas { AllocaText.ZeroCode(PassBody(ExpandSat, stripped)); }
  }

  lemma PatchedLabels(prog: Program, initUndefAllocas: bool)
    ensures Patch(prog, initUndefAllocas).Keys == prog.Keys
  {
  }

  lemma PatchedBodies(prog: Program, initUndefAllocas: bool, l: Label)
    requires l in prog
    ensures Patch(prog, initUndefAllocas).Keys == prog.Keys
    ensures Patch(prog, initUndefAllocas)[l].body == PatchBody(prog[l].body, initUndefAllocas)
  {
  }

  /** The text the tool writes for each block is the code of a program that refines the
      original one. */
  lemma PatchedTextRefines(prog: Program, eh: EhPasses, initUndefAllocas: bool, c: Config, n: nat)
    requires CleanProgram(prog) && RunAllowed(false, prog, c, n)
    requires forall l :: l in prog ==> Printable(prog[l].body)
    ensures var out := Patch(prog, initUndefAllocas);
      && out.Keys == prog.Keys
      && (forall l :: l in prog ==> PatchedText(CodeText(prog[l].body), eh, initUndefAllocas) == CodeText(out[l].body))
      && OutcomeRefines(Run(out, c, n), Run(prog, c, n))
  {
    forall l | l in prog
      ensures PatchedText(CodeText(prog[l].body), eh, initUndefAllocas) ==
        CodeText(Patch(prog, initUndefAllocas)[l].body)
    {
      PatchedBodies(prog, initUndefAllocas, l);
      PatchedCode(prog[l].body, eh, initUndefAllocas);
    }
    PatchedLabels(prog, initUndefAllocas);
    PatchRefines(prog, initUndefAllocas, c, n);
  }
}
