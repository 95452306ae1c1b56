/** Passes that rewrite a text line by line, keeping each line's newline
    (src/transform/patch_llvm_ir.rs). */
module LinePass {
  import opened Options
  import opened Text
  import opened IrSemantics
  import opened PatchRefinement
  import opened IrText
  import opened PatchText
  import StripFlags

  // What a pass makes of one line; None leaves it alone.
  type Rewriter = string -> Option<string>

  function Rewritten(f: Rewriter, line: string): string {
    var r := f(line);
    if r.Some? then r.value else line
  }

  function EachLine(f: Rewriter, ls: seq<string>): (r: seq<string>)
    ensures |r| == |ls| && forall k :: 0 <= k < |ls| ==> r[k] == Rewritten(f, ls[k])
  {
    if ls == [] then [] else [Rewritten(f, ls[0])] + EachLine(f, ls[1..])
  }

  function OnText(f: Rewriter, text: string): string {
    Concat(EachLine(f, StripFlags.Lines(text)))
  }

  // How many lines the pass rewrites.
  ghost function Hits(f: Rewriter, ls: seq<string>): nat {
    if ls == [] then 0 else Hits(f, ls[..|ls| - 1]) + if f(ls[|ls| - 1]).Some? then 1 else 0
  }

  // The first k lines are done.
  ghost predicate Done(f: Rewriter, ls: seq<string>, k: nat, buf: string, count: nat) {
    && k <= |ls|
    && buf == Concat(EachLine(f, ls)[..k])
    && count == Hits(f, ls[..k])
    && (count == 0 ==> buf == Concat(ls[..k]))
  }

  lemma HitsNext(f: Rewriter, ls: seq<string>, k: nat)
    requires k < |ls|
    ensures Hits(f, ls[..k + 1]) == Hits(f, ls[..k]) + if f(ls[k]).Some? then 1 else 0
  {
    var head := ls[..k + 1];
    assert head[..k] == ls[..k] && head[k] == ls[k];
  }

  lemma DoneStep(f: Rewriter, ls: seq<string>, k: nat, buf: string, count: nat)
    requires k < |ls| && Done(f, ls, k, buf, count)
    ensures f(ls[k]).Some? ==> Done(f, ls, k + 1, buf + f(ls[k]).value, count + 1)
    ensures f(ls[k]).None? ==> Done(f, ls, k + 1, buf + ls[k], count)
  {
    StripFlags.ConcatNext(EachLine(f, ls), k);
    StripFlags.ConcatNext(ls, k);
    HitsNext(f, ls, k);
  }

  lemma DoneAll(f: Rewriter, text: string, buf: string, count: nat)
    requires Done(f, StripFlags.Lines(text), |StripFlags.Lines(text)|, buf, count)
    ensures buf == OnText(f, text) && count == Hits(f, StripFlags.Lines(text)) && (count == 0 ==> buf == text)
  {
    var ls := StripFlags.Lines(text);
    assert EachLine(f, ls)[..|ls|] == EachLine(f, ls) && ls[..|ls|] == ls;
    StripFlags.LinesSplit(text);
  }

  // The pass prints, for each instruction, the instructions p turns it into.
  ghost predicate Prints(f: Rewriter, p: Pass, code: seq<Instr>) {
    forall k :: 0 <= k < |code| ==> Rewritten(f, LineOf(code[k])) == CodeText(PassInstr(p, code[k]))
  }

  lemma {:induction false} EachPrinted(f: Rewriter, p: Pass, code: seq<Instr>)
    requires Prints(f, p, code)
    ensures Concat(EachLine(f, CodeLines(code))) == CodeText(PassBody(p, code))
  {
    if code != [] {
      EachPrinted(f, p, code[1..]);
      assert CodeLines(code)[1..] == CodeLines(code[1..]);
      CodeTextConcat(PassInstr(p, code[0]), PassBody(p, code[1..]));
      assert Rewritten(f, LineOf(code[0])) == CodeText(PassInstr(p, code[0]));
    }
  }

  // A line-by-line pass that is right on each line is right on all code.
  lemma OnCode(f: Rewriter, p: Pass, code: seq<Instr>)
    requires AllNamed(code) && Prints(f, p, code)
    ensures OnText(f, CodeText(code)) == CodeText(PassBody(p, code))
  {
    LinesOfCode(code);
    EachPrinted(f, p, code);
  }

  lemma OneLine(i: Instr)
    ensures CodeText([i]) == LineOf(i)
  {
    assert [i][1..] == [];
  }
}
