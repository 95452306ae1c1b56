/** Zeroing stack slots on text lines (src/transform/patch_llvm_ir.rs), and the proof that on
    printed code it is the instruction-level pass. */
module AllocaText {
  import opened Options
  import opened Text
  import opened Decimal
  import opened IrSemantics
  import opened PatchRefinement
  import opened IrText
  import opened PatchText
  import opened LinePass
  import opened SatText
  import StripFlags

  // ---------------------------------------------------------------- the pass

  const ALLOCA := " = alloca "
  const ALIGN := ", align "

  predicate Opens(c: char) { c == '{' || c == '[' || c == '<' || c == '(' }
  predicate Closes(c: char) { c == '}' || c == ']' || c == '>' || c == ')' }

  function DepthAfter(depth: nat, c: char): nat {
    if Opens(c) then depth + 1 else if Closes(c) && depth > 0 then depth - 1 else depth
  }

  function Depth(s: string): nat {
    if s == "" then 0 else DepthAfter(Depth(s[..|s| - 1]), s[|s| - 1])
  }

  // A comma outside all brackets.
  predicate BareComma(s: string) {
    exists i :: 0 <= i < |s| && s[i] == ',' && Depth(s[..i]) == 0
  }

  method HasUnbracketedComma(s: string) returns (found: bool)
    ensures found == BareComma(s)
  {
    var depth := 0;
    for i := 0 to |s|
      invariant depth == Depth(s[..i])
      invariant forall k :: 0 <= k < i ==> !(s[k] == ',' && Depth(s[..k]) == 0)
    {
      assert s[..i + 1][..i] == s[..i];
      if s[i] == ',' && depth == 0 { return true; }
      depth := DepthAfter(depth, s[i]);
    }
    return false;
  }

  // The type and alignment after ` = alloca `; no alignment reads as 1.
  function TypeAndAlign(s: string): Option<(string, nat)> {
    var at := FindLast(s, ALIGN);
    if at.None? then Some((Trim(s), 1))
    else
      var align := ParseUint(Trim(s[at.value + |ALIGN|..]), U32_MAX);
      if align.None? then None else Some((Trim(s[..at.value]), align.value))
  }

  // The store inserted after a static alloca, as blank-separated words.
  function ZeroStore(lead: string, ty: string, name: string, align: nat, nl: string): string {
    lead + Join(["store", ty, "zeroinitializer,", "ptr", "%" + name + ",", "align", Dec(align)], " ") + nl
  }

  function ParseAlloca(trimmed: string): Option<(string, string, nat)> {
    if trimmed == "" || trimmed[0] != '%' then None
    else
      var rest := trimmed[1..];
      var eq := Find(rest, ALLOCA);
      if eq.None? then None
      else
        var t := TypeAndAlign(rest[eq.value + |ALLOCA|..]);
        if t.None? || BareComma(t.value.0) then None else Some((rest[..eq.value], t.value.0, t.value.1))
  }

  function TryZeroAlloca(line: string): Option<string> {
    var a := ParseAlloca(Trim(line));
    if a.None? then None else Some(ZeroStore(Lead(line), a.value.1, a.value.0, a.value.2, Newline(line)))
  }

  // The line with its store, when it gets one.
  function WithStore(line: string): Option<string> {
    var store := TryZeroAlloca(line);
    if store.None? then None else Some(line + store.value)
  }

  method ZeroUndefAllocas(text: string) returns (buf: string, count: nat)
    ensures buf == OnText(WithStore, text)
    ensures count == Hits(WithStore, StripFlags.Lines(text))
    ensures count == 0 ==> buf == text
  {
    var ls := StripFlags.Lines(text);
    buf := "";
    count := 0;
    for k := 0 to |ls|
      invariant Done(WithStore, ls, k, buf, count)
    {
      DoneStep(WithStore, ls, k, buf, count);
      ghost var before := buf;
      buf := buf + ls[k];
      var store := TryZeroAlloca(ls[k]);
      if store.Some? {
        buf := buf + store.value;
        count := count + 1;
        assert buf == before + (ls[k] + store.value);
      }
    }
    DoneAll(WithStore, text, buf, count);
  }

  // ---------------------------------------------------------------- reading a printed alloca

  lemma AlignRead(w: Width, align: nat)
    ensures TypeAndAlign(TypeText(w) + ALIGN + Dec(align)) == if align <= U32_MAX then Some((TypeText(w), align))
      else None
  {
    var ty, s := TypeText(w), TypeText(w) + ALIGN + Dec(align);
    AlignSpelled();
    LastOnly(ty, ALIGN, Dec(align));
    assert s[..|ty|] == ty && s[|ty| + |ALIGN|..] == Dec(align);
    TrimTrimmed(ty);
    TrimTrimmed(Dec(align));
    ValueOfDec(align);
  }

  lemma AlignSpelled()
    ensures ALIGN == "," + " " + "align" + " " && ',' !in ALIGN[1..]
  {
  }

  lemma AllocaSpelled()
    ensures ALLOCA == " " + "=" + " " + "alloca" + " "
  {
  }

  lemma NoCommas(w: Width)
    ensures !BareComma(TypeText(w))
  {
  }

  lemma AllocaJoin(d: string, ty: string, n: string)
    ensures Join([d, "=", "alloca", ty + ",", "align", n], " ") == d + ALLOCA + (ty + ALIGN + n)
  {
    var front, back := [d, "=", "alloca"], [ty + ",", "align", n];
    assert front + back == [d, "=", "alloca", ty + ",", "align", n];
    JoinParts(front, back);
    Join3(d, "=", "alloca");
    Join3(ty + ",", "align", n);
    AlignSpelled();
    AllocaSpelled();
    Regroup(d, ty, n);
  }

  lemma Regroup(d: string, ty: string, n: string)
    ensures (d + " " + "=" + " " + "alloca") + " " + (ty + "," + " " + "align" + " " + n) ==
      d + (" " + "=" + " " + "alloca" + " ") + (ty + ("," + " " + "align" + " ") + n)
  {
  }

  lemma AllocaText(i: Instr)
    requires i.Alloca?
    ensures InstrText(i) == "%" + (i.slot + ALLOCA + (TypeText(i.w) + ALIGN + Dec(i.align)))
  {
    var ty, n := TypeText(i.w), Dec(i.align);
    AllocaTexts(i);
    AllocaJoin("%" + i.slot, ty, n);
    PercentFirst(i.slot, ALLOCA, ty + ALIGN + n);
  }

  lemma AllocaTexts(i: Instr)
    requires i.Alloca?
    ensures Texts(Words(i)) == ["%" + i.slot, "=", "alloca", TypeText(i.w) + ",", "align", Dec(i.align)]
  {
    assert OperandText(R(i.slot)) + "" == "%" + i.slot;
  }

  lemma PercentFirst(x: string, y: string, z: string)
    ensures ("%" + x) + y + z == "%" + (x + y + z)
  {
  }

  lemma ReadAlloca(i: Instr)
    requires Named(i) && i.Alloca?
    ensures ParseAlloca(InstrText(i)) == if i.align <= U32_MAX then Some((i.slot, TypeText(i.w), i.align)) else None
  {
    var y := TypeText(i.w) + ALIGN + Dec(i.align);
    var rest := i.slot + ALLOCA + y;
    AllocaText(i);
    assert InstrText(i)[1..] == rest;
    FindFirst(i.slot, ALLOCA, y);
    assert rest[..|i.slot|] == i.slot && rest[|i.slot| + |ALLOCA|..] == y;
    AlignRead(i.w, i.align);
    NoCommas(i.w);
  }

  lemma StorePrints(i: Instr)
    requires i.Alloca?
    ensures ZeroStore("  ", TypeText(i.w), i.slot, i.align, "\n") == LineOf(Store(i.w, Zero, i.slot, i.align))
  {
    var s := Store(i.w, Zero, i.slot, i.align);
    assert "zeroinitializer" + "," == "zeroinitializer,";
    assert OperandText(R(i.slot)) + "," == "%" + i.slot + ",";
    assert Texts(Words(s)) ==
      ["store", TypeText(i.w), "zeroinitializer,", "ptr", "%" + i.slot + ",", "align", Dec(i.align)];
  }

  // ---------------------------------------------------------------- other instructions

  function Opcode(i: Instr): string
    requires HasResult(i)
  {
    match i
    case Bin(_, op, _, _, _, _, _) => OpText(op)
    case UDiv(_, _, _, _) => "udiv"
    case Icmp(_, _, _, _, _) => "icmp"
    case Select(_, _, _, _, _) => "select"
    case UaddSat(_, _, _, _, _, _) => "call"
    case Load(_, _, _) => "load"
  }

  lemma OpcodeWord(i: Instr)
    requires HasResult(i)
    ensures |Words(i)| > 3 && Words(i)[0] == Op(R(i.dst), "") && Words(i)[1] == Lit("=") &&
      Words(i)[2] == Lit(Opcode(i))
  {
  }

  lemma NotAlloca(i: Instr)
    requires HasResult(i)
    ensures |Opcode(i)| > 1 && (Opcode(i)[0] != 'a' || Opcode(i)[1] != 'l')
  {
  }

  // The words after the equals sign.
  function Body(i: Instr): seq<string>
    requires HasResult(i)
  {
    OpcodeWord(i);
    Texts(Words(i)[2..])
  }

  lemma ResultWords(i: Instr)
    requires HasResult(i)
    ensures Texts(Words(i)) == ["%" + i.dst, "="] + Body(i)
    ensures |Body(i)| > 1 && Body(i)[0] == Opcode(i)
  {
    var ws := Words(i);
    OpcodeWord(i);
    TextsConcat(ws[..2], ws[2..]);
    assert ws == ws[..2] + ws[2..];
    assert OperandText(R(i.dst)) + "" == "%" + i.dst;
    assert Texts(ws[..2]) == ["%" + i.dst, "="];
  }

  lemma PrintedResult(i: Instr)
    requires HasResult(i)
    ensures InstrText(i) == "%" + (i.dst + (" " + "=" + " ") + Join(Body(i), " "))
  {
    ResultWords(i);
    JoinParts(["%" + i.dst, "="], Body(i));
    Join2("%" + i.dst, "=");
    ResultRegroup(i.dst, Join(Body(i), " "));
  }

  lemma ResultRegroup(d: string, j: string)
    ensures (("%" + d) + " " + "=") + " " + j == "%" + (d + (" " + "=" + " ") + j)
  {
  }

  predicate NoEquals(ws: seq<Word>) {
    forall k :: 0 <= k < |ws| && ws[k].Lit? ==> '=' !in ws[k].text
  }

  lemma TypeNoEquals(w: Width)
    ensures '=' !in TypeText(w) && '=' !in TypeText(w) + "," && '=' !in MARKER + TypeText(w) + "(" + TypeText(w)
  {
  }

  lemma BinNoEquals(i: Instr)
    requires i.Bin?
    ensures NoEquals(Words(i)[2..])
  {
    TypeNoEquals(i.w);
    var flags := FlagWords(i.nuw, i.nsw);
    var back := [Lit(TypeText(i.w)), Op(i.a, ","), Op(i.b, "")];
    assert NoEquals(flags) && NoEquals(back);
    assert Words(i)[2..] == [Lit(OpText(i.op))] + flags + back;
  }

  lemma SatNoEquals(i: Instr)
    requires i.UaddSat?
    ensures NoEquals(Words(i)[2..])
  {
    var ty := TypeText(i.w);
    TypeNoEquals(i.w);
    var front := [Lit("call"), Lit(ty), Lit(MARKER + ty + "(" + ty)];
    var na, mid := NoundefWords(i.noundefA), [Op(i.a, ","), Lit(ty)];
    var nb, back := NoundefWords(i.noundefB), [Op(i.b, ")")];
    assert NoEquals(front) && NoEquals(na) && NoEquals(mid) && NoEquals(nb) && NoEquals(back);
    assert Words(i)[2..] == front + na + mid + nb + back;
  }

  lemma BodyNoEquals(i: Instr)
    requires HasResult(i)
    ensures NoEquals(Words(i)[2..])
  {
    TypeNoEquals(i.w);
    if i.Bin? { BinNoEquals(i); } else if i.UaddSat? { SatNoEquals(i); }
  }

  lemma WordNoEquals(w: Word)
    requires WordOk(w) && (w.Lit? ==> '=' !in w.text)
    ensures '=' !in WordText(w)
  {
    if w.Op? { OperandSolid(w.o); }
  }

  lemma BodyTextNoEquals(i: Instr)
    requires Named(i) && HasResult(i)
    ensures '=' !in Join(Body(i), " ")
  {
    InstrWordsOk(i);
    BodyNoEquals(i);
    var ws := Words(i)[2..];
    forall k | 0 <= k < |ws| ensures '=' !in Body(i)[k] { WordNoEquals(ws[k]); }
    JoinWithout('=', Body(i));
  }

  // Text with one equals sign holds ` = alloca ` only around it.
  lemma NoAllocaAfter(d: string, j: string)
    requires '=' !in d && '=' !in j && |j| > 1 && (j[0] != 'a' || j[1] != 'l')
    ensures Find(d + (" " + "=" + " ") + j, ALLOCA).None?
  {
    var s := d + (" " + "=" + " ") + j;
    forall k | 0 <= k <= |s| ensures !OccursAt(s, ALLOCA, k) { NoAllocaAt(d, j, k); }
    FindIsFirst(s, ALLOCA);
  }

  lemma NoAllocaAt(d: string, j: string, k: nat)
    requires '=' !in d && '=' !in j && |j| > 1 && (j[0] != 'a' || j[1] != 'l')
    ensures !OccursAt(d + (" " + "=" + " ") + j, ALLOCA, k)
  {
    var s := d + (" " + "=" + " ") + j;
    AllocaLetters();
    if k + 5 <= |s| {
      assert s[k..][1] == s[k + 1] && s[k..][3] == s[k + 3] && s[k..][4] == s[k + 4];
      OneEquals(d, j, k);
    }
  }

  lemma AllocaLetters()
    ensures |ALLOCA| > 5 && ALLOCA[1] == '=' && ALLOCA[3] == 'a' && ALLOCA[4] == 'l'
  {
  }

  lemma OneEquals(d: string, j: string, k: nat)
    requires '=' !in d && '=' !in j && |j| > 1
    ensures var s := d + (" " + "=" + " ") + j;
      k + 5 <= |s| && s[k + 1] == '=' ==> s[k + 3] == j[0] && s[k + 4] == j[1]
  {
    var s := d + (" " + "=" + " ") + j;
    if k + 5 <= |s| && k != |d| {
      assert k + 1 < |d| ==> s[k + 1] == d[k + 1];
      assert k + 1 == |d| ==> s[k + 1] == ' ';
      assert k + 1 == |d| + 2 ==> s[k + 1] == ' ';
      assert k + 1 > |d| + 2 ==> s[k + 1] == j[k + 1 - |d| - 3];
    }
  }

  lemma OtherResult(i: Instr)
    requires Named(i) && HasResult(i)
    ensures ParseAlloca(InstrText(i)).None?
  {
    PrintedResult(i);
    BodyStart(i);
    BodyTextNoEquals(i);
    NoAllocaParsed(i.dst, Join(Body(i), " "));
  }

  lemma NoAllocaParsed(d: string, j: string)
    requires '=' !in d && '=' !in j && |j| > 1 && (j[0] != 'a' || j[1] != 'l')
    ensures ParseAlloca("%" + (d + (" " + "=" + " ") + j)).None?
  {
    var rest := d + (" " + "=" + " ") + j;
    NoAllocaAfter(d, j);
    assert ("%" + rest)[1..] == rest;
  }

  lemma BodyStart(i: Instr)
    requires HasResult(i)
    ensures var j := Join(Body(i), " "); |j| > 1 && (j[0] != 'a' || j[1] != 'l')
  {
    ResultWords(i);
    NotAlloca(i);
    var b := Body(i);
    JoinFirst(b[0], b[1..]);
    assert b == [b[0]] + b[1..];
  }

  // ---------------------------------------------------------------- printed lines

  lemma {:induction false} JoinEnd(ts: seq<string>)
    requires ts != [] && ts[|ts| - 1] != ""
    ensures Join(ts, " ") != "" && Join(ts, " ")[|Join(ts, " ")| - 1] == ts[|ts| - 1][|ts[|ts| - 1]| - 1]
  {
    if |ts| > 1 { JoinEnd(ts[1..]); }
  }

  lemma WordEnd(w: Word)
    requires WordOk(w)
    ensures WordText(w) != "" && !IsSpace(WordText(w)[|WordText(w)| - 1])
  {
    if w.Op? { OperandSolid(w.o); }
  }

  lemma LineTrimmed(i: Instr)
    requires Named(i)
    ensures Trim(LineOf(i)) == InstrText(i)
  {
    TextTrimmed(i);
    TrimIndented(InstrText(i));
  }

  lemma TextTrimmed(i: Instr)
    requires Named(i)
    ensures Trimmed(InstrText(i))
  {
    InstrStart(i);
    InstrWordsOk(i);
    WordsEnd(Words(i));
  }

  lemma WordsEnd(ws: seq<Word>)
    requires WordsOk(ws) && ws != []
    ensures var t := Join(Texts(ws), " "); t != "" && !IsSpace(t[|t| - 1])
  {
    WordEnd(ws[|ws| - 1]);
    JoinEnd(Texts(ws));
  }

  lemma TrimIndented(t: string)
    requires Trimmed(t)
    ensures Trim("  " + t + "\n") == t
  {
    TrimTrimmed(t);
    TrimAfter(t, '\n');
    var x := t + ['\n'];
    TrimBefore(' ', x);
    TrimBefore(' ', [' '] + x);
    assert "  " + t + "\n" == [' '] + ([' '] + x);
  }

  /** The pass recognises a printed line exactly when it is an alloca whose alignment fits
      32 bits, and then adds the printed store of zero. */
  lemma ZeroLine(i: Instr)
    requires Named(i)
    ensures WithStore(LineOf(i)) ==
      if i.Alloca? && i.align <= U32_MAX then Some(CodeText([i, Store(i.w, Zero, i.slot, i.align)])) else None
  {
    LineTrimmed(i);
    LeadOfLine(i);
    if i.Alloca? {
      var store := Store(i.w, Zero, i.slot, i.align);
      ReadAlloca(i);
      StorePrints(i);
      OneLine(store);
      assert [i, store][1..] == [store];
    } else if i.Store? {
      InstrStart(i);
    } else {
      OtherResult(i);
    }
  }

  predicate AlignsFit(code: seq<Instr>) {
    forall k :: 0 <= k < |code| && code[k].Alloca? ==> code[k].align <= U32_MAX
  }

  /** Zeroing slots in the text of any code is adding the stores to its instructions. */
  lemma ZeroCode(code: seq<Instr>)
    requires AllNamed(code) && AlignsFit(code)
    ensures OnText(WithStore, CodeText(code)) == CodeText(PassBody(ZeroAllocas, code))
  {
    forall k | 0 <= k < |code|
      ensures Rewritten(WithStore, LineOf(code[k])) == CodeText(PassInstr(ZeroAllocas, code[k]))
    {
      ZeroLine(code[k]);
      OneLine(code[k]);
    }
    OnCode(WithStore, ZeroAllocas, code);
  }
}
