/** The saturating-add expansion as the tool performs it on text lines
    (src/transform/patch_llvm_ir.rs), and the proof that on printed code it is the
    instruction-level expansion. */
module SatText {
  import opened Options
  import opened Text
  import opened Decimal
  import opened IrSemantics
  import opened PatchRefinement
  import opened IrText
  import opened PatchText
  import opened LinePass
  import StripFlags

  // ---------------------------------------------------------------- the pass

  const NEEDLE := MARKER + "i"

  // The operands and type of a recognised call.
  datatype Call = Call(ty: string, a: string, b: string)

  function Lead(line: string): string {
    TrimShrinks(line);
    line[..|line| - |TrimStart(line)|]
  }

  function Newline(line: string): string {
    if line != "" && line[|line| - 1] == '\n' then "\n" else ""
  }

  function WithoutPercents(s: string): string {
    if s != "" && s[0] == '%' then WithoutPercents(s[1..]) else s
  }

  // The value in, say, `i32 noundef %0`.
  function ExtractLlvmOperand(s: string, ty: string): Option<string> {
    if !(ty <= s) then None
    else
      var rest := TrimStart(s[|ty|..]);
      var value := if "noundef" <= rest then TrimStart(rest[7..]) else rest;
      if value == "" then None else Some(value)
  }

  predicate IsIntType(ty: string) {
    ty != "" && ty[0] == 'i' && ParseUint(ty[1..], U32_MAX).Some?
  }

  function ParseArgs(ty: string, s: string): Option<Call> {
    var close := Find(s, ")");
    if close.None? then None
    else
      var args := s[..close.value];
      var comma := Find(args, ",");
      if comma.None? then None
      else
        var a := ExtractLlvmOperand(Trim(args[..comma.value]), ty);
        var b := ExtractLlvmOperand(Trim(args[comma.value + 1..]), ty);
        if a.None? || b.None? then None else Some(Call(ty, a.value, b.value))
  }

  function ParseTyped(s: string): Option<Call> {
    var paren := Find(s, "(");
    if paren.None? || !IsIntType(s[..paren.value]) then None
    else ParseArgs(s[..paren.value], s[paren.value + 1..])
  }

  function ParseCall(s: string): Option<Call> {
    var at := Find(s, MARKER);
    if at.None? then None else ParseTyped(s[at.value + |MARKER|..])
  }

  // The three lines, as blank-separated words.
  function Expanded(lead: string, dest: string, call: Call, nl: string): string {
    var suffix := WithoutPercents(dest);
    var sum, ov := "%__sat_sum_" + suffix, "%__sat_ov_" + suffix;
    (lead + Join([sum, "=", "add", call.ty, call.a + ",", call.b], " ") + nl) +
    (lead + Join([ov, "=", "icmp", "ult", call.ty, sum + ",", call.a], " ") + nl) +
    (lead + Join([dest, "=", "select", "i1", ov + ",", call.ty, "-1,", call.ty, sum], " ") + nl)
  }

  function TryExpandUaddSat(line: string): Option<string> {
    var trimmed := TrimStart(line);
    var eq := Find(trimmed, " = ");
    if !Contains(trimmed, NEEDLE) || eq.None? then None
    else
      var dest := Trim(trimmed[..eq.value]);
      var call := ParseCall(trimmed);
      if !("%" <= dest) || call.None? then None
      else Some(Expanded(Lead(line), dest, call.value, Newline(line)))
  }

  method ExpandUaddSatIntrinsics(text: string) returns (buf: string, count: nat)
    ensures buf == OnText(TryExpandUaddSat, text)
    ensures count == Hits(TryExpandUaddSat, StripFlags.Lines(text))
    ensures count == 0 ==> buf == text
  {
    var ls := StripFlags.Lines(text);
    buf := "";
    count := 0;
    for k := 0 to |ls|
      invariant Done(TryExpandUaddSat, ls, k, buf, count)
    {
      DoneStep(TryExpandUaddSat, ls, k, buf, count);
      var e := TryExpandUaddSat(ls[k]);
      if e.Some? {
        buf := buf + e.value;
        count := count + 1;
      } else {
        buf := buf + ls[k];
      }
    }
    DoneAll(TryExpandUaddSat, text, buf, count);
  }

  // ---------------------------------------------------------------- joining words

  lemma JoinFirst(x: string, ys: seq<string>)
    requires ys != []
    ensures Join([x] + ys, " ") == x + " " + Join(ys, " ")
  {
    assert ([x] + ys)[1..] == ys;
  }

  lemma {:induction false} JoinParts(xs: seq<string>, ys: seq<string>)
    requires xs != [] && ys != []
    ensures Join(xs + ys, " ") == Join(xs, " ") + " " + Join(ys, " ")
  {
    if |xs| == 1 {
      assert xs + ys == [xs[0]] + ys;
      JoinFirst(xs[0], ys);
    } else {
      assert xs + ys == [xs[0]] + (xs[1..] + ys);
      JoinFirst(xs[0], xs[1..] + ys);
      JoinParts(xs[1..], ys);
    }
  }

  lemma Join2(a: string, b: string)
    ensures Join([a, b], " ") == a + " " + b
  {
    assert [a, b][1..] == [b];
  }

  lemma Join3(a: string, b: string, c: string)
    ensures Join([a, b, c], " ") == a + " " + b + " " + c
  {
    assert [a, b, c][1..] == [b, c];
    Join2(b, c);
  }

  lemma Join5(a: string, b: string, c: string, d: string, e: string)
    ensures Join([a, b, c, d, e], " ") == a + " " + b + " " + c + " " + d + " " + e
  {
    assert [a, b, c, d, e] == [a, b] + [c, d, e];
    JoinParts([a, b], [c, d, e]);
    Join2(a, b);
    Join3(c, d, e);
  }

  // ---------------------------------------------------------------- printed calls

  function Arg(ty: string, noundef: bool, o: string): string {
    ty + (if noundef then " noundef " else " ") + o
  }

  // A printed call, split where the pass looks.
  function CallText(d: string, ty: string, a: string, b: string): string {
    ("%" + d) + " = " + (("call" + " " + ty + " ") + MARKER + (ty + "(" + (a + "," + (" " + b) + ")")))
  }

  lemma NoundefJoin(b: bool, x: string)
    ensures Join(Texts(NoundefWords(b)) + [x], " ") == (if b then "noundef " else "") + x
  {
    if b {
      assert Texts(NoundefWords(b)) + [x] == ["noundef", x];
      Join2("noundef", x);
    } else {
      assert Texts(NoundefWords(b)) + [x] == [x];
    }
  }

  lemma SatWordsJoin(d: string, ty: string, head: string, ta: seq<string>, tb: seq<string>)
    requires ta != [] && tb != []
    ensures Join([d, "=", "call", ty, head] + ta + [ty] + tb, " ") ==
      d + " " + "=" + " " + "call" + " " + ty + " " + head + " " + Join(ta, " ") + " " + ty + " " + Join(tb, " ")
  {
    var front := [d, "=", "call", ty, head];
    JoinParts(front + ta + [ty], tb);
    JoinParts(front + ta, [ty]);
    JoinParts(front, ta);
    Join5(d, "=", "call", ty, head);
  }

  lemma SatTexts(i: Instr)
    requires i.UaddSat?
    ensures Texts(Words(i)) ==
      ["%" + i.dst, "=", "call", TypeText(i.w), MARKER + TypeText(i.w) + "(" + TypeText(i.w)] +
      (Texts(NoundefWords(i.noundefA)) + [OperandText(i.a) + ","]) + [TypeText(i.w)] +
      (Texts(NoundefWords(i.noundefB)) + [OperandText(i.b) + ")"])
  {
    var ty := TypeText(i.w);
    var front := [Op(R(i.dst), ""), Lit("="), Lit("call"), Lit(ty), Lit(MARKER + ty + "(" + ty)];
    var na, mid := NoundefWords(i.noundefA), [Op(i.a, ","), Lit(ty)];
    var nb, back := NoundefWords(i.noundefB), [Op(i.b, ")")];
    TextsFive(front, na, mid, nb, back);
    FrontTexts(i.dst, ty);
    MidTexts(i.a, i.b, ty);
    GroupWords(Texts(front), Texts(na), OperandText(i.a) + ",", ty, Texts(nb), OperandText(i.b) + ")");
  }

  lemma GroupWords(f: seq<string>, m: seq<string>, a: string, t: string, n: seq<string>, b: string)
    ensures f + m + [a, t] + n + [b] == f + (m + [a]) + [t] + (n + [b])
  {
    assert f + m + [a, t] == f + (m + [a]) + [t];
  }

  lemma TextsFive(a: seq<Word>, b: seq<Word>, c: seq<Word>, d: seq<Word>, e: seq<Word>)
    ensures Texts(a + b + c + d + e) == Texts(a) + Texts(b) + Texts(c) + Texts(d) + Texts(e)
  {
    TextsConcat(a + b + c + d, e);
    TextsConcat(a + b + c, d);
    TextsConcat(a + b, c);
    TextsConcat(a, b);
  }

  lemma FrontTexts(d: Reg, ty: string)
    ensures Texts([Op(R(d), ""), Lit("="), Lit("call"), Lit(ty), Lit(MARKER + ty + "(" + ty)]) ==
      ["%" + d, "=", "call", ty, MARKER + ty + "(" + ty]
  {
    assert OperandText(R(d)) + "" == "%" + d;
  }

  lemma MidTexts(a: Operand, b: Operand, ty: string)
    ensures Texts([Op(a, ","), Lit(ty)]) == [OperandText(a) + ",", ty]
    ensures Texts([Op(b, ")")]) == [OperandText(b) + ")"]
  {
  }

  lemma EqualsSpelled()
    ensures " " + "=" + " " == " = "
  {
    var x, y := " " + "=" + " ", " = ";
    assert x[0] == y[0] && x[1] == y[1] && x[2] == y[2];
  }

  lemma Regroup(d: string, ty: string, na: string, a: string, nb: string, b: string)
    ensures
      d + " " + "=" + " " + "call" + " " + ty + " " + (MARKER + ty + "(" + ty) + " " + (na + (a + ",")) + " " + ty +
        " " + (nb + (b + ")")) ==
      d + " = " + (("call" + " " + ty + " ") + MARKER +
        (ty + "(" + (ty + " " + na + a + "," + (" " + (ty + " " + nb + b)) + ")")))
  {
    EqualsSpelled();
  }

  lemma ArgParts(ty: string, noundef: bool, o: string)
    ensures Arg(ty, noundef, o) == ty + " " + (if noundef then "noundef " else "") + o
  {
    assert " noundef " == " " + "noundef ";
  }

  lemma SatCallText(i: Instr)
    requires i.UaddSat?
    ensures InstrText(i) == CallText(i.dst, TypeText(i.w),
      Arg(TypeText(i.w), i.noundefA, OperandText(i.a)), Arg(TypeText(i.w), i.noundefB, OperandText(i.b)))
  {
    var ty, a, b := TypeText(i.w), OperandText(i.a), OperandText(i.b);
    SatTexts(i);
    SatWordsJoin("%" + i.dst, ty, MARKER + ty + "(" + ty,
      Texts(NoundefWords(i.noundefA)) + [a + ","], Texts(NoundefWords(i.noundefB)) + [b + ")"]);
    NoundefJoin(i.noundefA, a + ",");
    NoundefJoin(i.noundefB, b + ")");
    Regroup("%" + i.dst, ty, if i.noundefA then "noundef " else "", a, if i.noundefB then "noundef " else "", b);
    ArgParts(ty, i.noundefA, a);
    ArgParts(ty, i.noundefB, b);
  }

  // ---------------------------------------------------------------- reading a printed call

  // Text with neither blanks nor the punctuation of a call.
  predicate Solid(s: string) {
    s != "" && forall k :: 0 <= k < |s| ==> !IsSpace(s[k]) && s[k] != ',' && s[k] != '(' && s[k] != ')' && s[k] != '@'
  }

  lemma OperandIsSolid(o: Operand)
    requires NamedOperand(o)
    ensures Solid(OperandText(o)) && OperandText(o)[0] != 'n'
  {
    OperandSolid(o);
  }

  lemma TypeIsSolid(w: Width)
    ensures Solid(TypeText(w)) && TypeText(w)[0] == 'i'
  {
  }

  lemma TrimStartSolid(x: string)
    requires x != "" && !IsSpace(x[0])
    ensures TrimStart(" " + x) == x && TrimStart(x) == x
  {
    assert (" " + x)[1..] == x;
  }

  lemma ExtractArg(ty: string, noundef: bool, o: string)
    requires Solid(ty) && Solid(o) && o[0] != 'n'
    ensures ExtractLlvmOperand(Arg(ty, noundef, o), ty) == Some(o)
  {
    ArgParts(ty, noundef, o);
    var arg := Arg(ty, noundef, o);
    TrimStartSolid(o);
    if noundef {
      var r := "noundef" + (" " + o);
      assert "noundef " + o == r;
      assert arg[|ty|..] == " " + r;
      TrimStartSolid(r);
      assert r[7..] == " " + o;
    } else {
      assert arg[|ty|..] == " " + o;
    }
  }

  lemma ArgTrimmed(ty: string, noundef: bool, o: string)
    requires Solid(ty) && Solid(o)
    ensures Trim(Arg(ty, noundef, o)) == Arg(ty, noundef, o) && Trim(" " + Arg(ty, noundef, o)) == Arg(ty, noundef, o)
    ensures forall k :: 0 <= k < |Arg(ty, noundef, o)| ==>
      Arg(ty, noundef, o)[k] != ',' && Arg(ty, noundef, o)[k] != ')'
  {
    var arg := Arg(ty, noundef, o);
    assert arg[0] == ty[0] && arg[|arg| - 1] == o[|o| - 1];
    TrimTrimmed(arg);
    TrimBefore(' ', arg);
    assert " " + arg == [' '] + arg;
  }

  lemma FindHere(x: string, c: char, y: string)
    requires c !in x
    ensures var s := x + [c] + y; Find(s, [c]) == Some(|x|) && s[..|x|] == x && s[|x| + 1..] == y
  {
    FindChar(x, c, y);
  }

  lemma ReadArgs(ty: string, a: string, b: string, na: bool, nb: bool, rest: string)
    requires Solid(ty) && Solid(a) && Solid(b) && a[0] != 'n' && b[0] != 'n'
    ensures ParseArgs(ty, Arg(ty, na, a) + "," + (" " + Arg(ty, nb, b)) + ")" + rest) == Some(Call(ty, a, b))
  {
    ArgTrimmed(ty, na, a);
    ArgTrimmed(ty, nb, b);
    ExtractArg(ty, na, a);
    ExtractArg(ty, nb, b);
    PairRead(ty, Arg(ty, na, a), " " + Arg(ty, nb, b), rest);
  }

  lemma PairRead(ty: string, x: string, y: string, rest: string)
    requires ',' !in x && ')' !in x && ')' !in y
    ensures
      var a, b := ExtractLlvmOperand(Trim(x), ty), ExtractLlvmOperand(Trim(y), ty);
      ParseArgs(ty, x + "," + y + ")" + rest) ==
        if a.None? || b.None? then None else Some(Call(ty, a.value, b.value))
  {
    PairSplits(x, y, rest);
  }

  lemma PairSplits(x: string, y: string, rest: string)
    requires ',' !in x && ')' !in x && ')' !in y
    ensures
      var s, args := x + "," + y + ")" + rest, x + "," + y;
      && Find(s, ")") == Some(|args|) && s[..|args|] == args
      && Find(args, ",") == Some(|x|) && args[..|x|] == x && args[|x| + 1..] == y
  {
    FindHere(x + "," + y, ')', rest);
    FindHere(x, ',', y);
  }

  lemma TypeNumber(w: Width)
    ensures IsIntType(TypeText(w)) <==> w <= U32_MAX
  {
    assert TypeText(w)[1..] == Dec(w);
    ValueOfDec(w);
  }

  lemma ReadTyped(w: Width, a: string, b: string, na: bool, nb: bool, rest: string)
    requires Solid(a) && Solid(b) && a[0] != 'n' && b[0] != 'n'
    ensures
      var ty := TypeText(w);
      ParseTyped(ty + "(" + (Arg(ty, na, a) + "," + (" " + Arg(ty, nb, b)) + ")" + rest)) ==
      if w <= U32_MAX then Some(Call(ty, a, b)) else None
  {
    var ty := TypeText(w);
    TypeIsSolid(w);
    TypeNumber(w);
    FindHere(ty, '(', Arg(ty, na, a) + "," + (" " + Arg(ty, nb, b)) + ")" + rest);
    ReadArgs(ty, a, b, na, nb, rest);
  }

  lemma MarkerFound(x: string, y: string)
    requires '@' !in x
    ensures Find(x + MARKER + y, MARKER) == Some(|x|) && (x + MARKER + y)[|x| + |MARKER|..] == y
  {
    assert MARKER[0] == '@';
    FindFirst(x, MARKER, y);
  }

  lemma NeedleFound(x: string, y: string)
    requires y != "" && y[0] == 'i'
    ensures Contains(x + MARKER + y, NEEDLE)
  {
    var s := x + MARKER + y;
    assert MARKER + y == NEEDLE + y[1..];
    assert s[|x|..] == MARKER + y;
    assert OccursAt(s, NEEDLE, |x|);
  }

  lemma EqualsFound(d: string, y: string)
    requires ' ' !in d
    ensures Find(d + " = " + y, " = ") == Some(|d|) && (d + " = " + y)[..|d|] == d
  {
    FindFirst(d, " = ", y);
  }

  lemma CallSplits(d: string, ty: string, a: string, b: string)
    ensures CallText(d, ty, a, b) + "\n" ==
      (("%" + d) + " = " + ("call" + " " + ty + " ")) + MARKER + (ty + "(" + (a + "," + (" " + b) + ")" + "\n"))
    ensures CallText(d, ty, a, b) + "\n" ==
      ("%" + d) + " = " + (("call" + " " + ty + " ") + MARKER + (ty + "(" + (a + "," + (" " + b) + ")")) + "\n")
  {
  }

  lemma NameSolid(d: string)
    requires IsName(d)
    ensures Solid("%" + d) && Trim("%" + d) == "%" + d && WithoutPercents("%" + d) == d
  {
    assert forall k :: 0 < k < |"%" + d| ==> ("%" + d)[k] == d[k - 1];
    TrimTrimmed("%" + d);
    assert ("%" + d)[1..] == d;
  }

  // What the pass reads off the printed line of a saturating add.
  lemma ReadCall(i: Instr)
    requires Named(i) && i.UaddSat?
    ensures
      var t := InstrText(i) + "\n";
      && Contains(t, NEEDLE)
      && Find(t, " = ") == Some(|"%" + i.dst|) && t[..|"%" + i.dst|] == "%" + i.dst
      && ParseCall(t) == if i.w <= U32_MAX then Some(Call(TypeText(i.w), OperandText(i.a), OperandText(i.b))) else None
  {
    var ty, a, b := TypeText(i.w), OperandText(i.a), OperandText(i.b);
    var x, y := Arg(ty, i.noundefA, a), Arg(ty, i.noundefB, b);
    SatCallText(i);
    CallSplits(i.dst, ty, x, y);
    TypeIsSolid(i.w);
    OperandIsSolid(i.a);
    OperandIsSolid(i.b);
    NameSolid(i.dst);
    EqualsFound("%" + i.dst, ("call" + " " + ty + " ") + MARKER + (ty + "(" + (x + "," + (" " + y) + ")")) + "\n");
    BeforeMarker(i.dst, ty);
    ReadTyped(i.w, a, b, i.noundefA, i.noundefB, "\n");
    var before, after := ("%" + i.dst) + " = " + ("call" + " " + ty + " "), ty + "(" +
      (x + "," + (" " + y) + ")" + "\n");
    NeedleFound(before, after);
    MarkerFound(before, after);
  }

  lemma BeforeMarker(d: string, ty: string)
    requires Solid("%" + d) && Solid(ty)
    ensures '@' !in ("%" + d) + " = " + ("call" + " " + ty + " ")
  {
  }

  // ---------------------------------------------------------------- printing the expansion

  lemma AddText(d: Reg, w: Width, a: Operand, b: Operand)
    ensures InstrText(Bin(d, Add, w, a, b, false, false)) ==
      Join(["%" + d, "=", "add", TypeText(w), OperandText(a) + ",", OperandText(b)], " ")
  {
    var i := Bin(d, Add, w, a, b, false, false);
    assert Words(i) == [Op(R(d), ""), Lit("="), Lit("add"), Lit(TypeText(w)), Op(a, ","), Op(b, "")];
    assert OperandText(R(d)) + "" == "%" + d && OperandText(b) + "" == OperandText(b);
    assert Texts(Words(i)) == ["%" + d, "=", "add", TypeText(w), OperandText(a) + ",", OperandText(b)];
  }

  lemma CompareText(d: Reg, w: Width, a: Operand, b: Operand)
    ensures InstrText(Icmp(d, Ult, w, a, b)) ==
      Join(["%" + d, "=", "icmp", "ult", TypeText(w), OperandText(a) + ",", OperandText(b)], " ")
  {
    var i := Icmp(d, Ult, w, a, b);
    assert OperandText(R(d)) + "" == "%" + d && OperandText(b) + "" == OperandText(b);
    assert Texts(Words(i)) == ["%" + d, "=", "icmp", "ult", TypeText(w), OperandText(a) + ",", OperandText(b)];
  }

  lemma PlainWord(o: Operand)
    ensures WordText(Op(o, "")) == OperandText(o)
  {
  }

  lemma MinusOne()
    ensures WordText(Op(C(-1), ",")) == "-1,"
  {
    assert DigitChar(1) == '1';
    assert Dec(1) == [DigitChar(1)];
    assert DecInt(-1) == "-" + ['1'];
  }

  lemma SelectText(d: Reg, c: Operand, w: Width, b: Operand)
    ensures InstrText(Select(d, c, w, C(-1), b)) ==
      Join(["%" + d, "=", "select", "i1", OperandText(c) + ",", TypeText(w), "-1,", TypeText(w), OperandText(b)], " ")
  {
    var i := Select(d, c, w, C(-1), b);
    MinusOne();
    PlainWord(R(d));
    PlainWord(b);
    assert Texts(Words(i)) == ["%" + d, "=", "select", "i1", OperandText(c) +
      ",", TypeText(w), "-1,", TypeText(w), OperandText(b)];
  }

  lemma ThreeLines(i: Instr, j: Instr, k: Instr)
    ensures CodeText([i, j, k]) == LineOf(i) + LineOf(j) + LineOf(k)
  {
    assert [i, j, k][1..] == [j, k] && [j, k][1..] == [k] && [k][1..] == [];
    assert CodeText([k]) == LineOf(k);
    assert CodeText([j, k]) == LineOf(j) + CodeText([k]);
  }

  lemma RegTexts(d: Reg)
    ensures "%" + SumReg(d) == "%__sat_sum_" + d && "%" + OvReg(d) == "%__sat_ov_" + d
  {
  }

  lemma ExpandedPrints(d: Reg, w: Width, a: Operand, b: Operand)
    requires IsName(d)
    ensures Expanded("  ", "%" + d, Call(TypeText(w), OperandText(a), OperandText(b)), "\n") ==
      CodeText(Expansion(d, w, a, b))
  {
    var code := Expansion(d, w, a, b);
    NameSolid(d);
    RegTexts(d);
    ThreeLines(code[0], code[1], code[2]);
    AddText(SumReg(d), w, a, b);
    CompareText(OvReg(d), w, R(SumReg(d)), a);
    SelectText(d, R(OvReg(d)), w, R(SumReg(d)));
  }

  // ---------------------------------------------------------------- printed lines

  lemma LeadOfLine(i: Instr)
    requires Named(i)
    ensures Lead(LineOf(i)) == "  " && Newline(LineOf(i)) == "\n"
  {
    PrintedIsProcessed(i);
    assert LineOf(i) == "  " + (InstrText(i) + "\n");
  }

  lemma {:induction false} JoinWithout(c: char, ts: seq<string>)
    requires c != ' ' && forall k :: 0 <= k < |ts| ==> c !in ts[k]
    ensures c !in Join(ts, " ")
  {
    if |ts| > 1 { JoinWithout(c, ts[1..]); }
  }

  lemma WordWithoutAt(w: Word)
    requires WordOk(w) && (w.Lit? ==> '@' !in w.text)
    ensures '@' !in WordText(w)
  {
    if w.Op? { OperandIsSolid(w.o); }
  }

  predicate NoAt(ws: seq<Word>) {
    forall k :: 0 <= k < |ws| && ws[k].Lit? ==> '@' !in ws[k].text
  }

  lemma BinWordsNoAt(i: Instr)
    requires i.Bin?
    ensures NoAt(Words(i))
  {
    TypeIsSolid(i.w);
    var front, flags := [Op(R(i.dst), ""), Lit("="), Lit(OpText(i.op))], FlagWords(i.nuw, i.nsw);
    var back := [Lit(TypeText(i.w)), Op(i.a, ","), Op(i.b, "")];
    assert NoAt(front) && NoAt(flags) && NoAt(back);
    assert Words(i) == front + flags + back;
  }

  lemma OtherWordsNoAt(i: Instr)
    requires !i.UaddSat? && !i.Bin?
    ensures NoAt(Words(i))
  {
    TypeIsSolid(i.w);
  }

  lemma OtherLine(i: Instr)
    requires Named(i) && !i.UaddSat?
    ensures TryExpandUaddSat(LineOf(i)).None?
  {
    InstrWordsOk(i);
    if i.Bin? { BinWordsNoAt(i); } else { OtherWordsNoAt(i); }
    var ts := Texts(Words(i));
    forall k | 0 <= k < |ts| ensures '@' !in ts[k] { WordWithoutAt(Words(i)[k]); }
    JoinWithout('@', ts);
    PrintedIsProcessed(i);
    var t := InstrText(i) + "\n";
    assert NEEDLE[0] == '@';
    FindAbsent(t, NEEDLE);
  }

  /** The pass recognises a printed line exactly when it is a saturating add of a width
      that fits 32 bits, and then prints the three instructions of its expansion. */
  lemma ExpandLine(i: Instr)
    requires Named(i)
    ensures TryExpandUaddSat(LineOf(i)) ==
      if i.UaddSat? && i.w <= U32_MAX then Some(CodeText(Expansion(i.dst, i.w, i.a, i.b))) else None
  {
    if i.UaddSat? {
      PrintedIsProcessed(i);
      LeadOfLine(i);
      ReadCall(i);
      NameSolid(i.dst);
      ExpandedPrints(i.dst, i.w, i.a, i.b);
    } else {
      OtherLine(i);
    }
  }

  predicate WidthsFit(code: seq<Instr>) {
    forall k :: 0 <= k < |code| && code[k].UaddSat? ==> code[k].w <= U32_MAX
  }

  /** Expanding saturating adds in the text of any code is expanding its instructions. */
  lemma ExpandCode(code: seq<Instr>)
    requires AllNamed(code) && WidthsFit(code)
    ensures OnText(TryExpandUaddSat, CodeText(code)) == CodeText(PassBody(ExpandSat, code))
  {
    forall k | 0 <= k < |code|
      ensures Rewritten(TryExpandUaddSat, LineOf(code[k])) == CodeText(PassInstr(ExpandSat, code[k]))
    {
      ExpandLine(code[k]);
      OneLine(code[k]);
    }
    OnCode(TryExpandUaddSat, ExpandSat, code);
  }

  // A quoted destination gives a name no reader accepts: `%__sat_sum_"a b"`, with the quote
  // in the middle.
  lemma QuotedMisprinted(line: string, n: string)
    requires TryExpandUaddSat(line).Some?
    requires Trim(TrimStart(line)[..Find(TrimStart(line), " = ").value]) == "%" + ("\"" + n + "\"")
    ensures Lead(line) + ("%__sat_sum_" + ("\"" + n + "\"")) <= TryExpandUaddSat(line).value
  {
    var q := "\"" + n + "\"";
    assert ("%" + q)[1..] == q && q[0] == '"';
    assert WithoutPercents("%" + q) == q;
    ExpandedStart(Lead(line), "%" + q, ParseCall(TrimStart(line)).value, Newline(line));
  }

  lemma ExpandedStart(lead: string, dest: string, call: Call, nl: string)
    ensures lead + ("%__sat_sum_" + WithoutPercents(dest)) <= Expanded(lead, dest, call, nl)
  {
    var sum := "%__sat_sum_" + WithoutPercents(dest);
    JoinFirst(sum, ["=", "add", call.ty, call.a + ",", call.b]);
    assert [sum] + ["=", "add", call.ty, call.a + ",", call.b] == [sum, "=", "add", call.ty, call.a + ",", call.b];
  }
}
