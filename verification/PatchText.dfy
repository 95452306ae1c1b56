/** The text passes of src/transform/patch_llvm_ir.rs applied to printed code are the
    instruction passes: what the refinement proof says about instructions holds of the
    lines the tool actually edits. */
module PatchText {
  import opened Options
  import opened Text
  import opened Decimal
  import opened IrSemantics
  import opened PatchRefinement
  import opened IrText
  import StripFlags
  import PoisonWords

  // ---------------------------------------------------------------- lines as words

  // The newline belongs to the last word.
  function EndLine(ts: seq<string>): seq<string>
    requires ts != []
  {
    ts[..|ts| - 1] + [ts[|ts| - 1] + "\n"]
  }

  lemma {:induction false} JoinEndLine(ts: seq<string>)
    requires ts != []
    ensures Join(EndLine(ts), " ") == Join(ts, " ") + "\n"
  {
    if |ts| > 1 {
      JoinEndLine(ts[1..]);
      assert EndLine(ts)[1..] == EndLine(ts[1..]);
    }
  }

  lemma LineShape(i: Instr)
    requires |Words(i)| > 1
    ensures LineOf(i) == " " + (" " + Join(EndLine(Texts(Words(i))), " "))
  {
    JoinEndLine(Texts(Words(i)));
  }

  lemma {:induction false} WordsOfJoin(ts: seq<string>)
    requires ts != [] && forall k :: 0 <= k < |ts| ==> ' ' !in ts[k]
    ensures StripFlags.Words(Join(ts, " ")) == ts
  {
    if |ts| == 1 {
      StripFlags.WordWithoutSpace(ts[0]);
    } else {
      WordsOfJoin(ts[1..]);
      StripFlags.WordWithoutSpace(ts[0]);
      StripFlags.WordsOfConcat(ts[0], Join(ts[1..], " "));
      assert ts == [ts[0]] + ts[1..];
    }
  }

  // ---------------------------------------------------------------- flags

  lemma WordsOfIndented(es: seq<string>)
    requires es != [] && forall k :: 0 <= k < |es| ==> ' ' !in es[k]
    ensures StripFlags.StrippedWords(" " + (" " + Join(es, " "))) == [""] + ([""] + StripFlags.DropFlags(es))
  {
    var body := Join(es, " ");
    WordsOfJoin(es);
    StripFlags.SpaceFirst(body);
    StripFlags.SpaceFirst(" " + body);
    DropBehindBlank(es);
  }

  lemma DropBehindBlank(es: seq<string>)
    requires es != []
    ensures StripFlags.DropFlags([""] + es) == [""] + StripFlags.DropFlags(es)
    ensures ([""] + ([""] + es))[1..] == [""] + es
  {
    assert ([""] + es)[1..] == es;
  }

  // The line with its flags dropped, in terms of its words.
  lemma StrippedLine(i: Instr)
    requires WordsOk(Words(i)) && |Words(i)| > 1
    ensures StripFlags.Stripped(LineOf(i)) == "  " + Join(EndLine(StripFlags.DropFlags(Texts(Words(i)))), " ")
  {
    var ts := Texts(Words(i));
    LineShape(i);
    EndLineSolid(Words(i));
    StrippedIndented(EndLine(ts));
    DropEndLine(ts);
  }

  lemma EndLineSolid(ws: seq<Word>)
    requires WordsOk(ws) && ws != []
    ensures var es := EndLine(Texts(ws)); forall k :: 0 <= k < |es| ==> ' ' !in es[k]
  {
    forall k | 0 <= k < |ws| ensures ' ' !in Texts(ws)[k] { NoBlank(ws[k]); }
    EndLineKeepsSolid(Texts(ws));
  }

  lemma EndLineKeepsSolid(ts: seq<string>)
    requires ts != [] && forall k :: 0 <= k < |ts| ==> ' ' !in ts[k]
    ensures forall k :: 0 <= k < |ts| ==> ' ' !in EndLine(ts)[k]
  {
  }

  lemma StrippedIndented(es: seq<string>)
    requires es != [] && forall k :: 0 <= k < |es| ==> ' ' !in es[k]
    ensures StripFlags.Stripped(" " + (" " + Join(es, " "))) == "  " + Join(StripFlags.DropFlags(es), " ")
  {
    WordsOfIndented(es);
    JoinTwoBlanks(StripFlags.DropFlags(es));
  }

  lemma NoBlank(w: Word)
    requires WordOk(w)
    ensures ' ' !in WordText(w) && '\n' !in WordText(w) && WordText(w) != ""
  {
    if w.Op? { OperandSolid(w.o); }
  }

  lemma OperandSolid(o: Operand)
    requires NamedOperand(o)
    ensures OperandText(o) != "" && OperandText(o)[0] != 'n'
    ensures forall k :: 0 <= k < |OperandText(o)| ==>
      IsNameChar(OperandText(o)[k]) || (k == 0 && OperandText(o)[k] == '%')
  {
  }

  lemma JoinTwoBlanks(d: seq<string>)
    requires d != []
    ensures Join([""] + ([""] + d), " ") == "  " + Join(d, " ")
  {
    var e := [""] + d;
    assert ([""] + e)[1..] == e && e[1..] == d;
    assert Join(e, " ") == "" + " " + Join(d, " ");
    assert Join([""] + e, " ") == "" + " " + Join(e, " ");
  }

  lemma {:induction false} DropEndLine(ts: seq<string>)
    requires ts != []
    ensures StripFlags.DropFlags(EndLine(ts)) == EndLine(StripFlags.DropFlags(ts))
  {
    if |ts| > 1 {
      DropEndLine(ts[1..]);
      assert EndLine(ts)[1..] == EndLine(ts[1..]);
      var d := StripFlags.DropFlags(ts[1..]);
      assert EndLine([ts[0]] + d) == [ts[0]] + EndLine(d);
    }
  }

  lemma {:induction false} DropNothing(ts: seq<string>)
    requires ts != [] && forall k :: 0 <= k < |ts| ==> !StripFlags.IsFlag(ts[k])
    ensures StripFlags.DropFlags(ts) == ts
  {
    if |ts| > 1 { DropNothing(ts[1..]); }
  }

  lemma {:induction false} DropFront(a: seq<string>, b: seq<string>)
    requires b != [] && forall k :: 0 <= k < |a| ==> !StripFlags.IsFlag(a[k])
    ensures StripFlags.DropFlags(a + b) == a + StripFlags.DropFlags(b)
  {
    if a == [] {
      assert a + b == b;
    } else {
      assert (a + b)[1..] == a[1..] + b;
      DropFront(a[1..], b);
    }
  }

  lemma {:induction false} DropFlagsOnly(a: seq<string>, b: seq<string>)
    requires b != [] && forall k :: 0 <= k < |a| ==> StripFlags.IsFlag(a[k])
    ensures StripFlags.DropFlags(a + b) == StripFlags.DropFlags(b)
  {
    if a == [] {
      assert a + b == b;
    } else {
      assert (a + b)[1..] == a[1..] + b;
      DropFlagsOnly(a[1..], b);
    }
  }

  lemma {:induction false} TextsConcat(a: seq<Word>, b: seq<Word>)
    ensures Texts(a + b) == Texts(a) + Texts(b)
  {
    if a == [] {
      assert a + b == b;
    } else {
      assert (a + b)[1..] == a[1..] + b;
      TextsConcat(a[1..], b);
    }
  }

  predicate IsFlagWord(w: Word) {
    w == Lit("nsw") || w == Lit("nuw")
  }

  lemma FlagWordText(w: Word)
    requires WordOk(w)
    ensures StripFlags.IsFlag(WordText(w)) <==> IsFlagWord(w)
  {
    if w.Op? {
      OperandSolid(w.o);
      assert WordText(w)[0] == OperandText(w.o)[0];
    }
  }

  lemma TextsNotFlags(ws: seq<Word>)
    requires WordsOk(ws) && forall k :: 0 <= k < |ws| ==> !IsFlagWord(ws[k])
    ensures forall k :: 0 <= k < |ws| ==> !StripFlags.IsFlag(Texts(ws)[k])
  {
    forall k | 0 <= k < |ws| ensures !StripFlags.IsFlag(Texts(ws)[k]) { FlagWordText(ws[k]); }
  }

  lemma KeywordsNotFlags()
    ensures !IsFlagWord(Lit("=")) && !IsFlagWord(Lit("udiv")) && !IsFlagWord(Lit("icmp")) && !IsFlagWord(Lit("select"))
    ensures !IsFlagWord(Lit("i1")) && !IsFlagWord(Lit("call")) && !IsFlagWord(Lit("noundef")) &&
      !IsFlagWord(Lit("alloca"))
    ensures !IsFlagWord(Lit("align")) && !IsFlagWord(Lit("store")) && !IsFlagWord(Lit("load")) &&
      !IsFlagWord(Lit("ptr"))
  {
  }

  lemma SymbolsNotFlags(op: BinOp, p: Pred, w: Width, n: nat)
    ensures !IsFlagWord(Lit(OpText(op))) && !IsFlagWord(Lit(PredText(p))) && !IsFlagWord(Lit(TypeText(w)))
    ensures !IsFlagWord(Lit(TypeText(w) + ",")) && !IsFlagWord(Lit(MARKER + TypeText(w) + "(" + TypeText(w)))
    ensures !IsFlagWord(Lit(Dec(n)))
  {
    assert TypeText(w)[0] == 'i' && (TypeText(w) + ",")[0] == 'i' &&
      (MARKER + TypeText(w) + "(" + TypeText(w))[0] == '@';
  }

  predicate NoFlagWords(ws: seq<Word>) {
    forall k :: 0 <= k < |ws| ==> !IsFlagWord(ws[k])
  }

  lemma OtherInstrNoFlags(i: Instr)
    requires Named(i) && !i.Bin?
    ensures NoFlagWords(Words(i))
  {
    if i.UaddSat? {
      SatNoFlags(i);
    } else if i.Alloca? || i.Store? || i.Load? {
      MemoryNoFlags(i);
    } else {
      KeywordsNotFlags();
      SymbolsNotFlags(Add, if i.Icmp? then i.pred else Eq, i.w, 0);
    }
  }

  lemma MemoryNoFlags(i: Instr)
    requires i.Alloca? || i.Store? || i.Load?
    ensures NoFlagWords(Words(i))
  {
    KeywordsNotFlags();
    SymbolsNotFlags(Add, Eq, i.w, if i.Load? then 0 else i.align);
  }

  lemma SatNoFlags(i: Instr)
    requires i.UaddSat?
    ensures NoFlagWords(Words(i))
  {
    KeywordsNotFlags();
    SymbolsNotFlags(Add, Eq, i.w, 0);
    var ty := TypeText(i.w);
    var front := [Op(R(i.dst), ""), Lit("="), Lit("call"), Lit(ty), Lit(MARKER + ty + "(" + ty)];
    var na, mid := NoundefWords(i.noundefA), [Op(i.a, ","), Lit(ty)];
    var nb, back := NoundefWords(i.noundefB), [Op(i.b, ")")];
    NoFlagsConcat(front, na);
    NoFlagsConcat(front + na, mid);
    NoFlagsConcat(front + na + mid, nb);
    NoFlagsConcat(front + na + mid + nb, back);
  }

  lemma NoFlagsConcat(a: seq<Word>, b: seq<Word>)
    requires NoFlagWords(a) && NoFlagWords(b)
    ensures NoFlagWords(a + b)
  {
  }

  lemma DropMiddle(front: seq<string>, flags: seq<string>, back: seq<string>)
    requires back != [] && (forall k :: 0 <= k < |flags| ==> StripFlags.IsFlag(flags[k]))
    requires forall k :: 0 <= k < |front| ==> !StripFlags.IsFlag(front[k])
    requires forall k :: 0 <= k < |back| ==> !StripFlags.IsFlag(back[k])
    ensures StripFlags.DropFlags(front + flags + back) == front + back
  {
    assert front + flags + back == front + (flags + back);
    DropFront(front, flags + back);
    DropFlagsOnly(flags, back);
    DropNothing(back);
  }

  lemma DropMiddleWords(front: seq<Word>, flags: seq<Word>, back: seq<Word>)
    requires WordsOk(front) && WordsOk(back) && back != [] && NoFlagWords(front) && NoFlagWords(back)
    requires forall k :: 0 <= k < |flags| ==> IsFlagWord(flags[k])
    ensures StripFlags.DropFlags(Texts(front + flags + back)) == Texts(front + back)
  {
    TextsNotFlags(front);
    TextsNotFlags(back);
    TextsConcat(front + flags, back);
    TextsConcat(front, flags);
    TextsConcat(front, back);
    DropMiddle(Texts(front), Texts(flags), Texts(back));
  }

  lemma BinDropped(i: Instr)
    requires Named(i) && i.Bin?
    ensures StripFlags.DropFlags(Texts(Words(i))) == Texts(Words(i.(nsw := false, nuw := false)))
  {
    var front := [Op(R(i.dst), ""), Lit("="), Lit(OpText(i.op))];
    var back := [Lit(TypeText(i.w)), Op(i.a, ","), Op(i.b, "")];
    BinWordsOk(i);
    KeywordsNotFlags();
    SymbolsNotFlags(i.op, Eq, i.w, 0);
    WordsParts(front, FlagWords(i.nuw, i.nsw), back);
    DropMiddleWords(front, FlagWords(i.nuw, i.nsw), back);
    assert front + [] == front;
  }

  lemma WordsParts(a: seq<Word>, b: seq<Word>, c: seq<Word>)
    requires WordsOk(a + b + c)
    ensures WordsOk(a) && WordsOk(b) && WordsOk(c)
  {
    var s := a + b + c;
    forall k | 0 <= k < |a| ensures WordOk(a[k]) { assert s[k] == a[k]; }
    forall k | 0 <= k < |b| ensures WordOk(b[k]) { assert s[|a| + k] == b[k]; }
    forall k | 0 <= k < |c| ensures WordOk(c[k]) { assert s[|a| + |b| + k] == c[k]; }
  }

  lemma DroppedWords(i: Instr)
    requires Named(i)
    ensures StripFlags.DropFlags(Texts(Words(i))) == Texts(Words(PassInstr(Pass.StripFlags, i)[0]))
  {
    InstrWordsOk(i);
    if i.Bin? {
      BinDropped(i);
    } else {
      OtherInstrNoFlags(i);
      TextsNotFlags(Words(i));
      DropNothing(Texts(Words(i)));
    }
  }

  // Stripping the flags of a printed line prints the stripped instruction.
  lemma StripLine(i: Instr, j: Instr)
    requires Named(i) && PassInstr(Pass.StripFlags, i) == [j]
    ensures StripFlags.StripOne(LineOf(i)) == LineOf(j)
  {
    InstrWordsOk(i);
    StrippedLine(i);
    DroppedWords(i);
    JoinEndLine(Texts(Words(j)));
    PrintedIsProcessed(i);
  }

  lemma TrimIndent(x: string)
    requires x != "" && !IsSpace(x[0])
    ensures TrimStart("  " + x) == x
  {
    var y := [' '] + x;
    assert "  " + x == [' '] + y && ([' '] + y)[1..] == y && y[1..] == x;
    assert TrimStart(y) == x;
  }

  lemma PrintedIsProcessed(i: Instr)
    requires Named(i)
    ensures TrimStart(LineOf(i)) == InstrText(i) + "\n" && StripFlags.IsProcessed(LineOf(i))
  {
    InstrStart(i);
    var x := InstrText(i) + "\n";
    assert x[0] == InstrText(i)[0] && LineOf(i) == "  " + x;
    TrimIndent(x);
    if !i.Store? { assert "%" <= x; }
  }

  // An instruction starts with its result register, or is a store.
  lemma InstrStart(i: Instr)
    requires Named(i)
    ensures InstrText(i) != "" && !IsSpace(InstrText(i)[0])
    ensures !i.Store? ==> InstrText(i)[0] == '%'
    ensures i.Store? ==> "store " <= InstrText(i)
  {
    InstrWordsOk(i);
    var ts := Texts(Words(i));
    assert Join(ts, " ") == ts[0] + " " + Join(ts[1..], " ");
    if i.Store? { assert ts[0] == "store"; } else { assert ts[0][0] == '%'; }
  }

  // ---------------------------------------------------------------- code

  predicate AllNamed(code: seq<Instr>) {
    forall k :: 0 <= k < |code| ==> Named(code[k])
  }

  function CodeLines(code: seq<Instr>): (r: seq<string>)
    ensures |r| == |code| && forall k :: 0 <= k < |code| ==> r[k] == LineOf(code[k])
  {
    if code == [] then [] else [LineOf(code[0])] + CodeLines(code[1..])
  }

  lemma {:induction false} CodeTextIsLines(code: seq<Instr>)
    ensures CodeText(code) == Concat(CodeLines(code))
  {
    if code != [] {
      CodeTextIsLines(code[1..]);
      assert CodeLines(code)[1..] == CodeLines(code[1..]);
    }
  }

  lemma {:induction false} CodeTextConcat(a: seq<Instr>, b: seq<Instr>)
    ensures CodeText(a + b) == CodeText(a) + CodeText(b)
  {
    if a == [] {
      assert a + b == b;
    } else {
      assert (a + b)[1..] == a[1..] + b;
      CodeTextConcat(a[1..], b);
    }
  }

  lemma {:induction false} SolidIsLine(s: string)
    requires '\n' !in s
    ensures StripFlags.IsLine(s + "\n")
  {
    if s == "" {
      assert s + "\n" == "\n";
    } else {
      assert (s + "\n")[1..] == s[1..] + "\n";
      SolidIsLine(s[1..]);
    }
  }

  lemma {:induction false} JoinNoNewline(ts: seq<string>)
    requires forall k :: 0 <= k < |ts| ==> '\n' !in ts[k]
    ensures '\n' !in Join(ts, " ")
  {
    if |ts| > 1 { JoinNoNewline(ts[1..]); }
  }

  lemma PrintedIsLine(i: Instr)
    requires Named(i)
    ensures StripFlags.IsLine(LineOf(i)) && StripFlags.Terminated(LineOf(i)) && '\n' !in InstrText(i)
  {
    InstrWordsOk(i);
    forall k | 0 <= k < |Words(i)| ensures '\n' !in Texts(Words(i))[k] { NoBlank(Words(i)[k]); }
    JoinNoNewline(Texts(Words(i)));
    SolidIsLine("  " + InstrText(i));
  }

  // Splitting printed code gives back its lines.
  lemma LinesOfCode(code: seq<Instr>)
    requires AllNamed(code)
    ensures StripFlags.Lines(CodeText(code)) == CodeLines(code)
  {
    CodeTextIsLines(code);
    forall k | 0 <= k < |code|
      ensures StripFlags.IsLine(CodeLines(code)[k]) && StripFlags.Terminated(CodeLines(code)[k])
    {
      PrintedIsLine(code[k]);
    }
    StripFlags.LinesOfConcat(CodeLines(code));
  }

  /** Stripping flags in the text of any code is stripping them from its instructions. */
  lemma StripCode(code: seq<Instr>)
    requires AllNamed(code)
    ensures StripFlags.StripText(CodeText(code)) == CodeText(PassBody(Pass.StripFlags, code))
  {
    var out := PassBody(Pass.StripFlags, code);
    LinesOfCode(code);
    OneForOne(Pass.StripFlags, code);
    forall k | 0 <= k < |code| ensures StripFlags.StripAll(CodeLines(code))[k] == CodeLines(out)[k] {
      assert [out[k]] == PassInstr(Pass.StripFlags, code[k]);
      StripLine(code[k], out[k]);
    }
    assert StripFlags.StripAll(CodeLines(code)) == CodeLines(out);
    CodeTextIsLines(out);
  }

  // ---------------------------------------------------------------- poison

  // No register's printed name contains the whole word the pass looks for: it would be
  // renamed, because `%` and `.` count as word boundaries.
  ghost predicate SafeOperand(o: Operand) {
    o.R? ==> PoisonWords.NoWord('%', o.name)
  }

  ghost predicate SafeWords(ws: seq<Word>) {
    forall k :: 0 <= k < |ws| && ws[k].Op? ==> SafeOperand(ws[k].o)
  }

  ghost predicate Safe(i: Instr) {
    SafeWords(Words(i))
  }

  ghost predicate AllSafe(code: seq<Instr>) {
    forall k :: 0 <= k < |code| ==> Safe(code[k])
  }

  lemma PrevClass(p: char, q: char, s: string)
    requires PoisonWords.IsWordChar(p) == PoisonWords.IsWordChar(q)
    ensures PoisonWords.Patch(p, s) == PoisonWords.Patch(q, s)
  {
    if s != "" {
      PoisonWords.PatchStep(p, s);
      PoisonWords.PatchStep(q, s);
    }
  }

  lemma WordSplit(prev: char, u: string, v: string)
    requires u != "" && (v == "" || !PoisonWords.IsWordChar(v[0]))
    ensures PoisonWords.Word(prev, u + v) <==> PoisonWords.Word(prev, u)
  {
    var s := u + v;
    if |u| < 6 {
      if v != "" { assert s[|u|] == v[0] && PoisonWords.IsWordChar(PoisonWords.POISON[|u|]); }
    } else {
      assert s[..6] == u[..6];
      if |u| == 6 && v != "" { assert s[6] == v[0]; }
    }
  }

  ghost predicate SplitsAt(prev: char, u: string, v: string) {
    PoisonWords.Patch(prev, u + v) ==
      PoisonWords.Patch(prev, u) + PoisonWords.Patch(if u == "" then prev else u[|u| - 1], v)
  }

  lemma SplitAtWord(prev: char, u: string, v: string)
    requires u != "" && PoisonWords.Word(prev, u) && PoisonWords.Word(prev, u + v)
    requires SplitsAt('n', u[6..], v)
    ensures SplitsAt(prev, u, v)
  {
    PoisonWords.PatchStep(prev, u + v);
    PoisonWords.PatchStep(prev, u);
    CutAt(u, v, 6);
    if |u| == 6 { assert u[5] == PoisonWords.POISON[5]; }
    var w := u[6..];
    Regroup(PoisonWords.UNDEF, PoisonWords.Patch('n', w), PoisonWords.Patch(if w == "" then 'n' else u[|u| - 1], v));
  }

  lemma CutAt(u: string, v: string, n: nat)
    requires n <= |u|
    ensures (u + v)[n..] == u[n..] + v
    ensures n < |u| ==> u[n..] != "" && u[n..][|u| - n - 1] == u[|u| - 1]
  {
  }

  lemma SplitAtOther(prev: char, u: string, v: string)
    requires u != "" && !PoisonWords.Word(prev, u) && !PoisonWords.Word(prev, u + v)
    requires SplitsAt(u[0], u[1..], v)
    ensures SplitsAt(prev, u, v)
  {
    PoisonWords.PatchStep(prev, u + v);
    PoisonWords.PatchStep(prev, u);
    CutAt(u, v, 1);
    Regroup([u[0]], PoisonWords.Patch(u[0], u[1..]), PoisonWords.Patch(u[|u| - 1], v));
  }

  // Patching splits where the second part does not continue a word.
  lemma {:induction false} PatchSplit(prev: char, u: string, v: string)
    requires v == "" || !PoisonWords.IsWordChar(v[0])
    ensures SplitsAt(prev, u, v)
    decreases |u|
  {
    if u == "" {
      assert u + v == v;
    } else {
      WordSplit(prev, u, v);
      if PoisonWords.Word(prev, u) {
        PatchSplit('n', u[6..], v);
        SplitAtWord(prev, u, v);
      } else {
        PatchSplit(u[0], u[1..], v);
        SplitAtOther(prev, u, v);
      }
    }
  }

  lemma HoldsLetters(s: string)
    requires PoisonWords.POISON <= s
    ensures 'p' in s && 'o' in s
  {
    assert s[0] == PoisonWords.POISON[0] && s[1] == PoisonWords.POISON[1];
  }

  lemma {:induction false} LacksLetter(prev: char, s: string)
    requires 'o' !in s || 'p' !in s
    ensures PoisonWords.NoWord(prev, s)
    decreases |s|
  {
    if s != "" {
      if PoisonWords.POISON <= s { HoldsLetters(s); }
      LacksLetter(s[0], s[1..]);
    }
  }

  lemma LitUnpatched(prev: char, s: string)
    requires 'o' !in s || 'p' !in s
    ensures PoisonWords.Patch(prev, s) == s
  {
    LacksLetter(prev, s);
    PoisonWords.NoWordUnchanged(prev, s);
  }

  lemma OperandPatched(o: Operand)
    requires NamedOperand(o) && SafeOperand(o)
    ensures PoisonWords.Patch(' ', OperandText(o)) == OperandText(PassOperand(PoisonToUndef, o))
  {
    match o
    case R(n) => RegisterPatched(n);
    case C(n) => LitUnpatched(' ', DecInt(n));
    case Zero => LitUnpatched(' ', "zeroinitializer");
    case UndefLit => LitUnpatched(' ', "undef");
    case PoisonLit => PoisonPatched();
  }

  lemma RegisterPatched(n: Reg)
    requires PoisonWords.NoWord('%', n)
    ensures PoisonWords.Patch(' ', "%" + n) == "%" + n
  {
    PoisonWords.PatchStep(' ', "%" + n);
    assert ("%" + n)[1..] == n && PoisonWords.POISON[0] == 'p';
    PoisonWords.NoWordUnchanged('%', n);
  }

  lemma PoisonPatched()
    ensures PoisonWords.Patch(' ', "poison") == "undef"
  {
    PoisonWords.PatchStep(' ', "poison");
    assert "poison"[6..] == "";
    assert PoisonWords.Patch('n', "") == "";
  }

  function PassWord(w: Word): Word {
    if w.Op? then Op(PassOperand(PoisonToUndef, w.o), w.suffix) else w
  }

  lemma SuffixPatched(prev: char, suffix: string)
    requires suffix == "" || suffix == "," || suffix == ")"
    ensures PoisonWords.Patch(prev, suffix) == suffix
    ensures suffix != "" ==> !PoisonWords.IsWordChar(suffix[0])
  {
    LitUnpatched(prev, suffix);
  }

  lemma OperandWordPatched(o: Operand, suffix: string)
    requires WordOk(Op(o, suffix)) && SafeOperand(o)
    ensures PoisonWords.Patch(' ', OperandText(o) + suffix) == OperandText(PassOperand(PoisonToUndef, o)) + suffix
  {
    var u := OperandText(o);
    OperandPatched(o);
    var prev := if u == "" then ' ' else u[|u| - 1];
    SuffixPatched(prev, suffix);
    PatchSplit(' ', u, suffix);
  }

  lemma WordPatched(w: Word)
    requires WordOk(w) && (w.Op? ==> SafeOperand(w.o))
    ensures PoisonWords.Patch(' ', WordText(w)) == WordText(PassWord(w))
  {
    if w.Op? {
      OperandWordPatched(w.o, w.suffix);
    } else {
      LitUnpatched(' ', w.text);
    }
  }

  function PassWords(ws: seq<Word>): (r: seq<Word>)
    ensures |r| == |ws| && forall k :: 0 <= k < |ws| ==> r[k] == PassWord(ws[k])
  {
    if ws == [] then [] else [PassWord(ws[0])] + PassWords(ws[1..])
  }

  // A blank between two parts separates what the pass does to them.
  lemma BlankSplit(u: string, c: char, v: string)
    requires c == ' ' || c == '\n'
    ensures PoisonWords.Patch(' ', u + [c] + v) == PoisonWords.Patch(' ', u) + [c] + PoisonWords.Patch(' ', v)
  {
    PatchSplit(' ', u, [c] + v);
    BlankKept(if u == "" then ' ' else u[|u| - 1], c, v);
    Regroup(u, [c], v);
    Regroup(PoisonWords.Patch(' ', u), [c], PoisonWords.Patch(' ', v));
  }

  lemma BlankKept(prev: char, c: char, v: string)
    requires c == ' ' || c == '\n'
    ensures PoisonWords.Patch(prev, [c] + v) == [c] + PoisonWords.Patch(' ', v)
  {
    PoisonWords.PatchStep(prev, [c] + v);
    assert ([c] + v)[1..] == v && PoisonWords.POISON[0] == 'p';
    PrevClass(c, ' ', v);
  }

  lemma {:induction false} JoinPatched(ws: seq<Word>)
    requires WordsOk(ws) && SafeWords(ws)
    ensures PoisonWords.Patch(' ', Join(Texts(ws), " ")) == Join(Texts(PassWords(ws)), " ")
  {
    if ws == [] {
    } else if |ws| == 1 {
      WordPatched(ws[0]);
    } else {
      WordPatched(ws[0]);
      JoinPatched(ws[1..]);
      var rest := Join(Texts(ws[1..]), " ");
      assert Texts(ws)[1..] == Texts(ws[1..]);
      assert Texts(PassWords(ws))[1..] == Texts(PassWords(ws[1..]));
      assert Join(Texts(ws), " ") == WordText(ws[0]) + [' '] + rest;
      BlankSplit(WordText(ws[0]), ' ', rest);
    }
  }

  lemma PassWordsConcat(a: seq<Word>, b: seq<Word>)
    ensures PassWords(a + b) == PassWords(a) + PassWords(b)
  {
  }

  lemma LitsKept(ws: seq<Word>)
    requires forall k :: 0 <= k < |ws| ==> ws[k].Lit?
    ensures PassWords(ws) == ws
  {
  }

  lemma UndefBinWords(i: Instr)
    requires i.Bin?
    ensures Words(UndefInstr(i)) == PassWords(Words(i))
  {
    var front, flags := [Op(R(i.dst), ""), Lit("="), Lit(OpText(i.op))], FlagWords(i.nuw, i.nsw);
    var back := [Lit(TypeText(i.w)), Op(i.a, ","), Op(i.b, "")];
    PassWordsConcat(front + flags, back);
    PassWordsConcat(front, flags);
    LitsKept(flags);
    assert PassWords(front) == front;
  }

  lemma UndefSatWords(i: Instr)
    requires i.UaddSat?
    ensures Words(UndefInstr(i)) == PassWords(Words(i))
  {
    var ty := TypeText(i.w);
    var front := [Op(R(i.dst), ""), Lit("="), Lit("call"), Lit(ty), Lit(MARKER + ty + "(" + ty)];
    var na, mid := NoundefWords(i.noundefA), [Op(i.a, ","), Lit(ty)];
    var nb, back := NoundefWords(i.noundefB), [Op(i.b, ")")];
    PassWordsFive(front, na, mid, nb, back);
    LitsKept(na);
    LitsKept(nb);
    assert PassWords(front) == front;
    assert PassWords(mid) == [Op(PassOperand(PoisonToUndef, i.a), ","), Lit(ty)];
    assert PassWords(back) == [Op(PassOperand(PoisonToUndef, i.b), ")")];
  }

  lemma PassWordsFive(a: seq<Word>, b: seq<Word>, c: seq<Word>, d: seq<Word>, e: seq<Word>)
    ensures PassWords(a + b + c + d + e) == PassWords(a) + PassWords(b) + PassWords(c) + PassWords(d) + PassWords(e)
  {
    PassWordsConcat(a + b + c + d, e);
    PassWordsConcat(a + b + c, d);
    PassWordsConcat(a + b, c);
    PassWordsConcat(a, b);
  }

  lemma UndefWords(i: Instr)
    ensures Words(UndefInstr(i)) == PassWords(Words(i))
  {
    match i
    case Bin(_, _, _, _, _, _, _) => UndefBinWords(i);
    case UaddSat(_, _, _, _, _, _) => UndefSatWords(i);
    case _ => UndefOtherWords(i);
  }

  lemma UndefOtherWords(i: Instr)
    requires !i.Bin? && !i.UaddSat?
    ensures Words(UndefInstr(i)) == PassWords(Words(i))
  {
    var ws, vs := Words(i), Words(UndefInstr(i));
    assert |ws| == |vs|;
    forall k | 0 <= k < |ws| ensures vs[k] == PassWord(ws[k]) {
      assert vs[k].Lit? ==> vs[k] == ws[k];
    }
  }

  lemma BlankFirst(c: char, v: string)
    requires c == ' ' || c == '\n'
    ensures PoisonWords.Patch(' ', [c] + v) == [c] + PoisonWords.Patch(' ', v)
  {
    BlankSplit("", c, v);
    assert "" + [c] + v == [c] + v && PoisonWords.Patch(' ', "") == "";
  }

  lemma LinePatched(i: Instr, rest: string)
    requires Named(i) && Safe(i)
    ensures PoisonWords.Patch(' ', LineOf(i) + rest) == LineOf(UndefInstr(i)) + PoisonWords.Patch(' ', rest)
  {
    InstrWordsOk(i);
    JoinPatched(Words(i));
    UndefWords(i);
    BlankSplit(InstrText(i), '\n', rest);
    var x := InstrText(i) + ['\n'] + rest;
    BlankFirst(' ', x);
    BlankFirst(' ', [' '] + x);
    LineSplits(i, rest);
    LineSplits(UndefInstr(i), PoisonWords.Patch(' ', rest));
  }

  lemma LineSplits(i: Instr, rest: string)
    ensures LineOf(i) + rest == [' '] + ([' '] + (InstrText(i) + ['\n'] + rest))
  {
    IndentSplits(InstrText(i), rest);
  }

  lemma IndentSplits(t: string, rest: string)
    ensures "  " + t + "\n" + rest == [' '] + ([' '] + (t + ['\n'] + rest))
  {
  }

  /** Replacing poison in the text of any code is replacing it in its operands. */
  lemma {:induction false} PoisonCode(code: seq<Instr>)
    requires AllNamed(code) && AllSafe(code)
    ensures PoisonWords.ReplacePoison(CodeText(code)) == CodeText(PassBody(PoisonToUndef, code))
  {
    if code == [] {
    } else {
      PoisonCode(code[1..]);
      LinePatched(code[0], CodeText(code[1..]));
      CodeTextConcat([UndefInstr(code[0])], PassBody(PoisonToUndef, code[1..]));
      assert CodeText([UndefInstr(code[0])]) == LineOf(UndefInstr(code[0])) + CodeText([UndefInstr(code[0])][1..]);
    }
  }

  // ---------------------------------------------------------------- when registers are safe

  lemma {:induction false} PatchShrinks(prev: char, s: string)
    ensures |PoisonWords.Patch(prev, s)| <= |s|
    decreases |s|
  {
    if s != "" {
      PoisonWords.PatchStep(prev, s);
      if PoisonWords.Word(prev, s) { PatchShrinks('n', s[6..]); } else { PatchShrinks(s[0], s[1..]); }
    }
  }

  ghost predicate Kept(s: string) {
    PoisonWords.Patch(' ', s) == s
  }

  lemma KeptParts(u: string, c: char, v: string)
    requires (c == ' ' || c == '\n') && Kept(u + [c] + v)
    ensures Kept(u) && Kept(v)
  {
    var pu, pv := PoisonWords.Patch(' ', u), PoisonWords.Patch(' ', v);
    BlankSplit(u, c, v);
    PatchShrinks(' ', u);
    PatchShrinks(' ', v);
    var s := u + [c] + v;
    assert s[..|u|] == u && s[|u| + 1..] == v;
    assert (pu + [c] + pv)[..|pu|] == pu && (pu + [c] + pv)[|pu| + 1..] == pv;
  }

  lemma KeptOperand(o: Operand, suffix: string)
    requires WordOk(Op(o, suffix)) && Kept(OperandText(o) + suffix)
    ensures SafeOperand(o)
  {
    if o.R? {
      var u := OperandText(o);
      SuffixPatched(u[|u| - 1], suffix);
      PatchSplit(' ', u, suffix);
      var pu := PoisonWords.Patch(' ', u);
      assert pu + suffix == u + suffix && (pu + suffix)[..|pu|] == pu && (u + suffix)[..|u|] == u;
      PoisonWords.PatchClean(' ', ' ', u);
      assert u[0] == '%' && u[1..] == o.name;
    }
  }

  lemma {:induction false} KeptWords(ws: seq<Word>)
    requires WordsOk(ws) && Kept(Join(Texts(ws), " "))
    ensures SafeWords(ws)
  {
    if ws != [] {
      if |ws| > 1 {
        var rest := Join(Texts(ws[1..]), " ");
        assert Texts(ws)[1..] == Texts(ws[1..]);
        assert Join(Texts(ws), " ") == WordText(ws[0]) + [' '] + rest;
        KeptParts(WordText(ws[0]), ' ', rest);
        KeptWords(ws[1..]);
      }
      if ws[0].Op? { KeptOperand(ws[0].o, ws[0].suffix); }
    }
  }

  lemma KeptLine(i: Instr, rest: string)
    requires Named(i) && Kept(LineOf(i) + rest)
    ensures Safe(i) && Kept(rest)
  {
    KeptIndented(InstrText(i), rest);
    InstrWordsOk(i);
    KeptWords(Words(i));
  }

  lemma KeptIndented(t: string, rest: string)
    requires Kept("  " + t + "\n" + rest)
    ensures Kept(t) && Kept(rest)
  {
    var x := t + ['\n'] + rest;
    IndentSplits(t, rest);
    KeptBehind(' ', [' '] + x);
    KeptBehind(' ', x);
    KeptParts(t, '\n', rest);
  }

  lemma KeptBehind(c: char, v: string)
    requires (c == ' ' || c == '\n') && Kept([c] + v)
    ensures Kept(v)
  {
    assert "" + [c] + v == [c] + v;
    KeptParts("", c, v);
  }

  lemma {:induction false} KeptCode(code: seq<Instr>)
    requires AllNamed(code) && Kept(CodeText(code))
    ensures AllSafe(code)
  {
    if code != [] {
      KeptLine(code[0], CodeText(code[1..]));
      KeptCode(code[1..]);
    }
  }

  lemma UndefSafe(i: Instr)
    requires Named(i)
    ensures Named(UndefInstr(i)) && (Safe(UndefInstr(i)) ==> Safe(i))
  {
    UndefWords(i);
    var ws := Words(i);
    if Safe(UndefInstr(i)) {
      forall k | 0 <= k < |ws| && ws[k].Op? ensures SafeOperand(ws[k].o) {
        assert PassWords(ws)[k] == PassWord(ws[k]);
        assert SafeOperand(PassWord(ws[k]).o);
      }
    }
  }

  /** The text pass is the instruction pass exactly when no register's printed name holds
      the whole word: `%poison` and `%x.poison` are renamed too. */
  lemma PoisonCodeIff(code: seq<Instr>)
    requires AllNamed(code)
    ensures PoisonWords.ReplacePoison(CodeText(code)) == CodeText(PassBody(PoisonToUndef, code)) <==> AllSafe(code)
  {
    var out := PassBody(PoisonToUndef, code);
    if AllSafe(code) { PoisonCode(code); }
    if PoisonWords.ReplacePoison(CodeText(code)) == CodeText(out) {
      OneForOne(PoisonToUndef, code);
      forall k | 0 <= k < |code|
        ensures out[k] == UndefInstr(code[k]) && Named(out[k]) && (Safe(out[k]) ==> Safe(code[k]))
      {
        assert [out[k]] == PassInstr(PoisonToUndef, code[k]) == [UndefInstr(code[k])];
        UndefSafe(code[k]);
      }
      PoisonWords.ReplacePoisonFixpoint(CodeText(code));
      KeptCode(out);
      forall k | 0 <= k < |code| ensures Safe(code[k]) { assert Safe(out[k]); }
    }
  }

  // `%poison = load i8, ptr %s`: the register is renamed, and its uses elsewhere with it.
  lemma RegisterRenamed(slot: Reg, w: Width)
    requires IsName(slot)
    ensures var code := [Load("poison", w, slot)];
      AllNamed(code) && PoisonWords.ReplacePoison(CodeText(code)) != CodeText(PassBody(PoisonToUndef, code))
  {
    var i := Load("poison", w, slot);
    assert PoisonWords.POISON <= "poison" && PoisonWords.Word('%', "poison");
    assert Words(i)[0] == Op(R("poison"), "") && !SafeOperand(R("poison"));
    assert !Safe([i][0]);
    PoisonCodeIff([i]);
  }
}
