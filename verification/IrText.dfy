/** The printed form of instructions, and the patch passes as they act on text
    (src/transform/patch_llvm_ir.rs). */
module IrText {
  import opened Options
  import opened Text
  import opened Decimal
  import opened IrSemantics

  // ---------------------------------------------------------------- printing

  function DecInt(n: int): string {
    if n < 0 then "-" + Dec(-n) else Dec(n)
  }

  function OperandText(o: Operand): string {
    match o
    case R(n) => "%" + n
    case C(n) => DecInt(n)
    case Zero => "zeroinitializer"
    case PoisonLit => "poison"
    case UndefLit => "undef"
  }

  function TypeText(w: Width): string {
    "i" + Dec(w)
  }

  function OpText(op: BinOp): string {
    match op case Add => "add" case Sub => "sub" case Mul => "mul"
  }

  function PredText(p: Pred): string {
    match p
    case Eq => "eq"
    case Ne => "ne"
    case Ult => "ult"
    case Ule => "ule"
    case Slt => "slt"
    case Sle => "sle"
  }

  const MARKER := "@llvm.uadd.sat."

  // A blank-separated word: fixed text, or an operand with the punctuation after it.
  datatype Word = Lit(text: string) | Op(o: Operand, suffix: string)

  function WordText(w: Word): string {
    match w
    case Lit(text) => text
    case Op(o, suffix) => OperandText(o) + suffix
  }

  function FlagWords(nuw: bool, nsw: bool): seq<Word> {
    (if nuw then [Lit("nuw")] else []) + (if nsw then [Lit("nsw")] else [])
  }

  function NoundefWords(b: bool): seq<Word> {
    if b then [Lit("noundef")] else []
  }

  function Words(i: Instr): seq<Word> {
    match i
    case Bin(d, op, w, a, b, nsw, nuw) =>
      [Op(R(d), ""), Lit("="), Lit(OpText(op))] + FlagWords(nuw, nsw) + [Lit(TypeText(w)), Op(a, ","), Op(b, "")]
    case UDiv(d, w, a, b) => [Op(R(d), ""), Lit("="), Lit("udiv"), Lit(TypeText(w)), Op(a, ","), Op(b, "")]
    case Icmp(d, p, w, a, b) =>
      [Op(R(d), ""), Lit("="), Lit("icmp"), Lit(PredText(p)), Lit(TypeText(w)), Op(a, ","), Op(b, "")]
    case Select(d, c, w, a, b) =>
      [Op(R(d), ""), Lit("="), Lit("select"), Lit("i1"), Op(c, ","),
       Lit(TypeText(w)), Op(a, ","), Lit(TypeText(w)), Op(b, "")]
    case UaddSat(d, w, a, na, b, nb) =>
      [Op(R(d), ""), Lit("="), Lit("call"), Lit(TypeText(w)), Lit(MARKER + TypeText(w) + "(" + TypeText(w))] +
      NoundefWords(na) + [Op(a, ","), Lit(TypeText(w))] + NoundefWords(nb) + [Op(b, ")")]
    case Alloca(slot, w, align) =>
      [Op(R(slot), ""), Lit("="), Lit("alloca"), Lit(TypeText(w) + ","), Lit("align"), Lit(Dec(align))]
    case Store(w, a, slot, align) =>
      [Lit("store"), Lit(TypeText(w)), Op(a, ","), Lit("ptr"), Op(R(slot), ","), Lit("align"), Lit(Dec(align))]
    case Load(d, w, slot) => [Op(R(d), ""), Lit("="), Lit("load"), Lit(TypeText(w) + ","), Lit("ptr"), Op(R(slot), "")]
  }

  function Texts(ws: seq<Word>): (r: seq<string>)
    ensures |r| == |ws| && forall k :: 0 <= k < |ws| ==> r[k] == WordText(ws[k])
  {
    if ws == [] then [] else [WordText(ws[0])] + Texts(ws[1..])
  }

  function InstrText(i: Instr): string {
    Join(Texts(Words(i)), " ")
  }

  function LineOf(i: Instr): string {
    "  " + InstrText(i) + "\n"
  }

  function CodeText(code: seq<Instr>): string {
    if code == [] then "" else LineOf(code[0]) + CodeText(code[1..])
  }

  // ---------------------------------------------------------------- names

  predicate IsNameChar(c: char) {
    IsAlpha(c) || IsDigit(c) || c == '_' || c == '.' || c == '$' || c == '-'
  }

  predicate IsName(n: string) {
    n != "" && forall k :: 0 <= k < |n| ==> IsNameChar(n[k])
  }

  predicate NamedOperand(o: Operand) {
    o.R? ==> IsName(o.name)
  }

  // Every register of the instruction has an unquoted LLVM name.
  predicate Named(i: Instr) {
    match i
    case Bin(d, _, _, a, b, _, _) => IsName(d) && NamedOperand(a) && NamedOperand(b)
    case UDiv(d, _, a, b) => IsName(d) && NamedOperand(a) && NamedOperand(b)
    case Icmp(d, _, _, a, b) => IsName(d) && NamedOperand(a) && NamedOperand(b)
    case Select(d, c, _, a, b) => IsName(d) && NamedOperand(c) && NamedOperand(a) && NamedOperand(b)
    case UaddSat(d, _, a, _, b, _) => IsName(d) && NamedOperand(a) && NamedOperand(b)
    case Alloca(slot, _, _) => IsName(slot)
    case Store(_, a, slot, _) => IsName(slot) && NamedOperand(a)
    case Load(d, _, slot) => IsName(d) && IsName(slot)
  }

  // What words are made of: no blanks, no line ends.
  predicate IsWordChar(c: char) {
    IsNameChar(c) || c == '%' || c == ',' || c == '(' || c == ')' || c == '@' || c == '='
  }

  predicate IsWordText(s: string) {
    s != "" && forall k :: 0 <= k < |s| ==> IsWordChar(s[k])
  }

  // Fixed text that no pass mistakes for the word `poison`.
  predicate LitOk(s: string) {
    IsWordText(s) && ('o' !in s || 'p' !in s)
  }

  predicate WordOk(w: Word) {
    match w
    case Lit(text) => LitOk(text)
    case Op(o, suffix) => NamedOperand(o) && (suffix == "" || suffix == "," || suffix == ")")
  }

  predicate WordsOk(ws: seq<Word>) {
    forall k :: 0 <= k < |ws| ==> WordOk(ws[k])
  }

  lemma OpcodesOk(op: BinOp, p: Pred)
    ensures LitOk(OpText(op)) && LitOk(PredText(p))
  {
  }

  lemma KeywordsOk()
    ensures LitOk("=") && LitOk("udiv") && LitOk("icmp") && LitOk("select") && LitOk("i1")
    ensures LitOk("call") && LitOk("noundef") && LitOk("nuw") && LitOk("nsw")
  {
  }

  lemma MemoryWordsOk()
    ensures LitOk("=") && LitOk("alloca") && LitOk("align") && LitOk("store") && LitOk("ptr") && LitOk("load")
  {
  }

  lemma TypesOk(w: Width, n: nat)
    ensures LitOk(TypeText(w)) && LitOk(TypeText(w) + ",") && LitOk(Dec(n))
    ensures LitOk(MARKER + TypeText(w) + "(" + TypeText(w))
  {
  }

  lemma WordsOkConcat(a: seq<Word>, b: seq<Word>)
    requires WordsOk(a) && WordsOk(b)
    ensures WordsOk(a + b)
  {
  }

  lemma BinWordsOk(i: Instr)
    requires Named(i) && i.Bin?
    ensures WordsOk(Words(i)) && |Words(i)| > 1
  {
    KeywordsOk();
    TypesOk(i.w, 0);
    OpcodesOk(i.op, Eq);
    var front, flags := [Op(R(i.dst), ""), Lit("="), Lit(OpText(i.op))], FlagWords(i.nuw, i.nsw);
    var back := [Lit(TypeText(i.w)), Op(i.a, ","), Op(i.b, "")];
    WordsOkConcat(front, flags);
    WordsOkConcat(front + flags, back);
  }

  lemma SatWordsOk(i: Instr)
    requires Named(i) && i.UaddSat?
    ensures WordsOk(Words(i)) && |Words(i)| > 1
  {
    KeywordsOk();
    TypesOk(i.w, 0);
    var ty := TypeText(i.w);
    var front := [Op(R(i.dst), ""), Lit("="), Lit("call"), Lit(ty), Lit(MARKER + ty + "(" + ty)];
    var na, mid := NoundefWords(i.noundefA), [Op(i.a, ","), Lit(ty)];
    var nb, back := NoundefWords(i.noundefB), [Op(i.b, ")")];
    WordsOkConcat(front, na);
    WordsOkConcat(front + na, mid);
    WordsOkConcat(front + na + mid, nb);
    WordsOkConcat(front + na + mid + nb, back);
  }

  lemma InstrWordsOk(i: Instr)
    requires Named(i)
    ensures WordsOk(Words(i)) && |Words(i)| > 1
  {
    if i.Bin? {
      BinWordsOk(i);
    } else if i.UaddSat? {
      SatWordsOk(i);
    } else if i.Alloca? || i.Store? || i.Load? {
      MemoryOk(i);
    } else {
      KeywordsOk();
      TypesOk(i.w, 0);
      if i.Icmp? { OpcodesOk(Add, i.pred); }
    }
  }

  lemma MemoryOk(i: Instr)
    requires Named(i) && (i.Alloca? || i.Store? || i.Load?)
    ensures WordsOk(Words(i)) && |Words(i)| > 1
  {
    MemoryWordsOk();
    TypesOk(i.w, if i.Load? then 0 else i.align);
  }
}
