/** The buffer SHAPE grammar of the command line (src/buffer_overrides.rs). */
module BufferShapes {
  import opened Options
  import opened Text
  import opened Decimal

  // The SAW type expressions the parser builds.
  datatype SawType =
    | Int(width: nat)
    | Array(count: nat, width: nat)
    | NamedStruct(llvmName: string)
    | StructType(fields: seq<SawType>)
    | PackedStructType(fields: seq<SawType>)

  // ---------------------------------------------------------------- the parser

  // Between a prefix and a suffix that do not overlap.
  function Between(s: string, open: string, close: string): Option<string> {
    if open <= s && |open| + |close| <= |s| && s[|s| - |close|..] == close then Some(s[|open|..|s| - |close|]) else None
  }

  function ParseWidthDigits(s: string): Option<nat> {
    var w := ParseUint(s, U32_MAX);
    if w.Some? && w.value > 0 then w else None
  }

  function ParseIntWidth(s: string): Option<nat> {
    if s != "" && s[0] == 'i' then ParseWidthDigits(s[1..]) else None
  }

  function EnsureLlvmPrefix(name: string): Option<string> {
    var n := Trim(name);
    if n == "" then None
    else if "struct." <= n || "class." <= n || "union." <= n then Some(n)
    else Some("struct." + n)
  }

  function ParseShape(text: string): Option<SawType>
    decreases |text|, 2, 0
  {
    TrimShrinks(text);
    var s := Trim(text);
    if "struct:" <= s then
      var n := EnsureLlvmPrefix(s[7..]);
      if n.Some? then Some(NamedStruct(n.value)) else None
    else if Between(s, "<{", "}>").Some? then
      var fields := ParseFields(Between(s, "<{", "}>").value, |s|);
      if fields.Some? then Some(PackedStructType(fields.value)) else None
    else if Between(s, "{", "}").Some? then
      var fields := ParseFields(Between(s, "{", "}").value, |s|);
      if fields.Some? then Some(StructType(fields.value)) else None
    else
      var x := Find(s, "x");
      if x.Some? && x.value < |s| then
        var n := ParseUint(Trim(s[..x.value]), USIZE_MAX);
        var w := ParseIntWidth(Trim(s[x.value + 1..]));
        if n.Some? && w.Some? then Some(Array(n.value, w.value)) else None
      else if s != "" && s[0] == 'i' then
        var w := ParseWidthDigits(s[1..]);
        if w.Some? then Some(Int(w.value)) else None
      else
        var n := ParseUint(s, USIZE_MAX);
        if n.Some? then Some(Array(n.value, 8)) else None
  }

  function ParseFields(text: string, bound: nat): Option<seq<SawType>>
    requires |text| < bound
    decreases bound, 1, 0
  {
    TrimShrinks(text);
    var inner := Trim(text);
    if inner == "" then None else ParseEach(SplitComma(inner), bound)
  }

  // Every field must parse.
  function ParseEach(parts: seq<string>, bound: nat): Option<seq<SawType>>
    requires forall i :: 0 <= i < |parts| ==> |parts[i]| < bound
    decreases bound, 0, |parts|
  {
    if parts == [] then Some([])
    else
      TrimShrinks(parts[0]);
      var first := ParseShape(Trim(parts[0]));
      var rest := ParseEach(parts[1..], bound);
      if first.Some? && rest.Some? then Some([first.value] + rest.value) else None
  }

  // ---------------------------------------------------------------- positive widths

  predicate Positive(t: SawType)
    decreases t
  {
    match t
    case Int(w) => w > 0
    case Array(_, w) => w > 0
    case NamedStruct(_) => true
    case StructType(fs) => fs != [] && forall i :: 0 <= i < |fs| ==> Positive(fs[i])
    case PackedStructType(fs) => fs != [] && forall i :: 0 <= i < |fs| ==> Positive(fs[i])
  }

  /** Whatever text is accepted, every integer in the resulting type has a positive width and
      every struct has a field, at every nesting level. */
  lemma {:induction false} AcceptedIsPositive(text: string)
    ensures ParseShape(text).Some? ==> Positive(ParseShape(text).value)
    decreases |text|, 2, 0
  {
    TrimShrinks(text);
    var s := Trim(text);
    if "struct:" <= s {
    } else if Between(s, "<{", "}>").Some? {
      FieldsPositive(Between(s, "<{", "}>").value, |s|);
    } else if Between(s, "{", "}").Some? {
      FieldsPositive(Between(s, "{", "}").value, |s|);
    }
  }

  lemma {:induction false} FieldsPositive(text: string, bound: nat)
    requires |text| < bound
    ensures var r := ParseFields(text, bound);
      r.Some? ==> r.value != [] && forall i :: 0 <= i < |r.value| ==> Positive(r.value[i])
    decreases bound, 1, 0
  {
    TrimShrinks(text);
    if Trim(text) != "" { EachPositive(SplitComma(Trim(text)), bound); }
  }

  lemma {:induction false} EachPositive(parts: seq<string>, bound: nat)
    requires forall i :: 0 <= i < |parts| ==> |parts[i]| < bound
    ensures var r := ParseEach(parts, bound);
      r.Some? ==> |r.value| == |parts| && forall i :: 0 <= i < |r.value| ==> Positive(r.value[i])
    decreases bound, 0, |parts|
  {
    if parts != [] {
      TrimShrinks(parts[0]);
      AcceptedIsPositive(Trim(parts[0]));
      EachPositive(parts[1..], bound);
    }
  }

  // ---------------------------------------------------------------- shapes

  datatype Shape =
    | BytesShape(n: nat)
    | IntShape(w: nat)
    | ArrayShape(n: nat, w: nat)
    | Named(name: string)
    | Fields(fields: seq<Shape>)
    | Packed(fields: seq<Shape>)

  // Numbers fit their types, names are nonempty and trimmed, and a field's text holds no
  // comma: the splitter does not look at brackets.
  predicate WellFormed(sh: Shape)
    decreases sh
  {
    match sh
    case BytesShape(n) => n <= USIZE_MAX
    case IntShape(w) => 0 < w <= U32_MAX
    case ArrayShape(n, w) => n <= USIZE_MAX && 0 < w <= U32_MAX
    case Named(name) => name != "" && Trimmed(name)
    case Fields(fs) => fs != [] && forall i :: 0 <= i < |fs| ==> WellFormed(fs[i]) && ',' !in Print(fs[i])
    case Packed(fs) => fs != [] && forall i :: 0 <= i < |fs| ==> WellFormed(fs[i]) && ',' !in Print(fs[i])
  }

  function Print(sh: Shape): string
    decreases sh
  {
    match sh
    case BytesShape(n) => Dec(n)
    case IntShape(w) => "i" + Dec(w)
    case ArrayShape(n, w) => Dec(n) + "xi" + Dec(w)
    case Named(name) => "struct:" + name
    case Fields(fs) => "{" + PrintFields(fs) + "}"
    case Packed(fs) => "<{" + PrintFields(fs) + "}>"
  }

  function PrintFields(fs: seq<Shape>): string
    decreases fs
  {
    if fs == [] then ""
    else if |fs| == 1 then Print(fs[0])
    else Print(fs[0]) + "," + PrintFields(fs[1..])
  }

  // The SAW type a shape denotes.
  function Denotes(sh: Shape): SawType
    decreases sh
  {
    match sh
    case BytesShape(n) => Array(n, 8)
    case IntShape(w) => Int(w)
    case ArrayShape(n, w) => Array(n, w)
    case Named(name) =>
      NamedStruct(if "struct." <= name || "class." <= name || "union." <= name then name else "struct." + name)
    case Fields(fs) => StructType(DenoteAll(fs))
    case Packed(fs) => PackedStructType(DenoteAll(fs))
  }

  function DenoteAll(fs: seq<Shape>): seq<SawType>
    decreases fs
  {
    if fs == [] then [] else [Denotes(fs[0])] + DenoteAll(fs[1..])
  }

  // ---------------------------------------------------------------- round trip

  lemma {:induction false} PrintTrimmed(sh: Shape)
    requires WellFormed(sh)
    ensures Trimmed(Print(sh)) && Print(sh) != ""
  {
  }

  lemma {:induction false} FieldsTrimmed(fs: seq<Shape>)
    requires fs != [] && forall i :: 0 <= i < |fs| ==> WellFormed(fs[i])
    ensures Trimmed(PrintFields(fs)) && PrintFields(fs) != ""
  {
    PrintTrimmed(fs[0]);
    if |fs| > 1 { FieldsTrimmed(fs[1..]); }
  }

  function PrintEach(fs: seq<Shape>): seq<string> {
    seq(|fs|, i requires 0 <= i < |fs| => Print(fs[i]))
  }

  lemma {:induction false} SplitFields(fs: seq<Shape>)
    requires fs != [] && forall i :: 0 <= i < |fs| ==> ',' !in Print(fs[i])
    ensures SplitComma(PrintFields(fs)) == PrintEach(fs)
  {
    var first := Print(fs[0]);
    if |fs| == 1 {
      SplitCommaPiece(first, "");
      assert first + "" == first;
    } else {
      SplitFields(fs[1..]);
      SplitNext(first, PrintFields(fs[1..]));
      assert PrintFields(fs) == first + ([','] + PrintFields(fs[1..]));
      assert PrintEach(fs) == [first] + PrintEach(fs[1..]);
    }
  }

  lemma SplitNext(first: string, more: string)
    requires ',' !in first
    ensures SplitComma(first + ([','] + more)) == [first] + SplitComma(more)
  {
    var rest := [','] + more;
    assert rest[1..] == more && first + "" == first;
    SplitCommaPiece(first, rest);
  }

  lemma FirstCharRulesOut(s: string)
    requires s != "" && (IsDigit(s[0]) || s[0] == 'i')
    ensures !("struct:" <= s) && Between(s, "<{", "}>").None? && Between(s, "{", "}").None?
  {
    assert "struct:"[0] == 's' && "<{"[0] == '<' && "{"[0] == '{';
  }

  lemma BytesRoundTrip(n: nat)
    requires n <= USIZE_MAX
    ensures ParseShape(Dec(n)) == Some(Array(n, 8))
  {
    var s := Dec(n);
    TrimTrimmed(s);
    FirstCharRulesOut(s);
    FindAbsent(s, "x");
    ParseOfDec(n, USIZE_MAX);
  }

  lemma IntRoundTrip(w: nat)
    requires 0 < w <= U32_MAX
    ensures ParseShape("i" + Dec(w)) == Some(Int(w))
  {
    var s := "i" + Dec(w);
    TrimTrimmed(s);
    FirstCharRulesOut(s);
    FindAbsent(s, "x");
    assert s[1..] == Dec(w);
    ParseOfDec(w, U32_MAX);
  }

  lemma ElementWidth(w: nat)
    requires 0 < w <= U32_MAX
    ensures ParseIntWidth("i" + Dec(w)) == Some(w) && Trimmed("i" + Dec(w))
  {
    assert ("i" + Dec(w))[1..] == Dec(w);
    ParseOfDec(w, U32_MAX);
  }

  lemma ArrayUnfold(count: string, elem: string)
    requires AllDigits(count) && count != "" && elem != "" && Trimmed(elem)
    ensures ParseShape(count + "x" + elem) ==
      var n, w := ParseUint(count, USIZE_MAX), ParseIntWidth(elem);
      if n.Some? && w.Some? then Some(Array(n.value, w.value)) else None
  {
    var s := count + "x" + elem;
    assert s[0] == count[0] && s[|s| - 1] == elem[|elem| - 1];
    TrimTrimmed(s);
    FirstCharRulesOut(s);
    FindChar(count, 'x', elem);
    assert s[..|count|] == count && s[|count| + 1..] == elem;
    TrimTrimmed(count);
    TrimTrimmed(elem);
  }

  lemma ArrayRoundTrip(n: nat, w: nat)
    requires n <= USIZE_MAX && 0 < w <= U32_MAX
    ensures ParseShape(Dec(n) + "xi" + Dec(w)) == Some(Array(n, w))
  {
    var elem := "i" + Dec(w);
    assert Dec(n) + "xi" + Dec(w) == Dec(n) + "x" + elem;
    ElementWidth(w);
    ArrayUnfold(Dec(n), elem);
    ParseOfDec(n, USIZE_MAX);
  }

  lemma NamedRoundTrip(name: string)
    requires name != "" && Trimmed(name)
    ensures ParseShape("struct:" + name) == Some(Denotes(Named(name)))
  {
    var s := "struct:" + name;
    assert "struct:" <= s && s[7..] == name && s[0] == 's' && s[|s| - 1] == name[|name| - 1];
    TrimTrimmed(s);
    TrimTrimmed(name);
  }

  lemma BracesBetween(inner: string)
    ensures var s := "{" + inner + "}";
      Trim(s) == s && !("struct:" <= s) && Between(s, "<{", "}>").None? && Between(s, "{", "}") == Some(inner)
  {
    var s := "{" + inner + "}";
    TrimTrimmed(s);
    assert s[0] == '{' && "struct:"[0] == 's' && "<{"[0] == '<';
    assert s[1..|s| - 1] == inner;
  }

  lemma PackedBetween(inner: string)
    ensures var s := "<{" + inner + "}>";
      Trim(s) == s && !("struct:" <= s) && Between(s, "<{", "}>") == Some(inner)
  {
    var s := "<{" + inner + "}>";
    TrimTrimmed(s);
    assert s[0] == '<' && "struct:"[0] == 's';
    assert s[2..|s| - 2] == inner;
  }

  /** Parsing the printed form of any shape of the grammar yields the SAW type it denotes. */
  lemma {:induction false} ShapeRoundTrip(sh: Shape)
    requires WellFormed(sh)
    ensures ParseShape(Print(sh)) == Some(Denotes(sh))
    decreases sh, 1
  {
    match sh
    case BytesShape(n) => BytesRoundTrip(n);
    case IntShape(w) => IntRoundTrip(w);
    case ArrayShape(n, w) => ArrayRoundTrip(n, w);
    case Named(name) => NamedRoundTrip(name);
    case Fields(fs) =>
      BracesBetween(PrintFields(fs));
      FieldsRoundTrip(fs, |Print(sh)|);
    case Packed(fs) =>
      PackedBetween(PrintFields(fs));
      FieldsRoundTrip(fs, |Print(sh)|);
  }

  lemma {:induction false} FieldsRoundTrip(fs: seq<Shape>, bound: nat)
    requires fs != [] && forall i :: 0 <= i < |fs| ==> WellFormed(fs[i]) && ',' !in Print(fs[i])
    requires |PrintFields(fs)| < bound
    ensures ParseFields(PrintFields(fs), bound) == Some(DenoteAll(fs))
    decreases fs, 1
  {
    FieldsTrimmed(fs);
    TrimTrimmed(PrintFields(fs));
    SplitFields(fs);
    EachRoundTrip(fs, PrintEach(fs), bound);
  }

  lemma {:induction false} EachRoundTrip(fs: seq<Shape>, parts: seq<string>, bound: nat)
    requires parts == PrintEach(fs) && forall i :: 0 <= i < |fs| ==> WellFormed(fs[i])
    requires forall i :: 0 <= i < |parts| ==> |parts[i]| < bound
    ensures ParseEach(parts, bound) == Some(DenoteAll(fs))
    decreases fs, 0
  {
    if fs != [] {
      PrintTrimmed(fs[0]);
      TrimTrimmed(parts[0]);
      ShapeRoundTrip(fs[0]);
      EachRoundTrip(fs[1..], parts[1..], bound);
    }
  }
}
