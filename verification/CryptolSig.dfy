/** The two Cryptol signature parsers: monomorphic (src/parsers/cryptol_sig.rs) and
    length-polymorphic (src/parsers/cryptol_poly_sig.rs). */
module CryptolSig {
  import opened Options
  import opened Text
  import opened Decimal

  datatype CryType = Bit | Bitvector(n: nat) | SeqBitvector(len: nat, elemBits: nat) | Other(text: string)

  datatype PolyType =
    | PBit
    | PBitvector(n: nat)
    | PSeq(len: nat, elemBits: nat)
    | PSeqVar(lenVar: string, elemBits: nat)
    | POther(text: string)

  datatype CrySig = CrySig(params: seq<CryType>, ret: CryType)
  datatype PolySig = PolySig(typeVars: seq<string>, upperBounds: map<string, nat>, params: seq<PolyType>, ret: PolyType)

  predicate StartsWith(s: string, c: char) {
    s != "" && s[0] == c
  }

  predicate EndsWith(s: string, c: char) {
    s != "" && s[|s| - 1] == c
  }

  predicate IsIdent(s: string) {
    && s != "" && (IsAlpha(s[0]) || s[0] == '_')
    && forall i :: 0 <= i < |s| ==> IsAlpha(s[i]) || IsDigit(s[i]) || s[i] == '_' || s[i] == '\''
  }

  // ---------------------------------------------------------------- one type

  // `[X][M]`: the trimmed texts of X and M.
  function TwoBrackets(s: string): Option<(string, string)> {
    if !StartsWith(s, '[') then None
    else
      var close := Find(s, "]");
      if close.None? || close.value == 0 then None
      else
        var rest := s[close.value + 1..];
        if !StartsWith(rest, '[') || !EndsWith(rest, ']') then None
        else Some((Trim(s[1..close.value]), Trim(rest[1..|rest| - 1])))
  }

  // `[N]`.
  function OneBracket(s: string): Option<nat> {
    if StartsWith(s, '[') && EndsWith(s, ']') && '[' !in s[1..|s| - 1] then ParseUint(Trim(s[1..|s| - 1]), USIZE_MAX)
    else None
  }

  function ParseSingleType(text: string): CryType {
    var s := Trim(text);
    if s == "Bit" then Bit
    else
      var two := TwoBrackets(s);
      var n := if two.Some? then ParseUint(two.value.0, USIZE_MAX) else None;
      var m := if two.Some? then ParseUint(two.value.1, USIZE_MAX) else None;
      if n.Some? && m.Some? then SeqBitvector(n.value, m.value)
      else
        var b := OneBracket(s);
        if b.Some? then Bitvector(b.value) else Other(s)
  }

  function ParseTypeToken(text: string): PolyType {
    var s := Trim(text);
    if s == "Bit" then PBit
    else
      var two := TwoBrackets(s);
      var m := if two.Some? then ParseUint(two.value.1, USIZE_MAX) else None;
      var n := if two.Some? then ParseUint(two.value.0, USIZE_MAX) else None;
      if m.Some? && n.Some? then PSeq(n.value, m.value)
      else if m.Some? && IsIdent(two.value.0) then PSeqVar(two.value.0, m.value)
      else
        var b := OneBracket(s);
        if b.Some? then PBitvector(b.value) else POther(s)
  }

  // What the monomorphic parser should say where the polymorphic one says p.
  ghost predicate Agrees(p: PolyType, m: CryType) {
    match p
    case PBit => m == Bit
    case PBitvector(n) => m == Bitvector(n)
    case PSeq(n, k) => m == SeqBitvector(n, k)
    case PSeqVar(_, _) => m.Other? && ParseTypeToken(m.text) == p
    case POther(text) => m == Other(text)
  }

  lemma {:induction false} TrimEndStart(s: string)
    requires TrimStart(s) == s
    ensures TrimStart(TrimEnd(s)) == TrimEnd(s)
    decreases |s|
  {
    if s != "" && IsSpace(s[|s| - 1]) {
      var t := s[..|s| - 1];
      if t != "" { assert t[0] == s[0]; TrimShrinks(s[1..]); }
      TrimEndStart(t);
    }
  }

  lemma TrimTwice(s: string)
    ensures Trim(Trim(s)) == Trim(s)
  {
    TrimStartTwice(s);
    TrimEndStart(TrimStart(s));
    TrimEndTwice(TrimStart(s));
  }

  lemma SecondBracketInside(s: string, close: nat)
    requires 0 < close < |s| && StartsWith(s[close + 1..], '[') && EndsWith(s[close + 1..], ']')
    ensures |s| > 2 && '[' in s[1..|s| - 1]
  {
    var rest := s[close + 1..];
    assert rest[0] != rest[|rest| - 1];
    assert s[close + 1] == rest[0] && close + 1 < |s| - 1;
    assert s[1..|s| - 1][close] == '[';
  }

  // A two-bracket type is never also a one-bracket type.
  lemma TwoNotOne(s: string)
    requires TwoBrackets(s).Some?
    ensures OneBracket(s).None?
  {
    SecondBracketInside(s, Find(s, "]").value);
  }

  /** On any text at all the two parsers agree about a single type, except that a sequence
      with an identifier for its length is unrecognised text to the monomorphic one. */
  lemma TokensAgree(text: string)
    ensures Agrees(ParseTypeToken(text), ParseSingleType(text))
  {
    var s := Trim(text);
    TrimTwice(text);
    if TwoBrackets(s).Some? { TwoNotOne(s); }
  }

  // ---------------------------------------------------------------- arrow types

  // split("->"): never empty.
  function SplitArrow(s: string): (parts: seq<string>)
    ensures parts != []
    decreases |s|
  {
    if s == "" then [""]
    else if "->" <= s then [""] + SplitArrow(s[2..])
    else Prepend([s[0]], SplitArrow(s[1..]))
  }

  function PolyTypes(parts: seq<string>): (r: seq<PolyType>)
    ensures |r| == |parts| && forall i :: 0 <= i < |parts| ==> r[i] == ParseTypeToken(Trim(parts[i]))
  {
    if parts == [] then [] else [ParseTypeToken(Trim(parts[0]))] + PolyTypes(parts[1..])
  }

  function MonoTypes(parts: seq<string>): (r: seq<CryType>)
    ensures |r| == |parts| && forall i :: 0 <= i < |parts| ==> r[i] == ParseSingleType(Trim(parts[i]))
  {
    if parts == [] then [] else [ParseSingleType(Trim(parts[0]))] + MonoTypes(parts[1..])
  }

  lemma MonoNext(parts: seq<string>, i: nat)
    requires i < |parts|
    ensures MonoTypes(parts[i..]) == [ParseSingleType(Trim(parts[i]))] + MonoTypes(parts[i + 1..])
  {
    assert parts[i..][1..] == parts[i + 1..];
  }

  function ParseArrowType(s: string): Option<CrySig> {
    var types := MonoTypes(SplitArrow(s));
    if |types| < 2 then None else Some(CrySig(types[..|types| - 1], types[|types| - 1]))
  }

  function ParseArrowBody(s: string): Option<(seq<PolyType>, PolyType)> {
    var types := PolyTypes(SplitArrow(s));
    if |types| < 2 then None else Some((types[..|types| - 1], types[|types| - 1]))
  }

  // The accumulating loop of the monomorphic parser.
  method ParseArrowTypeLoop(s: string) returns (sig: Option<CrySig>)
    ensures sig == ParseArrowType(s)
  {
    var segments := SplitArrow(s);
    if |segments| < 2 { return None; }
    var types := ParseSegments(segments);
    sig := Some(CrySig(types[..|types| - 1], types[|types| - 1]));
  }

  method ParseSegments(segments: seq<string>) returns (types: seq<CryType>)
    ensures types == MonoTypes(segments)
  {
    types := [];
    for i := 0 to |segments|
      invariant types + MonoTypes(segments[i..]) == MonoTypes(segments)
    {
      MonoNext(segments, i);
      types := types + [ParseSingleType(Trim(segments[i]))];
    }
    assert segments[|segments|..] == [] && types + [] == types;
  }

  // ---------------------------------------------------------------- full signatures

  function SplitOnce(s: string, sep: string): Option<(string, string)> {
    var pos := Find(s, sep);
    if pos.None? || pos.value + |sep| > |s| then None
    else Some((Trim(s[..pos.value]), Trim(s[pos.value + |sep|..])))
  }

  // The upper bound a predicate states, if any: `n <= K` or `K >= n`.
  function PredicateBound(pred: string): Option<(string, nat)> {
    var le := SplitOnce(pred, "<=");
    var k := if le.Some? then ParseUint(le.value.1, USIZE_MAX) else None;
    if k.Some? && IsIdent(le.value.0) then Some((le.value.0, k.value))
    else
      var ge := SplitOnce(pred, ">=");
      var j := if ge.Some? then ParseUint(ge.value.0, USIZE_MAX) else None;
      if j.Some? && IsIdent(ge.value.1) then Some((ge.value.1, j.value)) else None
  }

  function Bounds(preds: seq<string>): map<string, nat> {
    if preds == [] then map[]
    else
      var rest := Bounds(preds[..|preds| - 1]);
      var b := PredicateBound(Trim(preds[|preds| - 1]));
      if b.Some? then rest[b.value.0 := b.value.1] else rest
  }

  function NonEmpty(parts: seq<string>): seq<string> {
    if parts == [] then []
    else (if Trim(parts[0]) == "" then [] else [Trim(parts[0])]) + NonEmpty(parts[1..])
  }

  // `{a, b}` at the front: the names, and the text after it.
  function Binder(s: string): Option<(seq<string>, string)> {
    if !StartsWith(s, '{') then Some(([], s))
    else
      var after := s[1..];
      var close := Find(after, "}");
      if close.None? || close.value >= |after| then None
      else Some((NonEmpty(SplitComma(after[..close.value])), TrimStart(after[close.value + 1..])))
  }

  function DropFatArrows(s: string): string
    decreases |s|
  {
    if "=>" <= s then DropFatArrows(s[2..]) else s
  }

  // `(preds) =>` at the front: the bounds, and the text after it.
  function Context(s: string): Option<(map<string, nat>, string)> {
    if StartsWith(s, '(') then
      var after := s[1..];
      var close := Find(after, ")");
      if close.None? || close.value >= |after| then None
      else
        var rest := TrimStart(after[close.value + 1..]);
        if "=>" <= rest then Some((Bounds(SplitComma(after[..close.value])), TrimStart(rest[2..]))) else None
    else if "=>" <= s then Some((map[], TrimStart(DropFatArrows(s))))
    else Some((map[], s))
  }

  function ParseFullSignature(s: string): Option<PolySig> {
    var binder := Binder(Trim(s));
    if binder.None? then None
    else
      var context := Context(binder.value.1);
      if context.None? then None
      else
        var body := ParseArrowBody(context.value.1);
        if body.None? then None
        else Some(PolySig(binder.value.0, context.value.0, body.value.0, body.value.1))
  }

  // The binder and context loops of the polymorphic parser: push each nonempty name, and
  // record each upper bound over any earlier one for the same variable.
  method CollectTypeVars(inside: string) returns (vars: seq<string>)
    ensures vars == NonEmpty(SplitComma(inside))
  {
    var parts := SplitComma(inside);
    vars := [];
    for i := 0 to |parts|
      invariant vars + NonEmpty(parts[i..]) == NonEmpty(parts)
    {
      var name := Trim(parts[i]);
      assert parts[i..][1..] == parts[i + 1..];
      if name != "" { vars := vars + [name]; }
    }
    assert parts[|parts|..] == [];
  }

  method CollectUpperBounds(inside: string) returns (upperBounds: map<string, nat>)
    ensures upperBounds == Bounds(SplitComma(inside))
  {
    var parts := SplitComma(inside);
    upperBounds := map[];
    for i := 0 to |parts|
      invariant upperBounds == Bounds(parts[..i])
    {
      assert parts[..i + 1][..i] == parts[..i];
      var b := PredicateBound(Trim(parts[i]));
      if b.Some? { upperBounds := upperBounds[b.value.0 := b.value.1]; }
    }
    assert parts[..|parts|] == parts;
  }
}
