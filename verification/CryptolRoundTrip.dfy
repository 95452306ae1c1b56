/** Printing a signature and parsing it, and the agreement of the two parsers on whole
    signatures. */
module CryptolRoundTrip {
  import opened Options
  import opened Text
  import opened Decimal
  import opened CryptolSig

  // ---------------------------------------------------------------- agreement

  // The same pieces up to surrounding blanks.
  ghost predicate SamePieces(p: seq<string>, q: seq<string>) {
    |p| == |q| && forall i :: 0 <= i < |p| ==> Trim(p[i]) == Trim(q[i])
  }

  function AppendLast(parts: seq<string>, c: char): seq<string>
    requires parts != []
  {
    parts[..|parts| - 1] + [parts[|parts| - 1] + [c]]
  }

  lemma AppendPrepend(h: char, r: seq<string>, c: char)
    requires r != []
    ensures AppendLast(Prepend([h], r), c) == Prepend([h], AppendLast(r, c))
  {
    if |r| == 1 { assert [h] + (r[0] + [c]) == ([h] + r[0]) + [c]; }
  }

  lemma AppendCons(p: string, r: seq<string>, c: char)
    requires r != []
    ensures AppendLast([p] + r, c) == [p] + AppendLast(r, c)
  {
  }

  lemma {:induction false} SplitArrowSnoc(s: string, c: char)
    requires IsSpace(c)
    ensures SplitArrow(s + [c]) == AppendLast(SplitArrow(s), c)
    decreases |s|
  {
    var t := s + [c];
    if s == "" {
      assert t[1..] == "";
      assert [c] + "" == [c] && "" + [c] == [c];
    } else if "->" <= s {
      assert "->" <= t && t[2..] == s[2..] + [c];
      SplitArrowSnoc(s[2..], c);
      AppendCons("", SplitArrow(s[2..]), c);
    } else {
      assert t[1..] == s[1..] + [c];
      SplitArrowSnoc(s[1..], c);
      BlankNoArrow(s, c);
      AppendPrepend(s[0], SplitArrow(s[1..]), c);
    }
  }

  lemma BlankNoArrow(s: string, c: char)
    requires s != "" && !("->" <= s) && IsSpace(c)
    ensures !("->" <= s + [c])
  {
    var t := s + [c];
    if |s| == 1 { assert t[1] == c && "->"[1] == '>'; }
      else { assert t[0] == s[0] && t[1] == s[1] && s == [s[0], s[1]] + s[2..]; }
  }

  lemma {:induction false} TrimStartPieces(s: string)
    ensures SamePieces(SplitArrow(TrimStart(s)), SplitArrow(s))
  {
    if s != "" && IsSpace(s[0]) {
      TrimStartPieces(s[1..]);
      assert "->"[0] == '-';
      TrimBefore(s[0], SplitArrow(s[1..])[0]);
    }
  }

  lemma {:induction false} TrimEndPieces(s: string)
    ensures SamePieces(SplitArrow(TrimEnd(s)), SplitArrow(s))
    decreases |s|
  {
    if s != "" && IsSpace(s[|s| - 1]) {
      var t, c := s[..|s| - 1], s[|s| - 1];
      assert s == t + [c];
      TrimEndPieces(t);
      SplitArrowSnoc(t, c);
      var r := SplitArrow(t);
      TrimAfter(r[|r| - 1], c);
    }
  }

  // A signature with no binder, no context and no leading fat arrow.
  predicate IsBare(s: string) {
    var t := Trim(s);
    !StartsWith(t, '{') && !StartsWith(t, '(') && !("=>" <= t)
  }

  lemma BareBody(s: string)
    requires IsBare(s)
    ensures ParseFullSignature(s) ==
      var body := ParseArrowBody(Trim(s));
      if body.None? then None else Some(PolySig([], map[], body.value.0, body.value.1))
  {
  }

  lemma PiecesAgree(ps: seq<string>, qs: seq<string>)
    requires SamePieces(ps, qs)
    ensures forall i :: 0 <= i < |ps| ==> Agrees(PolyTypes(ps)[i], MonoTypes(qs)[i])
  {
    forall i | 0 <= i < |ps| ensures Agrees(PolyTypes(ps)[i], MonoTypes(qs)[i]) {
      TokensAgree(Trim(qs[i]));
    }
  }

  // The parsers succeed together, find the same number of parameters, and agree about each.
  ghost predicate ParsersAgree(s: string) {
    && (ParseFullSignature(s).Some? <==> ParseArrowType(s).Some?)
    && (ParseFullSignature(s).Some? ==>
          var p, m := ParseFullSignature(s).value, ParseArrowType(s).value;
          && p.typeVars == [] && p.upperBounds == map[]
          && |p.params| == |m.params| && Agrees(p.ret, m.ret)
          && forall i :: 0 <= i < |p.params| ==> Agrees(p.params[i], m.params[i]))
  }

  lemma BareAgree(s: string)
    requires IsBare(s)
    ensures ParsersAgree(s)
  {
    SamePiecesTrimmed(s);
    BareBody(s);
    PiecesAgree(SplitArrow(Trim(s)), SplitArrow(s));
  }

  lemma SamePiecesTrimmed(s: string)
    ensures SamePieces(SplitArrow(Trim(s)), SplitArrow(s))
  {
    TrimStartPieces(s);
    TrimEndPieces(TrimStart(s));
  }

  // ---------------------------------------------------------------- what the prefix costs

  predicate SuffixOf(v: string, t: string) {
    |v| <= |t| && t[|t| - |v|..] == v
  }

  lemma SuffixAt(t: string, n: nat)
    requires n <= |t|
    ensures SuffixOf(t[n..], t)
  {
  }

  lemma SuffixTwice(w: string, v: string, t: string)
    requires SuffixOf(w, v) && SuffixOf(v, t)
    ensures SuffixOf(w, t)
  {
    assert t[|t| - |w|..] == t[|t| - |v|..][|v| - |w|..];
  }

  lemma {:induction false} TrimStartSuffix(s: string)
    ensures SuffixOf(TrimStart(s), s)
  {
    if s != "" && IsSpace(s[0]) {
      TrimStartSuffix(s[1..]);
      SuffixAt(s, 1);
      SuffixTwice(TrimStart(s[1..]), s[1..], s);
    }
  }

  lemma {:induction false} FatArrowSuffix(s: string)
    ensures SuffixOf(DropFatArrows(s), s) && ("=>" <= s ==> |DropFatArrows(s)| < |s|)
    decreases |s|
  {
    if "=>" <= s {
      FatArrowSuffix(s[2..]);
      SuffixAt(s, 2);
      SuffixTwice(DropFatArrows(s[2..]), s[2..], s);
    }
  }

  // What is left of a text whose front was cut off and trimmed.
  lemma CutSuffix(s: string, n: nat)
    requires n <= |s|
    ensures SuffixOf(TrimStart(s[n..]), s) && |TrimStart(s[n..])| <= |s| - n
  {
    TrimStartSuffix(s[n..]);
    SuffixAt(s, n);
    SuffixTwice(TrimStart(s[n..]), s[n..], s);
  }

  lemma BinderSuffix(s: string)
    requires Binder(s).Some?
    ensures SuffixOf(Binder(s).value.1, s) && (StartsWith(s, '{') ==> |Binder(s).value.1| < |s|)
  {
    if StartsWith(s, '{') {
      var close := Find(s[1..], "}").value;
      assert s[1..][close + 1..] == s[close + 2..];
      CutSuffix(s, close + 2);
    }
  }

  predicate HasContext(s: string) {
    StartsWith(s, '(') || "=>" <= s
  }

  lemma ContextSuffix(s: string)
    requires Context(s).Some?
    ensures SuffixOf(Context(s).value.1, s) && (HasContext(s) ==> |Context(s).value.1| < |s|)
  {
    if StartsWith(s, '(') {
      ParenthesisSuffix(s);
    } else if "=>" <= s {
      FatArrowSuffix(s);
      CutSuffix(DropFatArrows(s), 0);
      assert DropFatArrows(s)[0..] == DropFatArrows(s);
      SuffixTwice(TrimStart(DropFatArrows(s)), DropFatArrows(s), s);
    }
  }

  lemma ParenthesisSuffix(s: string)
    requires StartsWith(s, '(') && Context(s).Some?
    ensures SuffixOf(Context(s).value.1, s) && |Context(s).value.1| < |s|
  {
    var close := Find(s[1..], ")").value;
    var rest := TrimStart(s[1..][close + 1..]);
    assert s[1..][close + 1..] == s[close + 2..];
    CutSuffix(s, close + 2);
    CutSuffix(rest, 2);
    SuffixTwice(TrimStart(rest[2..]), rest, s);
  }

  // Text in front only adds pieces, or lengthens the first one.
  lemma {:induction false} FrontPieces(u: string, v: string)
    ensures |SplitArrow(u + v)| >= |SplitArrow(v)|
    ensures |SplitArrow(u + v)| == |SplitArrow(v)| ==> SplitArrow(u + v) == Prepend(u, SplitArrow(v))
    decreases |u|
  {
    if u == "" {
      assert u + v == v && "" + SplitArrow(v)[0] == SplitArrow(v)[0];
    } else {
      var n := |u| - 1;
      var c, w := u[n], [u[n]] + v;
      FrontChar(c, v);
      FrontPieces(u[..n], w);
      assert u + v == u[..n] + w;
      if |SplitArrow(u + v)| == |SplitArrow(v)| {
        PrependTwice(u[..n], [c], SplitArrow(v));
        assert u[..n] + [c] == u;
      }
    }
  }

  lemma FrontChar(c: char, v: string)
    ensures |SplitArrow([c] + v)| >= |SplitArrow(v)|
    ensures |SplitArrow([c] + v)| == |SplitArrow(v)| ==> SplitArrow([c] + v) == Prepend([c], SplitArrow(v))
  {
    var s := [c] + v;
    assert s[1..] == v;
    if "->" <= s {
      assert s[1] == '>' && v[0] == '>' && s[2..] == v[1..];
      assert "->"[0] == '-';
    }
  }

  // A nonblank front survives trimming, so the first piece cannot read the same without it.
  lemma FrontShows(u: string, q: string)
    requires u != "" && !IsSpace(u[0])
    ensures Trim(u + q) != Trim(q) && Trim(u + q) != "" && Trim(u + q)[0] == u[0]
  {
    TrimStartNothing(u + q);
    TrimEndFront(u, q);
    TrimShrinks(q);
    TrimEndLonger(q);
  }

  lemma TrimStartNothing(s: string)
    requires s != "" && !IsSpace(s[0])
    ensures TrimStart(s) == s
  {
  }

  lemma {:induction false} TrimEndFront(u: string, q: string)
    requires u != "" && !IsSpace(u[0])
    ensures var r := TrimEnd(u + q); r != "" && r[0] == u[0] && |r| > |TrimEnd(q)|
    decreases |u| + |q|
  {
    var s := u + q;
    if IsSpace(s[|s| - 1]) {
      if q == "" {
        assert s == u && u[..|u| - 1] + "" == u[..|u| - 1];
        TrimEndFront(u[..|u| - 1], "");
      } else {
        assert s[..|s| - 1] == u + q[..|q| - 1] && s[|s| - 1] == q[|q| - 1];
        TrimEndFront(u, q[..|q| - 1]);
      }
    } else {
      TrimShrinks(q);
    }
  }

  lemma {:induction false} TrimEndLonger(q: string)
    ensures |Trim(q)| <= |TrimEnd(q)|
    decreases |q|
  {
    if q != "" && IsSpace(q[0]) {
      TrimEndLonger(q[1..]);
      TrimEndTail(q);
    }
  }

  lemma {:induction false} TrimEndTail(q: string)
    requires q != ""
    ensures |TrimEnd(q[1..])| <= |TrimEnd(q)|
    decreases |q|
  {
    if IsSpace(q[|q| - 1]) && |q| > 1 {
      assert q[..|q| - 1][1..] == q[1..][..|q| - 2];
      TrimEndTail(q[..|q| - 1]);
    } else if |q| > 1 {
      assert q[1..][|q| - 2] == q[|q| - 1];
    }
  }

  // The first type of a text that starts with a brace, a parenthesis or a fat arrow.
  predicate PrefixLike(c: char) {
    c == '{' || c == '(' || c == '='
  }

  /** Cutting such a front off changes the number of types or the first of them. */
  lemma CutChangesTypes(t: string, v: string)
    requires t != "" && PrefixLike(t[0]) && SuffixOf(v, t) && |v| < |t|
    ensures |SplitArrow(v)| != |SplitArrow(t)| ||
      PolyTypes(SplitArrow(v))[0] != POther(Trim(SplitArrow(t)[0]))
  {
    var u := t[..|t| - |v|];
    assert t == u + v && u[0] == t[0];
    FrontPieces(u, v);
    if |SplitArrow(v)| == |SplitArrow(t)| {
      FrontShows(u, SplitArrow(v)[0]);
      TokenText(SplitArrow(v)[0]);
    }
  }

  lemma TokenText(q: string)
    ensures var p := ParseTypeToken(Trim(q)); p.POther? ==> p.text == Trim(q)
  {
    TrimTwice(q);
  }

  // Such text is no other type to either parser.
  lemma PrefixIsOther(x: string)
    requires Trim(x) != "" && PrefixLike(Trim(x)[0])
    ensures ParseSingleType(Trim(x)) == Other(Trim(x)) && ParseTypeToken(Trim(x)) == POther(Trim(x))
  {
    TrimTwice(x);
    assert "Bit"[0] == 'B';
  }

  lemma FirstPieceStarts(t: string)
    requires t != "" && PrefixLike(t[0])
    ensures var q := Trim(SplitArrow(t)[0]); q != "" && q[0] == t[0]
  {
    var r := SplitArrow(t[1..]);
    assert "->"[0] == '-' && SplitArrow(t) == Prepend([t[0]], r);
    FrontShows([t[0]], r[0]);
  }

  // What the polymorphic parser leaves of a text for its types.
  lemma StrippedBody(t: string)
    requires Binder(t).Some? && Context(Binder(t).value.1).Some?
    ensures var v := Context(Binder(t).value.1).value.1;
      SuffixOf(v, t) && (StartsWith(t, '{') || HasContext(t) ==> |v| < |t|)
  {
    BinderSuffix(t);
    ContextSuffix(Binder(t).value.1);
    SuffixTwice(Context(Binder(t).value.1).value.1, Binder(t).value.1, t);
  }

  /** The two parsers agree exactly on bare signatures and on text without an arrow, which
      neither accepts. */
  lemma SignaturesAgree(s: string)
    ensures ParsersAgree(s) <==> IsBare(s) || ParseArrowType(s).None?
  {
    if IsBare(s) {
      BareAgree(s);
    } else {
      PrefixDisagrees(s);
    }
  }

  lemma PrefixDisagrees(s: string)
    requires !IsBare(s)
    ensures ParseArrowType(s).None? ==> ParseFullSignature(s).None?
    ensures ParseArrowType(s).Some? ==> !ParsersAgree(s)
  {
    var t := Trim(s);
    SamePiecesTrimmed(s);
    if ParseFullSignature(s).Some? {
      var v := Context(Binder(t).value.1).value.1;
      StrippedBody(t);
      FewerPieces(t, v);
      BodiesDiffer(s, v);
      assert ParseFullSignature(s).value.params == ParseArrowBody(v).value.0;
    }
  }

  lemma FewerPieces(t: string, v: string)
    requires SuffixOf(v, t)
    ensures |SplitArrow(v)| <= |SplitArrow(t)|
  {
    assert t == t[..|t| - |v|] + v;
    FrontPieces(t[..|t| - |v|], v);
  }

  lemma BodiesDiffer(s: string, v: string)
    requires !IsBare(s) && SuffixOf(v, Trim(s)) && |v| < |Trim(s)|
    ensures ParseArrowBody(v).Some? && ParseArrowType(s).Some? ==>
      var p, m := ParseArrowBody(v).value.0, ParseArrowType(s).value.params;
      p != [] && m != [] && (|p| != |m| || !Agrees(p[0], m[0]))
  {
    FirstTypesDiffer(s, v);
  }

  lemma FirstTypesDiffer(s: string, v: string)
    requires !IsBare(s) && SuffixOf(v, Trim(s)) && |v| < |Trim(s)|
    ensures |SplitArrow(v)| != |SplitArrow(s)| ||
      !Agrees(PolyTypes(SplitArrow(v))[0], MonoTypes(SplitArrow(s))[0])
  {
    var t := Trim(s);
    PrefixFirst(t);
    SamePiecesTrimmed(s);
    CutChangesTypes(t, v);
    FirstPieceStarts(t);
    PrefixIsOther(SplitArrow(t)[0]);
    TrimTwice(SplitArrow(s)[0]);
    assert MonoTypes(SplitArrow(s))[0] == Other(Trim(SplitArrow(t)[0]));
  }

  lemma PrefixFirst(t: string)
    requires StartsWith(t, '{') || HasContext(t)
    ensures t != "" && PrefixLike(t[0])
  {
    if "=>" <= t { assert t[0] == "=>"[0]; }
  }

  function Tuple(inside: string, rest: string): string {
    "(" + (inside + [')'] + ([' '] + rest))
  }

  function Record(inside: string, rest: string): string {
    "{" + (inside + ['}'] + ([' '] + rest))
  }

  /** A tuple in front of an arrow is read as a context and refused: the monomorphic parser
      accepts `(Bit, Bit) -> Bit`, the polymorphic one does not. */
  lemma TupleRefused(inside: string, rest: string)
    requires ')' !in inside && "->" <= rest && Trimmed(rest)
    ensures ParseArrowType(Tuple(inside, rest)).Some? && ParseFullSignature(Tuple(inside, rest)).None?
  {
    var s := Tuple(inside, rest);
    assert rest[0] == "->"[0];
    TupleTrimmed(inside, rest);
    TrimTrimmed(s);
    NoContext(inside, rest);
    assert s[0] == '(';
    TupleSplits(inside, rest);
  }

  lemma TupleTrimmed(inside: string, rest: string)
    requires rest != "" && Trimmed(rest)
    ensures Trimmed(Tuple(inside, rest)) && Trimmed(Record(inside, rest))
  {
    var s, r := Tuple(inside, rest), Record(inside, rest);
    assert s[|s| - 1] == rest[|rest| - 1] == r[|r| - 1] && s[0] == '(' && r[0] == '{';
  }

  lemma TupleSplits(inside: string, rest: string)
    requires "->" <= rest
    ensures |SplitArrow(Tuple(inside, rest))| >= 2
  {
    var front := "(" + (inside + [')'] + [' ']);
    assert Tuple(inside, rest) == front + rest;
    FrontPieces(front, rest);
  }

  lemma NoContext(inside: string, rest: string)
    requires ')' !in inside && rest != "" && !IsSpace(rest[0]) && rest[0] != '='
    ensures Context(Tuple(inside, rest)).None?
  {
    var tail := [' '] + rest;
    var after := inside + [')'] + tail;
    assert Tuple(inside, rest)[1..] == after;
    FindChar(inside, ')', tail);
    assert after[|inside| + 1..] == tail;
    TrimStartBlank(rest);
    assert rest[0] != "=>"[0];
  }

  /** A record in front is read as a binder: `{x : Bit} -> Bit` has a variable named `x : Bit`. */
  lemma RecordBinds(inside: string, rest: string)
    requires '}' !in inside && ',' !in inside && Trim(inside) != "" && rest != "" && Trimmed(rest)
    ensures var r := ParseFullSignature(Record(inside, rest)); r.Some? ==> r.value.typeVars == [Trim(inside)]
  {
    TupleTrimmed(inside, rest);
    TrimTrimmed(Record(inside, rest));
    RecordBinder(inside, rest);
  }

  lemma RecordBinder(inside: string, rest: string)
    requires '}' !in inside && ',' !in inside && Trim(inside) != ""
    ensures var b := Binder(Record(inside, rest)); b.Some? && b.value.0 == [Trim(inside)]
  {
    var tail := [' '] + rest;
    var after := inside + ['}'] + tail;
    assert Record(inside, rest)[1..] == after;
    FindChar(inside, '}', tail);
    assert after[..|inside|] == inside;
    OneName(inside);
  }

  lemma OneName(inside: string)
    requires ',' !in inside && Trim(inside) != ""
    ensures NonEmpty(SplitComma(inside)) == [Trim(inside)]
  {
    SplitCommaPiece(inside, "");
    assert inside + "" == inside && SplitComma(inside) == [inside] && [inside][1..] == [];
    assert NonEmpty([inside]) == [Trim(inside)] + NonEmpty([]);
  }

  // ---------------------------------------------------------------- printing one type

  predicate WellFormed(p: PolyType) {
    match p
    case PBit => true
    case PBitvector(n) => n <= USIZE_MAX
    case PSeq(n, m) => n <= USIZE_MAX && m <= USIZE_MAX
    case PSeqVar(v, m) => IsIdent(v) && m <= USIZE_MAX
    // Text that means nothing more specific, and fits between arrows.
    case POther(t) => t != "" && Trimmed(t) && !Contains(t, "->") && ParseTypeToken(t) == p
  }

  function Brackets(x: string): string {
    "[" + x + "]"
  }

  function PrintType(p: PolyType): string {
    match p
    case PBit => "Bit"
    case PBitvector(n) => Brackets(Dec(n))
    case PSeq(n, m) => Brackets(Dec(n)) + Brackets(Dec(m))
    case PSeqVar(v, m) => Brackets(v) + Brackets(Dec(m))
    case POther(t) => t
  }

  // Letters, digits, underscores and quotes.
  predicate Solid(s: string) {
    forall i :: 0 <= i < |s| ==> IsAlpha(s[i]) || IsDigit(s[i]) || s[i] == '_' || s[i] == '\''
  }

  lemma TwoBracketsPrinted(x: string, y: string)
    requires Solid(x) && Solid(y)
    ensures TwoBrackets(Brackets(x) + Brackets(y)) == Some((x, y))
  {
    var s := Brackets(x) + Brackets(y);
    var front := "[" + x;
    assert s == front + [']'] + Brackets(y);
    FindChar(front, ']', Brackets(y));
    assert s[|x| + 2..] == Brackets(y) && s[1..|x| + 1] == x;
    assert Brackets(y)[1..|y| + 1] == y;
    TrimTrimmed(x);
    TrimTrimmed(y);
  }

  lemma OneBracketPrinted(x: string)
    requires Solid(x)
    ensures TwoBrackets(Brackets(x)).None? && OneBracket(Brackets(x)) == ParseUint(x, USIZE_MAX)
  {
    var s := Brackets(x);
    var front := "[" + x;
    assert s == front + [']'] + "";
    FindChar(front, ']', "");
    assert s[|x| + 2..] == "" && s[1..|x| + 1] == x;
    TrimTrimmed(x);
  }

  lemma BracketsTrimmed(x: string, z: string)
    requires z == Brackets(x) || exists y :: z == Brackets(x) + Brackets(y)
    ensures Trimmed(z) && z != "Bit" && z != "" && z[0] == '['
  {
    assert z[0] == '[' && z[|z| - 1] == ']' && "Bit"[0] == 'B';
  }

  lemma TypeRoundTrip(p: PolyType)
    requires WellFormed(p)
    ensures ParseTypeToken(PrintType(p)) == p && Trimmed(PrintType(p)) && PrintType(p) != ""
  {
    match p
    case PBit => assert PrintType(p)[0] == 'B' && PrintType(p)[2] == 't';
    case POther(_) =>
    case PBitvector(n) =>
      BracketsTrimmed(Dec(n), PrintType(p));
      TrimTrimmed(PrintType(p));
      OneBracketPrinted(Dec(n));
      ParseOfDec(n, USIZE_MAX);
    case PSeq(n, m) => SeqRoundTrip(n, m);
    case PSeqVar(v, m) => SeqVarRoundTrip(v, m);
  }

  lemma SeqRoundTrip(n: nat, m: nat)
    requires WellFormed(PSeq(n, m))
    ensures var s := PrintType(PSeq(n, m)); ParseTypeToken(s) == PSeq(n, m) && Trimmed(s) && s != ""
  {
    var s := PrintType(PSeq(n, m));
    BracketsTrimmed(Dec(n), s);
    TrimTrimmed(s);
    TwoBracketsPrinted(Dec(n), Dec(m));
    ParseOfDec(n, USIZE_MAX);
    ParseOfDec(m, USIZE_MAX);
  }

  lemma SeqVarRoundTrip(v: string, m: nat)
    requires WellFormed(PSeqVar(v, m))
    ensures var s := PrintType(PSeqVar(v, m)); ParseTypeToken(s) == PSeqVar(v, m) && Trimmed(s) && s != ""
  {
    var s := PrintType(PSeqVar(v, m));
    BracketsTrimmed(v, s);
    TrimTrimmed(s);
    TwoBracketsPrinted(v, Dec(m));
    ParseOfDec(m, USIZE_MAX);
    assert ParseUint(v, USIZE_MAX).None? by { assert !IsDigit(v[0]); }
  }

  // A bracketed word is a variable length exactly when it starts with a letter or an
  // underscore and goes on with those, digits and primes.
  lemma VariableLengthIff(x: string, m: nat)
    requires m <= USIZE_MAX && Trimmed(x) && ']' !in x
    ensures ParseTypeToken("[" + x + "][" + Dec(m) + "]") == PSeqVar(x, m) <==>
      && x != "" && ('a' <= x[0] <= 'z' || 'A' <= x[0] <= 'Z' || x[0] == '_')
      && forall c :: c in x ==> 'a' <= c <= 'z' || 'A' <= c <= 'Z' || '0' <= c <= '9' || c == '_' || c == '\''
  {
    var s := Brackets(x) + Brackets(Dec(m));
    TwoSpelled(x, Dec(m));
    BracketsTrimmed(x, s);
    TrimTrimmed(s);
    AnyTwoBrackets(x, Dec(m));
    ParseOfDec(m, USIZE_MAX);
    IdentIs(x);
    if IsIdent(x) { IdentNotNumber(x); }
  }

  lemma TwoSpelled(x: string, y: string)
    ensures "[" + x + "][" + y + "]" == Brackets(x) + Brackets(y)
  {
    assert "][" == "]" + "[";
  }

  lemma IdentNotNumber(x: string)
    requires IsIdent(x)
    ensures ParseUint(x, USIZE_MAX).None?
  {
    assert !IsDigit(x[0]);
  }

  lemma IdentIs(x: string)
    ensures IsIdent(x) <==>
      && x != "" && ('a' <= x[0] <= 'z' || 'A' <= x[0] <= 'Z' || x[0] == '_')
      && forall c :: c in x ==> 'a' <= c <= 'z' || 'A' <= c <= 'Z' || '0' <= c <= '9' || c == '_' || c == '\''
  {
    if IsIdent(x) {
      forall c | c in x ensures IsAlpha(c) || IsDigit(c) || c == '_' || c == '\'' {
        var i :| 0 <= i < |x| && x[i] == c;
      }
    } else {
      forall i | 0 <= i < |x| ensures x[i] in x {}
    }
  }

  lemma AnyTwoBrackets(x: string, y: string)
    requires Trimmed(x) && ']' !in x && Solid(y)
    ensures TwoBrackets(Brackets(x) + Brackets(y)) == Some((x, y))
  {
    var s, front := Brackets(x) + Brackets(y), "[" + x;
    assert s == front + [']'] + Brackets(y);
    assert front[0] == '[' && front[1..] == x;
    assert ']' !in front by { assert forall i :: 0 < i < |front| ==> front[i] == x[i - 1]; }
    FindChar(front, ']', Brackets(y));
    assert s[|x| + 2..] == Brackets(y) && s[1..|x| + 1] == x;
    assert Brackets(y)[1..|y| + 1] == y;
    TrimTrimmed(x);
    TrimTrimmed(y);
  }

  lemma PrintedHasNoArrow(p: PolyType)
    requires WellFormed(p)
    ensures !Contains(PrintType(p), "->")
  {
    if !p.POther? {
      var s := PrintType(p);
      assert '>' !in s by { if p.PBit? { assert s == ['B', 'i', 't']; } }
      forall i | 0 <= i <= |s| ensures !OccursAt(s, "->", i) {
        if i + 1 < |s| { assert s[i..][1] == s[i + 1] && "->"[1] == '>'; }
      }
    }
  }

  // ---------------------------------------------------------------- printing the body

  function PrintBody(types: seq<PolyType>): string {
    if types == [] then ""
    else if |types| == 1 then PrintType(types[0])
    else PrintType(types[0]) + " -> " + PrintBody(types[1..])
  }

  // Text without an arrow stays in the first piece.
  lemma {:induction false} SplitPiece(p: string, x: string)
    requires !Contains(p, "->") && (x == "" || x[0] != '>')
    ensures SplitArrow(p + x) == Prepend(p, SplitArrow(x))
  {
    if p == "" {
      assert p + x == x;
      assert "" + SplitArrow(x)[0] == SplitArrow(x)[0];
    } else {
      var s := p + x;
      assert s[1..] == p[1..] + x;
      TailHasNoArrow(p);
      FrontHasNoArrow(p, x);
      SplitPiece(p[1..], x);
      PrependTwice([p[0]], p[1..], SplitArrow(x));
      assert [p[0]] + p[1..] == p;
    }
  }

  lemma TailHasNoArrow(p: string)
    requires p != "" && !Contains(p, "->")
    ensures !Contains(p[1..], "->")
  {
    forall i | 0 <= i <= |p| - 1 ensures !OccursAt(p[1..], "->", i) {
      assert p[1..][i..] == p[i + 1..];
      assert !OccursAt(p, "->", i + 1);
    }
  }

  lemma FrontHasNoArrow(p: string, x: string)
    requires p != "" && !Contains(p, "->") && (x == "" || x[0] != '>')
    ensures !("->" <= p + x)
  {
    var s := p + x;
    assert p[0..] == p && !OccursAt(p, "->", 0);
    if |p| > 1 {
      assert s[0] == p[0] && s[1] == p[1] && p == [p[0], p[1]] + p[2..];
    } else if x != "" {
      assert s[1] == x[0] && "->"[1] == '>';
    }
  }

  lemma {:induction false} BodyPieces(types: seq<PolyType>)
    requires types != [] && forall i :: 0 <= i < |types| ==> WellFormed(types[i])
    ensures var parts := SplitArrow(PrintBody(types));
      |parts| == |types| && forall i :: 0 <= i < |parts| ==> Trim(parts[i]) == PrintType(types[i])
  {
    var first := PrintType(types[0]);
    PrintedHasNoArrow(types[0]);
    TypeRoundTrip(types[0]);
    if |types| == 1 {
      OnePiece(first);
      TrimTrimmed(first);
    } else {
      BodyPieces(types[1..]);
      NextPieces(first, PrintBody(types[1..]));
    }
  }

  // The pieces of an arrow type, trimmed: the first, then those of the rest.
  lemma NextPieces(first: string, rest: string)
    requires !Contains(first, "->") && Trimmed(first)
    ensures
      var parts, more := SplitArrow(first + " -> " + rest), SplitArrow(rest);
      && |parts| == |more| + 1 && Trim(parts[0]) == first
      && forall i :: 0 <= i < |more| ==> Trim(parts[i + 1]) == Trim(more[i])
  {
    ArrowPieces(first, rest);
    TrimTrimmed(first);
    TrimAfter(first, ' ');
    TrimBefore(' ', SplitArrow(rest)[0]);
  }

  lemma OnePiece(p: string)
    requires !Contains(p, "->")
    ensures SplitArrow(p) == [p]
  {
    SplitPiece(p, "");
    assert p + "" == p;
  }

  lemma ArrowPieces(first: string, rest: string)
    requires !Contains(first, "->")
    ensures SplitArrow(first + " -> " + rest) == [first + [' ']] + Prepend([' '], SplitArrow(rest))
  {
    var x := [' '] + ("->" + ([' '] + rest));
    assert first + " -> " + rest == first + x;
    SplitPiece(first, x);
    var y := "->" + ([' '] + rest);
    assert x[1..] == y && y[2..] == [' '] + rest && ([' '] + rest)[1..] == rest;
    assert SplitArrow([' '] + rest) == Prepend([' '], SplitArrow(rest));
    assert SplitArrow(y) == [""] + SplitArrow([' '] + rest);
    assert SplitArrow(x)[0] == [' '] + "" == [' '];
  }

  lemma BodyRoundTrip(params: seq<PolyType>, ret: PolyType)
    requires params != [] && WellFormed(ret) && forall i :: 0 <= i < |params| ==> WellFormed(params[i])
    ensures ParseArrowBody(PrintBody(params + [ret])) == Some((params, ret))
  {
    var types := params + [ret];
    BodyPieces(types);
    var parsed := PolyTypes(SplitArrow(PrintBody(types)));
    forall i | 0 <= i < |types| ensures parsed[i] == types[i] {
      TypeRoundTrip(types[i]);
    }
    assert parsed == types;
  }

  // ---------------------------------------------------------------- printing the prefix

  datatype Pred = AtMost(v: string, k: nat) | AtLeast(k: nat, v: string) | Fin(v: string)

  predicate WellFormedPred(p: Pred) {
    IsIdent(p.v) && (p.Fin? || p.k <= USIZE_MAX)
  }

  function PrintPred(p: Pred): string {
    match p
    case AtMost(v, k) => v + " <= " + Dec(k)
    case AtLeast(k, v) => Dec(k) + " >= " + v
    case Fin(v) => "fin " + v
  }

  function BoundsOf(preds: seq<Pred>): map<string, nat> {
    if preds == [] then map[]
    else
      var p := preds[|preds| - 1];
      var rest := BoundsOf(preds[..|preds| - 1]);
      if p.Fin? then rest else rest[p.v := p.k]
  }

  lemma SplitPair(l: string, sep: string, r: string)
    requires |sep| == 2 && sep[0] !in l && sep[0] != ' ' && Trimmed(l) && Trimmed(r)
    ensures SplitOnce(l + " " + sep + " " + r, sep) == Some((l, r))
  {
    var x, y := l + [' '], [' '] + r;
    var s := x + sep + y;
    assert s == l + " " + sep + " " + r;
    FindFirst(x, sep, y);
    assert s[..|x|] == x && s[|x| + 2..] == y;
    TrimAfter(l, ' ');
    TrimBefore(' ', r);
    TrimTrimmed(l);
    TrimTrimmed(r);
  }

  lemma SolidHasNo(s: string, c: char)
    requires Solid(s) && !IsAlpha(c) && !IsDigit(c) && c != '_' && c != '\''
    ensures c !in s && Trimmed(s)
  {
  }

  lemma AtMostSpelled()
    ensures " <= " == " " + "<=" + " " && " >= " == " " + ">=" + " "
  {
  }

  lemma Surrounded(l: string, op: string, r: string)
    ensures l + (" " + op + " ") + r == l + " " + op + " " + r
  {
  }

  lemma AtMostRoundTrip(v: string, k: nat)
    requires IsIdent(v) && k <= USIZE_MAX
    ensures PredicateBound(v + " <= " + Dec(k)) == Some((v, k))
  {
    SolidHasNo(v, '<');
    SplitPair(v, "<=", Dec(k));
    Surrounded(v, "<=", Dec(k));
    AtMostSpelled();
    ParseOfDec(k, USIZE_MAX);
  }

  lemma AtLeastRoundTrip(v: string, k: nat)
    requires IsIdent(v) && k <= USIZE_MAX
    ensures PredicateBound(Dec(k) + " >= " + v) == Some((v, k))
  {
    SolidHasNo(v, '<');
    SolidHasNo(v, '>');
    NoAtMost(v, k);
    Surrounded(Dec(k), ">=", v);
    AtMostSpelled();
    SplitPair(Dec(k), ">=", v);
    ParseOfDec(k, USIZE_MAX);
  }

  lemma NoAtMost(v: string, k: nat)
    requires '<' !in v
    ensures Find(Dec(k) + " >= " + v, "<=").None?
  {
    assert "<="[0] == '<';
    FindAbsent(Dec(k) + " >= " + v, "<=");
  }

  lemma FinRoundTrip(v: string)
    requires IsIdent(v)
    ensures PredicateBound("fin " + v).None?
  {
    SolidHasNo(v, '<');
    SolidHasNo(v, '>');
    FindAbsent("fin " + v, "<=");
    FindAbsent("fin " + v, ">=");
  }

  // The predicate parser reads back exactly the upper bounds.
  lemma PredRoundTrip(p: Pred)
    requires WellFormedPred(p)
    ensures PredicateBound(PrintPred(p)) == if p.Fin? then None else Some((p.v, p.k))
  {
    match p
    case AtMost(v, k) => AtMostRoundTrip(v, k);
    case AtLeast(k, v) => AtLeastRoundTrip(v, k);
    case Fin(v) => FinRoundTrip(v);
  }

  // Items as they appear inside a binder or a context.
  predicate IsItem(s: string) {
    s != "" && Trimmed(s) && forall i :: 0 <= i < |s| ==> s[i] != ',' && s[i] != '}' && s[i] != ')'
  }

  lemma {:induction false} CommaPieces(items: seq<string>)
    requires items != [] && forall i :: 0 <= i < |items| ==> IsItem(items[i])
    ensures var parts := SplitComma(Join(items, ", "));
      |parts| == |items| && forall i :: 0 <= i < |parts| ==> Trim(parts[i]) == items[i]
  {
    var first := items[0];
    TrimTrimmed(first);
    if |items| == 1 {
      SplitCommaPiece(first, "");
      assert first + "" == first;
    } else {
      CommaPieces(items[1..]);
      var rest := Join(items[1..], ", ");
      var x := [','] + ([' '] + rest);
      assert Join(items, ", ") == first + x;
      SplitCommaPiece(first, x);
      assert x[1..] == [' '] + rest && ([' '] + rest)[1..] == rest;
      assert SplitComma(x) == [""] + Prepend([' '], SplitComma(rest));
      assert first + "" == first;
      TrimBefore(' ', SplitComma(rest)[0]);
    }
  }

  lemma {:induction false} JoinHasNo(items: seq<string>, c: char)
    requires c != ',' && c != ' ' && forall i :: 0 <= i < |items| ==> c !in items[i]
    ensures c !in Join(items, ", ")
  {
    if |items| > 1 { JoinHasNo(items[1..], c); }
  }

  lemma {:induction false} NonEmptyAll(parts: seq<string>, items: seq<string>)
    requires |parts| == |items| && forall i :: 0 <= i < |parts| ==> Trim(parts[i]) == items[i] && items[i] != ""
    ensures NonEmpty(parts) == items
  {
    if parts != [] {
      NonEmptyAll(parts[1..], items[1..]);
      assert items == [items[0]] + items[1..];
    }
  }

  function PrintPreds(preds: seq<Pred>): seq<string> {
    seq(|preds|, i requires 0 <= i < |preds| => PrintPred(preds[i]))
  }

  lemma {:induction false} BoundsRoundTrip(parts: seq<string>, preds: seq<Pred>)
    requires |parts| == |preds| && forall i :: 0 <= i < |preds| ==> WellFormedPred(preds[i])
    requires forall i :: 0 <= i < |parts| ==> Trim(parts[i]) == PrintPred(preds[i])
    ensures Bounds(parts) == BoundsOf(preds)
  {
    if parts != [] {
      var n := |parts| - 1;
      BoundsRoundTrip(parts[..n], preds[..n]);
      PredRoundTrip(preds[n]);
      BoundsLast(parts, preds[n]);
    }
  }

  lemma BoundsLast(parts: seq<string>, p: Pred)
    requires parts != [] && PredicateBound(Trim(parts[|parts| - 1])) == if p.Fin? then None else Some((p.v, p.k))
    ensures var rest := Bounds(parts[..|parts| - 1]); Bounds(parts) == if p.Fin? then rest else rest[p.v := p.k]
  {
  }

  lemma PredIsItem(p: Pred)
    requires WellFormedPred(p)
    ensures IsItem(PrintPred(p))
  {
    SolidHasNo(p.v, ',');
    SolidHasNo(p.v, '}');
    SolidHasNo(p.v, ')');
  }

  // ---------------------------------------------------------------- the whole signature

  function PrintContext(preds: seq<Pred>, body: string): string {
    if preds == [] then body else "(" + Join(PrintPreds(preds), ", ") + ") => " + body
  }

  function PrintSignature(vars: seq<string>, preds: seq<Pred>, body: string): string {
    if vars == [] then PrintContext(preds, body) else "{" + Join(vars, ", ") + "} " + PrintContext(preds, body)
  }

  // The body does not look like the prefix it is printed without.
  predicate Unambiguous(vars: seq<string>, preds: seq<Pred>, body: string) {
    preds == [] ==> !StartsWith(body, '(') && !("=>" <= body) && (vars == [] ==> !StartsWith(body, '{'))
  }

  lemma TrimStartBlank(s: string)
    requires s != "" && !IsSpace(s[0])
    ensures TrimStart([' '] + s) == s
  {
    assert ([' '] + s)[1..] == s;
  }

  lemma ContextUnfold(inside: string, body: string)
    requires ')' !in inside && body != "" && !IsSpace(body[0])
    ensures Context("(" + inside + ") => " + body) == Some((Bounds(SplitComma(inside)), body))
  {
    var arrow := "=>" + ([' '] + body);
    var tail := [' '] + arrow;
    var after := inside + [')'] + tail;
    var s := "(" + inside + ") => " + body;
    assert s == "(" + after && s[1..] == after;
    FindChar(inside, ')', tail);
    assert after[..|inside|] == inside && after[|inside| + 1..] == tail;
    FatArrowRest(body);
  }

  lemma FatArrowRest(body: string)
    requires body != "" && !IsSpace(body[0])
    ensures var arrow := "=>" + ([' '] + body); TrimStart([' '] + arrow) == arrow && TrimStart(arrow[2..]) == body
  {
    var arrow := "=>" + ([' '] + body);
    assert arrow[0] == '=' && arrow[2..] == [' '] + body;
    TrimStartBlank(arrow);
    TrimStartBlank(body);
  }

  lemma ContextRoundTrip(preds: seq<Pred>, body: string)
    requires forall i :: 0 <= i < |preds| ==> WellFormedPred(preds[i])
    requires body != "" && !IsSpace(body[0]) && (preds == [] ==> !StartsWith(body, '(') && !("=>" <= body))
    ensures Context(PrintContext(preds, body)) == Some((BoundsOf(preds), body))
  {
    if preds != [] {
      var items := PrintPreds(preds);
      forall i | 0 <= i < |items| ensures IsItem(items[i]) { PredIsItem(preds[i]); }
      JoinHasNo(items, ')');
      CommaPieces(items);
      BoundsRoundTrip(SplitComma(Join(items, ", ")), preds);
      ContextUnfold(Join(items, ", "), body);
    }
  }

  lemma BinderUnfold(inside: string, rest: string)
    requires '}' !in inside && rest != "" && !IsSpace(rest[0])
    ensures Binder("{" + inside + "} " + rest) == Some((NonEmpty(SplitComma(inside)), rest))
  {
    var tail := [' '] + rest;
    var after := inside + ['}'] + tail;
    var s := "{" + inside + "} " + rest;
    assert s == "{" + after && s[1..] == after;
    FindChar(inside, '}', tail);
    assert after[..|inside|] == inside && after[|inside| + 1..] == tail;
    TrimStartBlank(rest);
  }

  lemma BinderRoundTrip(vars: seq<string>, rest: string)
    requires vars != [] && forall i :: 0 <= i < |vars| ==> IsIdent(vars[i])
    requires rest != "" && !IsSpace(rest[0])
    ensures Binder("{" + Join(vars, ", ") + "} " + rest) == Some((vars, rest))
  {
    forall i | 0 <= i < |vars| ensures IsItem(vars[i]) {
      SolidHasNo(vars[i], ',');
      SolidHasNo(vars[i], '}');
      SolidHasNo(vars[i], ')');
    }
    JoinHasNo(vars, '}');
    CommaPieces(vars);
    NonEmptyAll(SplitComma(Join(vars, ", ")), vars);
    BinderUnfold(Join(vars, ", "), rest);
  }

  lemma {:induction false} BodyTrimmed(types: seq<PolyType>)
    requires types != [] && forall i :: 0 <= i < |types| ==> WellFormed(types[i])
    ensures Trimmed(PrintBody(types)) && PrintBody(types) != ""
  {
    TypeRoundTrip(types[0]);
    if |types| > 1 { BodyTrimmed(types[1..]); }
  }

  /** Printing a signature with its binder and context and parsing it gives everything back,
      the variables in order, the upper bounds (the last one stated for a variable), the
      parameter types and the return type, exactly when no type in front is taken for a
      binder or a context. */
  lemma SignatureRoundTrip(vars: seq<string>, preds: seq<Pred>, params: seq<PolyType>, ret: PolyType)
    requires forall i :: 0 <= i < |vars| ==> IsIdent(vars[i])
    requires forall i :: 0 <= i < |preds| ==> WellFormedPred(preds[i])
    requires params != [] && WellFormed(ret) && forall i :: 0 <= i < |params| ==> WellFormed(params[i])
    ensures
      var body := PrintBody(params + [ret]);
      (ParseFullSignature(PrintSignature(vars, preds, body)) == Some(PolySig(vars, BoundsOf(preds), params, ret))) <==>
      Unambiguous(vars, preds, body)
  {
    var body := PrintBody(params + [ret]);
    BodyTrimmed(params + [ret]);
    BodyRoundTrip(params, ret);
    if Unambiguous(vars, preds, body) {
      PrefixRoundTrip(vars, preds, body);
    } else {
      AmbiguousBody(vars, preds, params, ret);
    }
  }

  // What the parser reads as the body is a proper rest of it, and gives other types.
  lemma AmbiguousBody(vars: seq<string>, preds: seq<Pred>, params: seq<PolyType>, ret: PolyType)
    requires forall i :: 0 <= i < |vars| ==> IsIdent(vars[i])
    requires params != [] && WellFormed(ret) && forall i :: 0 <= i < |params| ==> WellFormed(params[i])
    requires !Unambiguous(vars, preds, PrintBody(params + [ret]))
    ensures var r := ParseFullSignature(PrintSignature(vars, preds, PrintBody(params + [ret])));
      r.Some? ==> r.value.params != params || r.value.ret != ret
  {
    var body := PrintBody(params + [ret]);
    var t := PrintSignature(vars, preds, body);
    BodyTrimmed(params + [ret]);
    SignatureTrimmed(vars, preds, body);
    if ParseFullSignature(t).Some? {
      var v := Context(Binder(t).value.1).value.1;
      RestOfBody(vars, body);
      PrefixFirst(body);
      RestReadsOther(params, ret, v);
    }
  }

  lemma RestOfBody(vars: seq<string>, body: string)
    requires body != "" && !IsSpace(body[0]) && forall i :: 0 <= i < |vars| ==> IsIdent(vars[i])
    requires HasContext(body) || (vars == [] && StartsWith(body, '{'))
    requires var t := PrintSignature(vars, [], body); Binder(t).Some? && Context(Binder(t).value.1).Some?
    ensures var v := Context(Binder(PrintSignature(vars, [], body)).value.1).value.1;
      SuffixOf(v, body) && |v| < |body|
  {
    if vars == [] {
      StrippedBody(body);
    } else {
      BinderRoundTrip(vars, body);
      ContextSuffix(body);
    }
  }

  lemma RestReadsOther(params: seq<PolyType>, ret: PolyType, v: string)
    requires params != [] && WellFormed(ret) && forall i :: 0 <= i < |params| ==> WellFormed(params[i])
    requires var body := PrintBody(params + [ret]);
      body != "" && PrefixLike(body[0]) && SuffixOf(v, body) && |v| < |body|
    ensures var b := ParseArrowBody(v); b.Some? ==> b.value.0 != params || b.value.1 != ret
  {
    var types := params + [ret];
    FirstOfBody(types);
    CutChangesTypes(PrintBody(types), v);
    OtherTypes(PolyTypes(SplitArrow(v)), params, ret);
  }

  lemma OtherTypes(got: seq<PolyType>, params: seq<PolyType>, ret: PolyType)
    requires params != [] && got != [] && (|got| != |params| + 1 || got[0] != params[0])
    ensures |got| >= 2 ==> got[..|got| - 1] != params || got[|got| - 1] != ret
  {
  }

  lemma FirstOfBody(types: seq<PolyType>)
    requires types != [] && forall i :: 0 <= i < |types| ==> WellFormed(types[i])
    requires PrintBody(types) != "" && PrefixLike(PrintBody(types)[0])
    ensures |SplitArrow(PrintBody(types))| == |types| && types[0] == POther(Trim(SplitArrow(PrintBody(types))[0]))
  {
    var first := SplitArrow(PrintBody(types))[0];
    BodyPieces(types);
    FirstPieceStarts(PrintBody(types));
    PrefixIsOther(first);
    TypeRoundTrip(types[0]);
  }

  lemma PrefixRoundTrip(vars: seq<string>, preds: seq<Pred>, body: string)
    requires forall i :: 0 <= i < |vars| ==> IsIdent(vars[i])
    requires forall i :: 0 <= i < |preds| ==> WellFormedPred(preds[i])
    requires Trimmed(body) && body != "" && Unambiguous(vars, preds, body)
    ensures Binder(Trim(PrintSignature(vars, preds, body))) == Some((vars, PrintContext(preds, body)))
    ensures Context(PrintContext(preds, body)) == Some((BoundsOf(preds), body))
  {
    ContextRoundTrip(preds, body);
    SignatureTrimmed(vars, preds, body);
    ContextTrimmed(preds, body);
    if vars != [] { BinderRoundTrip(vars, PrintContext(preds, body)); }
  }

  lemma SignatureTrimmed(vars: seq<string>, preds: seq<Pred>, body: string)
    requires Trimmed(body) && body != ""
    ensures Trim(PrintSignature(vars, preds, body)) == PrintSignature(vars, preds, body)
  {
    ContextTrimmed(preds, body);
    BinderTrimmed(vars, PrintContext(preds, body));
    TrimTrimmed(PrintSignature(vars, preds, body));
  }

  lemma ContextTrimmed(preds: seq<Pred>, body: string)
    requires Trimmed(body) && body != ""
    ensures Trimmed(PrintContext(preds, body)) && PrintContext(preds, body) != ""
    ensures preds != [] ==> PrintContext(preds, body)[0] == '('
  {
  }

  lemma BinderTrimmed(vars: seq<string>, rest: string)
    requires Trimmed(rest) && rest != ""
    ensures Trimmed("{" + Join(vars, ", ") + "} " + rest)
  {
  }
}
