/** Buffer lengths: the struct-shape recogniser, the Cryptol length binding and what the
    constraint deriver makes of their annotations
    (src/constraints/struct_shape_recognizer.rs, src/constraints/length_binding.rs,
    src/constraints/derive.rs). */
module LengthBinding {
  import opened Options
  import opened Types
  import opened CryptolSig

  const DEFAULT_MAX: nat := 16

  const LENGTH_NAMES: seq<string> := [
    "len", "length", "size", "count", "n", "nbytes", "cb", "nm", "num", "nelem", "nelems", "buflen", "buf_len"]

  function LowerChar(c: char): char {
    if 'A' <= c <= 'Z' then c - 'A' + 'a' else c
  }

  function Lower(s: string): string {
    seq(|s|, i requires 0 <= i < |s| => LowerChar(s[i]))
  }

  predicate IsLengthAnnotation(a: Annotation) {
    a.InReads? || a.OutWrites? || a.InReadsParam? || a.OutWritesParam? || a.InZ?
  }

  // The recogniser also counts dereferenceable sizes; the binding does not.
  predicate IsSizeAnnotation(a: Annotation) {
    IsLengthAnnotation(a) || a.Dereferenceable?
  }

  predicate HasLength(p: ParamInfo) {
    exists a :: a in p.annotations && IsLengthAnnotation(a)
  }

  predicate HasSize(p: ParamInfo) {
    exists a :: a in p.annotations && IsSizeAnnotation(a)
  }

  function Annotate(p: ParamInfo, a: Annotation): ParamInfo {
    p.(annotations := p.annotations + [a])
  }

  // ---------------------------------------------------------------- the recogniser

  // `(T* buf, size_t len)`: a pointer with no size, then an unsigned integer with a length name.
  predicate Paired(buf: ParamInfo, len: ParamInfo) {
    buf.ty.Pointer? && !HasSize(buf) && len.ty.UnsignedInt? && Lower(len.name) in LENGTH_NAMES
  }

  // c is the letter w in either case.
  predicate EitherCase(c: char, w: char) {
    c == w || ('A' <= c <= 'Z' && c as int + 32 == w as int)
  }

  lemma LowerIs(s: string, w: string)
    requires forall i :: 0 <= i < |w| ==> !('A' <= w[i] <= 'Z')
    ensures Lower(s) == w <==> |s| == |w| && forall i :: 0 <= i < |s| ==> EitherCase(s[i], w[i])
  {
    forall i | 0 <= i < |s| && |s| == |w| ensures Lower(s)[i] == w[i] <==> EitherCase(s[i], w[i]) {}
  }

  predicate Called(name: string, w: string) {
    |name| == |w| && forall i :: 0 <= i < |w| ==> EitherCase(name[i], w[i])
  }

  lemma LengthNamesLower(w: string)
    requires w in LENGTH_NAMES
    ensures forall i :: 0 <= i < |w| ==> !('A' <= w[i] <= 'Z')
  {
  }

  lemma LengthNameIs(name: string)
    ensures Lower(name) in LENGTH_NAMES <==> exists w :: w in LENGTH_NAMES && Called(name, w)
  {
    forall w | w in LENGTH_NAMES ensures Lower(name) == w <==> Called(name, w) {
      LengthNamesLower(w);
      LowerIs(name, w);
    }
  }

  // Which pairs are recognised, spelled out: the pointer has none of six annotations, and the
  // integer is called one of thirteen names, in any mix of cases.
  lemma PairedIs(buf: ParamInfo, len: ParamInfo)
    ensures Paired(buf, len) <==>
      && buf.ty.Pointer? && len.ty.UnsignedInt?
      && (forall a :: a in buf.annotations ==> !a.InReads? && !a.OutWrites? && !a.InReadsParam? &&
                                               !a.OutWritesParam? && !a.InZ? && !a.Dereferenceable?)
      && exists w :: Called(len.name, w) &&
                     (w in ["len", "length", "size", "count", "n", "nbytes", "cb"] ||
                      w in ["nm", "num", "nelem", "nelems", "buflen", "buf_len"])
  {
    LengthNameIs(len.name);
    assert LENGTH_NAMES ==
      ["len", "length", "size", "count", "n", "nbytes", "cb"] + ["nm", "num", "nelem", "nelems", "buflen", "buf_len"];
  }

  predicate PairedAt(ps: seq<ParamInfo>, i: nat) {
    i + 1 < |ps| && Paired(ps[i], ps[i + 1])
  }

  function Recognized(ps: seq<ParamInfo>): (r: seq<ParamInfo>)
    ensures |r| == |ps|
    ensures forall i :: 0 <= i < |ps| ==>
      r[i] == if PairedAt(ps, i) then Annotate(ps[i], InReadsParam(ps[i + 1].name)) else ps[i]
  {
    seq(|ps|, i requires 0 <= i < |ps| => if PairedAt(ps, i) then Annotate(ps[i], InReadsParam(ps[i + 1].name))
      else ps[i])
  }

  // The candidates among the first n parameters, in order.
  function Candidates(ps: seq<ParamInfo>, n: nat): (r: seq<nat>)
    requires n <= |ps|
    ensures forall k :: 0 <= k < |r| ==> r[k] < n && PairedAt(ps, r[k])
  {
    if n == 0 then [] else Candidates(ps, n - 1) + if PairedAt(ps, n - 1) then [n - 1] else []
  }

  // ---------------------------------------------------------------- the binding

  datatype Binding = Binding(
    paramIdx: nat,
    paramName: string,
    typeVar: Option<string>,
    maxLength: nat,
    elemBits: nat,
    isOpenEnded: bool)

  // What one pair of Cryptol and source parameters binds; widths are cast to 32 bits.
  function BindOne(sig: PolySig, i: nat, ty: PolyType, p: ParamInfo): Option<Binding> {
    if !p.ty.Pointer? then None
    else match ty
      case PSeqVar(v, bits) =>
        var bound := v in sig.upperBounds;
        Some(Binding(i, p.name, Some(v), if bound then sig.upperBounds[v]
          else DEFAULT_MAX, bits % 0x1_0000_0000, !bound))
      case PSeq(n, bits) => Some(Binding(i, p.name, None, n, bits % 0x1_0000_0000, false))
      case _ => None
  }

  function BindUpTo(sig: PolySig, ps: seq<ParamInfo>, n: nat): seq<Binding>
    requires n <= |sig.params| == |ps|
  {
    if n == 0 then []
    else
      var b := BindOne(sig, n - 1, sig.params[n - 1], ps[n - 1]);
      BindUpTo(sig, ps, n - 1) + if b.Some? then [b.value] else []
  }

  function BindLengths(sig: PolySig, ps: seq<ParamInfo>): seq<Binding> {
    if |sig.params| != |ps| then [] else BindUpTo(sig, ps, |ps|)
  }

  function ApplyOne(ps: seq<ParamInfo>, b: Binding): seq<ParamInfo> {
    if b.paramIdx < |ps| && !HasLength(ps[b.paramIdx])
    then ps[b.paramIdx := Annotate(ps[b.paramIdx], InReads(b.maxLength))]
    else ps
  }

  function Applied(ps: seq<ParamInfo>, bs: seq<Binding>): seq<ParamInfo>
    decreases |bs|
  {
    if bs == [] then ps else Applied(ApplyOne(ps, bs[0]), bs[1..])
  }

  // The variables of the open-ended bindings that were applied, in order.
  function Warned(ps: seq<ParamInfo>, bs: seq<Binding>): seq<string>
    decreases |bs|
  {
    if bs == [] then [] else WarnedOne(ps, bs[0]) + Warned(ApplyOne(ps, bs[0]), bs[1..])
  }

  function WarnedOne(ps: seq<ParamInfo>, b: Binding): seq<string> {
    if b.paramIdx < |ps| && !HasLength(ps[b.paramIdx]) && b.isOpenEnded then [b.typeVar.GetOr("?")] else []
  }

  ghost predicate Applying(start: seq<ParamInfo>, bs: seq<Binding>, i: nat, ps: seq<ParamInfo>, warned: seq<string>) {
    && i <= |bs| && Applied(ps, bs[i..]) == Applied(start, bs)
    && warned + Warned(ps, bs[i..]) == Warned(start, bs)
  }

  lemma ApplyNext(start: seq<ParamInfo>, bs: seq<Binding>, i: nat, ps: seq<ParamInfo>, warned: seq<string>)
    requires i < |bs| && Applying(start, bs, i, ps, warned)
    ensures Applying(start, bs, i + 1, ApplyOne(ps, bs[i]), warned + WarnedOne(ps, bs[i]))
  {
    assert bs[i..][1..] == bs[i + 1..];
    var now, later := WarnedOne(ps, bs[i]), Warned(ApplyOne(ps, bs[i]), bs[i + 1..]);
    assert warned + (now + later) == (warned + now) + later;
  }

  // Both passes in the order the pipeline runs them.
  function Prepared(sig: PolySig, ps: seq<ParamInfo>): seq<ParamInfo> {
    var r := Recognized(ps);
    Applied(r, BindLengths(sig, r))
  }

  // ---------------------------------------------------------------- the object

  class FunctionInfo {
    var params: seq<ParamInfo>

    constructor (params: seq<ParamInfo>)
      ensures this.params == params
    {
      this.params := params;
    }

    // First collect the candidates, then annotate them.
    method RecognizeAndAnnotate() returns (added: seq<string>)
      modifies this
      ensures params == Recognized(old(params))
      ensures added == CandidateNames(old(params), Candidates(old(params), |old(params)|))
    {
      ghost var before, cands := params, Candidates(params, |params|);
      var toAdd := CollectCandidates(params);
      CandidatesIncrease(before, |before|);
      added := [];
      for k := 0 to |toAdd|
        invariant AnnotatedUpTo(before, cands, k, params, added)
      {
        var idx := toAdd[k].0;
        UpToNext(before, cands, k, params, added);
        params := params[idx := Annotate(params[idx], InReadsParam(toAdd[k].1))];
        added := added + [params[idx].name];
      }
      assert cands[..|cands|] == cands;
      AllAnnotated(before);
    }

    method ApplyToFunction(bindings: seq<Binding>) returns (warned: seq<string>)
      modifies this
      ensures params == Applied(old(params), bindings)
      ensures warned == Warned(old(params), bindings)
    {
      warned := [];
      assert bindings[0..] == bindings;
      for i := 0 to |bindings|
        invariant Applying(old(params), bindings, i, params, warned)
      {
        var b := bindings[i];
        ghost var before, said := params, warned;
        if b.paramIdx < |params| && !HasLength(params[b.paramIdx]) {
          params := params[b.paramIdx := Annotate(params[b.paramIdx], InReads(b.maxLength))];
          if b.isOpenEnded { warned := warned + [b.typeVar.GetOr("?")]; }
        }
        assert params == ApplyOne(before, b) && warned == said + WarnedOne(before, b);
        ApplyNext(old(params), bindings, i, before, said);
      }
      assert bindings[|bindings|..] == [];
    }
  }

  method BindLengthsLoop(sig: PolySig, ps: seq<ParamInfo>) returns (out: seq<Binding>)
    ensures out == BindLengths(sig, ps)
  {
    out := [];
    if |sig.params| != |ps| { return; }
    for i := 0 to |ps|
      invariant out == BindUpTo(sig, ps, i)
    {
      var b := BindOne(sig, i, sig.params[i], ps[i]);
      if b.Some? { out := out + [b.value]; }
    }
  }

  // The collected pairs are the candidates with their siblings' names.
  ghost predicate Matches(ps: seq<ParamInfo>, toAdd: seq<(nat, string)>, cands: seq<nat>) {
    |toAdd| == |cands| && forall k :: 0 <= k < |cands| ==>
      toAdd[k].0 == cands[k] && PairedAt(ps, cands[k]) && toAdd[k].1 == ps[cands[k] + 1].name
  }

  lemma MatchesNext(ps: seq<ParamInfo>, toAdd: seq<(nat, string)>, i: nat)
    requires i + 1 < |ps| && Matches(ps, toAdd, Candidates(ps, i))
    ensures PairedAt(ps, i) ==> Matches(ps, toAdd + [(i, ps[i + 1].name)], Candidates(ps, i + 1))
    ensures !PairedAt(ps, i) ==> Matches(ps, toAdd, Candidates(ps, i + 1))
  {
    var cands := Candidates(ps, i);
    assert Candidates(ps, i + 1) == cands + if PairedAt(ps, i) then [i] else [];
  }

  method CollectCandidates(ps: seq<ParamInfo>) returns (toAdd: seq<(nat, string)>)
    ensures Matches(ps, toAdd, Candidates(ps, |ps|))
  {
    toAdd := [];
    var n := |ps|;
    if n == 0 { return; }
    for i := 0 to n - 1
      invariant Matches(ps, toAdd, Candidates(ps, i))
    {
      MatchesNext(ps, toAdd, i);
      if PairedAt(ps, i) { toAdd := toAdd + [(i, ps[i + 1].name)]; }
    }
    assert !PairedAt(ps, n - 1);
  }

  function CandidateNames(ps: seq<ParamInfo>, cands: seq<nat>): seq<string>
    requires forall k :: 0 <= k < |cands| ==> cands[k] < |ps|
  {
    if cands == [] then [] else CandidateNames(ps, cands[..|cands| - 1]) + [ps[cands[|cands| - 1]].name]
  }

  // The first k candidates annotated.
  ghost function AnnotatedFirst(ps: seq<ParamInfo>, cands: seq<nat>, k: nat): (r: seq<ParamInfo>)
    requires k <= |cands| && forall j :: 0 <= j < |cands| ==> PairedAt(ps, cands[j])
    ensures |r| == |ps|
  {
    if k == 0 then ps
    else
      var i := cands[k - 1];
      AnnotatedFirst(ps, cands, k - 1)[i := Annotate(ps[i], InReadsParam(ps[i + 1].name))]
  }

  // The pass after annotating the first k candidates and recording their names.
  ghost predicate AnnotatedUpTo(before: seq<ParamInfo>, cands: seq<nat>, k: nat, params: seq<ParamInfo>,
                                added: seq<string>) {
    && k <= |cands| && (forall j :: 0 <= j < |cands| ==> PairedAt(before, cands[j]))
    && params == AnnotatedFirst(before, cands, k)
    && added == CandidateNames(before, cands[..k])
  }

  lemma UpToNext(before: seq<ParamInfo>, cands: seq<nat>, k: nat, params: seq<ParamInfo>, added: seq<string>)
    requires k < |cands| && AnnotatedUpTo(before, cands, k, params, added)
    requires forall i, j :: 0 <= i < j < |cands| ==> cands[i] < cands[j]
    ensures
      var i := cands[k];
      && i < |params| && params[i] == before[i]
      && AnnotatedUpTo(before, cands, k + 1, params[i := Annotate(params[i], InReadsParam(before[i + 1].name))],
                       added + [params[i].name])
  {
    AnnotatedAt(before, cands, k);
    assert cands[k] !in cands[..k];
    NamesNext(before, cands, k);
  }

  lemma NamesNext(ps: seq<ParamInfo>, cands: seq<nat>, k: nat)
    requires k < |cands| && forall j :: 0 <= j < |cands| ==> cands[j] < |ps|
    ensures CandidateNames(ps, cands[..k + 1]) == CandidateNames(ps, cands[..k]) + [ps[cands[k]].name]
  {
    assert cands[..k + 1][..k] == cands[..k];
  }

  lemma {:induction false} AnnotatedAt(ps: seq<ParamInfo>, cands: seq<nat>, k: nat)
    requires k <= |cands| && forall j :: 0 <= j < |cands| ==> PairedAt(ps, cands[j])
    requires forall i, j :: 0 <= i < j < |cands| ==> cands[i] < cands[j]
    ensures forall i: nat :: i < |ps| && i !in cands[..k] ==> AnnotatedFirst(ps, cands, k)[i] == ps[i]
    ensures forall i: nat :: i < |ps| && i in cands[..k] ==>
      PairedAt(ps, i) && AnnotatedFirst(ps, cands, k)[i] == Annotate(ps[i], InReadsParam(ps[i + 1].name))
  {
    if k > 0 {
      AnnotatedAt(ps, cands, k - 1);
      FirstSplit(cands, k);
    }
  }

  lemma FirstSplit(cands: seq<nat>, k: nat)
    requires 0 < k <= |cands|
    ensures forall i :: i in cands[..k] <==> i in cands[..k - 1] || i == cands[k - 1]
  {
    assert cands[..k] == cands[..k - 1] + [cands[k - 1]];
  }

  lemma {:induction false} CandidatesIncrease(ps: seq<ParamInfo>, n: nat)
    requires n <= |ps|
    ensures forall j, k :: 0 <= j < k < |Candidates(ps, n)| ==> Candidates(ps, n)[j] < Candidates(ps, n)[k]
    ensures forall i: nat :: i in Candidates(ps, n) <==> i < n && PairedAt(ps, i)
  {
    if n > 0 { CandidatesIncrease(ps, n - 1); }
  }

  lemma AllAnnotated(ps: seq<ParamInfo>)
    ensures var cands := Candidates(ps, |ps|); AnnotatedFirst(ps, cands, |cands|) == Recognized(ps)
  {
    var cands := Candidates(ps, |ps|);
    CandidatesIncrease(ps, |ps|);
    AnnotatedAt(ps, cands, |cands|);
    assert cands[..|cands|] == cands;
  }

  // ---------------------------------------------------------------- what the passes keep

  // q is p, or p with one length annotation more and none before.
  ghost predicate OneMore(p: ParamInfo, q: ParamInfo) {
    q == p || (!HasLength(p) && exists a :: IsLengthAnnotation(a) && q == Annotate(p, a))
  }

  lemma AnnotatedHasLength(p: ParamInfo, a: Annotation)
    requires IsLengthAnnotation(a)
    ensures HasLength(Annotate(p, a)) && HasSize(Annotate(p, a))
  {
    assert a in Annotate(p, a).annotations;
  }

  lemma {:induction false} AppliedAt(ps: seq<ParamInfo>, bs: seq<Binding>)
    ensures |Applied(ps, bs)| == |ps|
    ensures forall i :: 0 <= i < |ps| ==> OneMore(ps[i], Applied(ps, bs)[i])
    ensures forall i :: 0 <= i < |ps| && (exists k :: 0 <= k < |bs| && bs[k].paramIdx == i) ==>
      HasLength(Applied(ps, bs)[i])
    decreases |bs|
  {
    if bs != [] {
      var qs, b := ApplyOne(ps, bs[0]), bs[0];
      AppliedAt(qs, bs[1..]);
      if b.paramIdx < |ps| { AnnotatedHasLength(ps[b.paramIdx], InReads(b.maxLength)); }
      forall i | 0 <= i < |ps| && (exists k :: 0 <= k < |bs| && bs[k].paramIdx == i)
        ensures HasLength(Applied(ps, bs)[i])
      {
        if i != b.paramIdx {
          var k :| 0 <= k < |bs| && bs[k].paramIdx == i;
          assert bs[1..][k - 1] == bs[k];
        }
      }
    }
  }

  lemma {:induction false} AppliedNothing(ps: seq<ParamInfo>, bs: seq<Binding>)
    requires forall k :: 0 <= k < |bs| && bs[k].paramIdx < |ps| ==> HasLength(ps[bs[k].paramIdx])
    ensures Applied(ps, bs) == ps
    decreases |bs|
  {
    if bs != [] { AppliedNothing(ps, bs[1..]); }
  }

  // The binding looks at names and types only.
  lemma {:induction false} BindIgnoresAnnotations(sig: PolySig, ps: seq<ParamInfo>, qs: seq<ParamInfo>, n: nat)
    requires n <= |sig.params| == |ps| == |qs|
    requires forall i :: 0 <= i < |ps| ==> ps[i].ty == qs[i].ty && ps[i].name == qs[i].name
    ensures BindUpTo(sig, ps, n) == BindUpTo(sig, qs, n)
  {
    if n > 0 { BindIgnoresAnnotations(sig, ps, qs, n - 1); }
  }

  lemma RecognizedAt(ps: seq<ParamInfo>)
    ensures |Recognized(ps)| == |ps|
    ensures forall i :: 0 <= i < |ps| ==> OneMore(ps[i], Recognized(ps)[i])
  {
  }

  lemma OneMoreKeepsUnpaired(p: ParamInfo, q: ParamInfo, p': ParamInfo, q': ParamInfo)
    requires OneMore(p, q) && OneMore(p', q') && !Paired(p, p')
    ensures !Paired(q, q')
  {
    if q != p {
      var a :| IsLengthAnnotation(a) && q == Annotate(p, a);
      AnnotatedHasLength(p, a);
    }
  }

  // Neither pass leaves the recogniser anything to do.
  lemma NoPairsLeft(sig: PolySig, ps: seq<ParamInfo>)
    ensures Recognized(Prepared(sig, ps)) == Prepared(sig, ps)
  {
    var r, q := Recognized(ps), Prepared(sig, ps);
    AppliedAt(r, BindLengths(sig, r));
    forall i | 0 <= i < |ps| - 1 ensures !PairedAt(q, i) {
      RecognizedUnpaired(ps, i);
      OneMoreKeepsUnpaired(r[i], q[i], r[i + 1], q[i + 1]);
    }
  }

  lemma RecognizedUnpaired(ps: seq<ParamInfo>, i: nat)
    requires i + 1 < |ps|
    ensures !Paired(Recognized(ps)[i], Recognized(ps)[i + 1])
  {
    if PairedAt(ps, i) { AnnotatedHasLength(ps[i], InReadsParam(ps[i + 1].name)); }
  }

  lemma BindAgain(sig: PolySig, ps: seq<ParamInfo>)
    ensures BindLengths(sig, Prepared(sig, ps)) == BindLengths(sig, Recognized(ps))
  {
    var r := Recognized(ps);
    AppliedAt(r, BindLengths(sig, r));
    if |sig.params| == |ps| { BindIgnoresAnnotations(sig, r, Prepared(sig, ps), |ps|); }
  }

  /** The two passes add at most one length annotation to a parameter, none to one that has
      a length already, and running them again changes nothing. */
  lemma PreparedKeeps(sig: PolySig, ps: seq<ParamInfo>)
    ensures |Prepared(sig, ps)| == |ps|
    ensures forall i :: 0 <= i < |ps| ==> OneMore(ps[i], Prepared(sig, ps)[i])
    ensures Prepared(sig, Prepared(sig, ps)) == Prepared(sig, ps)
  {
    var r := Recognized(ps);
    var bs := BindLengths(sig, r);
    RecognizedAt(ps);
    AppliedAt(r, bs);
    NoPairsLeft(sig, ps);
    BindAgain(sig, ps);
    AppliedNothing(Prepared(sig, ps), bs);
    forall i | 0 <= i < |ps| ensures OneMore(ps[i], Prepared(sig, ps)[i]) {
      OneMoreTwice(ps[i], r[i], Prepared(sig, ps)[i]);
    }
  }

  lemma OneMoreTwice(p: ParamInfo, q: ParamInfo, r: ParamInfo)
    requires OneMore(p, q) && OneMore(q, r)
    ensures OneMore(p, r)
  {
    if q != p {
      var a :| IsLengthAnnotation(a) && q == Annotate(p, a);
      AnnotatedHasLength(p, a);
    }
  }

  // ---------------------------------------------------------------- the derived constraint

  // How many elements an annotation sizes a buffer to. A literal of at most one, such as a
  // bare `_In_`, sizes nothing.
  function Count(a: Annotation): Option<nat> {
    match a
    case InReads(n) => if n > 1 then Some(n) else None
    case OutWrites(n) => if n > 1 then Some(n) else None
    case InZ(n) => if n > 1 then Some(n) else None
    case InReadsParam(_) => Some(DEFAULT_MAX)
    case OutWritesParam(_) => Some(DEFAULT_MAX)
    case _ => None
  }

  // The first annotation that sizes the buffer decides.
  function BufferLen(anns: seq<Annotation>): Option<nat> {
    if anns == [] then None else if Count(anns[0]).Some? then Count(anns[0]) else BufferLen(anns[1..])
  }

  // How many elements the spec allocates for a parameter: only pointers get a buffer.
  function Allocated(p: ParamInfo): nat {
    var b := BufferLen(p.annotations);
    if p.ty.Pointer? && b.Some? then b.value else 1
  }

  // The sibling lengths the deriver bounds, each by the default maximum.
  function BoundedNames(anns: seq<Annotation>): set<string> {
    if anns == [] then {}
    else (if anns[0].InReadsParam? || anns[0].OutWritesParam? then {anns[0].param} else {}) + BoundedNames(anns[1..])
  }

  // The values of the length parameters satisfy every derived precondition.
  ghost predicate Satisfies(ps: seq<ParamInfo>, env: string -> nat) {
    forall i, name :: 0 <= i < |ps| && name in BoundedNames(ps[i].annotations) ==> env(name) <= DEFAULT_MAX
  }

  // Whatever satisfies the derived preconditions keeps the named length within the allocation.
  ghost predicate LengthCovered(ps: seq<ParamInfo>, i: nat, len: string)
    requires i < |ps|
  {
    forall env: string -> nat :: Satisfies(ps, env) ==> env(len) <= Allocated(ps[i])
  }

  lemma {:induction false} BoundedNamesAre(anns: seq<Annotation>, name: string)
    ensures name in BoundedNames(anns) <==> InReadsParam(name) in anns || OutWritesParam(name) in anns
  {
    if anns != [] {
      BoundedNamesAre(anns[1..], name);
      assert anns == [anns[0]] + anns[1..];
    }
  }

  predicate SizesFirst(anns: seq<Annotation>, k: nat) {
    k < |anns| && Count(anns[k]).Some? && forall j :: 0 <= j < k ==> Count(anns[j]).None?
  }

  // A literal between the single element and the default maximum.
  predicate IsShort(a: Annotation) {
    match a
    case InReads(n) => 1 < n < DEFAULT_MAX
    case OutWrites(n) => 1 < n < DEFAULT_MAX
    case InZ(n) => 1 < n < DEFAULT_MAX
    case _ => false
  }

  // A short literal stands before every other annotation that sizes the buffer.
  predicate ShortFirst(anns: seq<Annotation>) {
    exists k :: 0 <= k < |anns| && SizesFirst(anns, k) && IsShort(anns[k])
  }

  lemma {:induction false} FirstSizing(anns: seq<Annotation>, k: nat)
    requires SizesFirst(anns, k)
    ensures BufferLen(anns) == Count(anns[k])
  {
    if k > 0 {
      assert forall j :: 0 <= j < k - 1 ==> anns[1..][j] == anns[j + 1];
      FirstSizing(anns[1..], k - 1);
    }
  }

  lemma {:induction false} SomeFirst(anns: seq<Annotation>, i: nat) returns (k: nat)
    requires i < |anns| && Count(anns[i]).Some?
    ensures k <= i && SizesFirst(anns, k)
  {
    if j :| 0 <= j < i && Count(anns[j]).Some? { k := SomeFirst(anns, j); } else { k := i; }
  }

  // The literal counts that size a buffer, and the two annotations that name a sibling.
  predicate Literal(a: Annotation, n: nat) {
    n > 1 && (a == InReads(n) || a == OutWrites(n) || a == InZ(n))
  }

  predicate NamesSibling(a: Annotation) {
    a.InReadsParam? || a.OutWritesParam?
  }

  /** The elements allocated for a pointer: what its first annotation says that is a literal
      above one or names a sibling, sixteen for the latter; one if there is none. */
  lemma AllocatedIs(p: ParamInfo, k: nat)
    requires p.ty.Pointer? && k <= |p.annotations|
    requires forall j :: 0 <= j < k ==>
      !NamesSibling(p.annotations[j]) && forall n: nat :: !Literal(p.annotations[j], n)
    ensures k == |p.annotations| ==> Allocated(p) == 1
    ensures k < |p.annotations| && NamesSibling(p.annotations[k]) ==> Allocated(p) == 16
    ensures forall n: nat :: k < |p.annotations| && Literal(p.annotations[k], n) ==> Allocated(p) == n
  {
    var anns := p.annotations;
    forall j | 0 <= j < |anns|
      ensures Count(anns[j]).Some? <==> NamesSibling(anns[j]) || exists n: nat :: Literal(anns[j], n)
    {
      CountIs(anns[j]);
    }
    if k == |anns| {
      NoneSizes(anns);
    } else if Count(anns[k]).Some? {
      FirstSizing(anns, k);
    }
  }

  lemma CountIs(a: Annotation)
    ensures Count(a).Some? <==> NamesSibling(a) || exists n: nat :: Literal(a, n)
    ensures forall n: nat :: Literal(a, n) ==> Count(a) == Some(n)
    ensures NamesSibling(a) ==> Count(a) == Some(16)
  {
    if Count(a).Some? && !NamesSibling(a) { assert Literal(a, Count(a).value); }
  }

  lemma {:induction false} NoneSizes(anns: seq<Annotation>)
    requires forall j :: 0 <= j < |anns| ==> Count(anns[j]).None?
    ensures BufferLen(anns).None?
  {
    if anns != [] { NoneSizes(anns[1..]); }
  }

  predicate Names(anns: seq<Annotation>, len: string) {
    InReadsParam(len) in anns || OutWritesParam(len) in anns
  }

  /** Where annotations name a sibling length, the derived bound keeps that length within the
      allocation exactly when the parameter is a pointer and no short literal sizes its
      buffer first. */
  lemma LengthCoveredIff(ps: seq<ParamInfo>, i: nat, len: string)
    requires i < |ps| && Names(ps[i].annotations, len)
    ensures LengthCovered(ps, i, len) <==> ps[i].ty.Pointer? && !ShortFirst(ps[i].annotations)
  {
    var anns := ps[i].annotations;
    BoundedNamesAre(anns, len);
    var env: string -> nat := _ => DEFAULT_MAX;
    assert Satisfies(ps, env) && env(len) == DEFAULT_MAX;
    var n :| 0 <= n < |anns| && (anns[n] == InReadsParam(len) || anns[n] == OutWritesParam(len));
    var k := SomeFirst(anns, n);
    FirstSizing(anns, k);
    OneFirst(anns, k);
  }

  lemma OneFirst(anns: seq<Annotation>, k: nat)
    requires SizesFirst(anns, k)
    ensures ShortFirst(anns) <==> Count(anns[k]).value < DEFAULT_MAX
  {
    if m :| 0 <= m < |anns| && SizesFirst(anns, m) && IsShort(anns[m]) {
      assert m == k;
    }
  }

  // `_In_reads_(4) _In_reads_(len)`: four elements are allocated for up to sixteen.
  lemma ShortBufferNotCovered()
    ensures
      var ps := [ParamInfo("buf", Pointer(UnsignedInt(8)), [InReads(4), InReadsParam("len")]),
                 ParamInfo("len", UnsignedInt(64), [])];
      Allocated(ps[0]) == 4 && !LengthCovered(ps, 0, "len")
  {
    var anns := [InReads(4), InReadsParam("len")];
    assert anns[1] in anns && SizesFirst(anns, 0) && IsShort(anns[0]);
    FirstSizing(anns, 0);
    var ps := [ParamInfo("buf", Pointer(UnsignedInt(8)), anns), ParamInfo("len", UnsignedInt(64), [])];
    LengthCoveredIff(ps, 0, "len");
  }

  /** After both passes, a pointer whose only length annotation in the source names a sibling
      is covered: neither pass adds anything in front of it. */
  lemma SiblingIsCovered(sig: PolySig, ps: seq<ParamInfo>, i: nat, len: string)
    requires i < |ps| && ps[i].ty.Pointer? && Names(ps[i].annotations, len)
    requires forall a :: a in ps[i].annotations && IsLengthAnnotation(a) ==>
      a == InReadsParam(len) || a == OutWritesParam(len)
    ensures |Prepared(sig, ps)| == |ps| && LengthCovered(Prepared(sig, ps), i, len)
  {
    PreparedKeeps(sig, ps);
    var anns := ps[i].annotations;
    var a :| a in anns && (a == InReadsParam(len) || a == OutWritesParam(len));
    assert HasLength(ps[i]);
    assert OneMore(ps[i], Prepared(sig, ps)[i]);
    assert forall k :: 0 <= k < |anns| && IsLengthAnnotation(anns[k]) ==> anns[k] in anns;
    LengthCoveredIff(Prepared(sig, ps), i, len);
  }

  lemma RecognizedStays(sig: PolySig, ps: seq<ParamInfo>, i: nat)
    requires PairedAt(ps, i)
    ensures |Prepared(sig, ps)| == |ps| && Prepared(sig, ps)[i] == Annotate(ps[i], InReadsParam(ps[i + 1].name))
  {
    var r := Recognized(ps);
    AppliedAt(r, BindLengths(sig, r));
    AnnotatedHasLength(ps[i], InReadsParam(ps[i + 1].name));
    assert OneMore(r[i], Prepared(sig, ps)[i]);
  }

  /** The recogniser's own annotations are always covered, whatever the binding pass adds
      elsewhere: the buffer has no other length annotation. */
  lemma RecognizedIsCovered(sig: PolySig, ps: seq<ParamInfo>, i: nat)
    requires PairedAt(ps, i)
    ensures |Prepared(sig, ps)| == |ps| && LengthCovered(Prepared(sig, ps), i, ps[i + 1].name)
  {
    var len := ps[i + 1].name;
    RecognizedStays(sig, ps, i);
    var anns := ps[i].annotations + [InReadsParam(len)];
    assert anns[|ps[i].annotations|] == InReadsParam(len);
    forall k | 0 <= k < |ps[i].annotations| ensures !IsShort(anns[k]) {
      assert anns[k] in ps[i].annotations;
    }
    LengthCoveredIff(Prepared(sig, ps), i, len);
  }

  // ---------------------------------------------------------------- when a binding takes effect

  predicate DistinctParams(bs: seq<Binding>) {
    forall j, k :: 0 <= j < k < |bs| ==> bs[j].paramIdx != bs[k].paramIdx
  }

  lemma {:induction false} BoundOnce(sig: PolySig, ps: seq<ParamInfo>, n: nat)
    requires n <= |sig.params| == |ps|
    ensures var bs := BindUpTo(sig, ps, n);
      DistinctParams(bs) && forall k :: 0 <= k < |bs| ==> bs[k].paramIdx < n && ps[bs[k].paramIdx].ty.Pointer?
  {
    if n > 0 { BoundOnce(sig, ps, n - 1); }
  }

  lemma {:induction false} AppliedElsewhere(ps: seq<ParamInfo>, bs: seq<Binding>, i: nat)
    requires i < |ps| && forall k :: 0 <= k < |bs| ==> bs[k].paramIdx != i
    ensures |Applied(ps, bs)| == |ps| && Applied(ps, bs)[i] == ps[i]
    decreases |bs|
  {
    if bs != [] { AppliedElsewhere(ApplyOne(ps, bs[0]), bs[1..], i); }
  }

  // Each parameter is bound once, so its own binding decides.
  lemma {:induction false} AppliedOnce(ps: seq<ParamInfo>, bs: seq<Binding>, k: nat)
    requires k < |bs| && DistinctParams(bs) && bs[k].paramIdx < |ps|
    ensures |Applied(ps, bs)| == |ps|
    ensures var p := ps[bs[k].paramIdx];
      Applied(ps, bs)[bs[k].paramIdx] == if HasLength(p) then p else Annotate(p, InReads(bs[k].maxLength))
    decreases |bs|
  {
    var qs, rest := ApplyOne(ps, bs[0]), bs[1..];
    if k == 0 {
      forall j | 0 <= j < |rest| ensures rest[j].paramIdx != bs[0].paramIdx { assert rest[j] == bs[j + 1]; }
      AppliedElsewhere(qs, rest, bs[0].paramIdx);
    } else {
      assert rest[k - 1] == bs[k] && qs[bs[k].paramIdx] == ps[bs[k].paramIdx];
      AppliedOnce(qs, rest, k - 1);
    }
  }

  lemma {:induction false} UnsizedBefore(anns: seq<Annotation>, n: nat)
    requires forall k :: 0 <= k < |anns| ==> !IsLengthAnnotation(anns[k])
    ensures BufferLen(anns + [InReads(n)]) == if n > 1 then Some(n) else None
  {
    if anns != [] {
      assert (anns + [InReads(n)])[1..] == anns[1..] + [InReads(n)];
      UnsizedBefore(anns[1..], n);
    }
  }

  /** A bound length becomes the allocated element count exactly when it is positive and the
      recognised parameter has no length annotation yet, or that annotation sizes the buffer
      to the same count. */
  lemma BindingTakesEffect(sig: PolySig, ps: seq<ParamInfo>, k: nat)
    requires k < |BindLengths(sig, Recognized(ps))|
    ensures
      var b := BindLengths(sig, Recognized(ps))[k];
      && b.paramIdx < |ps| && |Prepared(sig, ps)| == |ps|
      && var p := Recognized(ps)[b.paramIdx];
         (Allocated(Prepared(sig, ps)[b.paramIdx]) == b.maxLength <==>
           if HasLength(p) then Allocated(p) == b.maxLength else b.maxLength > 0)
  {
    var r := Recognized(ps);
    var bs := BindLengths(sig, r);
    BoundOnce(sig, r, |ps|);
    AppliedOnce(r, bs, k);
    var p := r[bs[k].paramIdx];
    if !HasLength(p) {
      assert forall j :: 0 <= j < |p.annotations| ==> p.annotations[j] in p.annotations;
      UnsizedBefore(p.annotations, bs[k].maxLength);
    }
  }

  // A bare `_In_` reads as a length of zero: it sizes nothing, and still blocks the binding.
  lemma BareInBlocks(elem: PolyType)
    ensures
      var sig, ps := PolySig([], map[], [PSeq(8, 8)], elem), [ParamInfo("buf", Pointer(UnsignedInt(8)), [InReads(0)])];
      && |BindLengths(sig, Recognized(ps))| == 1 && BindLengths(sig, Recognized(ps))[0].maxLength == 8
      && |Prepared(sig, ps)| == 1 && Allocated(Prepared(sig, ps)[0]) == 1
  {
    var sig, ps := PolySig([], map[], [PSeq(8, 8)], elem), [ParamInfo("buf", Pointer(UnsignedInt(8)), [InReads(0)])];
    var r := Recognized(ps);
    assert r == ps;
    assert InReads(0) in ps[0].annotations && HasLength(ps[0]);
    var b := Binding(0, "buf", None, 8, 8, false);
    assert BindOne(sig, 0, sig.params[0], r[0]) == Some(b);
    assert BindUpTo(sig, r, 0) == [] && BindLengths(sig, r) == [b];
    AppliedOnce(r, [b], 0);
    assert [InReads(0)][1..] == [];
  }

  // ---------------------------------------------------------------- what is bound

  /** The bindings, read off the parameters: a variable length with an upper bound gets that
      bound; one without gets sixteen and is open-ended; a literal length gets itself. */
  lemma {:induction false} BoundTo(sig: PolySig, ps: seq<ParamInfo>, n: nat, b: Binding)
    requires n <= |sig.params| == |ps|
    ensures b in BindUpTo(sig, ps, n) <==>
      && b.paramIdx < n && ps[b.paramIdx].ty.Pointer? && b.paramName == ps[b.paramIdx].name
      && match sig.params[b.paramIdx]
         case PSeqVar(v, bits) =>
           && b.typeVar == Some(v) && b.elemBits == bits % 0x1_0000_0000
           && if v in sig.upperBounds then b.maxLength == sig.upperBounds[v] && !b.isOpenEnded
              else b.maxLength == 16 && b.isOpenEnded
         case PSeq(len, bits) =>
           b.typeVar == None && b.elemBits == bits % 0x1_0000_0000 && b.maxLength == len && !b.isOpenEnded
         case _ => false
  {
    if n > 0 {
      BoundTo(sig, ps, n - 1, b);
      var last := BindOne(sig, n - 1, sig.params[n - 1], ps[n - 1]);
      assert b in BindUpTo(sig, ps, n) <==> b in BindUpTo(sig, ps, n - 1) || last == Some(b);
    }
  }

  // The elements the spec allocates for a pointer the source gives no length and the
  // recogniser no sibling: the bound, or sixteen, or the literal, and never fewer than one.
  lemma BoundAllocation(sig: PolySig, ps: seq<ParamInfo>, i: nat, b: Binding)
    requires i < |ps| == |sig.params| && !PairedAt(ps, i)
    requires forall a :: a in ps[i].annotations ==>
      !a.InReads? && !a.OutWrites? && !a.InReadsParam? && !a.OutWritesParam? && !a.InZ?
    requires b in BindLengths(sig, Recognized(ps)) && b.paramIdx == i
    ensures |Prepared(sig, ps)| == |ps|
    ensures Allocated(Prepared(sig, ps)[i]) == if b.maxLength > 1 then b.maxLength else 1
  {
    var r := Recognized(ps);
    var bs := BindLengths(sig, r);
    var k :| 0 <= k < |bs| && bs[k] == b;
    BoundOnce(sig, r, |ps|);
    AppliedOnce(r, bs, k);
    assert r[i] == ps[i] && !HasLength(r[i]);
    assert forall j :: 0 <= j < |r[i].annotations| ==> r[i].annotations[j] in r[i].annotations;
    UnsizedBefore(r[i].annotations, b.maxLength);
  }

  // A parameter with any of the five length annotations is left as it is.
  lemma LengthBlocks(sig: PolySig, ps: seq<ParamInfo>, i: nat, a: Annotation)
    requires i < |ps| && a in ps[i].annotations
    requires a.InReads? || a.OutWrites? || a.InReadsParam? || a.OutWritesParam? || a.InZ?
    ensures |Prepared(sig, ps)| == |ps| && Prepared(sig, ps)[i] == ps[i]
  {
    PreparedKeeps(sig, ps);
    assert IsLengthAnnotation(a) && HasLength(ps[i]);
    assert OneMore(ps[i], Prepared(sig, ps)[i]);
  }

  ghost predicate Warns(ps: seq<ParamInfo>, b: Binding, v: string) {
    b.paramIdx < |ps| && !HasLength(ps[b.paramIdx]) && b.isOpenEnded && b.typeVar.GetOr("?") == v
  }

  // A warning names the variable of an open-ended binding whose parameter had no length.
  lemma {:induction false} WarnedIs(ps: seq<ParamInfo>, bs: seq<Binding>, v: string)
    requires DistinctParams(bs)
    ensures v in Warned(ps, bs) <==> exists b :: b in bs && Warns(ps, b, v)
    decreases |bs|
  {
    if bs != [] {
      var qs, rest := ApplyOne(ps, bs[0]), bs[1..];
      forall k | 0 <= k < |rest| ensures rest[k] == bs[k + 1] && rest[k].paramIdx != bs[0].paramIdx {}
      WarnedIs(qs, rest, v);
      assert forall b :: b in bs <==> b == bs[0] || b in rest;
      assert bs[0] in bs && forall b :: b in rest ==> (Warns(qs, b, v) <==> Warns(ps, b, v));
    }
  }
}
