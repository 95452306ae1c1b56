/** Fallback sizes for unresolvable aliases (src/transform/alias_fallbacks.rs). */
module AliasFallbacks {
  import opened Options
  import opened Text
  import opened Decimal
  import opened Types

  datatype Hint = BytesHint(name: string, n: nat) | EnumHint(name: string, n: nat)

  datatype FunctionTypes = FunctionTypes(params: seq<ParamInfo>, returnType: TypeInfo, globals: seq<TypeInfo>)

  // The table of well-known type sizes, left uninterpreted.
  type KnownSizes = string -> Option<nat>

  // ---------------------------------------------------------------- specification

  function Max(x: nat, y: nat): nat {
    if x < y then y else x
  }

  function HintsOf(ty: TypeInfo, known: KnownSizes): seq<Hint>
    decreases ty
  {
    match ty
    case Struct(name, size, fields) =>
      (match size case Some(n) => [BytesHint(name, n)] case None => KnownHint(name, known)) + FieldHints(fields, known)
    case Opaque(name, n) => if n > 0 then [BytesHint(name, n)] else KnownHint(name, known)
    case Enum(name, _, bits) => [EnumHint(name, Max(bits, 1))]
    case Pointer(inner) => HintsOf(inner, known)
    case OptionOf(inner) => HintsOf(inner, known)
    case ResultOf(ok, err) => HintsOf(ok, known) + HintsOf(err, known)
    case _ => []
  }

  function FieldHints(fields: seq<Field>, known: KnownSizes): seq<Hint>
    decreases fields
  {
    if fields == [] then [] else HintsOf(fields[0].ty, known) + FieldHints(fields[1..], known)
  }

  function KnownHint(name: string, known: KnownSizes): seq<Hint> {
    if known(name).Some? then [BytesHint(name, known(name).value)] else []
  }

  function DerefAnnotation(anns: seq<Annotation>): Option<nat> {
    if anns == [] then None
    else if anns[0].Dereferenceable? then Some(anns[0].n)
    else DerefAnnotation(anns[1..])
  }

  function PointeeName(ty: TypeInfo): Option<string> {
    var target := if ty.Pointer? then ty.inner else ty;
    if target.Struct? || target.Opaque? || target.Enum? then Some(target.name) else None
  }

  function ParamHints(p: ParamInfo, known: KnownSizes): seq<Hint> {
    var n, name := DerefAnnotation(p.annotations), PointeeName(p.ty);
    HintsOf(p.ty, known) + if n.Some? && name.Some? then [BytesHint(name.value, n.value)] else []
  }

  function ParamsHints(ps: seq<ParamInfo>, known: KnownSizes): seq<Hint> {
    if ps == [] then [] else ParamHints(ps[0], known) + ParamsHints(ps[1..], known)
  }

  function GlobalsHints(gs: seq<TypeInfo>, known: KnownSizes): seq<Hint> {
    if gs == [] then [] else HintsOf(gs[0], known) + GlobalsHints(gs[1..], known)
  }

  function FunctionHints(f: FunctionTypes, known: KnownSizes): seq<Hint> {
    ParamsHints(f.params, known) + HintsOf(f.returnType, known) + GlobalsHints(f.globals, known)
  }

  function AllHints(fs: seq<FunctionTypes>, known: KnownSizes): seq<Hint> {
    if fs == [] then [] else FunctionHints(fs[0], known) + AllHints(fs[1..], known)
  }

  // Keep the larger value.
  function Raise(m: map<string, nat>, name: string, n: nat): map<string, nat> {
    m[name := if name in m then Max(m[name], n) else n]
  }

  datatype Maps = Maps(bytes: map<string, nat>, enumBits: map<string, nat>)

  function Record(m: Maps, h: Hint): Maps {
    match h
    case BytesHint(name, n) => m.(bytes := Raise(m.bytes, name, n))
    case EnumHint(name, n) => m.(enumBits := Raise(m.enumBits, name, n))
  }

  function RecordAll(m: Maps, hs: seq<Hint>): Maps
    decreases |hs|
  {
    if hs == [] then m else RecordAll(Record(m, hs[0]), hs[1..])
  }

  lemma {:induction false} RecordConcat(m: Maps, a: seq<Hint>, b: seq<Hint>)
    ensures RecordAll(m, a + b) == RecordAll(RecordAll(m, a), b)
    decreases |a|
  {
    if a == [] {
      assert a + b == b;
    } else {
      assert (a + b)[1..] == a[1..] + b;
      RecordConcat(Record(m, a[0]), a[1..], b);
    }
  }

  // ---------------------------------------------------------------- the object

  class Fallbacks {
    var bytes: map<string, nat>
    var enumBits: map<string, nat>

    constructor ()
      ensures Contents() == Maps(map[], map[])
    {
      bytes, enumBits := map[], map[];
    }

    function Contents(): Maps
      reads this
    {
      Maps(bytes, enumBits)
    }

    method InsertBytes(name: string, size: nat)
      modifies this
      ensures Contents() == Record(old(Contents()), BytesHint(name, size))
    {
      if name !in bytes || size > bytes[name] { bytes := bytes[name := size]; }
      assert bytes == Raise(old(bytes), name, size);
    }

    method InsertEnum(name: string, bits: nat)
      modifies this
      ensures Contents() == Record(old(Contents()), EnumHint(name, bits))
    {
      if name !in enumBits || bits > enumBits[name] { enumBits := enumBits[name := bits]; }
      assert enumBits == Raise(old(enumBits), name, bits);
    }

    method InsertKnown(name: string, known: KnownSizes)
      modifies this
      ensures Contents() == RecordAll(old(Contents()), KnownHint(name, known))
    {
      var n := known(name);
      if n.Some? { InsertBytes(name, n.value); }
    }

    method WalkTypeForSizes(ty: TypeInfo, known: KnownSizes)
      modifies this
      ensures Contents() == RecordAll(old(Contents()), HintsOf(ty, known))
      decreases ty, 1
    {
      ghost var start := Contents();
      match ty
      case Struct(name, size, fields) =>
        match size {
          case Some(n) => InsertBytes(name, n);
          case None => InsertKnown(name, known);
        }
        ghost var own := match size case Some(n) => [BytesHint(name, n)] case None => KnownHint(name, known);
        WalkFields(fields, known);
        RecordConcat(start, own, FieldHints(fields, known));
      case Opaque(name, n) =>
        if n > 0 { InsertBytes(name, n); } else { InsertKnown(name, known); }
      case Enum(name, _, bits) => InsertEnum(name, Max(bits, 1));
      case Pointer(inner) => WalkTypeForSizes(inner, known);
      case OptionOf(inner) => WalkTypeForSizes(inner, known);
      case ResultOf(ok, err) =>
        WalkTypeForSizes(ok, known);
        WalkTypeForSizes(err, known);
        RecordConcat(start, HintsOf(ok, known), HintsOf(err, known));
      case _ =>
    }

    method WalkFields(fields: seq<Field>, known: KnownSizes)
      modifies this
      ensures Contents() == RecordAll(old(Contents()), FieldHints(fields, known))
      decreases fields, 0
    {
      ghost var start := Contents();
      for i := 0 to |fields|
        invariant RecordAll(Contents(), FieldHints(fields[i..], known)) == RecordAll(start, FieldHints(fields, known))
      {
        assert fields[i..][1..] == fields[i + 1..];
        RecordConcat(Contents(), HintsOf(fields[i].ty, known), FieldHints(fields[i + 1..], known));
        WalkTypeForSizes(fields[i].ty, known);
      }
      assert fields[|fields|..] == [];
    }

    method CollectFunction(f: FunctionTypes, known: KnownSizes)
      modifies this
      ensures Contents() == RecordAll(old(Contents()), FunctionHints(f, known))
    {
      ghost var start := Contents();
      for i := 0 to |f.params|
        invariant RecordAll(Contents(), ParamsHints(f.params[i..], known)) ==
          RecordAll(start, ParamsHints(f.params, known))
      {
        var p := f.params[i];
        assert f.params[i..][1..] == f.params[i + 1..];
        RecordConcat(Contents(), ParamHints(p, known), ParamsHints(f.params[i + 1..], known));
        ghost var before := Contents();
        WalkTypeForSizes(p.ty, known);
        var n, name := DerefAnnotation(p.annotations), PointeeName(p.ty);
        if n.Some? && name.Some? { InsertBytes(name.value, n.value); }
        RecordConcat(before, HintsOf(p.ty, known),
          if n.Some? && name.Some? then [BytesHint(name.value, n.value)] else []);
      }
      assert f.params[|f.params|..] == [];
      ghost var mid := Contents();
      WalkTypeForSizes(f.returnType, known);
      RecordConcat(start, ParamsHints(f.params, known), HintsOf(f.returnType, known));
      ghost var late := Contents();
      for i := 0 to |f.globals|
        invariant RecordAll(Contents(), GlobalsHints(f.globals[i..], known)) ==
          RecordAll(late, GlobalsHints(f.globals, known))
      {
        assert f.globals[i..][1..] == f.globals[i + 1..];
        RecordConcat(Contents(), HintsOf(f.globals[i], known), GlobalsHints(f.globals[i + 1..], known));
        WalkTypeForSizes(f.globals[i], known);
      }
      assert f.globals[|f.globals|..] == [];
      RecordConcat(start, ParamsHints(f.params, known) + HintsOf(f.returnType, known), GlobalsHints(f.globals, known));
    }
  }

  method CollectTypeSizes(fs: seq<FunctionTypes>, known: KnownSizes) returns (out: Fallbacks)
    ensures fresh(out) && out.Contents() == Collected(fs, known)
  {
    out := new Fallbacks();
    for i := 0 to |fs|
      invariant fresh(out)
      invariant RecordAll(out.Contents(), AllHints(fs[i..], known)) == Collected(fs, known)
    {
      assert fs[i..][1..] == fs[i + 1..];
      RecordConcat(out.Contents(), FunctionHints(fs[i], known), AllHints(fs[i + 1..], known));
      out.CollectFunction(fs[i], known);
    }
    assert fs[|fs|..] == [];
  }

  function Collected(fs: seq<FunctionTypes>, known: KnownSizes): Maps {
    RecordAll(Maps(map[], map[]), AllHints(fs, known))
  }

  // ---------------------------------------------------------------- what is collected

  ghost predicate HasHint(hs: seq<Hint>, h: Hint) {
    h in hs
  }

  // Each name maps to the largest value hinted for it.
  ghost predicate IsMaxOf(m: Maps, hs: seq<Hint>) {
    && (forall name :: name in m.bytes ==> HasHint(hs, BytesHint(name, m.bytes[name])))
    && (forall name, n :: HasHint(hs, BytesHint(name, n)) ==> name in m.bytes && n <= m.bytes[name])
    && (forall name :: name in m.enumBits ==> HasHint(hs, EnumHint(name, m.enumBits[name])))
    && (forall name, n :: HasHint(hs, EnumHint(name, n)) ==> name in m.enumBits && n <= m.enumBits[name])
  }

  lemma MaxNext(m: Maps, hs: seq<Hint>, h: Hint)
    requires IsMaxOf(m, hs)
    ensures IsMaxOf(Record(m, h), hs + [h])
  {
    assert forall x :: HasHint(hs + [h], x) <==> HasHint(hs, x) || x == h;
  }

  lemma {:induction false} RecordedIsMax(hs: seq<Hint>)
    ensures IsMaxOf(RecordAll(Maps(map[], map[]), hs), hs)
    decreases |hs|
  {
    if hs != [] {
      var n := |hs| - 1;
      assert hs == hs[..n] + [hs[n]];
      RecordedIsMax(hs[..n]);
      var m := RecordAll(Maps(map[], map[]), hs[..n]);
      RecordConcat(Maps(map[], map[]), hs[..n], [hs[n]]);
      assert RecordAll(m, [hs[n]]) == RecordAll(Record(m, hs[n]), []);
      MaxNext(m, hs[..n], hs[n]);
    }
  }

  // The maxima are determined by the set of hints.
  lemma MaxUnique(m: Maps, n: Maps, hs: seq<Hint>, gs: seq<Hint>)
    requires IsMaxOf(m, hs) && IsMaxOf(n, gs) && forall h :: HasHint(hs, h) <==> HasHint(gs, h)
    ensures m == n
  {
    assert m.bytes.Keys == n.bytes.Keys && m.enumBits.Keys == n.enumBits.Keys;
    assert m.bytes == n.bytes && m.enumBits == n.enumBits;
  }

  ghost function MergeMax(a: map<string, nat>, b: map<string, nat>): map<string, nat> {
    map k | k in a.Keys + b.Keys :: if k !in a then b[k] else if k !in b then a[k] else Max(a[k], b[k])
  }

  ghost function Merge(a: Maps, b: Maps): Maps {
    Maps(MergeMax(a.bytes, b.bytes), MergeMax(a.enumBits, b.enumBits))
  }

  lemma MergeIsMax(a: Maps, b: Maps, hs: seq<Hint>, gs: seq<Hint>)
    requires IsMaxOf(a, hs) && IsMaxOf(b, gs)
    ensures IsMaxOf(Merge(a, b), hs + gs)
  {
    assert forall h :: HasHint(hs + gs, h) <==> HasHint(hs, h) || HasHint(gs, h);
  }

  lemma {:induction false} AllHintsConcat(fs: seq<FunctionTypes>, gs: seq<FunctionTypes>, known: KnownSizes)
    ensures AllHints(fs + gs, known) == AllHints(fs, known) + AllHints(gs, known)
  {
    if fs == [] {
      assert fs + gs == gs;
    } else {
      assert (fs + gs)[1..] == fs[1..] + gs;
      AllHintsConcat(fs[1..], gs, known);
    }
  }

  // Collecting from a concatenation merges what is collected from the parts.
  lemma CollectedConcat(fs: seq<FunctionTypes>, gs: seq<FunctionTypes>, known: KnownSizes)
    ensures Collected(fs + gs, known) == Merge(Collected(fs, known), Collected(gs, known))
  {
    AllHintsConcat(fs, gs, known);
    var hs, ks := AllHints(fs, known), AllHints(gs, known);
    RecordedIsMax(hs);
    RecordedIsMax(ks);
    RecordedIsMax(hs + ks);
    MergeIsMax(Collected(fs, known), Collected(gs, known), hs, ks);
    MaxUnique(Collected(fs + gs, known), Merge(Collected(fs, known), Collected(gs, known)), hs + ks, hs + ks);
  }

  lemma {:induction false} AllHintsAre(fs: seq<FunctionTypes>, known: KnownSizes, h: Hint)
    ensures HasHint(AllHints(fs, known), h) <==> exists f :: f in fs && h in FunctionHints(f, known)
  {
    if fs != [] {
      AllHintsAre(fs[1..], known, h);
      assert fs == [fs[0]] + fs[1..];
    }
  }

  /** The collected sizes depend only on which functions there are, not on their order or
      repetition: they are the maxima over all their hints. */
  lemma CollectedOrderFree(fs: seq<FunctionTypes>, gs: seq<FunctionTypes>, known: KnownSizes)
    requires forall f :: f in fs <==> f in gs
    ensures Collected(fs, known) == Collected(gs, known)
  {
    forall h ensures HasHint(AllHints(fs, known), h) <==> HasHint(AllHints(gs, known), h) {
      AllHintsAre(fs, known, h);
      AllHintsAre(gs, known, h);
    }
    RecordedIsMax(AllHints(fs, known));
    RecordedIsMax(AllHints(gs, known));
    MaxUnique(Collected(fs, known), Collected(gs, known), AllHints(fs, known), AllHints(gs, known));
  }

  // ---------------------------------------------------------------- command-line overrides

  // NAME=VALUE, both trimmed.
  function ParseOverride(entry: string, max: nat): Option<(string, nat)> {
    var eq := Find(entry, "=");
    if eq.None? || eq.value >= |entry| then None
    else
      var n := ParseUint(Trim(entry[eq.value + 1..]), max);
      if n.Some? then Some((Trim(entry[..eq.value]), n.value)) else None
  }

  // The name in front of the first equals sign and the number behind it, blanks around either
  // ignored.
  lemma OverrideRead(left: string, right: string, max: nat)
    requires '=' !in left
    ensures ParseOverride(left + "=" + right, max) ==
      if ParseUint(Trim(right), max).Some? then Some((Trim(left), ParseUint(Trim(right), max).value)) else None
  {
    var s := left + "=" + right;
    FindChar(left, '=', right);
    assert s[..|left|] == left && s[|left| + 1..] == right;
  }

  lemma OverrideUnread(entry: string, max: nat)
    requires '=' !in entry
    ensures ParseOverride(entry, max).None?
  {
    FindAbsent(entry, "=");
  }

  function SetBytes(m: Maps, name: string, n: nat): Maps {
    Maps(m.bytes[name := n], m.enumBits - {name})
  }

  function SetEnum(m: Maps, name: string, n: nat): Maps {
    Maps(m.bytes - {name}, m.enumBits[name := n])
  }

  // Entries take effect one by one; a malformed one stops the run where it stands.
  function Override(m: Maps, sizes: seq<string>, enums: seq<string>): (r: (Maps, bool))
    decreases |sizes| + |enums|
  {
    if sizes != [] then
      var p := ParseOverride(sizes[0], USIZE_MAX);
      if p.None? then (m, false) else Override(SetBytes(m, p.value.0, p.value.1), sizes[1..], enums)
    else if enums != [] then
      var p := ParseOverride(enums[0], U32_MAX);
      if p.None? then (m, false) else Override(SetEnum(m, p.value.0, p.value.1), [], enums[1..])
    else (m, true)
  }

  method ApplyCliOverrides(fb: Fallbacks, sizes: seq<string>, enums: seq<string>) returns (ok: bool)
    modifies fb
    ensures (fb.Contents(), ok) == Override(old(fb.Contents()), sizes, enums)
  {
    ghost var start := fb.Contents();
    for i := 0 to |sizes|
      invariant Override(fb.Contents(), sizes[i..], enums) == Override(start, sizes, enums)
    {
      assert sizes[i..][1..] == sizes[i + 1..];
      var p := ParseOverride(sizes[i], USIZE_MAX);
      if p.None? { return false; }
      fb.enumBits := fb.enumBits - {p.value.0};
      fb.bytes := fb.bytes[p.value.0 := p.value.1];
    }
    assert sizes[|sizes|..] == [];
    for i := 0 to |enums|
      invariant Override(fb.Contents(), [], enums[i..]) == Override(start, sizes, enums)
    {
      assert enums[i..][1..] == enums[i + 1..];
      var p := ParseOverride(enums[i], U32_MAX);
      if p.None? { return false; }
      fb.bytes := fb.bytes - {p.value.0};
      fb.enumBits := fb.enumBits[p.value.0 := p.value.1];
    }
    assert enums[|enums|..] == [];
    ok := true;
  }

  predicate AllParse(entries: seq<string>, max: nat) {
    forall i :: 0 <= i < |entries| ==> ParseOverride(entries[i], max).Some?
  }

  // The last entry for a name.
  function LastFor(entries: seq<string>, max: nat, name: string): Option<nat> {
    if entries == [] then None
    else
      var later := LastFor(entries[1..], max, name);
      var p := ParseOverride(entries[0], max);
      if later.Some? then later else if p.Some? && p.value.0 == name then Some(p.value.1) else None
  }

  ghost predicate BytesOnly(m: Maps, name: string, n: nat) {
    name in m.bytes && m.bytes[name] == n && name !in m.enumBits
  }

  ghost predicate EnumOnly(m: Maps, name: string, n: nat) {
    name in m.enumBits && m.enumBits[name] == n && name !in m.bytes
  }

  ghost predicate SameFor(a: Maps, b: Maps, name: string) {
    && (name in a.bytes <==> name in b.bytes) && (name in a.bytes ==> a.bytes[name] == b.bytes[name])
    && (name in a.enumBits <==> name in b.enumBits) && (name in a.enumBits ==> a.enumBits[name] == b.enumBits[name])
  }

  /** The overrides succeed exactly when every entry parses. Then each overridden name is in
      one map only: the enum form wins, the last entry of that form takes effect, and every
      other name is untouched. */
  lemma {:induction false} OverrideEffect(m: Maps, sizes: seq<string>, enums: seq<string>, name: string)
    ensures Override(m, sizes, enums).1 <==> AllParse(sizes, USIZE_MAX) && AllParse(enums, U32_MAX)
    ensures Override(m, sizes, enums).1 ==>
      var r, e, s := Override(m, sizes, enums).0, LastFor(enums, U32_MAX, name), LastFor(sizes, USIZE_MAX, name);
      if e.Some? then EnumOnly(r, name, e.value)
      else if s.Some? then BytesOnly(r, name, s.value)
      else SameFor(m, r, name)
    decreases |sizes| + |enums|
  {
    if sizes != [] {
      var p := ParseOverride(sizes[0], USIZE_MAX);
      assert AllParse(sizes, USIZE_MAX) <==> p.Some? && AllParse(sizes[1..], USIZE_MAX) by {
        assert forall i :: 0 < i < |sizes| ==> sizes[i] == sizes[1..][i - 1];
        assert forall i :: 0 <= i < |sizes| - 1 ==> sizes[1..][i] == sizes[i + 1];
      }
      if p.Some? { OverrideEffect(SetBytes(m, p.value.0, p.value.1), sizes[1..], enums, name); }
    } else if enums != [] {
      var p := ParseOverride(enums[0], U32_MAX);
      assert AllParse(enums, U32_MAX) <==> p.Some? && AllParse(enums[1..], U32_MAX) by {
        assert forall i :: 0 < i < |enums| ==> enums[i] == enums[1..][i - 1];
        assert forall i :: 0 <= i < |enums| - 1 ==> enums[1..][i] == enums[i + 1];
      }
      if p.Some? { OverrideEffect(SetEnum(m, p.value.0, p.value.1), [], enums[1..], name); }
    }
  }
}
