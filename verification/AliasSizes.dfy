/** What the fallback sizes are, read off the functions' types
    (src/transform/alias_fallbacks.rs). */
module AliasSizes {
  import opened Options
  import opened Types
  import opened AliasFallbacks

  // ---------------------------------------------------------------- types within types

  // c is what ty points to or wraps, a side of it, or the type of one of its fields.
  ghost predicate Inside(c: TypeInfo, ty: TypeInfo) {
    || ty == Pointer(c)
    || ty == OptionOf(c)
    || (ty.ResultOf? && (c == ty.ok || c == ty.err))
    || (ty.Struct? && exists f :: f in ty.fields && f.ty == c)
  }

  ghost predicate Descent(p: seq<TypeInfo>) {
    p != [] && forall i {:trigger p[i]} :: 0 < i < |p| ==> Inside(p[i], p[i - 1])
  }

  // x stands in ty, at any depth.
  ghost predicate Occurs(x: TypeInfo, ty: TypeInfo) {
    exists p :: Descent(p) && p[0] == ty && p[|p| - 1] == x
  }

  lemma OccursSelf(x: TypeInfo)
    ensures Occurs(x, x)
  {
    var p := [x];
    assert Descent(p) && p[0] == x && p[|p| - 1] == x;
  }

  lemma OccursBelow(x: TypeInfo, c: TypeInfo, ty: TypeInfo)
    requires Inside(c, ty) && Occurs(x, c)
    ensures Occurs(x, ty)
  {
    var p :| Descent(p) && p[0] == c && p[|p| - 1] == x;
    var q := [ty] + p;
    forall i | 0 < i < |q| ensures Inside(q[i], q[i - 1]) {
      if i > 1 { assert q[i] == p[i - 1] && q[i - 1] == p[i - 2]; }
    }
    assert Descent(q) && q[0] == ty && q[|q| - 1] == x;
  }

  lemma OccursOnly(x: TypeInfo, ty: TypeInfo)
    requires Occurs(x, ty)
    ensures x == ty || exists c :: Inside(c, ty) && Occurs(x, c)
  {
    var p :| Descent(p) && p[0] == ty && p[|p| - 1] == x;
    if |p| > 1 {
      var q := p[1..];
      forall i | 0 < i < |q| ensures Inside(q[i], q[i - 1]) {
        assert q[i] == p[i + 1] && q[i - 1] == p[i];
      }
      assert Descent(q) && q[0] == p[1] && q[|q| - 1] == x;
      assert Inside(p[1], ty) && Occurs(x, p[1]);
    }
  }

  // ---------------------------------------------------------------- what a type says of a name

  // A struct or opaque type of the name gives its declared size or, without one, a well-known size.
  ghost predicate SizedBy(x: TypeInfo, known: KnownSizes, name: string, n: nat) {
    || (x.Struct? && x.name == name && if x.sizeBytes.Some? then x.sizeBytes == Some(n) else known(name) == Some(n))
    || (x.Opaque? && x.name == name && if x.size > 0 then x.size == n else known(name) == Some(n))
  }

  // An enum of the name gives its discriminant's width, at least one bit.
  ghost predicate WidthBy(x: TypeInfo, name: string, n: nat) {
    x.Enum? && x.name == name && n >= 1 && (n == x.discriminantBits || (n == 1 && x.discriminantBits == 0))
  }

  ghost predicate SaidBy(x: TypeInfo, known: KnownSizes, h: Hint) {
    match h
    case BytesHint(name, n) => SizedBy(x, known, name, n)
    case EnumHint(name, n) => WidthBy(x, name, n)
  }

  lemma {:induction false} FieldHintsAre(fields: seq<Field>, known: KnownSizes, h: Hint)
    ensures h in FieldHints(fields, known) <==> exists f :: f in fields && h in HintsOf(f.ty, known)
  {
    if fields != [] {
      FieldHintsAre(fields[1..], known, h);
      assert fields == [fields[0]] + fields[1..];
    }
  }

  // One level of the walk.
  lemma HintsOfStep(ty: TypeInfo, known: KnownSizes, h: Hint)
    ensures h in HintsOf(ty, known) <==> SaidBy(ty, known, h) || exists c :: Inside(c, ty) && h in HintsOf(c, known)
  {
    match ty
    case Struct(name, size, fields) =>
      FieldHintsAre(fields, known, h);
      forall f | f in fields ensures Inside(f.ty, ty) {}
    case Pointer(inner) => assert Inside(inner, ty);
    case OptionOf(inner) => assert Inside(inner, ty);
    case ResultOf(ok, err) => assert Inside(ok, ty) && Inside(err, ty);
    case _ =>
  }

  // What the walk records of a type is what the types standing in it say.
  lemma {:induction false} HintsOfAre(ty: TypeInfo, known: KnownSizes, h: Hint)
    ensures h in HintsOf(ty, known) <==> exists x :: Occurs(x, ty) && SaidBy(x, known, h)
    decreases ty
  {
    HintsOfStep(ty, known, h);
    OccursSelf(ty);
    forall c | Inside(c, ty) ensures h in HintsOf(c, known) <==> exists x :: Occurs(x, c) && SaidBy(x, known, h) {
      HintsOfAre(c, known, h);
    }
    forall x, c | Inside(c, ty) && Occurs(x, c) ensures Occurs(x, ty) { OccursBelow(x, c, ty); }
    forall x | Occurs(x, ty) ensures x == ty || exists c :: Inside(c, ty) && Occurs(x, c) { OccursOnly(x, ty); }
  }

  // ---------------------------------------------------------------- what a module says of a name

  // The types a function shows: its parameters', its result's, its globals'.
  ghost predicate Shows(f: FunctionTypes, ty: TypeInfo) {
    (exists p :: p in f.params && p.ty == ty) || ty == f.returnType || ty in f.globals
  }

  // The parameter's first dereferenceable annotation sizes the named type it has or points to.
  ghost predicate SizesPointee(p: ParamInfo, name: string, n: nat) {
    && (exists i :: FirstDereferenceable(p.annotations, i, n))
    && exists c :: (p.ty == c || p.ty == Pointer(c)) && (c.Struct? || c.Opaque? || c.Enum?) && c.name == name
  }

  ghost predicate FirstDereferenceable(anns: seq<Annotation>, i: nat, n: nat) {
    i < |anns| && anns[i] == Dereferenceable(n) && forall j :: 0 <= j < i ==> !anns[j].Dereferenceable?
  }

  lemma {:induction false} DerefIsFirst(anns: seq<Annotation>, n: nat)
    ensures DerefAnnotation(anns) == Some(n) <==> exists i :: FirstDereferenceable(anns, i, n)
  {
    if anns != [] {
      DerefIsFirst(anns[1..], n);
      if anns[0].Dereferenceable? {
        assert anns[0] == Dereferenceable(n) ==> FirstDereferenceable(anns, 0, n);
      } else {
        forall i: nat ensures FirstDereferenceable(anns[1..], i, n) <==> FirstDereferenceable(anns, i + 1, n) {
          FirstNext(anns, i, n);
        }
        if i: nat :| FirstDereferenceable(anns, i, n) {
          assert i > 0;
          assert FirstDereferenceable(anns[1..], i - 1, n);
        }
      }
    }
  }

  lemma FirstNext(anns: seq<Annotation>, i: nat, n: nat)
    requires anns != [] && !anns[0].Dereferenceable?
    ensures FirstDereferenceable(anns[1..], i, n) <==> FirstDereferenceable(anns, i + 1, n)
  {
    forall j | 0 <= j < |anns| - 1 ensures anns[1..][j] == anns[j + 1] {}
    if FirstDereferenceable(anns[1..], i, n) {
      forall j | 0 < j < i + 1 ensures !anns[j].Dereferenceable? { assert anns[j] == anns[1..][j - 1]; }
    }
  }

  ghost predicate SaidOf(f: FunctionTypes, known: KnownSizes, h: Hint) {
    || (exists ty, x :: Shows(f, ty) && Occurs(x, ty) && SaidBy(x, known, h))
    || (h.BytesHint? && exists p :: p in f.params && SizesPointee(p, h.name, h.n))
  }

  lemma PointeeNamed(ty: TypeInfo, name: string)
    ensures PointeeName(ty) == Some(name) <==>
      exists c :: (ty == c || ty == Pointer(c)) && (c.Struct? || c.Opaque? || c.Enum?) && c.name == name
  {
    var c := if ty.Pointer? then ty.inner else ty;
    assert PointeeName(ty) == Some(name) ==>
      (ty == c || ty == Pointer(c)) && (c.Struct? || c.Opaque? || c.Enum?) && c.name == name;
  }

  lemma ParamHintsAre(p: ParamInfo, known: KnownSizes, h: Hint)
    ensures h in ParamHints(p, known) <==>
      h in HintsOf(p.ty, known) || (h.BytesHint? && SizesPointee(p, h.name, h.n))
  {
    if h.BytesHint? {
      DerefIsFirst(p.annotations, h.n);
      PointeeNamed(p.ty, h.name);
    }
  }

  lemma {:induction false} ParamsHintsAre(ps: seq<ParamInfo>, known: KnownSizes, h: Hint)
    ensures h in ParamsHints(ps, known) <==> exists p :: p in ps && h in ParamHints(p, known)
  {
    if ps != [] {
      ParamsHintsAre(ps[1..], known, h);
      assert ps == [ps[0]] + ps[1..];
    }
  }

  lemma {:induction false} GlobalsHintsAre(gs: seq<TypeInfo>, known: KnownSizes, h: Hint)
    ensures h in GlobalsHints(gs, known) <==> exists g :: g in gs && h in HintsOf(g, known)
  {
    if gs != [] {
      GlobalsHintsAre(gs[1..], known, h);
      assert gs[0] in gs && forall g :: g in gs <==> g == gs[0] || g in gs[1..];
      if h in HintsOf(gs[0], known) { assert exists g :: g in gs && h in HintsOf(g, known); }
    }
  }

  lemma FunctionHintsAre(f: FunctionTypes, known: KnownSizes, h: Hint)
    ensures h in FunctionHints(f, known) <==> SaidOf(f, known, h)
  {
    var shown := exists ty :: Shows(f, ty) && h in HintsOf(ty, known);
    var pointed := h.BytesHint? && exists p :: p in f.params && SizesPointee(p, h.name, h.n);
    ParamsSaid(f, known, h);
    GlobalsHintsAre(f.globals, known, h);
    assert shown <==> (exists p :: p in f.params && h in HintsOf(p.ty, known)) ||
                      h in HintsOf(f.returnType, known) || h in GlobalsHints(f.globals, known) by {
      forall p | p in f.params ensures Shows(f, p.ty) {}
      assert Shows(f, f.returnType) && forall g :: g in f.globals ==> Shows(f, g);
    }
    ShownHints(f, known, h);
  }

  lemma ParamsSaid(f: FunctionTypes, known: KnownSizes, h: Hint)
    ensures h in ParamsHints(f.params, known) <==>
      || (exists p :: p in f.params && h in HintsOf(p.ty, known))
      || (h.BytesHint? && exists p :: p in f.params && SizesPointee(p, h.name, h.n))
  {
    ParamsHintsAre(f.params, known, h);
    forall p | p in f.params
      ensures h in ParamHints(p, known) <==>
        h in HintsOf(p.ty, known) || (h.BytesHint? && SizesPointee(p, h.name, h.n))
    {
      ParamHintsAre(p, known, h);
    }
  }

  lemma ShownHints(f: FunctionTypes, known: KnownSizes, h: Hint)
    ensures (exists ty :: Shows(f, ty) && h in HintsOf(ty, known)) <==>
      exists ty, x :: Shows(f, ty) && Occurs(x, ty) && SaidBy(x, known, h)
  {
    forall ty ensures h in HintsOf(ty, known) <==> exists x :: Occurs(x, ty) && SaidBy(x, known, h) {
      HintsOfAre(ty, known, h);
    }
  }

  // A byte size, or an enum width, some function says the name has.
  ghost predicate Size(fs: seq<FunctionTypes>, known: KnownSizes, name: string, n: nat) {
    exists f :: f in fs && (
      || (exists ty, x :: Shows(f, ty) && Occurs(x, ty) && SizedBy(x, known, name, n))
      || exists p :: p in f.params && SizesPointee(p, name, n))
  }

  ghost predicate Width(fs: seq<FunctionTypes>, name: string, n: nat) {
    exists f, ty, x :: f in fs && Shows(f, ty) && Occurs(x, ty) && WidthBy(x, name, n)
  }

  lemma SizeIsHint(fs: seq<FunctionTypes>, known: KnownSizes, name: string, n: nat)
    ensures Size(fs, known, name, n) <==> HasHint(AllHints(fs, known), BytesHint(name, n))
  {
    var h := BytesHint(name, n);
    AllHintsAre(fs, known, h);
    forall f ensures h in FunctionHints(f, known) <==> SaidOf(f, known, h) { FunctionHintsAre(f, known, h); }
    forall x ensures SaidBy(x, known, h) <==> SizedBy(x, known, name, n) {}
  }

  lemma WidthIsHint(fs: seq<FunctionTypes>, known: KnownSizes, name: string, n: nat)
    ensures Width(fs, name, n) <==> HasHint(AllHints(fs, known), EnumHint(name, n))
  {
    var h := EnumHint(name, n);
    AllHintsAre(fs, known, h);
    forall f ensures h in FunctionHints(f, known) <==> SaidOf(f, known, h) { FunctionHintsAre(f, known, h); }
    forall x ensures SaidBy(x, known, h) <==> WidthBy(x, name, n) {}
  }

  /** The fallbacks, read off the types: a name has a byte entry exactly when some type in the
      functions, or some annotation, gives it a size, and then the entry is the largest of
      these; likewise for enum widths. */
  lemma CollectedIs(fs: seq<FunctionTypes>, known: KnownSizes, name: string)
    ensures var m := Collected(fs, known).bytes;
      && (name in m <==> exists n :: Size(fs, known, name, n))
      && (name in m ==> Size(fs, known, name, m[name]) && forall n :: Size(fs, known, name, n) ==> n <= m[name])
    ensures var m := Collected(fs, known).enumBits;
      && (name in m <==> exists n :: Width(fs, name, n))
      && (name in m ==> Width(fs, name, m[name]) && forall n :: Width(fs, name, n) ==> n <= m[name])
  {
    RecordedIsMax(AllHints(fs, known));
    forall n: nat ensures Size(fs, known, name, n) <==> HasHint(AllHints(fs, known), BytesHint(name, n)) {
      SizeIsHint(fs, known, name, n);
    }
    forall n: nat ensures Width(fs, name, n) <==> HasHint(AllHints(fs, known), EnumHint(name, n)) {
      WidthIsHint(fs, known, name, n);
    }
  }
}
