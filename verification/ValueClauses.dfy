/** Value clauses for types that inhabit only some bit patterns
    (src/constraints/value_clauses.rs). */
module ValueClauses {
  import opened Arithmetic
  import opened Types

  type Path = seq<string>

  // A clause about the variable at a path: at most a literal, or one of several literals.
  datatype Clause =
    | AtMost(path: Path, max: int, bits: nat)
    | OneOf(path: Path, values: seq<int>, bits: nat)

  // ---------------------------------------------------------------- sorting the variants

  predicate StrictlyIncreasing(s: seq<int>) {
    forall i, j :: 0 <= i < j < |s| ==> s[i] < s[j]
  }

  function Insert(s: seq<int>, x: int): (r: seq<int>)
    requires StrictlyIncreasing(s)
    ensures StrictlyIncreasing(r) && forall y :: y in r <==> y in s || y == x
  {
    if s == [] then [x]
    else if x < s[0] then [x] + s
    else if x == s[0] then s
    else
      var r := Insert(s[1..], x);
      assert forall y :: y in r ==> y > s[0];
      assert forall j :: 0 <= j < |r| ==> r[j] in r;
      assert forall y :: y in s <==> y == s[0] || y in s[1..];
      [s[0]] + r
  }

  // sort_unstable followed by dedup.
  function SortDedup(values: seq<int>): (r: seq<int>)
    ensures StrictlyIncreasing(r) && forall y :: y in r <==> y in values
  {
    if values == [] then []
    else
      assert forall y :: y in values <==> y == values[0] || y in values[1..];
      Insert(SortDedup(values[1..]), values[0])
  }

  predicate ContiguousFromZero(s: seq<int>) {
    forall i :: 0 <= i < |s| ==> s[i] == i
  }

  function EnumClause(path: Path, variants: seq<int>, bits: nat): Clause {
    var values := SortDedup(variants);
    if ContiguousFromZero(values) then AtMost(path, |values| - 1, bits) else OneOf(path, values, bits)
  }

  // ---------------------------------------------------------------- generation

  function Clauses(ty: TypeInfo, path: Path): seq<Clause>
    decreases ty
  {
    match ty
    case Enum(_, variants, bits) => if variants == [] then [] else [EnumClause(path, variants, bits)]
    case OptionOf(_) => [AtMost(path, 1, 8)]
    case ResultOf(_, _) => [AtMost(path, 1, 8)]
    case Struct(_, _, fields) => FieldClauses(fields, path)
    case _ => []
  }

  function FieldClauses(fields: seq<Field>, path: Path): seq<Clause>
    decreases fields
  {
    if fields == [] then [] else Clauses(fields[0].ty, path + [fields[0].name]) + FieldClauses(fields[1..], path)
  }

  // The recursive push onto one shared vector.
  method PushValueClauses(ty: TypeInfo, path: Path, out: seq<Clause>) returns (out': seq<Clause>)
    ensures out' == out + Clauses(ty, path)
    decreases ty
  {
    out' := out;
    match ty
    case Enum(_, variants, bits) =>
      if variants != [] { out' := out' + [EnumClause(path, variants, bits)]; }
    case OptionOf(_) => out' := out' + [AtMost(path, 1, 8)];
    case ResultOf(_, _) => out' := out' + [AtMost(path, 1, 8)];
    case Struct(_, _, fields) =>
      for i := 0 to |fields|
        invariant out' + FieldClauses(fields[i..], path) == out + FieldClauses(fields, path)
      {
        assert fields[i..][1..] == fields[i + 1..];
        out' := PushValueClauses(fields[i].ty, path + [fields[i].name], out');
      }
      assert fields[|fields|..] == [];
    case _ =>
  }

  // ---------------------------------------------------------------- meaning

  // The bit pattern of every leaf.
  type Env = Path -> nat

  // A literal at a width is its two's complement pattern.
  function Pattern(v: int, bits: nat): nat {
    v % Pow2(bits)
  }

  ghost predicate Holds(c: Clause, env: Env) {
    match c
    case AtMost(path, max, bits) => env(path) <= Pattern(max, bits)
    case OneOf(path, values, bits) => exists v :: v in values && env(path) == Pattern(v, bits)
  }

  ghost predicate AllHold(cs: seq<Clause>, env: Env) {
    forall i :: 0 <= i < |cs| ==> Holds(cs[i], env)
  }

  // The leaves the type constrains hold declared patterns.
  ghost predicate Inhabits(ty: TypeInfo, path: Path, env: Env)
    decreases ty
  {
    match ty
    case Enum(_, variants, bits) => variants == [] || exists v :: v in variants && env(path) == Pattern(v, bits)
    case OptionOf(_) => env(path) <= 1
    case ResultOf(_, _) => env(path) <= 1
    case Struct(_, _, fields) => forall i :: 0 <= i < |fields| ==> Inhabits(fields[i].ty, path + [fields[i].name], env)
    case _ => true
  }

  // Every declared value is representable at its width, signed or unsigned.
  predicate Fits(ty: TypeInfo)
    decreases ty
  {
    match ty
    case Enum(_, variants, bits) => forall v :: v in variants ==> 0 - Pow2(bits) <= 2 * v && v < Pow2(bits)
    case Struct(_, _, fields) => forall i :: 0 <= i < |fields| ==> Fits(fields[i].ty)
    case _ => true
  }

  // The enum clause admits exactly the declared values, whatever their order, gaps and
  // repetitions.
  lemma EnumClauseExact(path: Path, variants: seq<int>, bits: nat, env: Env)
    requires variants != [] && forall v :: v in variants ==> v < Pow2(bits)
    ensures Holds(EnumClause(path, variants, bits), env) <==> exists v :: v in variants && env(path) == Pattern(v, bits)
  {
    var values := SortDedup(variants);
    assert variants[0] in values;
    if ContiguousFromZero(values) {
      var n := |values|;
      assert values[n - 1] in variants;
      SmallMod(n - 1, Pow2(bits));
      forall v | v in variants ensures 0 <= v < n && Pattern(v, bits) == v {
        assert v in values;
        SmallMod(v, Pow2(bits));
      }
      if env(path) < n {
        assert values[env(path)] == env(path) && env(path) in values;
      }
    }
  }

  lemma OneClause(c: Clause, env: Env)
    ensures AllHold([c], env) <==> Holds(c, env)
  {
    assert [c][0] == c;
  }

  lemma AllHoldConcat(a: seq<Clause>, b: seq<Clause>, env: Env)
    ensures AllHold(a + b, env) <==> AllHold(a, env) && AllHold(b, env)
  {
    var c := a + b;
    if AllHold(c, env) {
      forall i | 0 <= i < |a| ensures Holds(a[i], env) { assert c[i] == a[i]; }
      forall i | 0 <= i < |b| ensures Holds(b[i], env) { assert c[|a| + i] == b[i]; }
    }
  }

  /** The clauses of a type hold of exactly the patterns it inhabits at its constrained
      leaves, through any nesting of structs. */
  lemma {:induction false} ClausesExact(ty: TypeInfo, path: Path, env: Env)
    requires Fits(ty)
    ensures AllHold(Clauses(ty, path), env) <==> Inhabits(ty, path, env)
    decreases ty
  {
    match ty
    case Enum(_, variants, bits) =>
      if variants != [] {
        EnumClauseExact(path, variants, bits, env);
        OneClause(EnumClause(path, variants, bits), env);
      }
    case Struct(_, _, fields) =>
      FieldsExact(fields, path, env);
      assert Clauses(ty, path) == FieldClauses(fields, path);
    case OptionOf(_) => SmallMod(1, Pow2(8)); OneClause(AtMost(path, 1, 8), env);
    case ResultOf(_, _) => SmallMod(1, Pow2(8)); OneClause(AtMost(path, 1, 8), env);
    case _ =>
  }

  lemma {:induction false} FieldsExact(fields: seq<Field>, path: Path, env: Env)
    requires forall i :: 0 <= i < |fields| ==> Fits(fields[i].ty)
    ensures AllHold(FieldClauses(fields, path), env) <==>
      forall i :: 0 <= i < |fields| ==> Inhabits(fields[i].ty, path + [fields[i].name], env)
    decreases fields
  {
    if fields != [] {
      var f, rest := fields[0], fields[1..];
      ClausesExact(f.ty, path + [f.name], env);
      FieldsExact(rest, path, env);
      AllHoldConcat(Clauses(f.ty, path + [f.name]), FieldClauses(rest, path), env);
      assert forall i :: 0 <= i < |rest| ==> rest[i] == fields[i + 1];
      assert forall i :: 0 < i < |fields| ==> fields[i] == rest[i - 1];
    }
  }

  // The clause depends on the set of declared values only.
  lemma EnumClauseOrderFree(path: Path, v: seq<int>, w: seq<int>, bits: nat)
    requires forall x :: x in v <==> x in w
    ensures EnumClause(path, v, bits) == EnumClause(path, w, bits)
  {
    SameElementsSameSequence(SortDedup(v), SortDedup(w));
  }

  lemma {:induction false} SameElementsSameSequence(s: seq<int>, t: seq<int>)
    requires StrictlyIncreasing(s) && StrictlyIncreasing(t) && forall x :: x in s <==> x in t
    ensures s == t
  {
    assert s != [] ==> s[0] in s;
    assert t != [] ==> t[0] in t;
    if s != [] && t != [] {
      assert s[0] in t && t[0] in s;
      assert forall x :: x in s <==> x == s[0] || x in s[1..];
      assert forall x :: x in t <==> x == t[0] || x in t[1..];
      SameElementsSameSequence(s[1..], t[1..]);
    }
  }

  // ---------------------------------------------------------------- one clause for each leaf

  // Following field names from ty leads to the type `leaf`.
  ghost predicate LeadsTo(ty: TypeInfo, names: seq<string>, leaf: TypeInfo)
    decreases |names|
  {
    if names == [] then ty == leaf
    else ty.Struct? && exists f :: f in ty.fields && f.name == names[0] && LeadsTo(f.ty, names[1..], leaf)
  }

  // The values are those from zero to n.
  ghost predicate AllUpTo(values: seq<int>, n: int) {
    n >= 0 && forall v :: v in values <==> 0 <= v <= n
  }

  // The clause a leaf gives: for an enum at its discriminant's width, a bound if the declared
  // values are all those up to it and otherwise their ascending list; for the tag of an option
  // or result, at most one in eight bits.
  ghost predicate ClauseOf(leaf: TypeInfo, path: Path, c: Clause) {
    match leaf
    case Enum(_, variants, bits) =>
      && variants != [] && c.path == path && c.bits == bits
      && (c.AtMost? <==> exists n :: AllUpTo(variants, n)) && (c.AtMost? ==> AllUpTo(variants, c.max))
      && (c.OneOf? ==> StrictlyIncreasing(c.values) && forall v :: v in c.values <==> v in variants)
    case OptionOf(_) => c == AtMost(path, 1, 8)
    case ResultOf(_, _) => c == AtMost(path, 1, 8)
    case _ => false
  }

  lemma ContiguousIff(s: seq<int>, n: int)
    requires s != [] && StrictlyIncreasing(s)
    ensures AllUpTo(s, n) <==> ContiguousFromZero(s) && n == |s| - 1
  {
    if AllUpTo(s, n) { FirstNumbers(s, n); }
    if ContiguousFromZero(s) && n == |s| - 1 {
      forall v | 0 <= v <= n ensures v in s { assert s[v] == v; }
    }
  }

  lemma {:induction false} FirstNumbers(s: seq<int>, n: nat)
    requires StrictlyIncreasing(s) && AllUpTo(s, n)
    ensures ContiguousFromZero(s) && |s| == n + 1
  {
    assert n in s;
    var k := |s| - 1;
    LastIsLargest(s, n);
    if n == 0 {
      assert s[0] in s;
    } else {
      var t := s[..k];
      assert s == t + [s[k]];
      forall v ensures v in s <==> v in t || v == s[k] {}
      forall v | v in t ensures v < s[k] {}
      FirstNumbers(t, n - 1);
    }
  }

  lemma LastIsLargest(s: seq<int>, n: nat)
    requires StrictlyIncreasing(s) && AllUpTo(s, n) && s != []
    ensures s[|s| - 1] == n
  {
    assert n in s && s[|s| - 1] in s;
    var i :| 0 <= i < |s| && s[i] == n;
    assert i < |s| - 1 ==> s[i] < s[|s| - 1];
  }

  lemma EnumClauseIs(leaf: TypeInfo, path: Path, c: Clause)
    requires leaf.Enum? && leaf.variants != []
    ensures c == EnumClause(path, leaf.variants, leaf.discriminantBits) <==> ClauseOf(leaf, path, c)
  {
    var variants := leaf.variants;
    var values := SortDedup(variants);
    assert variants[0] in values;
    forall n ensures AllUpTo(variants, n) <==> ContiguousFromZero(values) && n == |values| - 1 {
      assert AllUpTo(variants, n) <==> AllUpTo(values, n);
      ContiguousIff(values, n);
    }
    assert ContiguousFromZero(values) <==> AllUpTo(variants, |values| - 1);
    assert ContiguousFromZero(values) <==> exists n :: AllUpTo(variants, n);
    if c.OneOf? && StrictlyIncreasing(c.values) && forall v :: v in c.values <==> v in variants {
      SameElementsSameSequence(c.values, values);
    }
  }

  lemma {:induction false} FieldClausesAre(fields: seq<Field>, path: Path, c: Clause)
    ensures c in FieldClauses(fields, path) <==> exists f :: f in fields && c in Clauses(f.ty, path + [f.name])
    decreases fields
  {
    if fields != [] {
      FieldClausesAre(fields[1..], path, c);
      assert fields == [fields[0]] + fields[1..];
    }
  }

  /** The clauses of a type are those of its leaves: each under its own path and at its own
      width, and nothing else. */
  lemma {:induction false} ClausesAre(ty: TypeInfo, path: Path, c: Clause)
    ensures c in Clauses(ty, path) <==>
      exists names, leaf :: LeadsTo(ty, names, leaf) && ClauseOf(leaf, path + names, c)
    decreases ty
  {
    OwnClause(ty, path, c);
    if ty.Struct? {
      FieldClausesAre(ty.fields, path, c);
      forall f | f in ty.fields
        ensures c in Clauses(f.ty, path + [f.name]) <==>
          exists names, leaf :: LeadsTo(f.ty, names, leaf) && ClauseOf(leaf, path + [f.name] + names, c)
      {
        ClausesAre(f.ty, path + [f.name], c);
      }
      StructLeaves(ty, path, c);
    } else {
      forall names, leaf | LeadsTo(ty, names, leaf) ensures names == [] && leaf == ty {}
    }
  }

  lemma OwnClause(ty: TypeInfo, path: Path, c: Clause)
    ensures LeadsTo(ty, [], ty) && path + [] == path
    ensures !ty.Struct? ==> (c in Clauses(ty, path) <==> ClauseOf(ty, path, c))
  {
    if ty.Enum? && ty.variants != [] { EnumClauseIs(ty, path, c); }
  }

  lemma StructLeaves(ty: TypeInfo, path: Path, c: Clause)
    requires ty.Struct?
    ensures (exists names, leaf :: LeadsTo(ty, names, leaf) && ClauseOf(leaf, path + names, c)) <==>
      exists f, names, leaf ::
        f in ty.fields && LeadsTo(f.ty, names, leaf) && ClauseOf(leaf, path + [f.name] + names, c)
  {
    if names, leaf :| LeadsTo(ty, names, leaf) && ClauseOf(leaf, path + names, c) {
      var f :| f in ty.fields && f.name == names[0] && LeadsTo(f.ty, names[1..], leaf);
      assert path + [f.name] + names[1..] == path + names;
    }
    if f, names, leaf :|
      f in ty.fields && LeadsTo(f.ty, names, leaf) && ClauseOf(leaf, path + [f.name] + names, c)
    {
      var more := [f.name] + names;
      assert more[1..] == names && path + more == path + [f.name] + names;
      assert LeadsTo(ty, more, leaf);
    }
  }
}
