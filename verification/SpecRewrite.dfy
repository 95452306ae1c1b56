/** The alias rewriter over generated specs (src/transform/spec_rewrite.rs). */
module SpecRewrite {
  import opened Options
  import opened Text
  import Decimal
  import TypeResolve

  const PATTERN := "llvm_alias \""

  // The size tables the rewriter consults.
  datatype Tables = Tables(ir: map<string, nat>, enumBits: map<string, nat>, bytes: map<string, nat>)

  // What happens to an alias: kept because the module knows it, replaced, or kept and reported.
  datatype Verdict = Keep | Bytes(n: nat) | Bits(n: nat) | Unresolved

  predicate IsComplexStlTemplate(name: string) {
    "std::optional<" <= name || "std::variant<" <= name
  }

  function Decide(t: Tables, name: string): Verdict {
    if name in t.ir && !IsComplexStlTemplate(name) then Keep
    else if name in t.ir then Bytes(t.ir[name])
    else
      var r := TypeResolve.ResolveViaIr(name, t.ir);
      if r.Some? then Bytes(r.value)
      else if name in t.enumBits then Bits(t.enumBits[name])
      else if name in t.bytes then Bytes(t.bytes[name])
      else Unresolved
  }

  function AliasText(name: string): string {
    PATTERN + name + "\""
  }

  function Emit(v: Verdict, name: string): string {
    match v
    case Keep => AliasText(name)
    case Unresolved => AliasText(name)
    case Bytes(n) => "llvm_array " + Decimal.Dec(n) + " (llvm_int 8)"
    case Bits(n) => "llvm_int " + Decimal.Dec(n)
  }

  // ---------------------------------------------------------------- specification

  // The text read as characters, closed aliases, and an unclosed tail.
  datatype Token = Ch(c: char) | Alias(name: string) | Tail(text: string)

  function Quote(s: string): (r: Option<nat>)
    ensures r.Some? ==> r.value < |s| && s[r.value] == '"' && '"' !in s[..r.value]
    ensures r.None? ==> '"' !in s
  {
    if s == "" then None
    else if s[0] == '"' then Some(0)
    else
      var r := Quote(s[1..]);
      if r.Some? then
        assert s[..r.value + 1] == [s[0]] + s[1..][..r.value];
        Some(r.value + 1)
      else None
  }

  function Tokens(s: string): seq<Token>
    decreases |s|
  {
    if s == "" then []
    else if PATTERN <= s then
      var after := s[|PATTERN|..];
      var close := Quote(after);
      if close.Some? then [Alias(after[..close.value])] + Tokens(after[close.value + 1..])
      else [Tail(s)]
    else [Ch(s[0])] + Tokens(s[1..])
  }

  function Spell(tok: Token, emit: string -> string): string {
    match tok
    case Ch(c) => [c]
    case Alias(name) => emit(name)
    case Tail(text) => text
  }

  function Render(toks: seq<Token>, emit: string -> string): string {
    if toks == [] then "" else Spell(toks[0], emit) + Render(toks[1..], emit)
  }

  // The aliases of a text, in order.
  function Aliases(toks: seq<Token>): seq<string> {
    if toks == [] then []
    else (if toks[0].Alias? then [toks[0].name] else []) + Aliases(toks[1..])
  }

  function Emitter(t: Tables): string -> string {
    name => Emit(Decide(t, name), name)
  }

  function Rewritten(s: string, t: Tables): string {
    Render(Tokens(s), Emitter(t))
  }

  function UnresolvedIn(names: seq<string>, t: Tables): set<string> {
    set k | 0 <= k < |names| && Decide(t, names[k]).Unresolved? :: names[k]
  }

  // A closed alias at the front.
  lemma AliasShape(s: string)
    requires PATTERN <= s && Quote(s[|PATTERN|..]).Some?
    ensures
      var after := s[|PATTERN|..];
      var n := Quote(after).value;
      s == AliasText(after[..n]) + after[n + 1..] && '"' !in after[..n]
  {
    var after := s[|PATTERN|..];
    var n := Quote(after).value;
    CutAt(after, n);
    assert s == PATTERN + after;
  }

  lemma CutAt(after: string, n: nat)
    requires n < |after| && after[n] == '"'
    ensures PATTERN + after == AliasText(after[..n]) + after[n + 1..]
  {
    assert after == after[..n] + ("\"" + after[n + 1..]);
  }

  // The tokens spell the text.
  lemma {:induction false} TokensSpell(s: string)
    ensures Render(Tokens(s), AliasText) == s
    decreases |s|
  {
    if s == "" {
    } else if PATTERN <= s {
      var after := s[|PATTERN|..];
      var close := Quote(after);
      if close.Some? {
        AliasShape(s);
        TokensSpell(after[close.value + 1..]);
        RenderCons(Alias(after[..close.value]), Tokens(after[close.value + 1..]), AliasText);
      } else {
        RenderCons(Tail(s), [], AliasText);
        assert [Tail(s)] + [] == [Tail(s)] && s + "" == s;
      }
    } else {
      TokensSpell(s[1..]);
      RenderCons(Ch(s[0]), Tokens(s[1..]), AliasText);
      assert s == [s[0]] + s[1..];
    }
  }

  lemma RenderCons(tok: Token, toks: seq<Token>, emit: string -> string)
    ensures Render([tok] + toks, emit) == Spell(tok, emit) + Render(toks, emit)
    ensures Aliases([tok] + toks) == (if tok.Alias? then [tok.name] else []) + Aliases(toks)
  {
    assert ([tok] + toks)[1..] == toks;
  }

  // ---------------------------------------------------------------- the loop

  lemma RewriteChar(s: string, t: Tables)
    requires s != "" && !(PATTERN <= s)
    ensures Rewritten(s, t) == [s[0]] + Rewritten(s[1..], t)
    ensures Aliases(Tokens(s)) == Aliases(Tokens(s[1..]))
  {
    assert Tokens(s)[1..] == Tokens(s[1..]);
  }

  lemma RewriteAlias(name: string, rest: string, t: Tables)
    requires '"' !in name
    ensures Rewritten(AliasText(name) + rest, t) == Emit(Decide(t, name), name) + Rewritten(rest, t)
    ensures Aliases(Tokens(AliasText(name) + rest)) == [name] + Aliases(Tokens(rest))
  {
    var s := AliasText(name) + rest;
    var after := name + "\"" + rest;
    assert s == PATTERN + after && s[|PATTERN|..] == after;
    QuoteAt(name, rest);
    assert after[..|name|] == name && after[|name| + 1..] == rest;
    assert Tokens(s) == [Alias(name)] + Tokens(rest);
    assert Tokens(s)[1..] == Tokens(rest);
  }

  /** What the pass writes for an alias, read off the tables: the alias itself if the module has
      the name and it is no complex template; else the array of its size there, or of the size
      looked up; else the integer of an enum's width; else the array of a fallback size; else
      the alias again. */
  lemma AliasBecomes(name: string, rest: string, t: Tables)
    requires '"' !in name
    ensures
      var out, tail := Rewritten("llvm_alias \"" + name + "\"" + rest, t), Rewritten(rest, t);
      var kept, sized := "llvm_alias \"" + name + "\"", (n: nat) => "llvm_array " + Decimal.Dec(n) + " (llvm_int 8)";
      && (name in t.ir && ("std::optional<" <= name || "std::variant<" <= name) ==> out == sized(t.ir[name]) + tail)
      && (name in t.ir && !("std::optional<" <= name) && !("std::variant<" <= name) ==> out == kept + tail)
      && forall n: nat :: name !in t.ir && TypeResolve.ResolveViaIr(name, t.ir) == Some(n) ==> out == sized(n) + tail
    ensures
      var out, tail := Rewritten("llvm_alias \"" + name + "\"" + rest, t), Rewritten(rest, t);
      var kept, sized := "llvm_alias \"" + name + "\"", (n: nat) => "llvm_array " + Decimal.Dec(n) + " (llvm_int 8)";
      name !in t.ir && TypeResolve.ResolveViaIr(name, t.ir).None? ==>
      && (name in t.enumBits ==> out == "llvm_int " + Decimal.Dec(t.enumBits[name]) + tail)
      && (name !in t.enumBits && name in t.bytes ==> out == sized(t.bytes[name]) + tail)
      && (name !in t.enumBits && name !in t.bytes ==> out == kept + tail)
  {
    RewriteAlias(name, rest, t);
  }

  // In particular, a short name the module has in just one namespace gets that type's size.
  lemma ShortNameSized(name: string, key: string, rest: string, t: Tables)
    requires '"' !in name && name !in t.ir && TypeResolve.OnlyInNamespace(t.ir, name, key)
    ensures Rewritten("llvm_alias \"" + name + "\"" + rest, t) ==
      "llvm_array " + Decimal.Dec(t.ir[key]) + " (llvm_int 8)" + Rewritten(rest, t)
  {
    TypeResolve.ResolveIs(name, t.ir, t.ir[key]);
    AliasBecomes(name, rest, t);
  }

  lemma {:induction false} QuoteAt(name: string, rest: string)
    requires '"' !in name
    ensures Quote(name + "\"" + rest) == Some(|name|)
  {
    var s := name + "\"" + rest;
    if name == "" {
      assert s[0] == '"';
    } else {
      assert s[1..] == name[1..] + "\"" + rest;
      QuoteAt(name[1..], rest);
    }
  }

  // Text with no occurrence starting in it is copied.
  lemma {:induction false} RewriteCopies(s: string, n: nat, t: Tables)
    requires n <= |s| && forall i :: 0 <= i < n ==> !OccursAt(s, PATTERN, i)
    ensures Rewritten(s, t) == s[..n] + Rewritten(s[n..], t)
    ensures Aliases(Tokens(s)) == Aliases(Tokens(s[n..]))
  {
    if n > 0 {
      NoneInTail(s, n);
      RewriteChar(s, t);
      RewriteCopies(s[1..], n - 1, t);
      CopyRegroup(s, n);
    } else {
      assert s[..0] == "" && s[0..] == s;
    }
  }

  lemma NoneInTail(s: string, n: nat)
    requires 0 < n <= |s| && forall i :: 0 <= i < n ==> !OccursAt(s, PATTERN, i)
    ensures !(PATTERN <= s) && forall i :: 0 <= i < n - 1 ==> !OccursAt(s[1..], PATTERN, i)
  {
    assert s[0..] == s && !OccursAt(s, PATTERN, 0);
    forall i | 0 <= i < n - 1 ensures !OccursAt(s[1..], PATTERN, i) {
      assert s[1..][i..] == s[i + 1..];
      assert !OccursAt(s, PATTERN, i + 1);
    }
  }

  lemma CopyRegroup(s: string, n: nat)
    requires 0 < n <= |s|
    ensures s[1..][n - 1..] == s[n..] && [s[0]] + s[1..][..n - 1] == s[..n]
    ensures forall x: string :: [s[0]] + (s[1..][..n - 1] + x) == s[..n] + x
  {
    assert [s[0]] + s[1..][..n - 1] == s[..n];
    forall x: string ensures [s[0]] + (s[1..][..n - 1] + x) == s[..n] + x {
      assert [s[0]] + (s[1..][..n - 1] + x) == ([s[0]] + s[1..][..n - 1]) + x;
    }
  }

  lemma {:induction false} NoPatternNoAlias(s: string, t: Tables)
    requires !Contains(s, PATTERN)
    ensures Rewritten(s, t) == s && Aliases(Tokens(s)) == []
  {
    RewriteCopies(s, |s|, t);
    assert s[|s|..] == "" && s[..|s|] == s;
  }

  lemma UnclosedTail(s: string, t: Tables)
    requires PATTERN <= s && '"' !in s[|PATTERN|..]
    ensures Rewritten(s, t) == s && Aliases(Tokens(s)) == []
  {
    assert Tokens(s) == [Tail(s)] + [];
    RenderCons(Tail(s), [], Emitter(t));
    assert s + "" == s;
  }

  // The text has been rewritten up to `rest`, meeting the aliases `seen`.
  ghost predicate Scanned(text: string, t: Tables, out: string, seen: seq<string>, rest: string) {
    && out + Rewritten(rest, t) == Rewritten(text, t)
    && seen + Aliases(Tokens(rest)) == Aliases(Tokens(text))
  }

  lemma ScanCopy(text: string, t: Tables, out: string, seen: seq<string>, rest: string, n: nat)
    requires Scanned(text, t, out, seen, rest)
    requires n <= |rest| && forall i :: 0 <= i < n ==> !OccursAt(rest, PATTERN, i)
    ensures Scanned(text, t, out + rest[..n], seen, rest[n..])
  {
    RewriteCopies(rest, n, t);
  }

  lemma ScanAlias(text: string, t: Tables, out: string, seen: seq<string>, rest: string, name: string, next: string)
    requires Scanned(text, t, out, seen, rest) && rest == AliasText(name) + next && '"' !in name
    ensures Scanned(text, t, out + Emit(Decide(t, name), name), seen + [name], next)
  {
    RewriteAlias(name, next, t);
    Regroup(out, Emit(Decide(t, name), name), Rewritten(next, t));
    Regroup(seen, [name], Aliases(Tokens(next)));
  }

  lemma Regroup<T>(x: seq<T>, y: seq<T>, z: seq<T>)
    ensures x + (y + z) == (x + y) + z
  {
  }

  // Up to the first pattern, if any, the text is copied.
  lemma ScanToPattern(text: string, t: Tables, out: string, seen: seq<string>, rest: string)
    requires Scanned(text, t, out, seen, rest)
    ensures var pos := Find(rest, PATTERN);
      && (pos.None? ==> !Contains(rest, PATTERN))
      && (pos.Some? ==>
            Scanned(text, t, out + rest[..pos.value], seen, rest[pos.value..]) && PATTERN <= rest[pos.value..])
  {
    var pos := Find(rest, PATTERN);
    FindIsFirst(rest, PATTERN);
    if pos.Some? { ScanCopy(text, t, out, seen, rest, pos.value); }
  }

  lemma ScanClosed(text: string, t: Tables, out: string, seen: seq<string>, rest: string)
    requires Scanned(text, t, out, seen, rest) && PATTERN <= rest && Quote(rest[|PATTERN|..]).Some?
    ensures
      var after := rest[|PATTERN|..];
      var n := Quote(after).value;
      Scanned(text, t, out + Emit(Decide(t, after[..n]), after[..n]), seen + [after[..n]], after[n + 1..])
  {
    var after := rest[|PATTERN|..];
    var n := Quote(after).value;
    AliasShape(rest);
    ScanAlias(text, t, out, seen, rest, after[..n], after[n + 1..]);
  }

  lemma ScanDone(text: string, t: Tables, out: string, seen: seq<string>, rest: string)
    requires Scanned(text, t, out, seen, rest)
    requires !Contains(rest, PATTERN) || (PATTERN <= rest && '"' !in rest[|PATTERN|..])
    ensures out + rest == Rewritten(text, t) && seen == Aliases(Tokens(text))
  {
    if PATTERN <= rest && '"' !in rest[|PATTERN|..] { UnclosedTail(rest, t); } else { NoPatternNoAlias(rest, t); }
    assert seen + [] == seen;
  }

  // The loop's whole state; the reported names are those of the aliases met.
  ghost predicate Rewriting(text: string, t: Tables, out: string, seen: seq<string>, rest: string,
                            unresolved: set<string>) {
    Scanned(text, t, out, seen, rest) && unresolved == UnresolvedIn(seen, t)
  }

  lemma RewritingNext(text: string, t: Tables, out: string, seen: seq<string>, rest: string, unresolved: set<string>)
    requires Rewriting(text, t, out, seen, rest, unresolved) && PATTERN <= rest && Quote(rest[|PATTERN|..]).Some?
    ensures
      var after := rest[|PATTERN|..];
      var n := Quote(after).value;
      var v := Decide(t, after[..n]);
      Rewriting(text, t, out + Emit(v, after[..n]), seen + [after[..n]], after[n + 1..],
                if v.Unresolved? then unresolved + {after[..n]} else unresolved)
  {
    var after := rest[|PATTERN|..];
    ScanClosed(text, t, out, seen, rest);
    UnresolvedNext(seen, after[..Quote(after).value], t);
  }

  /** The scanning loop: `rest` shrinks, `out` grows. */
  method RewriteUnresolvedAliases(text: string, t: Tables) returns (out: string, unresolved: set<string>)
    ensures out == Rewritten(text, t)
    ensures unresolved == UnresolvedIn(Aliases(Tokens(text)), t)
    ensures forall name :: name in unresolved <==> IsReported(text, t, name)
  {
    unresolved := {};
    out := "";
    var rest := text;
    ghost var seen: seq<string> := [];
    while true
      invariant Rewriting(text, t, out, seen, rest, unresolved)
      decreases |rest|
    {
      var pos := Find(rest, PATTERN);
      ScanToPattern(text, t, out, seen, rest);
      if pos.None? { break; }
      out := out + rest[..pos.value];
      rest := rest[pos.value..];
      var after := rest[|PATTERN|..];
      var close := Quote(after);
      if close.None? { break; }
      var name := after[..close.value];
      RewritingNext(text, t, out, seen, rest, unresolved);
      var verdict := Decide(t, name);
      out := out + Emit(verdict, name);
      if verdict.Unresolved? { unresolved := unresolved + {name}; }
      seen := seen + [name];
      rest := after[close.value + 1..];
    }
    ScanDone(text, t, out, seen, rest);
    ReportedIs(text, t);
    out := out + rest;
  }

  // An alias of the text no table knows.
  ghost predicate IsReported(text: string, t: Tables, name: string) {
    && name in Aliases(Tokens(text))
    && name !in t.ir && TypeResolve.ResolveViaIr(name, t.ir).None? && name !in t.enumBits && name !in t.bytes
  }

  lemma ReportedIs(text: string, t: Tables)
    ensures forall name :: name in UnresolvedIn(Aliases(Tokens(text)), t) <==> IsReported(text, t, name)
  {
  }

  lemma UnresolvedNext(seen: seq<string>, name: string, t: Tables)
    ensures UnresolvedIn(seen + [name], t) == UnresolvedIn(seen, t) + if Decide(t, name).Unresolved? then {name} else {}
  {
    var more := seen + [name];
    assert more[|seen|] == name && forall k :: 0 <= k < |seen| ==> more[k] == seen[k];
  }

  // ---------------------------------------------------------------- no new aliases

  // The pattern cannot start at position i of r: some character of r rules it out.
  ghost predicate RuledOut(r: string, i: nat)
    requires i < |r|
  {
    || r[i] != 'l'
    || (i + 1 < |r| && r[i + 1] != 'l')
    || (i + 6 < |r| && (r[i + 5] != 'a' || r[i + 6] != 'l'))
  }

  lemma RuledOutAnyTail(r: string, x: string, i: nat)
    requires i < |r| && RuledOut(r, i)
    ensures !OccursAt(r + x, PATTERN, i)
  {
    var s := (r + x)[i..];
    if r[i] != 'l' {
      assert s[0] == r[i] && PATTERN[0] == 'l';
    } else if i + 1 < |r| && r[i + 1] != 'l' {
      assert s[1] == r[i + 1] && PATTERN[1] == 'l';
    } else {
      assert s[5] == r[i + 5] && s[6] == r[i + 6];
      assert PATTERN[5] == 'a' && PATTERN[6] == 'l';
    }
  }

  lemma ArrayTextRuledOut(d: string)
    requires Decimal.AllDigits(d)
    ensures var r := "llvm_array " + d + " (llvm_int 8)"; forall i :: 0 <= i < |r| ==> RuledOut(r, i)
  {
    var a, b := "llvm_array ", " (llvm_int 8)";
    var r := a + d + b;
    assert forall j :: 0 <= j < |d| ==> d[j] != 'l';
    forall i | 0 <= i < |r| ensures RuledOut(r, i) {
      if i < |a| {
        assert r[i] == a[i];
        assert r[1] == a[1] && r[2] == a[2] && r[6] == a[6];
      } else if i >= |a| + |d| {
        var j := i - |a| - |d|;
        assert r[i] == b[j];
        assert r[i] == 'l' ==> j == 2 || j == 3;
        assert r[|a| + |d| + 4] == b[4] && r[|a| + |d| + 7] == b[7];
      }
    }
  }

  lemma IntTextRuledOut(d: string)
    requires Decimal.AllDigits(d)
    ensures var r := "llvm_int " + d; forall i :: 0 <= i < |r| ==> RuledOut(r, i)
  {
    var a := "llvm_int ";
    var r := a + d;
    assert forall j :: 0 <= j < |d| ==> d[j] != 'l';
    forall i | 0 <= i < |r| ensures RuledOut(r, i) {
      if i < |a| {
        assert r[i] == a[i];
        assert r[1] == a[1] && r[2] == a[2] && r[5] == a[5] && r[6] == a[6];
      }
    }
  }

  predicate Replaced(v: Verdict) {
    v.Bytes? || v.Bits?
  }

  // A replacement is copied verbatim by another pass, whatever comes after it.
  lemma ReplacementCopied(v: Verdict, name: string, x: string, t: Tables)
    requires Replaced(v)
    ensures Rewritten(Emit(v, name) + x, t) == Emit(v, name) + Rewritten(x, t)
    ensures Aliases(Tokens(Emit(v, name) + x)) == Aliases(Tokens(x))
  {
    var r := Emit(v, name);
    if v.Bytes? { ArrayTextRuledOut(Decimal.Dec(v.n)); } else { IntTextRuledOut(Decimal.Dec(v.n)); }
    forall i | 0 <= i < |r| ensures !OccursAt(r + x, PATTERN, i) { RuledOutAnyTail(r, x, i); }
    RewriteCopies(r + x, |r|, t);
    assert (r + x)[..|r|] == r && (r + x)[|r|..] == x;
  }

  lemma PrefixCons(p: string, s: string)
    requires p != ""
    ensures p <= s <==> s != "" && p[0] == s[0] && p[1..] <= s[1..]
  {
    if s != "" && p[0] == s[0] && p[1..] <= s[1..] {
      assert p == [p[0]] + p[1..] && s == [s[0]] + s[1..];
    }
  }

  lemma EmitStart(v: Verdict, name: string)
    ensures |Emit(v, name)| > 2 && Emit(v, name)[0] == 'l' && Emit(v, name)[1] == 'l'
  {
    var p := match v case Bytes(_) => "llvm_array " case Bits(_) => "llvm_int " case _ => PATTERN;
    assert p[0] == 'l' && p[1] == 'l' && p <= Emit(v, name);
  }

  // Whatever an alias becomes starts with "ll" ...
  lemma FrontOfAlias(s: string, t: Tables)
    requires PATTERN <= s
    ensures |Rewritten(s, t)| > 2 && Rewritten(s, t)[0] == 'l' && Rewritten(s, t)[1] == 'l'
  {
    var after := s[|PATTERN|..];
    if Quote(after).Some? {
      AliasShape(s);
      var n := Quote(after).value;
      RewriteAlias(after[..n], after[n + 1..], t);
      EmitStart(Decide(t, after[..n]), after[..n]);
    } else {
      UnclosedTail(s, t);
    }
  }

  // ... and so cannot continue the pattern.
  lemma LlDoesNotContinue(r: string, k: nat)
    requires |r| > 2 && r[0] == 'l' && r[1] == 'l' && 1 <= k < |PATTERN|
    ensures !(PATTERN[k..] <= r)
  {
    PrefixCons(PATTERN[k..], r);
    assert PATTERN[k..][0] == PATTERN[k];
    if k == 1 || k == 6 {
      PrefixCons(PATTERN[k + 1..], r[1..]);
      assert PATTERN[k..][1..] == PATTERN[k + 1..];
    }
  }

  // What a rewrite shows at the front, if it continues the pattern from position k, was
  // already there.
  lemma {:induction false} RewriteFront(s: string, k: nat, t: Tables)
    requires 1 <= k <= |PATTERN|
    ensures PATTERN[k..] <= Rewritten(s, t) ==> PATTERN[k..] <= s
    decreases |PATTERN| - k
  {
    if k == |PATTERN| {
      assert PATTERN[k..] == "";
    } else if PATTERN <= s {
      FrontOfAlias(s, t);
      LlDoesNotContinue(Rewritten(s, t), k);
    } else if s != "" {
      RewriteChar(s, t);
      RewriteFront(s[1..], k + 1, t);
      assert PATTERN[k..][1..] == PATTERN[k + 1..];
      assert Rewritten(s, t)[1..] == Rewritten(s[1..], t);
      PrefixCons(PATTERN[k..], s);
      PrefixCons(PATTERN[k..], Rewritten(s, t));
    }
  }

  // No replacement creates an alias, not even across its edges.
  lemma NoNewAlias(s: string, t: Tables)
    requires s != "" && !(PATTERN <= s)
    ensures !(PATTERN <= Rewritten(s, t))
  {
    RewriteChar(s, t);
    RewriteFront(s[1..], 1, t);
    assert Rewritten(s, t)[1..] == Rewritten(s[1..], t);
    PrefixCons(PATTERN, s);
    PrefixCons(PATTERN, Rewritten(s, t));
  }

  ghost predicate Kept(v: Verdict) {
    v.Keep? || v.Unresolved?
  }

  ghost function KeptNames(names: seq<string>, t: Tables): seq<string> {
    if names == [] then []
    else (if Kept(Decide(t, names[0])) then [names[0]] else []) + KeptNames(names[1..], t)
  }

  lemma KeptCons(name: string, names: seq<string>, t: Tables)
    ensures KeptNames([name] + names, t) == (if Kept(Decide(t, name)) then [name] else []) + KeptNames(names, t)
  {
    assert ([name] + names)[1..] == names;
  }

  /** Rewriting twice is rewriting once, and the aliases of the result are, in order, exactly
      the aliases of the input that were kept. */
  lemma {:induction false} RewriteTwice(s: string, t: Tables)
    ensures Rewritten(Rewritten(s, t), t) == Rewritten(s, t)
    ensures Aliases(Tokens(Rewritten(s, t))) == KeptNames(Aliases(Tokens(s)), t)
    decreases |s|
  {
    if s == "" {
    } else if PATTERN <= s {
      var after := s[|PATTERN|..];
      if Quote(after).Some? {
        var n := Quote(after).value;
        AliasShape(s);
        RewriteTwice(after[n + 1..], t);
        TwiceAtAlias(after[..n], after[n + 1..], t);
      } else {
        UnclosedTail(s, t);
      }
    } else {
      RewriteTwice(s[1..], t);
      TwiceAtChar(s, t);
    }
  }

  ghost predicate TwiceIsOnce(s: string, t: Tables) {
    && Rewritten(Rewritten(s, t), t) == Rewritten(s, t)
    && Aliases(Tokens(Rewritten(s, t))) == KeptNames(Aliases(Tokens(s)), t)
  }

  lemma TwiceAtAlias(name: string, rest: string, t: Tables)
    requires '"' !in name && TwiceIsOnce(rest, t)
    ensures TwiceIsOnce(AliasText(name) + rest, t)
  {
    RewriteAlias(name, rest, t);
    KeptCons(name, Aliases(Tokens(rest)), t);
    if Replaced(Decide(t, name)) {
      ReplacementCopied(Decide(t, name), name, Rewritten(rest, t), t);
    } else {
      RewriteAlias(name, Rewritten(rest, t), t);
    }
  }

  lemma TwiceAtChar(s: string, t: Tables)
    requires s != "" && !(PATTERN <= s) && TwiceIsOnce(s[1..], t)
    ensures TwiceIsOnce(s, t)
  {
    var r := Rewritten(s, t);
    RewriteChar(s, t);
    NoNewAlias(s, t);
    RewriteChar(r, t);
    assert r[1..] == Rewritten(s[1..], t);
  }

  lemma {:induction false} KeptNamesAre(names: seq<string>, t: Tables, name: string)
    ensures name in KeptNames(names, t) <==> name in names && Kept(Decide(t, name))
  {
    if names != [] {
      KeptNamesAre(names[1..], t, name);
      assert names == [names[0]] + names[1..];
    }
  }

  // Every alias left in the output is one the module resolves natively and exactly, or is
  // in the reported set; and everything reported is left in the output.
  lemma LeftAliases(text: string, t: Tables, name: string)
    ensures name in Aliases(Tokens(Rewritten(text, t))) <==>
      || (name in Aliases(Tokens(text)) && name in t.ir && !IsComplexStlTemplate(name))
      || name in UnresolvedIn(Aliases(Tokens(text)), t)
  {
    RewriteTwice(text, t);
    KeptNamesAre(Aliases(Tokens(text)), t, name);
  }
}
