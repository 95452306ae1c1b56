/** What the analyses read off single IR lines: the global a store writes
    (src/transform/ir_globals.rs) and the callee of a call, which the override scan and the
    safety check look for in different places (src/transform/extern_override_scan.rs,
    src/transform/crucible_safety.rs). */
module LineScanners {
  import opened Options
  import opened Text

  // ---------------------------------------------------------------- the scanners

  predicate SymbolChar(c: char) {
    IsAlpha(c) || IsDigit(c) || c == '_' || c == '.' || c == '$'
  }

  function SymbolLength(s: string): (n: nat)
    ensures n <= |s|
  {
    if s == "" || !SymbolChar(s[0]) then 0 else 1 + SymbolLength(s[1..])
  }

  function NonEmpty(s: string): Option<string> {
    if s == "" then None else Some(s)
  }

  // The name after an at sign, quoted or made of symbol characters.
  function ReadSymbol(after: string): Option<string> {
    if after != "" && after[0] == '"' then
      var end := Find(after[1..], "\"");
      if end.None? then None else NonEmpty(after[1..][..end.value])
    else NonEmpty(after[..SymbolLength(after)])
  }

  // `store TY VALUE, ptr @NAME`: the first at sign counts, if a comma stands before it.
  function StoreTarget(line: string): Option<string> {
    var t := TrimStart(line);
    var at := Find(t, "@");
    if !("store " <= t) || at.None? || ',' !in t[..at.value] then None else ReadSymbol(t[at.value + 1..])
  }

  // The override scan takes the first at sign behind `call ` or `invoke `.
  function CallTarget(line: string): Option<string> {
    var call := Find(line, "call ");
    var kw := if call.Some? then call else Find(line, "invoke ");
    if kw.None? then None
    else
      var after := line[kw.value..];
      var at := Find(after, "@");
      if at.None? then None else ReadSymbol(after[at.value + 1..])
  }

  function CalleeLength(s: string): (n: nat)
    ensures n <= |s|
  {
    if s == "" || s[0] == '(' || IsSpace(s[0]) then 0 else 1 + CalleeLength(s[1..])
  }

  // The safety check takes the last at sign of the instruction.
  function Callee(inst: string): Option<string> {
    var at := FindLast(inst, "@");
    if at.None? then None
    else
      var after := inst[at.value + 1..];
      if after != "" && after[0] == '"' then
        var end := Find(after[1..], "\"");
        if end.None? then None else Some(after[1..][..end.value])
      else Some(after[..CalleeLength(after)])
  }

  // ---------------------------------------------------------------- printed symbols

  datatype Symbol = Symbol(name: string, quoted: bool)

  predicate IsSymbol(s: Symbol) {
    && s.name != "" && '"' !in s.name
    && (!s.quoted ==> forall k :: 0 <= k < |s.name| ==> SymbolChar(s.name[k]))
  }

  function Body(s: Symbol): string {
    if s.quoted then "\"" + s.name + "\"" else s.name
  }

  // Text a symbol ends before: an argument list, a separator, or nothing.
  predicate Ends(rest: string) {
    rest == "" || (!SymbolChar(rest[0]) && (rest[0] == '(' || rest[0] == ',' || rest[0] == ')' || IsSpace(rest[0])))
  }

  lemma {:induction false} SymbolRun(name: string, rest: string)
    requires (forall k :: 0 <= k < |name| ==> SymbolChar(name[k])) && (rest == "" || !SymbolChar(rest[0]))
    ensures SymbolLength(name + rest) == |name|
  {
    if name == "" {
      assert name + rest == rest;
    } else {
      SymbolRun(name[1..], rest);
      assert (name + rest)[1..] == name[1..] + rest;
    }
  }

  lemma QuotedRead(name: string, rest: string)
    requires '"' !in name
    ensures var after := "\"" + name + "\"" + rest;
      after[0] == '"' && Find(after[1..], "\"") == Some(|name|) && after[1..][..|name|] == name
  {
    var after := "\"" + name + "\"" + rest;
    FindChar(name, '"', rest);
    assert after[1..] == name + ['"'] + rest;
  }

  lemma SymbolRead(s: Symbol, rest: string)
    requires IsSymbol(s) && Ends(rest)
    ensures ReadSymbol(Body(s) + rest) == Some(s.name)
  {
    if s.quoted {
      QuotedRead(s.name, rest);
    } else {
      SymbolRun(s.name, rest);
      assert (s.name + rest)[..|s.name|] == s.name && (s.name + rest)[0] == s.name[0];
    }
  }

  // An unquoted name is read to its last letter, digit, underscore, dot or dollar sign.
  lemma UnquotedRead(name: string, rest: string)
    requires name != "" && forall k :: 0 <= k < |name| ==>
      'a' <= name[k] <= 'z' || 'A' <= name[k] <= 'Z' || '0' <= name[k] <= '9' || name[k] in "_.$"
    requires rest == "" ||
      !('a' <= rest[0] <= 'z' || 'A' <= rest[0] <= 'Z' || '0' <= rest[0] <= '9' || rest[0] in "_.$")
    ensures ReadSymbol(name + rest) == Some(name)
  {
    forall k | 0 <= k < |name| ensures SymbolChar(name[k]) && name[k] != '"' {}
    SymbolRun(name, rest);
    assert (name + rest)[..|name|] == name && (name + rest)[0] == name[0];
  }

  // ---------------------------------------------------------------- stores

  lemma FirstAt(x: string, y: string)
    requires '@' !in x
    ensures var s := x + "@" + y; Find(s, "@") == Some(|x|) && s[..|x|] == x && s[|x| + 1..] == y
  {
    FindChar(x, '@', y);
  }

  // A store is read exactly as its first at sign says.
  lemma StoreRead(x: string, y: string)
    requires '@' !in x
    ensures StoreTarget("  store " + x + "@" + y) == if ',' in x then ReadSymbol(y) else None
  {
    var t := "store " + x + "@" + y;
    assert "  store " + x + "@" + y == [' '] + ([' '] + t) && t[0] == 's';
    TrimStartBlanks(t);
    assert t == ("store " + x) + "@" + y && "store " <= t;
    FirstAt("store " + x, y);
    assert ',' in "store " + x <==> ',' in x;
  }

  lemma TrimStartBlanks(t: string)
    requires t != "" && !IsSpace(t[0])
    ensures TrimStart([' '] + ([' '] + t)) == t
  {
    var u := [' '] + t;
    assert u[1..] == t && ([' '] + u)[1..] == u;
    assert TrimStart(t) == t && TrimStart(u) == t;
  }

  function StoreLine(ty: string, value: string, g: Symbol, tail: string): string {
    "  store " + (ty + " " + value + ", ptr ") + "@" + (Body(g) + tail)
  }

  /** A direct store of a scalar is recorded exactly when the stored value names no global:
      storing an address hides the store. */
  lemma DirectStoreIff(ty: string, value: string, g: Symbol, tail: string)
    requires '@' !in ty && ',' !in ty && ',' !in value && IsSymbol(g) && Ends(tail)
    ensures StoreTarget(StoreLine(ty, value, g, tail)) == if '@' in value then None else Some(g.name)
  {
    if '@' in value {
      var k := Find(value, "@");
      FindIsFirst(value, "@");
      AtSplits(value);
      var a, b := value[..k.value], value[k.value + 1..];
      var x, y := ty + " " + a, b + (", ptr " + "@" + (Body(g) + tail));
      assert StoreLine(ty, value, g, tail) == "  store " + x + "@" + y;
      StoreRead(x, y);
    } else {
      StoreRead(ty + " " + value + ", ptr ", Body(g) + tail);
      SymbolRead(g, tail);
      assert (ty + " " + value + ", ptr ")[|ty| + 1 + |value|] == ',';
    }
  }

  lemma {:induction false} AtSplits(s: string)
    requires '@' in s
    ensures var k := Find(s, "@");
      k.Some? && '@' !in s[..k.value] && s == s[..k.value] + "@" + s[k.value + 1..]
  {
    if s[0] == '@' {
      assert "@" <= s;
    } else {
      assert s == [s[0]] + s[1..];
      AtSplits(s[1..]);
      var k := Find(s[1..], "@").value;
      assert !("@" <= s);
      assert s[..k + 1] == [s[0]] + s[1..][..k];
    }
  }

  // `store ptr @f, ptr @slot`: nothing is recorded.
  lemma AddressStoreMissed(f: Symbol, slot: Symbol)
    requires IsSymbol(f) && IsSymbol(slot) && ',' !in f.name
    ensures StoreTarget(StoreLine("ptr", "@" + Body(f), slot, "")) == None
  {
    assert ("@" + Body(f))[0] == '@';
    DirectStoreIff("ptr", "@" + Body(f), slot, "");
  }

  // ---------------------------------------------------------------- calls

  function CallLine(front: string, f: Symbol, args: string): string {
    (front + "call void ") + "@" + (Body(f) + ("(" + args + ")"))
  }

  lemma FirstCall(front: string, y: string)
    ensures var k := Find(front + ("call " + y), "call "); k.Some? && k.value <= |front|
  {
    var s := front + ("call " + y);
    FindIsFirst(s, "call ");
    assert s[|front|..] == "call " + y;
    assert OccursAt(s, "call ", |front|);
  }

  /** The override scan reads the callee of every printed direct call. */
  lemma CallTargetRead(front: string, f: Symbol, args: string)
    requires '@' !in front && IsSymbol(f)
    ensures CallTarget(CallLine(front, f, args)) == Some(f.name)
  {
    var x, y := front + "call void ", Body(f) + ("(" + args + ")");
    var line := CallLine(front, f, args);
    assert line == front + ("call " + ("void " + "@" + y));
    FirstCall(front, "void " + "@" + y);
    var k := Find(line, "call ").value;
    TailSplits(x, y, k);
    FirstAt(x[k..], y);
    SymbolRead(f, "(" + args + ")");
  }

  lemma TailSplits(x: string, y: string, k: nat)
    requires k <= |x|
    ensures (x + "@" + y)[k..] == x[k..] + "@" + y
  {
  }

  lemma LastAt(x: string, y: string)
    requires '@' !in y
    ensures FindLast(x + "@" + y, "@") == Some(|x|) && (x + "@" + y)[|x| + 1..] == y
  {
    LastOnly(x, "@", y);
  }

  lemma {:induction false} CalleeRun(name: string, rest: string)
    requires forall k :: 0 <= k < |name| ==> name[k] != '(' && !IsSpace(name[k])
    requires rest == "" || rest[0] == '(' || IsSpace(rest[0])
    ensures CalleeLength(name + rest) == |name|
  {
    if name == "" {
      assert name + rest == rest;
    } else {
      CalleeRun(name[1..], rest);
      assert (name + rest)[1..] == name[1..] + rest;
    }
  }

  // The safety check reads part of the text behind the last at sign.
  lemma CalleeNoAt(inst: string)
    ensures Callee(inst).Some? ==> '@' !in Callee(inst).value
  {
    var at := FindLast(inst, "@");
    if at.Some? {
      var after := inst[at.value + 1..];
      forall k | 0 <= k < |after| ensures after[k] != '@' {
        assert !OccursAt(inst, "@", at.value + 1 + k);
        assert inst[at.value + 1 + k..][0] == after[k];
      }
    }
  }

  lemma CalleeRead(x: string, s: Symbol, rest: string)
    requires IsSymbol(s) && '@' !in s.name && '@' !in rest
    requires s.quoted || rest == "" || rest[0] == '(' || IsSpace(rest[0])
    ensures Callee(x + "@" + (Body(s) + rest)) == Some(s.name)
  {
    LastAt(x, Body(s) + rest);
    if s.quoted {
      QuotedRead(s.name, rest);
    } else {
      CalleeRun(s.name, rest);
      assert (s.name + rest)[..|s.name|] == s.name && (s.name + rest)[0] == s.name[0];
    }
  }

  /** Without an address among the arguments, the safety check reads the callee exactly when
      its name holds no at sign: of a quoted `?f@@YAXXZ` it reads the rest. */
  lemma PlainCallIff(front: string, f: Symbol, args: string)
    requires IsSymbol(f) && '@' !in args
    ensures Callee(CallLine(front, f, args)) == Some(f.name) <==> '@' !in f.name
  {
    CalleeNoAt(CallLine(front, f, args));
    if '@' !in f.name { CalleeRead(front + "call void ", f, "(" + args + ")"); }
  }

  // A call whose last address argument is w, split there.
  lemma CallSplits(front: string, f: Symbol, a: string, w: string)
    ensures CallLine(front, f, a + "@" + w) == ((front + "call void ") + "@" + (Body(f) + ("(" + a))) + "@" + (w + ")")
  {
  }

  /** With one, it reads the last such argument: the override scan follows the callee, the
      safety check the argument. */
  lemma AddressArgument(front: string, f: Symbol, a: string, g: Symbol, b: string)
    requires '@' !in front && IsSymbol(f) && IsSymbol(g) && g.quoted && '@' !in g.name && '@' !in b
    ensures var line := CallLine(front, f, a + "@" + (Body(g) + b));
      CallTarget(line) == Some(f.name) && Callee(line) == Some(g.name)
  {
    CallTargetRead(front, f, a + "@" + (Body(g) + b));
    CallSplits(front, f, a, Body(g) + b);
    assert (Body(g) + b) + ")" == Body(g) + (b + ")");
    CalleeRead((front + "call void ") + "@" + (Body(f) + ("(" + a)), g, b + ")");
  }

  // An unquoted one is read with the punctuation behind it: `call void @f(ptr @g)` is checked
  // as a call of `g)`.
  lemma UnquotedArgument(front: string, f: Symbol, a: string, g: Symbol)
    requires '@' !in front && IsSymbol(f) && IsSymbol(g) && !g.quoted
    ensures var line := CallLine(front, f, a + "@" + Body(g));
      CallTarget(line) == Some(f.name) && Callee(line) == Some(g.name + ")")
  {
    CallTargetRead(front, f, a + "@" + Body(g));
    CallSplits(front, f, a, g.name);
    PunctuatedRead((front + "call void ") + "@" + (Body(f) + ("(" + a)), g);
  }

  lemma PunctuatedRead(x: string, g: Symbol)
    requires IsSymbol(g) && !g.quoted
    ensures Callee(x + "@" + (g.name + ")")) == Some(g.name + ")")
  {
    var y := g.name + ")";
    LastAt(x, y);
    CalleeRun(y, "");
    assert y + "" == y && y[..|y|] == y && y[0] == g.name[0];
  }
}
