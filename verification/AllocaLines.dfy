/** What the slot-zeroing pass does with any alloca line, whatever its type text
    (src/transform/patch_llvm_ir.rs): static ones get their store, dynamic ones none. */
module AllocaLines {
  import opened Options
  import opened Text
  import opened Decimal
  import opened AllocaText
  import opened SatText

  // ---------------------------------------------------------------- brackets

  // Text laid out by its brackets.
  datatype Layout =
    | End
    | Plain(text: string, rest: Layout)
    | Group(open: char, inner: Layout, close: char, rest: Layout)

  function Print(p: Layout): string {
    match p
    case End => ""
    case Plain(text, rest) => text + Print(rest)
    case Group(open, inner, close, rest) => [open] + Print(inner) + [close] + Print(rest)
  }

  // Inside brackets all plain text is free of them ...
  predicate Nested(p: Layout) {
    match p
    case End => true
    case Plain(text, rest) => (forall c :: c in text ==> c !in "{[<(" && c !in "}]>)") && Nested(rest)
    case Group(open, inner, close, rest) => open in "{[<(" && close in "}]>)" && Nested(inner) && Nested(rest)
  }

  // ... and outside them it may hold closing ones that close nothing.
  predicate TopLevel(p: Layout) {
    match p
    case End => true
    case Plain(text, rest) => (forall c :: c in text ==> c !in "{[<(") && TopLevel(rest)
    case Group(open, inner, close, rest) => open in "{[<(" && close in "}]>)" && Nested(inner) && TopLevel(rest)
  }

  predicate CommasInside(p: Layout) {
    match p
    case End => true
    case Plain(text, rest) => ',' !in text && CommasInside(rest)
    case Group(_, _, _, rest) => CommasInside(rest)
  }

  // After x, no comma of s is outside brackets.
  predicate Covered(x: string, s: string) {
    forall k :: 0 <= k < |s| && s[k] == ',' ==> Depth(x + s[..k]) > 0
  }

  lemma DepthNext(x: string, c: char)
    ensures Depth(x + [c]) == DepthAfter(Depth(x), c)
  {
    assert (x + [c])[..|x|] == x;
  }

  lemma Brackets(c: char)
    ensures Opens(c) <==> c in "{[<("
    ensures Closes(c) <==> c in "}]>)"
  {
  }

  lemma CoveredBoth(x: string, a: string, b: string)
    requires Covered(x, a) && Covered(x + a, b)
    ensures Covered(x, a + b)
  {
    forall k | 0 <= k < |a + b| && (a + b)[k] == ',' ensures Depth(x + (a + b)[..k]) > 0 {
      if k < |a| {
        assert (a + b)[..k] == a[..k];
      } else {
        assert x + (a + b)[..k] == x + a + b[..k - |a|];
      }
    }
  }

  lemma CoveredOne(x: string, c: char)
    requires c != ','
    ensures Covered(x, [c])
  {
  }

  lemma {:induction false} PlainDepth(x: string, s: string)
    requires forall c :: c in s ==> !Opens(c)
    requires Depth(x) == 0 || forall c :: c in s ==> !Closes(c)
    ensures Depth(x + s) == Depth(x)
  {
    if s == "" {
      assert x + s == x;
    } else {
      var n := |s| - 1;
      PlainDepth(x, s[..n]);
      assert s == s[..n] + [s[n]] && x + s == (x + s[..n]) + [s[n]];
      DepthNext(x + s[..n], s[n]);
    }
  }

  lemma PlainCovered(x: string, s: string)
    requires forall c :: c in s ==> c !in "{[<("
    requires Depth(x) == 0 || forall c :: c in s ==> c !in "}]>)"
    ensures Depth(x + s) == Depth(x)
    ensures Depth(x) > 0 || ',' !in s ==> Covered(x, s)
  {
    forall c | c in s ensures !Opens(c) && (Depth(x) > 0 ==> !Closes(c)) { Brackets(c); }
    PlainDepth(x, s);
    forall k | 0 <= k < |s| ensures Depth(x + s[..k]) == Depth(x) { PlainDepth(x, s[..k]); }
  }

  lemma {:induction false} NestedCovered(x: string, p: Layout)
    requires Nested(p) && Depth(x) > 0
    ensures Depth(x + Print(p)) == Depth(x) && Covered(x, Print(p))
    decreases p, 0
  {
    match p
    case End =>
      assert x + "" == x;
    case Plain(text, rest) =>
      PlainCovered(x, text);
      NestedCovered(x + text, rest);
      CoveredBoth(x, text, Print(rest));
      Text.Regroup(x, text, Print(rest));
    case Group(open, inner, close, rest) =>
      var y := x + ([open] + Print(inner) + [close]);
      GroupCovered(x, open, inner, close);
      NestedCovered(y, rest);
      CoveredBoth(x, [open] + Print(inner) + [close], Print(rest));
      Text.Regroup(x, [open] + Print(inner) + [close], Print(rest));
  }

  lemma {:induction false} GroupCovered(x: string, open: char, inner: Layout, close: char)
    requires open in "{[<(" && close in "}]>)" && Nested(inner)
    ensures var s := [open] + Print(inner) + [close]; Depth(x + s) == Depth(x) && Covered(x, s)
    decreases inner, 1
  {
    Brackets(open);
    Brackets(close);
    DepthNext(x, open);
    NestedCovered(x + [open], inner);
    EnclosedCovered(x, open, Print(inner), close);
  }

  lemma EnclosedCovered(x: string, open: char, t: string, close: char)
    requires Opens(open) && Closes(close)
    requires Depth(x + [open] + t) == Depth(x) + 1 && Covered(x + [open], t)
    ensures Depth(x + ([open] + t + [close])) == Depth(x) && Covered(x, [open] + t + [close])
  {
    DepthNext(x + [open] + t, close);
    assert x + ([open] + t + [close]) == (x + [open] + t) + [close];
    CoveredOne(x, open);
    CoveredBoth(x, [open], t);
    assert x + ([open] + t) == x + [open] + t;
    CoveredOne(x + ([open] + t), close);
    CoveredBoth(x, [open] + t, [close]);
  }

  lemma {:induction false} TopLevelCovered(x: string, p: Layout)
    requires TopLevel(p) && Depth(x) == 0
    ensures Depth(x + Print(p)) == 0 && (CommasInside(p) ==> Covered(x, Print(p)))
    decreases p
  {
    match p
    case End =>
      assert x + "" == x;
    case Plain(text, rest) =>
      PlainCovered(x, text);
      TopLevelCovered(x + text, rest);
      if CommasInside(p) { CoveredBoth(x, text, Print(rest)); }
      Text.Regroup(x, text, Print(rest));
    case Group(open, inner, close, rest) =>
      var s := [open] + Print(inner) + [close];
      GroupCovered(x, open, inner, close);
      TopLevelCovered(x + s, rest);
      if CommasInside(p) { CoveredBoth(x, s, Print(rest)); }
      Text.Regroup(x, s, Print(rest));
  }

  /** A comma stands bare after any laid-out text, and nowhere in one with all its commas in
      brackets. */
  lemma LayoutCommas(p: Layout, y: string)
    requires TopLevel(p)
    ensures BareComma(Print(p) + "," + y)
    ensures CommasInside(p) ==> !BareComma(Print(p))
  {
    TopLevelCovered("", p);
    assert "" + Print(p) == Print(p);
    CommaBehind(Print(p), y);
    if CommasInside(p) { CoveredNotBare(Print(p)); }
  }

  lemma CommaBehind(x: string, y: string)
    requires Depth(x) == 0
    ensures BareComma(x + "," + y)
  {
    var s := x + "," + y;
    assert s[..|x|] == x && s[|x|] == ',';
  }

  lemma CoveredNotBare(s: string)
    requires Covered("", s)
    ensures !BareComma(s)
  {
    forall k | 0 <= k < |s| && s[k] == ',' ensures Depth(s[..k]) > 0 {
      assert "" + s[..k] == s[..k];
    }
  }

  // ---------------------------------------------------------------- every text has a layout

  // Text read so far: laid out up to the innermost group still open.
  datatype Reading =
    | Outside(p: Layout)
    | Inside(before: Reading, open: char, p: Layout)

  function PrintReading(r: Reading): string {
    match r
    case Outside(p) => Print(p)
    case Inside(before, open, p) => PrintReading(before) + [open] + Print(p)
  }

  function Levels(r: Reading): nat {
    match r
    case Outside(_) => 0
    case Inside(before, _, _) => 1 + Levels(before)
  }

  predicate LaidOut(r: Reading) {
    match r
    case Outside(p) => TopLevel(p)
    case Inside(before, open, p) => open in "{[<(" && Nested(p) && LaidOut(before)
  }

  function Append(p: Layout, q: Layout): Layout {
    match p
    case End => q
    case Plain(text, rest) => Plain(text, Append(rest, q))
    case Group(open, inner, close, rest) => Group(open, inner, close, Append(rest, q))
  }

  lemma {:induction false} AppendPrints(p: Layout, q: Layout)
    ensures Print(Append(p, q)) == Print(p) + Print(q)
    ensures TopLevel(p) && TopLevel(q) ==> TopLevel(Append(p, q))
    ensures Nested(p) && Nested(q) ==> Nested(Append(p, q))
  {
    match p
    case End =>
    case Plain(text, rest) =>
      AppendPrints(rest, q);
      Text.Regroup(text, Print(rest), Print(q));
    case Group(open, inner, close, rest) =>
      AppendPrints(rest, q);
      Text.Regroup([open] + Print(inner) + [close], Print(rest), Print(q));
  }

  function Extend(r: Reading, q: Layout): Reading {
    r.(p := Append(r.p, q))
  }

  lemma ExtendPrints(r: Reading, q: Layout)
    requires LaidOut(r) && (if r.Outside? then TopLevel(q) else Nested(q))
    ensures LaidOut(Extend(r, q)) && Levels(Extend(r, q)) == Levels(r)
    ensures PrintReading(Extend(r, q)) == PrintReading(r) + Print(q)
  {
    AppendPrints(r.p, q);
    if r.Inside? { Text.Regroup(PrintReading(r.before) + [r.open], Print(r.p), Print(q)); }
  }

  lemma ReadChar(r: Reading, c: char) returns (r': Reading)
    requires LaidOut(r)
    ensures LaidOut(r') && PrintReading(r') == PrintReading(r) + [c] && Levels(r') == DepthAfter(Levels(r), c)
  {
    Brackets(c);
    if Opens(c) {
      r' := Inside(r, c, End);
      assert [c] + "" == [c];
    } else if Closes(c) && r.Inside? {
      var q := Group(r.open, r.p, c, End);
      assert Print(q) == [r.open] + Print(r.p) + [c];
      ExtendPrints(r.before, q);
      r' := Extend(r.before, q);
      Text.Regroup(PrintReading(r.before) + [r.open], Print(r.p), [c]);
      assert PrintReading(r.before) + Print(q) == PrintReading(r) + [c];
    } else {
      var q := Plain([c], End);
      assert Print(q) == [c];
      ExtendPrints(r, q);
      r' := Extend(r, q);
    }
  }

  lemma {:induction false} Read(x: string) returns (r: Reading)
    ensures LaidOut(r) && PrintReading(r) == x && Levels(r) == Depth(x)
    decreases |x|
  {
    if x == "" {
      r := Outside(End);
    } else {
      var before := Read(x[..|x| - 1]);
      r := ReadChar(before, x[|x| - 1]);
      assert x == x[..|x| - 1] + [x[|x| - 1]];
    }
  }

  /** The test for a count operand, exactly: some comma stands behind a text whose groups are
      all closed. */
  lemma BareCommaIff(s: string)
    ensures BareComma(s) <==> exists p, y :: TopLevel(p) && s == Print(p) + "," + y
  {
    if BareComma(s) {
      var i :| 0 <= i < |s| && s[i] == ',' && Depth(s[..i]) == 0;
      var r := Read(s[..i]);
      assert s == s[..i] + "," + s[i + 1..];
      assert TopLevel(r.p) && s == Print(r.p) + "," + s[i + 1..];
    }
    if p, y :| TopLevel(p) && s == Print(p) + "," + y { LayoutCommas(p, y); }
  }

  // ---------------------------------------------------------------- whole lines

  // An alloca line without its newline: indentation, slot, what it allocates, alignment.
  function AllocaLine(lead: string, slot: string, body: string, align: Option<nat>): string {
    lead + ("%" + (slot + ALLOCA + (body + if align.Some? then ALIGN + Dec(align.value) else "")))
  }

  predicate IsAllocaLine(lead: string, slot: string, body: string, align: Option<nat>, nl: string) {
    && (forall c :: c in lead ==> IsSpace(c))
    && !Contains(slot + " = alloca", ALLOCA)
    && body != "" && Trimmed(body)
    && (align.None? ==> !Contains(body, ALIGN))
    && (nl == "" || nl == "\n")
  }

  lemma {:induction false} TrimBlanks(lead: string)
    requires forall c :: c in lead ==> IsSpace(c)
    ensures TrimStart(lead) == ""
  {
    if lead != "" {
      assert lead[0] in lead;
      TrimBlanks(lead[1..]);
    }
  }

  // Trimming a line gives its text, and the indentation and newline are what was around it.
  lemma LineParts(lead: string, t: string, nl: string)
    requires (forall c :: c in lead ==> IsSpace(c)) && t != "" && Trimmed(t) && (nl == "" || nl == "\n")
    ensures Trim(lead + t + nl) == t && Lead(lead + t + nl) == lead && Newline(lead + t + nl) == nl
  {
    var line := lead + t + nl;
    assert line == lead + (t + nl);
    TrimBlanks(lead);
    TrimStartConcat(lead, t + nl);
    assert TrimStart(t + nl) == t + nl;
    assert TrimStart(line) == t + nl;
    assert line[..|lead|] == lead;
    TrimTrimmed(t);
    if nl == "" {
      assert t + nl == t;
    } else {
      assert t + nl == t + ['\n'];
      TrimAfter(t, '\n');
    }
    assert Trim(line) == TrimEnd(TrimStart(line)) == Trim(t + nl);
    assert line[|line| - 1] == if nl == "" then t[|t| - 1] else '\n';
  }

  lemma AlignedRead(body: string, align: nat)
    requires Trimmed(body)
    ensures TypeAndAlign(body + (ALIGN + Dec(align))) == if align <= U32_MAX then Some((body, align)) else None
  {
    var d := Dec(align);
    assert body + ALIGN + d == body + (ALIGN + d);
    AlignSpelled();
    DigitsOnly(d);
    LastOnly(body, ALIGN, d);
    TrimTrimmed(body);
    TrimTrimmed(d);
    DecRead(align, U32_MAX);
    AlignedAt(body, d);
  }

  lemma AlignedAt(body: string, d: string)
    requires FindLast(body + ALIGN + d, ALIGN) == Some(|body|) && Trim(body) == body && Trim(d) == d
    ensures TypeAndAlign(body + ALIGN + d) ==
      var align := ParseUint(d, U32_MAX);
      if align.None? then None else Some((body, align.value))
  {
    var s := body + ALIGN + d;
    assert s[..|body|] == body && s[|body| + |ALIGN|..] == d;
  }

  lemma DecRead(n: nat, max: nat)
    ensures ParseUint(Dec(n), max) == if n <= max then Some(n) else None
  {
    ValueOfDec(n);
  }

  lemma DigitsOnly(d: string)
    requires AllDigits(d)
    ensures ',' !in d && Trimmed(d)
  {
  }

  lemma BodyRead(body: string, align: Option<nat>)
    requires body != "" && Trimmed(body) && (align.None? ==> !Contains(body, ALIGN))
    ensures TypeAndAlign(body + if align.Some? then ALIGN + Dec(align.value) else "") ==
      if align.None? then Some((body, 1)) else if align.value <= U32_MAX then Some((body, align.value)) else None
  {
    if align.Some? {
      AlignedRead(body, align.value);
    } else {
      assert body + "" == body;
      TrimTrimmed(body);
    }
  }

  lemma SlotFound(slot: string, y: string)
    requires !Contains(slot + " = alloca", ALLOCA)
    ensures Find(slot + ALLOCA + y, ALLOCA) == Some(|slot|)
  {
    var s, t := slot + ALLOCA + y, slot + " = alloca";
    assert ALLOCA == " = alloca" + " ";
    assert s == t + (" " + y) && s[|slot|..] == ALLOCA + y;
    forall i | 0 <= i < |slot| ensures !OccursAt(s, ALLOCA, i) {
      assert t[i..] == s[i..][..|t| - i] && |ALLOCA| <= |t| - i;
      assert !OccursAt(t, ALLOCA, i);
    }
    FindAt(s, ALLOCA, |slot|);
  }

  lemma AllocaRead(slot: string, body: string, align: Option<nat>)
    requires IsAllocaLine("", slot, body, align, "")
    ensures ParseAlloca(AllocaLine("", slot, body, align)) ==
      if BareComma(body) || (align.Some? && align.value > U32_MAX) then None
      else Some((slot, body, align.GetOr(1)))
  {
    var y := body + if align.Some? then ALIGN + Dec(align.value) else "";
    var rest := slot + ALLOCA + y;
    assert AllocaLine("", slot, body, align) == "%" + rest;
    assert ("%" + rest)[1..] == rest;
    SlotFound(slot, y);
    assert rest[..|slot|] == slot && rest[|slot| + |ALLOCA|..] == y;
    BodyRead(body, align);
  }

  lemma AllocaEnds(slot: string, body: string, align: Option<nat>)
    requires IsAllocaLine("", slot, body, align, "")
    ensures Trimmed(AllocaLine("", slot, body, align))
  {
    var y := body + if align.Some? then ALIGN + Dec(align.value) else "";
    var t := AllocaLine("", slot, body, align);
    assert t == "%" + (slot + ALLOCA + y);
    assert t[0] == '%' && t[|t| - 1] == y[|y| - 1];
    if align.Some? {
      var d := Dec(align.value);
      assert y[|y| - 1] == d[|d| - 1];
    } else {
      assert y == body;
    }
  }

  lemma StoreText(lead: string, ty: string, slot: string, align: nat, nl: string)
    ensures ZeroStore(lead, ty, slot, align, nl) ==
      lead + ("store " + ty + " zeroinitializer, ptr %" + slot + ", align " + Dec(align)) + nl
  {
    var ws := ["store", ty, "zeroinitializer,", "ptr", "%" + slot + ",", "align", Dec(align)];
    var front, back := ["store", ty, "zeroinitializer,"], ["ptr", "%" + slot + ",", "align", Dec(align)];
    assert ws == front + back;
    JoinParts(front, back);
    Join3("store", ty, "zeroinitializer,");
    JoinFirst("ptr", ["%" + slot + ",", "align", Dec(align)]);
    assert back == ["ptr"] + ["%" + slot + ",", "align", Dec(align)];
    Join3("%" + slot + ",", "align", Dec(align));
    StoreSpelled(ty, slot, Dec(align));
  }

  lemma StoreSpelled(ty: string, slot: string, n: string)
    ensures
      var front, back := "store" + " " + ty + " " + "zeroinitializer,", "%" + slot + "," + " " + "align" + " " + n;
      front + " " + ("ptr" + " " + back) == "store " + ty + " zeroinitializer, ptr %" + slot + ", align " + n
  {
    StoreRegroup("store", ty, "zeroinitializer,", "ptr", slot, "align", n);
    assert "store " == "store" + " " && ", align " == "," + " " + "align" + " ";
    assert " zeroinitializer, ptr %" == " " + "zeroinitializer," + " " + "ptr" + " " + "%";
  }

  lemma StoreRegroup(a: string, ty: string, b: string, c: string, slot: string, d: string, n: string)
    ensures (a + " " + ty + " " + b) + " " + (c + " " + ("%" + slot + "," + " " + d + " " + n)) ==
      (a + " ") + ty + (" " + b + " " + c + " " + "%") + slot + ("," + " " + d + " ") + n
  {
  }

  /** Any alloca line: it gets its store, with the line's alignment or 1, unless a comma stands
      bare in what it allocates or the alignment does not fit 32 bits. */
  lemma AnyAlloca(lead: string, slot: string, body: string, align: Option<nat>, nl: string)
    requires IsAllocaLine(lead, slot, body, align, nl)
    ensures
      var line := AllocaLine(lead, slot, body, align) + nl;
      WithStore(line) ==
        if BareComma(body) || (align.Some? && align.value > U32_MAX) then None
        else Some(line + (lead + ("store " + body + " zeroinitializer, ptr %" + slot + ", align " +
                                  Dec(align.GetOr(1))) + nl))
  {
    var t := AllocaLine("", slot, body, align);
    assert "" + t == t;
    assert AllocaLine(lead, slot, body, align) == lead + t;
    AllocaEnds(slot, body, align);
    LineParts(lead, t, nl);
    AllocaRead(slot, body, align);
    StoreText(lead, body, slot, align.GetOr(1), nl);
  }

  lemma OtherLine(line: string)
    requires var t := Trim(line); t == "" || t[0] != '%' || !Contains(t[1..], ALLOCA)
    ensures WithStore(line).None?
  {
    var t := Trim(line);
    if t != "" && t[0] == '%' { FindIsFirst(t[1..], ALLOCA); }
  }

  // A type with its commas in brackets, as every unquoted type is written: a static alloca.
  lemma StaticZeroed(lead: string, slot: string, p: Layout, align: Option<nat>, nl: string)
    requires IsAllocaLine(lead, slot, Print(p), align, nl) && TopLevel(p) && CommasInside(p)
    requires align.Some? ==> align.value <= U32_MAX
    ensures
      var line := AllocaLine(lead, slot, Print(p), align) + nl;
      WithStore(line) == Some(line + (lead + ("store " + Print(p) + " zeroinitializer, ptr %" + slot + ", align " +
                                              Dec(align.GetOr(1))) + nl))
  {
    LayoutCommas(p, "");
    AnyAlloca(lead, slot, Print(p), align, nl);
  }

  // Any type whose brackets are closed, then a count: a dynamic alloca, whatever the count.
  lemma DynamicSkipped(lead: string, slot: string, p: Layout, count: string, align: Option<nat>, nl: string)
    requires TopLevel(p) && IsAllocaLine(lead, slot, Print(p) + ", " + count, align, nl)
    ensures WithStore(AllocaLine(lead, slot, Print(p) + ", " + count, align) + nl).None?
  {
    LayoutCommas(p, " " + count);
    assert Print(p) + "," + (" " + count) == Print(p) + ", " + count;
    AnyAlloca(lead, slot, Print(p) + ", " + count, align, nl);
  }

  // A bracket that stays open hides every comma behind it.
  lemma UnclosedHides(z: string, y: string)
    requires forall c :: c in z + y ==> c !in "{[<(" && c !in "}]>)"
    requires ',' !in z
    ensures !BareComma(z + "<" + y)
  {
    forall c | c in z ensures c !in "{[<(" && c !in "}]>)" { assert c in z + y; }
    forall c | c in y ensures c !in "{[<(" && c !in "}]>)" { assert c in z + y; }
    PlainCovered("", z);
    assert "" + z == z;
    DepthNext(z, '<');
    CoveredOne(z, '<');
    CoveredBoth("", z, "<");
    PlainCovered(z + "<", y);
    assert "" + (z + "<") == z + "<";
    CoveredBoth("", z + "<", y);
    CoveredNotBare(z + "<" + y);
  }

  // So a dynamic alloca whose type's name leaves a bracket open gets a store all the same, of
  // type and count together.
  lemma UnclosedDynamicZeroed(lead: string, slot: string, z: string, y: string, count: string, nl: string)
    requires IsAllocaLine(lead, slot, z + "<" + (y + ", " + count), None, nl) && ',' !in z
    requires forall c :: c in z + (y + ", " + count) ==> c !in "{[<(" && c !in "}]>)"
    ensures WithStore(AllocaLine(lead, slot, z + "<" + (y + ", " + count), None) + nl).Some?
  {
    UnclosedHides(z, y + ", " + count);
    AnyAlloca(lead, slot, z + "<" + (y + ", " + count), None, nl);
  }

  // `%p = alloca %"<", i32 %n` is such a line.
  lemma UnclosedLine(body: string)
    requires body == "%\"" + "<" + ("\"" + ", " + "i32 %n")
    ensures IsAllocaLine("", "p", body, None, "")
    ensures forall c :: c in "%\"" + ("\"" + ", " + "i32 %n") ==> c !in "{[<(" && c !in "}]>)"
  {
    assert |body| == 12 && body[0] == '%' && body[11] == 'n' && body[6] == 'i';
    forall k | 0 <= k <= |body| ensures !OccursAt(body, ALIGN, k) {
      if k + 3 < |body| {
        assert body[k..][0] == body[k] && body[k..][2] == body[k + 2];
        assert ALIGN[0] == ',' && ALIGN[2] == 'a';
      }
    }
    var t := "p" + " = alloca";
    assert ALLOCA == " = alloca" + " " && |t| == |ALLOCA| && t[0] == 'p' && t[0..] == t;
    forall k | 0 <= k <= |t| ensures !OccursAt(t, ALLOCA, k) {
      if k == 0 { assert ALLOCA[0] == ' '; } else { assert |t[k..]| < |ALLOCA|; }
    }
  }
}
