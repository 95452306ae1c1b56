/** Which globals of a module can be written, and which of those other translation units
    can name (src/transform/ir_globals.rs). */
module IrGlobals {
  import opened Options
  import opened Text
  import ExternOverrideScan

  const EQUALS := " = "
  const GLOBAL := "global"
  const CONSTANT := "constant"

  // ---------------------------------------------------------------- the scan

  function WithoutAts(s: string): string {
    if s != "" && s[0] == '@' then WithoutAts(s[1..]) else s
  }

  function WithoutQuotes(s: string): string {
    if s != "" && s[0] == '"' then WithoutQuotes(s[1..])
    else if s != "" && s[|s| - 1] == '"' then WithoutQuotes(s[..|s| - 1])
    else s
  }

  // split_whitespace
  function Tokens(s: string): seq<string>
    decreases |s|
  {
    if s == "" then []
    else if IsSpace(s[0]) then Tokens(s[1..])
    else
      var n := WordLength(s);
      [s[..n]] + Tokens(s[n..])
  }

  function WordLength(s: string): (n: nat)
    ensures n <= |s| && forall k :: 0 <= k < n ==> !IsSpace(s[k])
    ensures n < |s| ==> IsSpace(s[n])
    ensures s != "" && !IsSpace(s[0]) ==> n > 0
  {
    if s == "" || IsSpace(s[0]) then 0 else 1 + WordLength(s[1..])
  }

  predicate Local(tok: string) {
    tok == "internal" || tok == "private"
  }

  predicate NoLocal(toks: seq<string>) {
    forall k :: 0 <= k < |toks| ==> !Local(toks[k])
  }

  // Globals the exception-lowering pass adds.
  predicate Bookkeeping(sym: string) {
    "__exclow_" <= sym
  }

  // `global` stands before any `constant`.
  predicate IsMutable(rhs: string) {
    var g, c := Find(" " + rhs, " " + GLOBAL + " "), Find(" " + rhs, " " + CONSTANT + " ");
    g.Some? && (c.None? || g.value < c.value)
  }

  datatype Symbol = Symbol(name: string, visible: bool)

  // The mutable global a line defines, if any.
  function ScanLine(line: string): Option<Symbol> {
    var t := TrimStart(line);
    var eq := Find(t, EQUALS);
    if t == "" || t[0] != '@' || eq.None? then None
    else
      var rhs := t[eq.value + 3..];
      var sym := WithoutQuotes(Trim(WithoutAts(t[..eq.value])));
      if !IsMutable(rhs) || sym == "" || Bookkeeping(sym) then None else Some(Symbol(sym, NoLocal(Tokens(rhs))))
  }

  ghost function Scanned(lines: seq<string>): set<Symbol> {
    set k | 0 <= k < |lines| && ScanLine(lines[k]).Some? :: ScanLine(lines[k]).value
  }

  ghost function MutableNames(lines: seq<string>): set<string> {
    set s | s in Scanned(lines) :: s.name
  }

  ghost function VisibleNames(lines: seq<string>): set<string> {
    set s | s in Scanned(lines) && s.visible :: s.name
  }

  lemma NamesNext(lines: seq<string>, i: nat)
    requires i < |lines|
    ensures var r := ScanLine(lines[i]);
      && MutableNames(lines[..i + 1]) == MutableNames(lines[..i]) + (if r.Some? then {r.value.name} else {})
      && VisibleNames(lines[..i + 1]) ==
         VisibleNames(lines[..i]) + (if r.Some? && r.value.visible then {r.value.name} else {})
  {
    ScannedNext(lines, i);
  }

  lemma ScannedNext(lines: seq<string>, i: nat)
    requires i < |lines|
    ensures
      var r := ScanLine(lines[i]);
      Scanned(lines[..i + 1]) == Scanned(lines[..i]) + if r.Some? then {r.value} else {}
  {
    var now, next := lines[..i], lines[..i + 1];
    assert forall k :: 0 <= k < i ==> now[k] == next[k];
    assert next[i] == lines[i];
    forall s | s in Scanned(now) ensures s in Scanned(next) {
      var k :| 0 <= k < i && ScanLine(now[k]) == Some(s);
      assert ScanLine(next[k]) == Some(s);
    }
  }

  method ScanMutableGlobals(lines: seq<string>) returns (mg: ExternOverrideScan.MutableGlobals)
    ensures mg.all == MutableNames(lines) && mg.visible == VisibleNames(lines)
  {
    var all: set<string>, visible: set<string> := {}, {};
    for i := 0 to |lines|
      invariant all == MutableNames(lines[..i]) && visible == VisibleNames(lines[..i])
    {
      NamesNext(lines, i);
      var s := ScanLine(lines[i]);
      if s.Some? {
        all := all + {s.value.name};
        if s.value.visible { visible := visible + {s.value.name}; }
      }
    }
    assert lines[..|lines|] == lines;
    mg := ExternOverrideScan.Globals(all, visible);
  }

  // ---------------------------------------------------------------- printed definitions

  // `@name = <attributes> global|constant <type and initialiser>`, as words.
  datatype Definition = Definition(
    name: string,
    quoted: bool,
    attributes: seq<string>,
    mutable: bool,
    rest: seq<string>)

  predicate SolidWord(w: string) {
    w != "" && forall k :: 0 <= k < |w| ==> !IsSpace(w[k])
  }

  predicate SolidWords(ws: seq<string>) {
    forall k :: 0 <= k < |ws| ==> SolidWord(ws[k])
  }

  // A quoted name may hold anything but quotes and the separator itself.
  predicate WellFormed(d: Definition) {
    && d.name != "" && '"' !in d.name && !Contains("@" + Quoted(d) + " ", EQUALS)
    && (d.quoted || (SolidWord(d.name) && d.name[0] != '@'))
    && SolidWords(d.attributes) && SolidWords(d.rest) && d.rest != []
    && (forall k :: 0 <= k < |d.attributes| ==> d.attributes[k] != GLOBAL && d.attributes[k] != CONSTANT)
  }

  function RightWords(d: Definition): seq<string> {
    d.attributes + [if d.mutable then GLOBAL else CONSTANT] + d.rest
  }

  function Quoted(d: Definition): string {
    if d.quoted then "\"" + d.name + "\"" else d.name
  }

  function Printed(d: Definition): string {
    "@" + Quoted(d) + EQUALS + Join(RightWords(d), " ")
  }

  // Linkage that other translation units cannot name.
  predicate LocalLinkage(d: Definition) {
    exists k :: 0 <= k < |d.attributes| && Local(d.attributes[k])
  }

  predicate LocalAnywhere(d: Definition) {
    exists k :: 0 <= k < |RightWords(d)| && Local(RightWords(d)[k])
  }

  predicate Counted(d: Definition) {
    d.mutable && !Bookkeeping(d.name)
  }

  lemma BlankRegroup(x: string, tail: string)
    ensures " " + x + tail == [' '] + (x + tail)
  {
  }

  lemma WordMatch(x: string, w: string, tail: string)
    requires ' ' !in x && ' ' !in w && (tail == "" || tail[0] == ' ')
    ensures " " + w + " " <= " " + x + tail <==> x == w && tail != ""
  {
    var p, s := " " + w + " ", " " + x + tail;
    assert p[|w| + 1] == ' ' && (tail != "" ==> s[|x| + 1] == ' ');
    if |x| < |w| {
      assert p[|x| + 1] == w[|x|];
    } else if |x| > |w| {
      assert s[|w| + 1] == x[|w|];
    } else {
      assert s[1..|w| + 1] == x && p[1..|w| + 1] == w;
      if x == w && tail != "" { assert p == s[..|p|]; }
    }
  }

  // Where a word with a successor first stands.
  function Place(ws: seq<string>, w: string): Option<nat> {
    if |ws| < 2 then None
    else if ws[0] == w then Some(0)
    else Later(Place(ws[1..], w), 1 + |ws[0]|)
  }

  lemma FindPast(x: string, tail: string, p: string)
    requires p != "" && p[0] !in x && !(p <= [' '] + (x + tail))
    ensures Find([' '] + (x + tail), p) == Later(Find(tail, p), 1 + |x|)
  {
    var s := x + tail;
    FindSkip(x, tail, p);
    FindStep(' ', s, p);
  }

  // Past a first word that does not match, the search goes on behind it.
  lemma FindBehind(x: string, w: string, tail: string)
    requires ' ' !in x && ' ' !in w && tail != "" && tail[0] == ' ' && x != w
    ensures Find(" " + x + tail, " " + w + " ") == Later(Find(tail, " " + w + " "), 1 + |x|)
  {
    WordMatch(x, w, tail);
    BlankRegroup(x, tail);
    FindPast(x, tail, " " + w + " ");
  }

  lemma FindNow(w: string, tail: string)
    requires ' ' !in w && tail != "" && tail[0] == ' '
    ensures Find(" " + w + tail, " " + w + " ") == Some(0)
  {
    WordMatch(w, w, tail);
  }

  lemma {:induction false} FindWord(ws: seq<string>, w: string)
    requires SolidWords(ws) && ws != [] && SolidWord(w)
    ensures Find(" " + Join(ws, " "), " " + w + " ") == Place(ws, w)
  {
    var x := ws[0];
    assert ' ' !in x && ' ' !in w;
    if |ws| == 1 {
      FindInLast(x, w);
    } else {
      var tail := " " + Join(ws[1..], " ");
      assert " " + Join(ws, " ") == " " + x + tail;
      if x == w {
        FindNow(w, tail);
      } else {
        FindWord(ws[1..], w);
        FindBehind(x, w, tail);
      }
    }
  }

  lemma FindInLast(x: string, w: string)
    requires ' ' !in x && ' ' !in w
    ensures Find(" " + x, " " + w + " ").None?
  {
    var p := " " + w + " ";
    assert " " + x + "" == " " + x;
    WordMatch(x, w, "");
    assert (" " + x)[1..] == x;
    FindAbsent(x, p);
  }

  lemma {:induction false} PlaceAfter(front: seq<string>, back: seq<string>, w: string)
    requires w !in front && |back| > 1
    ensures Place(front + back, w).Some? <==> Place(back, w).Some?
    ensures Place(back, w).Some? ==> Place(front + back, w).value == Place(back, w).value + Extent(front)
  {
    if front == [] {
      assert front + back == back;
    } else {
      assert (front + back)[1..] == front[1..] + back;
      PlaceAfter(front[1..], back, w);
    }
  }

  function Extent(ws: seq<string>): nat {
    if ws == [] then 0 else 1 + |ws[0]| + Extent(ws[1..])
  }

  lemma MutableIsGlobal(d: Definition)
    requires WellFormed(d)
    ensures IsMutable(Join(RightWords(d), " ")) <==> d.mutable
  {
    var back := [if d.mutable then GLOBAL else CONSTANT] + d.rest;
    assert RightWords(d) == d.attributes + back && back[0] != if d.mutable then CONSTANT else GLOBAL;
    FindWord(RightWords(d), GLOBAL);
    FindWord(RightWords(d), CONSTANT);
    PlaceAfter(d.attributes, back, GLOBAL);
    PlaceAfter(d.attributes, back, CONSTANT);
  }

  lemma {:induction false} WordEnds(w: string, s: string)
    requires (forall k :: 0 <= k < |w| ==> !IsSpace(w[k])) && (s == "" || IsSpace(s[0]))
    ensures WordLength(w + s) == |w|
  {
    if w == "" {
      assert w + s == s;
    } else {
      WordEnds(w[1..], s);
      assert (w + s)[1..] == w[1..] + s;
    }
  }

  lemma WordFirst(w: string, s: string)
    requires SolidWord(w) && (s == "" || IsSpace(s[0]))
    ensures Tokens(w + s) == [w] + Tokens(s)
  {
    WordEnds(w, s);
    assert (w + s)[..|w|] == w && (w + s)[|w|..] == s;
  }

  lemma {:induction false} TokensOfJoin(ws: seq<string>)
    requires SolidWords(ws)
    ensures Tokens(Join(ws, " ")) == ws
  {
    if ws != [] {
      TokensOfJoin(ws[1..]);
      var tail := if |ws| == 1 then "" else " " + Join(ws[1..], " ");
      assert Join(ws, " ") == ws[0] + tail;
      WordFirst(ws[0], tail);
      if |ws| > 1 { assert tail[1..] == Join(ws[1..], " "); }
      assert ws == [ws[0]] + ws[1..];
    }
  }

  lemma SymbolRead(d: Definition)
    requires WellFormed(d)
    ensures WithoutQuotes(Trim(WithoutAts("@" + Quoted(d)))) == d.name
  {
    var q := Quoted(d);
    assert ("@" + q)[1..] == q && q[0] != '@';
    TrimTrimmed(q);
    if d.quoted {
      var inner := d.name + "\"";
      assert q[1..] == inner && inner[..|inner| - 1] == d.name;
      assert WithoutQuotes(inner) == WithoutQuotes(d.name);
    }
  }

  // Where the separator is not in the text or astride its end, it cannot begin within it.
  lemma SeparatorWithin(lhs: string, rhs: string, k: nat)
    requires k < |lhs| && !OccursAt(lhs + " ", EQUALS, k)
    ensures !OccursAt(lhs + EQUALS + rhs, EQUALS, k)
  {
    var s, l := lhs + EQUALS + rhs, lhs + " ";
    if k + 3 <= |l| {
      assert s[k..][..3] == l[k..][..3];
      assert EQUALS <= l[k..] <==> l[k..][..3] == EQUALS;
      assert EQUALS <= s[k..] <==> s[k..][..3] == EQUALS;
    } else {
      assert s[k..][1] == s[k + 1];
    }
  }

  lemma LineFound(lhs: string, rhs: string)
    requires lhs != "" && lhs[0] == '@' && !Contains(lhs + " ", EQUALS)
    ensures TrimStart(lhs + EQUALS + rhs) == lhs + EQUALS + rhs
    ensures Find(lhs + EQUALS + rhs, EQUALS) == Some(|lhs|)
    ensures (lhs + EQUALS + rhs)[..|lhs|] == lhs && (lhs + EQUALS + rhs)[|lhs| + 3..] == rhs
  {
    forall k | 0 <= k < |lhs| ensures !OccursAt(lhs + EQUALS + rhs, EQUALS, k) {
      assert !OccursAt(lhs + " ", EQUALS, k);
      SeparatorWithin(lhs, rhs, k);
    }
    assert (lhs + EQUALS + rhs)[|lhs|..] == EQUALS + rhs;
    FindAt(lhs + EQUALS + rhs, EQUALS, |lhs|);
  }

  /** A printed definition is found exactly when it is mutable and not exception-lowering
      bookkeeping; it is visible exactly when no word after the equals sign, initialiser
      included, is a local linkage. */
  lemma PrintedScanned(d: Definition)
    requires WellFormed(d)
    ensures ScanLine(Printed(d)) == if Counted(d) then Some(Symbol(d.name, !LocalAnywhere(d))) else None
    ensures ScanLine(Printed(d)).Some? <==> d.mutable && !("__exclow_" <= d.name)
    ensures ScanLine(Printed(d)).Some? ==> (ScanLine(Printed(d)).value.visible <==>
      forall w :: w in d.attributes || w in d.rest ==> w != "internal" && w != "private")
  {
    LocalAnywhereIs(d);
    SymbolRead(d);
    ScanParts("@" + Quoted(d), Join(RightWords(d), " "), d.name);
    MutableIsGlobal(d);
    RightRead(d);
  }

  lemma LocalAnywhereIs(d: Definition)
    ensures LocalAnywhere(d) <==> exists w :: (w in d.attributes || w in d.rest) && (w == "internal" || w == "private")
  {
    var mid := if d.mutable then GLOBAL else CONSTANT;
    assert !Local(mid) by { assert mid[0] != "internal"[0] && mid[0] != "private"[0]; }
    var ws := RightWords(d);
    forall w ensures w in ws <==> w in d.attributes || w == mid || w in d.rest {}
    if LocalAnywhere(d) {
      var k :| 0 <= k < |ws| && Local(ws[k]);
      assert ws[k] in ws;
    }
    if w :| (w in d.attributes || w in d.rest) && (w == "internal" || w == "private") {
      assert w in ws;
      var k :| 0 <= k < |ws| && ws[k] == w;
      assert Local(ws[k]);
    }
  }

  lemma ScanParts(lhs: string, rhs: string, sym: string)
    requires lhs != "" && lhs[0] == '@' && !Contains(lhs + " ", EQUALS) && sym != "" &&
      WithoutQuotes(Trim(WithoutAts(lhs))) == sym
    ensures ScanLine(lhs + EQUALS + rhs) ==
      if !IsMutable(rhs) || Bookkeeping(sym) then None else Some(Symbol(sym, NoLocal(Tokens(rhs))))
  {
    LineFound(lhs, rhs);
    assert (lhs + EQUALS + rhs)[0] == '@';
  }

  lemma RightRead(d: Definition)
    requires WellFormed(d)
    ensures Tokens(Join(RightWords(d), " ")) == RightWords(d)
  {
    assert SolidWords(RightWords(d));
    TokensOfJoin(RightWords(d));
  }

  // ---------------------------------------------------------------- a whole module

  ghost function NamesOf(ds: seq<Definition>, p: Definition -> bool): set<string> {
    set k | 0 <= k < |ds| && Counted(ds[k]) && p(ds[k]) :: ds[k].name
  }

  function PrintedAll(ds: seq<Definition>): (ls: seq<string>)
    ensures |ls| == |ds| && forall k :: 0 <= k < |ds| ==> ls[k] == Printed(ds[k])
  {
    seq(|ds|, k requires 0 <= k < |ds| => Printed(ds[k]))
  }

  lemma ScannedNames(ds: seq<Definition>)
    requires forall k :: 0 <= k < |ds| ==> WellFormed(ds[k])
    ensures MutableNames(PrintedAll(ds)) == NamesOf(ds, d => true)
    ensures VisibleNames(PrintedAll(ds)) == NamesOf(ds, d => !LocalAnywhere(d))
  {
    var ls := PrintedAll(ds);
    forall k | 0 <= k < |ds|
      ensures ScanLine(ls[k]) == if Counted(ds[k]) then Some(Symbol(ds[k].name, !LocalAnywhere(ds[k]))) else None
    {
      PrintedScanned(ds[k]);
    }
    forall k | 0 <= k < |ds| && Counted(ds[k])
      ensures Symbol(ds[k].name, !LocalAnywhere(ds[k])) in Scanned(ls)
    {
      assert ScanLine(ls[k]).value == Symbol(ds[k].name, !LocalAnywhere(ds[k]));
    }
  }

  lemma LocalParts(d: Definition)
    ensures LocalLinkage(d) ==> LocalAnywhere(d)
  {
    if LocalLinkage(d) {
      var k :| 0 <= k < |d.attributes| && Local(d.attributes[k]);
      assert RightWords(d)[k] == d.attributes[k];
    }
  }

  // An initialiser word hides the linkage of a global with external linkage.
  predicate Hidden(d: Definition) {
    Counted(d) && !LocalLinkage(d) && LocalAnywhere(d)
  }

  predicate DistinctNames(ds: seq<Definition>) {
    forall j, k :: 0 <= j < k < |ds| ==> ds[j].name != ds[k].name
  }

  /** The visible set is the set of mutable globals with external linkage exactly when no
      such global carries a bare `internal` or `private` in its initialiser; otherwise it
      is too small. */
  lemma VisibleIsLinkage(ds: seq<Definition>)
    requires (forall k :: 0 <= k < |ds| ==> WellFormed(ds[k])) && DistinctNames(ds)
    ensures MutableNames(PrintedAll(ds)) == NamesOf(ds, d => true)
    ensures VisibleNames(PrintedAll(ds)) <= NamesOf(ds, d => !LocalLinkage(d))
    ensures VisibleNames(PrintedAll(ds)) == NamesOf(ds, d => !LocalLinkage(d)) <==>
      forall k :: 0 <= k < |ds| ==> !Hidden(ds[k])
  {
    ScannedNames(ds);
    forall k | 0 <= k < |ds| ensures LocalLinkage(ds[k]) ==> LocalAnywhere(ds[k]) { LocalParts(ds[k]); }
    var seen, linked := NamesOf(ds, d => !LocalAnywhere(d)), NamesOf(ds, d => !LocalLinkage(d));
    forall k | 0 <= k < |ds| && Hidden(ds[k]) ensures ds[k].name in linked && ds[k].name !in seen {
      assert forall j :: 0 <= j < |ds| && ds[j].name == ds[k].name ==> j == k;
    }
    if forall k :: 0 <= k < |ds| ==> !Hidden(ds[k]) {
      forall n | n in linked ensures n in seen {
        var k :| 0 <= k < |ds| && Counted(ds[k]) && !LocalLinkage(ds[k]) && ds[k].name == n;
        assert !Hidden(ds[k]);
      }
    }
  }

  // `@g = global [18 x i8] c"an internal error\\00"`, as far as its words go.
  const MESSAGE := Definition("g", false, [], true, ["[18", "x", "i8]", "c\"an", "internal", "error\\00\""])

  // A message in the initialiser: an external global the scan calls invisible.
  lemma MessageHidden()
    ensures WellFormed(MESSAGE) && Hidden(MESSAGE) && "g" in NamesOf([MESSAGE], d => !LocalLinkage(d))
    ensures VisibleNames(PrintedAll([MESSAGE])) == {}
  {
    MessageWellFormed();
    assert [MESSAGE][0] == MESSAGE;
    ScannedNames([MESSAGE]);
  }

  lemma MessageWellFormed()
    ensures WellFormed(MESSAGE) && Hidden(MESSAGE)
  {
    assert RightWords(MESSAGE)[5] == MESSAGE.rest[4] == "internal";
    assert "g"[0] != "__exclow_"[0];
    NoSeparator("@" + Quoted(MESSAGE) + " ");
  }

  lemma NoSeparator(s: string)
    requires '=' !in s
    ensures !Contains(s, EQUALS)
  {
    forall k | 0 <= k <= |s| ensures !OccursAt(s, EQUALS, k) {
      if k + 1 < |s| { assert s[k..][1] == s[k + 1]; }
    }
  }
}
