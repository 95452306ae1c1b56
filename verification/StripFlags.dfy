/** The text of the flag-stripping pass (src/transform/patch_llvm_ir.rs): what its repeated
    replacement computes, line by line. */
module StripFlags {
  import opened Text

  // ---------------------------------------------------------------- words

  // The pieces between single spaces; never empty.
  function Words(s: string): (w: seq<string>)
    ensures w != []
  {
    if s == "" then [""]
    else if s[0] == ' ' then [""] + Words(s[1..])
    else
      var w := Words(s[1..]);
      [[s[0]] + w[0]] + w[1..]
  }

  lemma {:induction false} JoinWords(s: string)
    ensures Join(Words(s), " ") == s
  {
    if s != "" {
      JoinWords(s[1..]);
      var w := Words(s[1..]);
      if s[0] == ' ' {
        assert ([""] + w)[1..] == w;
      } else if |w| > 1 {
        assert Words(s)[1..] == w[1..];
        assert Join(Words(s), " ") == [s[0]] + (w[0] + " " + Join(w[1..], " "));
      }
    }
  }

  lemma {:induction false} WordsOfConcat(u: string, v: string)
    ensures Words(u + " " + v) == Words(u) + Words(v)
  {
    var s := u + " " + v;
    if u == "" {
      assert s[1..] == v;
    } else {
      assert s[1..] == u[1..] + " " + v;
      WordsOfConcat(u[1..], v);
    }
  }

  predicate IsFlag(w: string) {
    w == "nsw" || w == "nuw"
  }

  // Drop every flag but keep the last word, whatever it is.
  function DropFlags(ws: seq<string>): (r: seq<string>)
    requires ws != []
    ensures r != []
  {
    if |ws| == 1 then ws
    else (if IsFlag(ws[0]) then [] else [ws[0]]) + DropFlags(ws[1..])
  }

  function InnerWords(s: string): seq<string> {
    if |Words(s)| > 1 then DropFlags(Words(s)[1..]) else []
  }

  // A line's words without the flags strictly inside it.
  function StrippedWords(s: string): seq<string> {
    [Words(s)[0]] + InnerWords(s)
  }

  lemma DropByInner(s: string)
    ensures DropFlags(Words(s)) ==
      if |Words(s)| == 1 then Words(s) else (if IsFlag(Words(s)[0]) then [] else [Words(s)[0]]) + InnerWords(s)
  {
  }

  function Stripped(s: string): string {
    Join(StrippedWords(s), " ")
  }

  // ---------------------------------------------------------------- one replacement

  // str::replace: leftmost matches, no overlap.
  function Replace(s: string, p: string, rep: string): string
    requires p != ""
  {
    if s == "" then ""
    else if p <= s then rep + Replace(s[|p|..], p, rep)
    else [s[0]] + Replace(s[1..], p, rep)
  }

  // The four patterns the pass replaces by a space.
  predicate IsPattern(p: string) {
    p == " nsw nuw " || p == " nuw nsw " || p == " nsw " || p == " nuw "
  }

  lemma FlagThenRest(f: string, rest: string)
    requires IsFlag(f)
    ensures Words(f + " " + rest) == [f] + Words(rest) && DropFlags(Words(f + " " + rest)) == DropFlags(Words(rest))
  {
    WordsOfConcat(f, rest);
    WordWithoutSpace(f);
    assert ([f] + Words(rest))[1..] == Words(rest);
  }

  lemma OneFlag(f: string, rest: string, s: string)
    requires IsFlag(f) && s == " " + (f + " " + rest)
    ensures |Words(s)| > 1 && Words(s)[0] == "" && InnerWords(s) == DropFlags(Words(rest))
  {
    FlagThenRest(f, rest);
    SpaceFirst(f + " " + rest);
  }

  lemma TwoFlags(f: string, h: string, rest: string, s: string)
    requires IsFlag(f) && IsFlag(h) && s == " " + (f + " " + (h + " " + rest))
    ensures |Words(s)| > 1 && Words(s)[0] == "" && InnerWords(s) == DropFlags(Words(rest))
  {
    FlagThenRest(h, rest);
    OneFlag(f, h + " " + rest, s);
  }

  lemma GlueOne(p: string, f: string, rest: string)
    requires p == " " + f + " "
    ensures p + rest == " " + (f + " " + rest)
  {
  }

  lemma GlueTwo(p: string, f: string, h: string, rest: string)
    requires p == " " + f + " " + h + " "
    ensures p + rest == " " + (f + " " + (h + " " + rest))
  {
  }

  lemma PatternsSpelled()
    ensures " nsw " == " " + "nsw" + " " && " nuw " == " " + "nuw" + " "
    ensures " nsw nuw " == " " + "nsw" + " " + "nuw" + " "
    ensures " nuw nsw " == " " + "nuw" + " " + "nsw" + " "
  {
  }

  lemma PatternWords(p: string, rest: string)
    requires IsPattern(p)
    ensures |Words(p + rest)| > 1 && Words(p + rest)[0] == "" && InnerWords(p + rest) == DropFlags(Words(rest))
  {
    PatternsSpelled();
    var f, h := "nsw", "nuw";
    if p == " nsw " || p == " nuw " {
      if p == " nuw " { f := "nuw"; }
      GlueOne(p, f, rest);
      OneFlag(f, rest, p + rest);
    } else {
      if p == " nuw nsw " { f, h := "nuw", "nsw"; }
      GlueTwo(p, f, h, rest);
      TwoFlags(f, h, rest, p + rest);
    }
  }

  lemma {:induction false} WordWithoutSpace(s: string)
    requires ' ' !in s
    ensures Words(s) == [s]
  {
    if s != "" {
      WordWithoutSpace(s[1..]);
      assert s == [s[0]] + s[1..];
    }
  }

  // A replacement only removes interior flags.
  lemma {:induction false} ReplaceKeepsStripped(s: string, p: string)
    requires IsPattern(p)
    ensures var r := Replace(s, p, " ");
      Words(r)[0] == Words(s)[0] && InnerWords(r) == InnerWords(s) && (|Words(r)| > 1 <==> |Words(s)| > 1)
    ensures StrippedWords(Replace(s, p, " ")) == StrippedWords(s)
    decreases |s|
  {
    if s == "" {
    } else if p <= s {
      var rest := s[|p|..];
      ReplaceKeepsStripped(rest, p);
      KeepsAtPattern(s, p, Replace(rest, p, " "));
    } else {
      ReplaceKeepsStripped(s[1..], p);
      KeepsAtChar(s, Replace(s[1..], p, " "));
    }
  }

  ghost predicate SameInterior(r: string, s: string) {
    && Words(r)[0] == Words(s)[0] && InnerWords(r) == InnerWords(s) && (|Words(r)| > 1 <==> |Words(s)| > 1)
    && StrippedWords(r) == StrippedWords(s)
  }

  lemma KeepsAtPattern(s: string, p: string, r: string)
    requires IsPattern(p) && p <= s && SameInterior(r, s[|p|..])
    ensures SameInterior(" " + r, s)
  {
    var rest := s[|p|..];
    assert s == p + rest;
    PatternWords(p, rest);
    DropByInner(rest);
    DropByInner(r);
    SpaceFirst(r);
  }

  lemma KeepsAtChar(s: string, r: string)
    requires s != "" && SameInterior(r, s[1..])
    ensures SameInterior([s[0]] + r, s)
  {
    assert s == [s[0]] + s[1..];
    if s[0] == ' ' {
      DropByInner(s[1..]);
      DropByInner(r);
      SpaceFirst(r);
      SpaceFirst(s[1..]);
      assert s == " " + s[1..] && [s[0]] + r == " " + r;
    } else {
      CharFirst(s[0], r);
      CharFirst(s[0], s[1..]);
    }
  }

  lemma SpaceFirst(r: string)
    ensures Words(" " + r) == [""] + Words(r) && Words(" " + r)[1..] == Words(r)
  {
    assert (" " + r)[1..] == r;
  }

  lemma CharFirst(c: char, r: string)
    requires c != ' '
    ensures |Words([c] + r)| == |Words(r)| && Words([c] + r)[0] == [c] + Words(r)[0] &&
      Words([c] + r)[1..] == Words(r)[1..]
  {
    assert ([c] + r)[1..] == r;
  }

  lemma {:induction false} ReplaceShrinks(s: string, p: string)
    requires |p| > 4
    ensures |Replace(s, p, " ")| == |s| || |Replace(s, p, " ")| + 4 <= |s|
    ensures |Replace(s, p, " ")| == |s| ==> Replace(s, p, " ") == s && !Contains(s, p)
    decreases |s|
  {
    if s == "" {
    } else if p <= s {
      ReplaceShrinks(s[|p|..], p);
    } else {
      ReplaceShrinks(s[1..], p);
      assert s[0..] == s;
      assert forall i :: 0 < i <= |s| ==> s[i..] == s[1..][i - 1..];
      assert forall i :: 0 < i <= |s| && OccursAt(s, p, i) ==> OccursAt(s[1..], p, i - 1);
    }
  }

  // ---------------------------------------------------------------- the fixpoint

  ghost predicate NoFlags(s: string) {
    !Contains(s, " nsw ") && !Contains(s, " nuw ")
  }

  lemma {:induction false} FirstWord(s: string)
    requires |Words(s)| > 1
    ensures Words(s)[0] + " " <= s
  {
    if s[0] != ' ' { FirstWord(s[1..]); }
  }

  lemma TailNoFlags(s: string)
    requires s != "" && NoFlags(s)
    ensures NoFlags(s[1..])
  {
    forall p | Contains(s[1..], p) ensures Contains(s, p) {
      var i :| 0 <= i <= |s| - 1 && OccursAt(s[1..], p, i);
      assert s[1..][i..] == s[i + 1..];
      assert OccursAt(s, p, i + 1);
    }
  }

  lemma InnerWord(s: string)
    requires s != "" && s[0] == ' ' && NoFlags(s)
    ensures var w := Words(s[1..]); |w| > 1 ==> !IsFlag(w[0])
  {
    var w := Words(s[1..]);
    if |w| > 1 {
      FirstWord(s[1..]);
      var p := " " + w[0] + " ";
      assert s == " " + s[1..] && s[0..] == s;
      assert OccursAt(s, p, 0);
      assert Contains(s, p);
      assert " " + "nsw" + " " == " nsw " && " " + "nuw" + " " == " nuw ";
    }
  }

  // When no pattern is left there is nothing to strip.
  lemma {:induction false} NothingLeft(s: string)
    requires NoFlags(s)
    ensures StrippedWords(s) == Words(s)
  {
    if s != "" {
      TailNoFlags(s);
      NothingLeft(s[1..]);
      if s[0] == ' ' {
        var w := Words(s[1..]);
        assert ([""] + w)[1..] == w;
        InnerWord(s);
      }
    }
  }

  /** The replacement loop. It terminates because a productive round shortens the line, and
      it computes the line without its interior flags. */
  method StripLine(line: string) returns (patched: string, rounds: nat)
    ensures patched == Stripped(line) && NoFlags(patched)
    ensures rounds == 0 ==> patched == line
    ensures 4 * rounds + |patched| <= |line|
  {
    patched := line;
    rounds := 0;
    while true
      invariant StrippedWords(patched) == StrippedWords(line)
      invariant rounds == 0 ==> patched == line
      invariant 4 * rounds + |patched| <= |line|
      decreases |patched|
    {
      var before := |patched|;
      ghost var start := patched;
      ReplaceKeepsStripped(patched, " nsw nuw ");
      ReplaceShrinks(patched, " nsw nuw ");
      patched := Replace(patched, " nsw nuw ", " ");
      ReplaceKeepsStripped(patched, " nuw nsw ");
      ReplaceShrinks(patched, " nuw nsw ");
      patched := Replace(patched, " nuw nsw ", " ");
      ReplaceKeepsStripped(patched, " nsw ");
      ReplaceShrinks(patched, " nsw ");
      patched := Replace(patched, " nsw ", " ");
      ReplaceKeepsStripped(patched, " nuw ");
      ReplaceShrinks(patched, " nuw ");
      patched := Replace(patched, " nuw ", " ");
      if |patched| == before {
        NothingLeft(patched);
        JoinWords(patched);
        return;
      }
      rounds := rounds + 1;
    }
  }

  // The specification's own result is flag-free: stripping stops after finitely many rounds.
  lemma {:induction false} StrippedReachable(s: string)
    ensures NoFlags(Stripped(s))
    decreases |s|
  {
    if NoFlags(s) {
      NothingLeft(s);
      JoinWords(s);
    } else {
      var p := if Contains(s, " nsw ") then " nsw " else " nuw ";
      ReplaceKeepsStripped(s, p);
      ReplaceShrinks(s, p);
      StrippedReachable(Replace(s, p, " "));
    }
  }

  lemma StrippedTwice(s: string)
    ensures Stripped(Stripped(s)) == Stripped(s)
  {
    StrippedReachable(s);
    NothingLeft(Stripped(s));
    JoinWords(Stripped(s));
  }

  // ---------------------------------------------------------------- whole text

  // split_inclusive('\n'): each piece keeps its newline.
  function Lines(text: string): seq<string> {
    if text == "" then []
    else
      var rest := Lines(text[1..]);
      if text[0] == '\n' || rest == [] then [[text[0]]] + rest
      else [[text[0]] + rest[0]] + rest[1..]
  }

  // Nonempty, with a newline at most at the end.
  predicate IsLine(l: string) {
    l != "" && (|l| == 1 || (l[0] != '\n' && IsLine(l[1..])))
  }

  predicate Terminated(l: string) {
    l != "" && l[|l| - 1] == '\n'
  }

  predicate AreLines(ls: seq<string>) {
    && (forall i :: 0 <= i < |ls| ==> IsLine(ls[i]))
    && (forall i :: 0 <= i < |ls| - 1 ==> Terminated(ls[i]))
  }

  lemma {:induction false} LinesSplit(text: string)
    ensures AreLines(Lines(text)) && Concat(Lines(text)) == text
  {
    if text != "" {
      LinesSplit(text[1..]);
      var rest := Lines(text[1..]);
      if text[0] == '\n' || rest == [] {
        assert ([[text[0]]] + rest)[1..] == rest;
      } else {
        assert Lines(text)[1..] == rest[1..];
        assert ([text[0]] + rest[0])[1..] == rest[0];
      }
    }
  }

  lemma {:induction false} FirstLine(l: string, text: string)
    requires IsLine(l) && (Terminated(l) || text == "")
    ensures Lines(l + text) == [l] + Lines(text)
  {
    assert (l + text)[1..] == l[1..] + text;
    if |l| == 1 {
      assert l[1..] + text == text && [l[0]] == l;
    } else {
      FirstLine(l[1..], text);
      assert l == [l[0]] + l[1..];
    }
  }

  lemma {:induction false} LinesOfConcat(ls: seq<string>)
    requires AreLines(ls)
    ensures Lines(Concat(ls)) == ls
  {
    if ls != [] {
      LinesOfConcat(ls[1..]);
      if |ls| == 1 { assert Concat(ls[1..]) == ""; }
      FirstLine(ls[0], Concat(ls[1..]));
    }
  }

  // Instruction-like lines; comments, metadata and attribute groups are left alone.
  predicate IsProcessed(line: string) {
    var t := TrimStart(line);
    "%" <= t || "ret " <= t || "store " <= t || "br " <= t || Contains(t, " = ")
  }

  function StripOne(line: string): string {
    if IsProcessed(line) then Stripped(line) else line
  }

  function StripAll(ls: seq<string>): (r: seq<string>)
    ensures |r| == |ls| && forall i :: 0 <= i < |ls| ==> r[i] == StripOne(ls[i])
  {
    if ls == [] then [] else [StripOne(ls[0])] + StripAll(ls[1..])
  }

  function StripText(text: string): string {
    Concat(StripAll(Lines(text)))
  }

  lemma ConcatNext(ls: seq<string>, i: nat)
    requires i < |ls|
    ensures Concat(ls[..i + 1]) == Concat(ls[..i]) + ls[i]
  {
    assert ls[..i + 1] == ls[..i] + [ls[i]];
    ConcatAppend(ls[..i], [ls[i]]);
    assert [ls[i]][1..] == [];
  }

  // A line survives exactly when it is not taken for an instruction or holds no flag. Lines
  // that define globals hold ` = ` and are taken for instructions.
  lemma LineUnchangedIff(line: string)
    ensures StripOne(line) == line <==> !IsProcessed(line) || NoFlags(line)
    ensures var t := TrimStart(line);
      StripOne(line) == line <==>
        || (!Contains(line, " nsw ") && !Contains(line, " nuw "))
        || (!("%" <= t) && !("ret " <= t) && !("store " <= t) && !("br " <= t) && !Contains(t, " = "))
  {
    StrippedReachable(line);
    if NoFlags(line) {
      NothingLeft(line);
      JoinWords(line);
    }
  }

  method StripNswNuwFlags(text: string) returns (buf: string, count: nat)
    ensures buf == StripText(text)
    ensures count == 0 <==> buf == text
    ensures 4 * count + |buf| <= |text|
  {
    var ls := Lines(text);
    ghost var out := StripAll(ls);
    buf := "";
    count := 0;
    for i := 0 to |ls|
      invariant buf == Concat(out[..i])
      invariant count == 0 ==> buf == Concat(ls[..i])
      invariant 4 * count + |buf| <= |Concat(ls[..i])|
    {
      ConcatNext(out, i);
      ConcatNext(ls, i);
      if IsProcessed(ls[i]) {
        var patched, rounds := StripLine(ls[i]);
        buf := buf + patched;
        count := count + rounds;
      } else {
        buf := buf + ls[i];
      }
    }
    assert out[..|ls|] == out && ls[..|ls|] == ls;
    LinesSplit(text);
  }

  // Replacing flags inside a line keeps it one line, with the same ending.
  lemma {:induction false} ReplaceKeepsLine(s: string, p: string)
    requires IsPattern(p) && IsLine(s)
    ensures IsLine(Replace(s, p, " ")) && Terminated(Replace(s, p, " ")) == Terminated(s)
    decreases |s|
  {
    if p <= s {
      var rest := s[|p|..];
      LineTail(s, |p|);
      if rest != "" {
        ReplaceKeepsLine(rest, p);
        LineBehind(' ', Replace(rest, p, " "));
        assert s[|s| - 1] == rest[|rest| - 1];
      } else {
        assert s[|s| - 1] == p[|p| - 1] == ' ';
      }
    } else if |s| > 1 {
      ReplaceKeepsLine(s[1..], p);
      LineBehind(s[0], Replace(s[1..], p, " "));
    } else {
      assert s[1..] == "";
    }
  }

  lemma LineBehind(c: char, l: string)
    requires c != '\n' && IsLine(l)
    ensures IsLine([c] + l) && Terminated([c] + l) == Terminated(l)
  {
    assert ([c] + l)[1..] == l;
  }

  lemma {:induction false} LineTail(s: string, n: nat)
    requires IsLine(s) && n <= |s|
    ensures s[n..] != "" ==> IsLine(s[n..])
  {
    if n > 0 && |s| > 1 {
      LineTail(s[1..], n - 1);
      assert s[1..][n - 1..] == s[n..];
    }
  }

  lemma {:induction false} StrippedKeepsLine(s: string)
    requires IsLine(s)
    ensures IsLine(Stripped(s)) && Terminated(Stripped(s)) == Terminated(s)
    decreases |s|
  {
    if NoFlags(s) {
      NothingLeft(s);
      JoinWords(s);
    } else {
      var p := if Contains(s, " nsw ") then " nsw " else " nuw ";
      ReplaceKeepsStripped(s, p);
      ReplaceShrinks(s, p);
      ReplaceKeepsLine(s, p);
      StrippedKeepsLine(Replace(s, p, " "));
    }
  }

  lemma OutputLines(text: string)
    ensures Lines(StripText(text)) == StripAll(Lines(text))
  {
    var ls := Lines(text);
    LinesSplit(text);
    forall i | 0 <= i < |ls| ensures IsLine(StripOne(ls[i])) && Terminated(StripOne(ls[i])) == Terminated(ls[i]) {
      if IsProcessed(ls[i]) { StrippedKeepsLine(ls[i]); }
    }
    LinesOfConcat(StripAll(ls));
  }

  /** The pass reaches a fixpoint: its output has the same number of lines, no processed
      line keeps an inner flag, and running it again changes nothing. */
  lemma StripTextFixpoint(text: string)
    ensures |Lines(StripText(text))| == |Lines(text)|
    ensures forall i :: 0 <= i < |Lines(text)| && IsProcessed(Lines(text)[i]) ==> NoFlags(Lines(StripText(text))[i])
    ensures StripText(StripText(text)) == StripText(text)
  {
    OutputLines(text);
    var ls := Lines(text);
    forall i | 0 <= i < |ls| ensures IsProcessed(ls[i]) ==> NoFlags(StripOne(ls[i])) {
      if IsProcessed(ls[i]) { StrippedReachable(ls[i]); }
    }
    forall i | 0 <= i < |ls| ensures StripOne(StripOne(ls[i])) == StripOne(ls[i]) {
      if IsProcessed(ls[i]) { StrippedTwice(ls[i]); }
    }
    assert StripAll(StripAll(ls)) == StripAll(ls);
  }
}
