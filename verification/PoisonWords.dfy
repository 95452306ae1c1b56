/** The text of the poison-to-undef pass (src/transform/patch_llvm_ir.rs). */
module PoisonWords {
  import opened Text

  const POISON := "poison"
  const UNDEF := "undef"

  // What continues a word. Everything else is a boundary, `%` and `@` included.
  predicate IsWordChar(c: char) {
    IsAlpha(c) || IsDigit(c) || c == '_' || c == '"'
  }

  // The whole word `poison` starts the text s, which follows the character prev.
  predicate Word(prev: char, s: string) {
    POISON <= s && !IsWordChar(prev) && (|s| > 6 ==> !IsWordChar(s[6]))
  }

  // The character before position i; the start of the text is a boundary.
  function Before(s: string, i: nat): char
    requires i <= |s|
  {
    if i == 0 then ' ' else s[i - 1]
  }

  predicate WordAt(s: string, i: nat)
    requires i <= |s|
  {
    Word(Before(s, i), s[i..])
  }

  // Neither side of a whole word is a letter, a digit, an underscore or a double quote.
  lemma WordAtIs(s: string, i: nat)
    requires i < |s|
    ensures WordAt(s, i) <==>
      && i + 6 <= |s| && s[i..i + 6] == "poison"
      && forall k :: (k == i - 1 || k == i + 6) && 0 <= k < |s| ==>
           !('a' <= s[k] <= 'z') && !('A' <= s[k] <= 'Z') && !('0' <= s[k] <= '9') && s[k] != '_' && s[k] != '"'
  {
    if i + 6 <= |s| {
      assert s[i..][..6] == s[i..i + 6];
      assert POISON <= s[i..] <==> s[i..][..6] == POISON;
      assert i + 6 < |s| ==> s[i..][6] == s[i + 6];
    }
  }

  // ---------------------------------------------------------------- specification

  // The text read as characters and whole-word poisons.
  datatype Token = Ch(c: char) | PoisonWord

  function Tokens(prev: char, s: string): seq<Token>
    decreases |s|
  {
    if s == "" then []
    else if Word(prev, s) then [PoisonWord] + Tokens('n', s[6..])
    else [Ch(s[0])] + Tokens(s[0], s[1..])
  }

  function Render(ts: seq<Token>, word: string): string {
    if ts == [] then ""
    else (if ts[0].Ch? then [ts[0].c] else word) + Render(ts[1..], word)
  }

  function CountWords(ts: seq<Token>): nat {
    if ts == [] then 0 else (if ts[0].PoisonWord? then 1 else 0) + CountWords(ts[1..])
  }

  ghost function Positions(s: string, i: nat): set<nat>
    requires i <= |s|
  {
    set k | i <= k < |s| && WordAt(s, k)
  }

  function ReplacePoison(s: string): string {
    Render(Tokens(' ', s), UNDEF)
  }

  // The tokens spell the text.
  lemma {:induction false} TokensSpell(prev: char, s: string)
    ensures Render(Tokens(prev, s), POISON) == s
    decreases |s|
  {
    if s != "" {
      if Word(prev, s) {
        TokensSpell('n', s[6..]);
        assert s == POISON + s[6..];
        assert Tokens(prev, s)[1..] == Tokens('n', s[6..]);
      } else {
        TokensSpell(s[0], s[1..]);
        assert s == [s[0]] + s[1..];
        assert Tokens(prev, s)[1..] == Tokens(s[0], s[1..]);
      }
    }
  }

  lemma NoOverlap(s: string, i: nat, k: nat)
    requires i < |s| && WordAt(s, i) && i < k < i + 6 && k < |s|
    ensures !WordAt(s, k)
  {
    assert s[k - 1] == s[i..][k - 1 - i] == POISON[k - 1 - i];
  }

  lemma StepTokens(s: string, i: nat)
    requires i < |s|
    ensures WordAt(s, i) ==>
      i + 6 <= |s| && Tokens(Before(s, i), s[i..]) == [PoisonWord] + Tokens(Before(s, i + 6), s[i + 6..])
    ensures !WordAt(s, i) ==> Tokens(Before(s, i), s[i..]) == [Ch(s[i])] + Tokens(Before(s, i + 1), s[i + 1..])
  {
    if WordAt(s, i) {
      assert s[i..][6..] == s[i + 6..] && s[i + 5] == s[i..][5] == POISON[5];
    } else {
      assert s[i..][1..] == s[i + 1..];
    }
  }

  // The words among the tokens are all the whole-word occurrences of the text.
  lemma {:induction false} CountIsPositions(s: string, i: nat)
    requires i <= |s|
    ensures CountWords(Tokens(Before(s, i), s[i..])) == |Positions(s, i)|
    decreases |s| - i
  {
    if i == |s| {
      assert Positions(s, i) == {};
    } else {
      StepTokens(s, i);
      if WordAt(s, i) {
        CountIsPositions(s, i + 6);
        forall k | i < k < i + 6 && k < |s| ensures !WordAt(s, k) { NoOverlap(s, i, k); }
        assert Positions(s, i) == {i} + Positions(s, i + 6);
      } else {
        CountIsPositions(s, i + 1);
        assert Positions(s, i) == Positions(s, i + 1);
      }
    }
  }

  // The scan has reached i.
  ghost predicate Scanning(text: string, i: nat, out: string, count: nat) {
    && i <= |text|
    && out + Render(Tokens(Before(text, i), text[i..]), UNDEF) == ReplacePoison(text)
    && count + CountWords(Tokens(Before(text, i), text[i..])) == |Positions(text, 0)|
  }

  lemma RenderFirst(t: Token, ts: seq<Token>)
    ensures Render([t] + ts, UNDEF) == (if t.Ch? then [t.c] else UNDEF) + Render(ts, UNDEF)
    ensures CountWords([t] + ts) == (if t.PoisonWord? then 1 else 0) + CountWords(ts)
  {
    assert ([t] + ts)[1..] == ts;
  }

  lemma ScanningNext(text: string, i: nat, out: string, count: nat)
    requires i < |text| && Scanning(text, i, out, count)
    ensures WordAt(text, i) ==> Scanning(text, i + 6, out + UNDEF, count + 1)
    ensures !WordAt(text, i) ==> Scanning(text, i + 1, out + [text[i]], count)
  {
    StepTokens(text, i);
    if WordAt(text, i) {
      var ts := Tokens(Before(text, i + 6), text[i + 6..]);
      RenderFirst(PoisonWord, ts);
      Regroup(out, UNDEF, Render(ts, UNDEF));
    } else {
      var ts := Tokens(Before(text, i + 1), text[i + 1..]);
      RenderFirst(Ch(text[i]), ts);
      Regroup(out, [text[i]], Render(ts, UNDEF));
    }
  }

  /** The scan: every whole word becomes undef, all other text is copied, and the count is
      the number of whole-word occurrences. */
  method ReplacePoisonWithUndef(text: string) returns (out: string, count: nat)
    ensures out == ReplacePoison(text)
    ensures count == |Positions(text, 0)|
  {
    out, count := "", 0;
    var i := 0;
    assert text[0..] == text;
    CountIsPositions(text, 0);
    while i < |text|
      invariant Scanning(text, i, out, count)
      decreases |text| - i
    {
      ScanningNext(text, i, out, count);
      if WordAt(text, i) {
        out := out + UNDEF;
        i := i + 6;
        count := count + 1;
      } else {
        out := out + [text[i]];
        i := i + 1;
      }
    }
  }

  // ---------------------------------------------------------------- the fixpoint

  function Patch(prev: char, s: string): string {
    Render(Tokens(prev, s), UNDEF)
  }

  lemma PatchStep(prev: char, s: string)
    requires s != ""
    ensures Patch(prev, s) == if Word(prev, s) then UNDEF + Patch('n', s[6..]) else [s[0]] + Patch(s[0], s[1..])
  {
    if Word(prev, s) {
      assert Tokens(prev, s)[1..] == Tokens('n', s[6..]);
    } else {
      assert Tokens(prev, s)[1..] == Tokens(s[0], s[1..]);
    }
  }

  ghost predicate NoWord(prev: char, s: string)
    decreases |s|
  {
    s == "" || (!Word(prev, s) && NoWord(s[0], s[1..]))
  }

  // Text without a `u` at the front of the result was at the front of the input, and so
  // was the character after it.
  lemma {:induction false} PatchFront(prev: char, s: string, t: string)
    requires 'u' !in t && t <= Patch(prev, s)
    ensures t <= s
    ensures t != "" && IsWordChar(t[|t| - 1]) ==> |s| > |t| ==> |Patch(prev, s)| > |t| && Patch(prev, s)[|t|] == s[|t|]
    decreases |t|
  {
    if t != "" {
      PatchStep(prev, s);
      assert Patch(prev, s)[0] == t[0];
      var r := Patch(s[0], s[1..]);
      assert Patch(prev, s)[1..] == r;
      PatchFront(s[0], s[1..], t[1..]);
      if |t| == 1 && |s| > 1 { PatchStep(s[0], s[1..]); }
    }
  }

  lemma NoNewWord(prev: char, prev': char, s: string)
    requires s != "" && !Word(prev, s) && IsWordChar(prev) == IsWordChar(prev')
    ensures !Word(prev', [s[0]] + Patch(s[0], s[1..]))
  {
    var r := Patch(s[0], s[1..]);
    if POISON <= [s[0]] + r {
      assert POISON[1..] == "oison" && r == ([s[0]] + r)[1..];
      PatchFront(s[0], s[1..], "oison");
      assert s == [s[0]] + s[1..];
    }
  }

  lemma CleanBehind(prev: char, c: char, s: string)
    requires c != 'p' && NoWord(c, s)
    ensures NoWord(prev, [c] + s)
  {
    assert ([c] + s)[1..] == s && ([c] + s)[0] == c && POISON[0] == 'p';
  }

  lemma UndefClean(prev: char, x: string)
    requires NoWord('f', x)
    ensures NoWord(prev, UNDEF + x)
  {
    CleanBehind('e', 'f', x);
    CleanBehind('d', 'e', ['f'] + x);
    CleanBehind('n', 'd', ['e'] + (['f'] + x));
    CleanBehind('u', 'n', ['d'] + (['e'] + (['f'] + x)));
    CleanBehind(prev, 'u', ['n'] + (['d'] + (['e'] + (['f'] + x))));
    assert UNDEF + x == ['u'] + (['n'] + (['d'] + (['e'] + (['f'] + x))));
  }

  // No replacement creates a new word, not even across its edges.
  lemma {:induction false} PatchClean(prev: char, prev': char, s: string)
    requires IsWordChar(prev) == IsWordChar(prev')
    ensures NoWord(prev', Patch(prev, s))
    decreases |s|
  {
    if s != "" {
      PatchStep(prev, s);
      if Word(prev, s) {
        PatchClean('n', 'f', s[6..]);
        UndefClean(prev', Patch('n', s[6..]));
      } else {
        PatchClean(s[0], s[0], s[1..]);
        NoNewWord(prev, prev', s);
        assert ([s[0]] + Patch(s[0], s[1..]))[1..] == Patch(s[0], s[1..]);
      }
    }
  }

  lemma {:induction false} NoWordUnchanged(prev: char, s: string)
    requires NoWord(prev, s)
    ensures Patch(prev, s) == s && CountWords(Tokens(prev, s)) == 0
    decreases |s|
  {
    if s != "" {
      PatchStep(prev, s);
      NoWordUnchanged(s[0], s[1..]);
      assert Tokens(prev, s)[1..] == Tokens(s[0], s[1..]);
      assert s == [s[0]] + s[1..];
    }
  }

  // After the pass no whole-word poison is left, and a second run does nothing.
  lemma ReplacePoisonFixpoint(text: string)
    ensures forall i :: 0 <= i < |ReplacePoison(text)| ==> !WordAt(ReplacePoison(text), i)
    ensures ReplacePoison(ReplacePoison(text)) == ReplacePoison(text)
  {
    var out := ReplacePoison(text);
    PatchClean(' ', ' ', text);
    NoWordUnchanged(' ', out);
    CountIsPositions(out, 0);
    assert out[0..] == out;
    assert Positions(out, 0) == {};
    forall i | 0 <= i < |out| ensures !WordAt(out, i) {
      assert i !in Positions(out, 0);
    }
  }

  lemma NoPoisonUnchanged(text: string)
    ensures |Positions(text, 0)| == 0 ==> ReplacePoison(text) == text
  {
    if |Positions(text, 0)| == 0 {
      assert text[0..] == text;
      CountIsPositions(text, 0);
      NoWordCounted(' ', text);
      NoWordUnchanged(' ', text);
    }
  }

  lemma {:induction false} NoWordCounted(prev: char, s: string)
    requires CountWords(Tokens(prev, s)) == 0
    ensures NoWord(prev, s)
    decreases |s|
  {
    if s != "" {
      if !Word(prev, s) {
        assert Tokens(prev, s)[1..] == Tokens(s[0], s[1..]);
        NoWordCounted(s[0], s[1..]);
      }
    }
  }

  // Any text, a string constant or a comment included, survives exactly when no whole word
  // stands in it.
  lemma UnchangedIff(text: string)
    ensures ReplacePoison(text) == text <==> forall i :: 0 <= i < |text| ==> !WordAt(text, i)
  {
    ReplacePoisonFixpoint(text);
    if forall i :: 0 <= i < |text| ==> !WordAt(text, i) {
      assert Positions(text, 0) == {};
      NoPoisonUnchanged(text);
    }
  }

  // The message `the poison pill` is changed, and with it the length of the constant.
  lemma MessageChanged(x: string, y: string)
    requires y != "" && !IsWordChar(y[0])
    ensures var text := x + (" " + POISON) + y; ReplacePoison(text) != text
  {
    var text := x + (" " + POISON) + y;
    assert text[|x| + 1..] == POISON + y && text[|x|] == ' ';
    assert WordAt(text, |x| + 1);
    UnchangedIff(text);
  }
}
