/** Template-argument normalisation and the struct-table lookup
    (src/transform/type_resolve.rs). */
module TypeResolve {
  import opened Options
  import opened Text

  // ---------------------------------------------------------------- last component

  function RFind(s: string): (r: Option<nat>)
    ensures r.Some? ==> r.value + 2 <= |s|
  {
    if s == "" then None
    else
      var r := RFind(s[1..]);
      if r.Some? then Some(r.value + 1) else if "::" <= s then Some(0) else None
  }

  function LastComponent(s: string): string {
    var r := RFind(s);
    if r.Some? then s[r.value + 2..] else s
  }

  lemma {:induction false} LastComponentUnqualified(s: string)
    ensures RFind(LastComponent(s)).None?
  {
    if s != "" {
      LastComponentUnqualified(s[1..]);
      var r := RFind(s[1..]);
      if r.Some? {
        assert s[1..][r.value + 2..] == s[r.value + 3..];
      } else if "::" <= s {
        SuffixUnqualified(s[1..], 1);
        assert s[1..][1..] == s[2..];
      }
    }
  }

  lemma {:induction false} SuffixUnqualified(s: string, n: nat)
    requires RFind(s).None? && n <= |s|
    ensures RFind(s[n..]).None?
  {
    if n > 0 {
      SuffixUnqualified(s[1..], n - 1);
      assert s[1..][n - 1..] == s[n..];
    }
  }

  // What stands behind the last `::` of a name, or all of a name without one.
  lemma {:induction false} LastComponentIs(front: string, x: string)
    requires !Contains(x, "::") && (x == "" || x[0] != ':')
    ensures LastComponent(x) == x && LastComponent(front + "::" + x) == x
  {
    NoSeparatorFound(x);
    var s := "::" + x;
    assert s[1..] == ":" + x && s[1..][1..] == x;
    assert RFind(s[1..]).None?;
    assert RFind(s) == Some(0);
    RFindBehind(front, s);
    assert front + "::" + x == front + s && (front + s)[|front| + 2..] == x;
  }

  lemma {:induction false} NoSeparatorFound(x: string)
    requires !Contains(x, "::")
    ensures RFind(x).None?
  {
    if x != "" {
      assert x[0..] == x && !OccursAt(x, "::", 0);
      forall i | 0 <= i <= |x| - 1 ensures !OccursAt(x[1..], "::", i) {
        OccursTail(x, "::", i + 1);
      }
      NoSeparatorFound(x[1..]);
    }
  }

  lemma {:induction false} RFindBehind(front: string, s: string)
    requires RFind(s).Some?
    ensures RFind(front + s) == Some(|front| + RFind(s).value)
  {
    if front == "" {
      assert front + s == s;
    } else {
      RFindBehind(front[1..], s);
      assert (front + s)[1..] == front[1..] + s;
    }
  }

  // ---------------------------------------------------------------- bracket matching

  // The index of the bracket closing an already opened one, or the length.
  function Closing(s: string, depth: nat): (i: nat)
    ensures i <= |s|
  {
    if s == "" then 0
    else if s[0] == '<' then 1 + Closing(s[1..], depth + 1)
    else if s[0] == '>' then (if depth == 0 then 0 else 1 + Closing(s[1..], depth - 1))
    else 1 + Closing(s[1..], depth)
  }

  // Brackets opened and not closed again.
  function Balance(s: string): int {
    if s == "" then 0
    else
      var n := |s| - 1;
      Balance(s[..n]) + if s[n] == '<' then 1 else if s[n] == '>' then -1 else 0
  }

  // The first closing bracket whose own opening one stands before the text.
  method FindClosingAngle(s: string) returns (i: nat)
    ensures i <= |s| && (i < |s| ==> s[i] == '>' && Balance(s[..i]) == 0)
    ensures forall k :: 0 <= k < i && s[k] == '>' ==> Balance(s[..k]) > 0
    ensures i == Closing(s, 0)
  {
    var depth := 0;
    i := 0;
    while i < |s|
      invariant 0 <= i <= |s| && 0 <= depth == Balance(s[..i])
      invariant forall k :: 0 <= k < i && s[k] == '>' ==> Balance(s[..k]) > 0
      invariant Closing(s, 0) == i + Closing(s[i..], depth)
    {
      assert s[i..][1..] == s[i + 1..] && s[..i + 1][..i] == s[..i];
      if s[i] == '<' {
        depth := depth + 1;
      } else if s[i] == '>' {
        if depth == 0 { return; }
        depth := depth - 1;
      }
      i := i + 1;
    }
  }

  function Deeper(c: char, depth: nat): nat {
    if c == '<' then depth + 1 else if c == '>' && depth > 0 then depth - 1 else depth
  }

  // The pieces between commas at depth zero; never empty.
  function SplitTop(s: string, depth: nat): (parts: seq<string>)
    ensures parts != [] && forall i :: 0 <= i < |parts| ==> |parts[i]| <= |s|
  {
    if s == "" then [""]
    else if s[0] == ',' && depth == 0 then [""] + SplitTop(s[1..], 0)
    else Prepend([s[0]], SplitTop(s[1..], Deeper(s[0], depth)))
  }

  // ---------------------------------------------------------------- the normaliser

  function Normalize(s: string): string
    decreases |s|, 2, 0
  {
    var open := Find(s, "<");
    if open.None? then s
    else
      var rest := s[open.value + 1..];
      var close := Closing(rest, 0);
      if close >= |rest| then s
      else s[..open.value] + "<" + Join(NormArgs(SplitTop(rest[..close], 0), close + 1), ", ") + ">"
  }

  // Each argument is trimmed; a template is normalised, anything else loses its namespace.
  function NormArgs(parts: seq<string>, bound: nat): (r: seq<string>)
    requires forall i :: 0 <= i < |parts| ==> |parts[i]| < bound
    ensures |r| == |parts|
    decreases bound, 1, |parts|
  {
    if parts == [] then [] else [NormPiece(parts[0], bound)] + NormArgs(parts[1..], bound)
  }

  function NormPiece(piece: string, bound: nat): string
    requires |piece| < bound
    decreases bound, 0, 0
  {
    TrimShrinks(piece);
    var arg := Trim(piece);
    if '<' in arg then Normalize(arg) else LastComponent(arg)
  }

  method NormalizeTemplateArgs(s: string) returns (r: string)
    ensures r == Normalize(s)
    decreases |s|, 2
  {
    var open := Find(s, "<");
    if open.None? { return s; }
    var argsAndRest := s[open.value + 1..];
    var close := FindClosingAngle(argsAndRest);
    if close >= |argsAndRest| { return s; }
    var args := argsAndRest[..close];
    var outArgs := NormalizeArgs(args);
    assert args[0..] == args;
    r := s[..open.value] + "<" + Join(outArgs, ", ") + ">";
  }

  // The argument that begins at `start` has been scanned up to i at the given depth.
  ghost predicate Scanning(args: string, start: nat, i: nat, depth: nat) {
    && start <= i <= |args|
    && SplitTop(args[start..], 0) == Prepend(args[start..i], SplitTop(args[i..], depth))
  }

  lemma ScanStart(args: string, i: nat)
    requires i <= |args|
    ensures Scanning(args, i, i, 0)
  {
    assert args[i..i] == "";
    PrependNothing(SplitTop(args[i..], 0));
  }

  lemma ScanOn(args: string, start: nat, i: nat, depth: nat)
    requires Scanning(args, start, i, depth) && i < |args| && !(args[i] == ',' && depth == 0)
    ensures Scanning(args, start, i + 1, Deeper(args[i], depth))
  {
    var tail := SplitTop(args[i + 1..], Deeper(args[i], depth));
    assert args[i..] == [args[i]] + args[i + 1..];
    assert args[i..][1..] == args[i + 1..];
    PrependTwice(args[start..i], [args[i]], tail);
    assert args[start..i] + [args[i]] == args[start..i + 1];
  }

  // What the arguments from `start` on normalise to.
  ghost function RestArgs(args: string, start: nat): seq<string>
    requires start <= |args|
  {
    NormArgs(SplitTop(args[start..], 0), |args| + 1)
  }

  lemma NormCons(piece: string, rest: seq<string>, bound: nat)
    requires |piece| < bound && forall k :: 0 <= k < |rest| ==> |rest[k]| < bound
    ensures NormArgs([piece] + rest, bound) == [NormPiece(piece, bound)] + NormArgs(rest, bound)
  {
    assert ([piece] + rest)[1..] == rest;
  }

  lemma ScanComma(args: string, start: nat, i: nat)
    requires Scanning(args, start, i, 0) && i < |args| && args[i] == ','
    ensures RestArgs(args, start) == [NormPiece(args[start..i], |args| + 1)] + RestArgs(args, i + 1)
  {
    assert args[i..][1..] == args[i + 1..];
    assert args[start..i] + "" == args[start..i];
    var rest := SplitTop(args[i + 1..], 0);
    assert SplitTop(args[start..], 0) == [args[start..i]] + rest;
    NormCons(args[start..i], rest, |args| + 1);
  }

  lemma ScanEnd(args: string, start: nat, depth: nat)
    requires Scanning(args, start, |args|, depth)
    ensures RestArgs(args, start) == [NormPiece(args[start..], |args| + 1)]
  {
    assert args[|args|..] == "" && args[start..|args|] == args[start..];
    assert args[start..] + "" == args[start..];
    assert [args[start..]] + [] == [args[start..]];
    NormCons(args[start..], [], |args| + 1);
  }

  // The splitting loop: `start` is where the current argument begins.
  method NormalizeArgs(args: string) returns (outArgs: seq<string>)
    ensures outArgs == RestArgs(args, 0)
    decreases |args| + 1, 1
  {
    outArgs := [];
    var depth, start, i := 0, 0, 0;
    ScanStart(args, 0);
    while i < |args|
      invariant 0 <= depth && Scanning(args, start, i, depth)
      invariant RestArgs(args, 0) == outArgs + RestArgs(args, start)
      decreases |args| - i
    {
      if args[i] == ',' && depth == 0 {
        ScanComma(args, start, i);
        var one := NormalizeOneArg(args[start..i], |args| + 1);
        outArgs := outArgs + [one];
        start := i + 1;
        ScanStart(args, start);
      } else {
        ScanOn(args, start, i, depth);
        depth := Deeper(args[i], depth);
      }
      i := i + 1;
    }
    ScanEnd(args, start, depth);
    var last := NormalizeOneArg(args[start..], |args| + 1);
    outArgs := outArgs + [last];
  }

  method NormalizeOneArg(piece: string, ghost bound: nat) returns (r: string)
    requires |piece| < bound
    ensures r == NormPiece(piece, bound)
    decreases bound, 0
  {
    TrimShrinks(piece);
    var arg := Trim(piece);
    if '<' in arg {
      r := NormalizeTemplateArgs(arg);
    } else {
      r := LastComponent(arg);
    }
  }

  // ---------------------------------------------------------------- template trees

  datatype Tree = Leaf(name: string) | Node(base: string, args: seq<Tree>)

  predicate Plain(s: string) {
    forall i :: 0 <= i < |s| ==> s[i] != '<' && s[i] != '>' && s[i] != ','
  }

  // Names hold no brackets and no commas.
  predicate WellFormed(t: Tree) {
    match t
    case Leaf(n) => Plain(n)
    case Node(b, args) => Plain(b) && forall a :: a in args ==> WellFormed(a)
  }

  function Print(t: Tree): string
    decreases t
  {
    match t
    case Leaf(n) => n
    case Node(b, args) => b + "<" + PrintArgs(args) + ">"
  }

  function PrintArgs(args: seq<Tree>): string
    decreases args
  {
    if args == [] then ""
    else if |args| == 1 then Print(args[0])
    else Print(args[0]) + ", " + PrintArgs(args[1..])
  }

  // What normalising should do to an argument ...
  function NormArg(t: Tree): Tree
    decreases t
  {
    match t
    case Leaf(n) => Leaf(LastComponent(Trim(n)))
    case Node(b, args) => Node(TrimStart(b), NormTrees(args))
  }

  function NormTrees(args: seq<Tree>): (r: seq<Tree>)
    ensures |r| == |args| && forall i :: 0 <= i < |args| ==> r[i] == NormArg(args[i])
    decreases args
  {
    if args == [] then [] else [NormArg(args[0])] + NormTrees(args[1..])
  }

  // ... and to a whole type, whose own namespace stays.
  function NormTree(t: Tree): Tree {
    match t
    case Leaf(_) => t
    case Node(b, args) => Node(b, NormTrees(args))
  }

  // ---------------------------------------------------------------- scanning printed trees

  lemma {:induction false} ClosingPlain(p: string, x: string, depth: nat)
    requires Plain(p)
    ensures Closing(p + x, depth) == |p| + Closing(x, depth)
  {
    if p == "" {
      assert p + x == x;
    } else {
      assert (p + x)[1..] == p[1..] + x;
      ClosingPlain(p[1..], x, depth);
    }
  }

  // A printed tree is balanced: scanning it returns to the depth it started from.
  lemma {:induction false} ClosingTree(t: Tree, x: string, depth: nat)
    requires WellFormed(t)
    ensures Closing(Print(t) + x, depth) == |Print(t)| + Closing(x, depth)
    decreases t, 1
  {
    match t
    case Leaf(n) => ClosingPlain(n, x, depth);
    case Node(b, args) =>
      var inner := PrintArgs(args) + (">" + x);
      assert Print(t) + x == b + ("<" + inner);
      ClosingPlain(b, "<" + inner, depth);
      assert ("<" + inner)[1..] == inner;
      ClosingArgs(args, ">" + x, depth + 1);
      assert (">" + x)[1..] == x;
  }

  lemma {:induction false} ClosingArgs(args: seq<Tree>, x: string, depth: nat)
    requires forall a :: a in args ==> WellFormed(a)
    ensures Closing(PrintArgs(args) + x, depth) == |PrintArgs(args)| + Closing(x, depth)
    decreases args, 0
  {
    if args == [] {
      assert "" + x == x;
    } else if |args| == 1 {
      ClosingTree(args[0], x, depth);
    } else {
      var rest := PrintArgs(args[1..]) + x;
      assert PrintArgs(args) + x == Print(args[0]) + (", " + rest);
      ClosingTree(args[0], ", " + rest, depth);
      assert (", " + rest)[1..] == " " + rest && (" " + rest)[1..] == rest;
      ClosingArgs(args[1..], x, depth);
    }
  }

  lemma {:induction false} SplitPlain(p: string, x: string, depth: nat)
    requires Plain(p)
    ensures SplitTop(p + x, depth) == Prepend(p, SplitTop(x, depth))
  {
    if p == "" {
      assert p + x == x;
      PrependNothing(SplitTop(x, depth));
    } else {
      assert (p + x)[1..] == p[1..] + x;
      SplitPlain(p[1..], x, depth);
      PrependTwice([p[0]], p[1..], SplitTop(x, depth));
      assert [p[0]] + p[1..] == p;
    }
  }

  lemma SplitChar(c: char, x: string, depth: nat)
    requires c != ',' || depth > 0
    ensures SplitTop([c] + x, depth) == Prepend([c], SplitTop(x, Deeper(c, depth)))
  {
    assert ([c] + x)[1..] == x;
  }

  // A printed tree never splits at its outer depth.
  lemma {:induction false} SplitTree(t: Tree, x: string, depth: nat)
    requires WellFormed(t)
    ensures SplitTop(Print(t) + x, depth) == Prepend(Print(t), SplitTop(x, depth))
    decreases t, 1
  {
    match t
    case Leaf(n) => SplitPlain(n, x, depth);
    case Node(b, args) =>
      SplitInner(args, ['>'] + x, depth + 1);
      SplitBrackets(b, PrintArgs(args), x, depth);
      NodeText(b, PrintArgs(args), x);
  }

  lemma NodeText(b: string, inner: string, x: string)
    ensures b + "<" + inner + ">" == b + ("<" + (inner + ">"))
    ensures b + "<" + inner + ">" + x == b + (['<'] + (inner + (['>'] + x)))
  {
  }

  // A bracketed part that is ordinary text inside is ordinary text as a whole.
  lemma SplitBrackets(b: string, inner: string, x: string, depth: nat)
    requires Plain(b)
    requires SplitTop(inner + (['>'] + x), depth + 1) == Prepend(inner, SplitTop(['>'] + x, depth + 1))
    ensures SplitTop(b + (['<'] + (inner + (['>'] + x))), depth) ==
      Prepend(b + ("<" + (inner + ">")), SplitTop(x, depth))
  {
    var tail := SplitTop(x, depth);
    SplitPlain(b, ['<'] + (inner + (['>'] + x)), depth);
    SplitChar('<', inner + (['>'] + x), depth);
    SplitChar('>', x, depth + 1);
    PrependTwice(inner, ">", tail);
    PrependTwice("<", inner + ">", tail);
    PrependTwice(b, "<" + (inner + ">"), tail);
  }

  lemma {:induction false} SplitInner(args: seq<Tree>, x: string, depth: nat)
    requires depth > 0 && forall a :: a in args ==> WellFormed(a)
    ensures SplitTop(PrintArgs(args) + x, depth) == Prepend(PrintArgs(args), SplitTop(x, depth))
    decreases args, 0
  {
    if args == [] {
      assert "" + x == x;
      PrependNothing(SplitTop(x, depth));
    } else if |args| == 1 {
      SplitTree(args[0], x, depth);
    } else {
      var tail := SplitTop(x, depth);
      var rest := PrintArgs(args[1..]);
      SplitTree(args[0], [','] + ([' '] + (rest + x)), depth);
      SplitInner(args[1..], x, depth);
      SplitGap(rest + x, rest, tail, depth);
      PrependTwice(Print(args[0]), "," + (" " + rest), tail);
      GapText(Print(args[0]), rest, x);
    }
  }

  lemma GapText(p: string, rest: string, x: string)
    ensures p + ", " + rest == p + ("," + (" " + rest))
    ensures p + ", " + rest + x == p + ([','] + ([' '] + (rest + x)))
  {
  }

  // Inside brackets the separator is ordinary text.
  lemma SplitGap(y: string, rest: string, tail: seq<string>, depth: nat)
    requires depth > 0 && tail != [] && SplitTop(y, depth) == Prepend(rest, tail)
    ensures SplitTop([','] + ([' '] + y), depth) == Prepend("," + (" " + rest), tail)
  {
    SplitChar(',', [' '] + y, depth);
    SplitChar(' ', y, depth);
    PrependTwice(" ", rest, tail);
    PrependTwice(",", " " + rest, tail);
  }

  // What the splitter returns on a printed argument list: each argument, after the first
  // with the blank the printer put before it.
  function Pieces(args: seq<Tree>): seq<string> {
    seq(|args|, i requires 0 <= i < |args| => if i == 0 then Print(args[0]) else " " + Print(args[i]))
  }

  lemma PiecesCons(args: seq<Tree>)
    requires |args| > 1
    ensures Pieces(args) == [Print(args[0])] + Prepend(" ", Pieces(args[1..]))
  {
    var pieces, tail := Pieces(args), Prepend(" ", Pieces(args[1..]));
    forall i | 0 <= i < |tail| ensures tail[i] == pieces[i + 1] {
      assert args[1..][i] == args[i + 1];
    }
  }

  lemma SplitComma(x: string)
    ensures SplitTop([','] + ([' '] + x), 0) == [""] + Prepend(" ", SplitTop(x, 0))
  {
    assert ([','] + ([' '] + x))[1..] == [' '] + x;
    SplitChar(' ', x, 0);
  }

  lemma {:induction false} SplitArgs(args: seq<Tree>)
    requires args != [] && forall a :: a in args ==> WellFormed(a)
    ensures SplitTop(PrintArgs(args), 0) == Pieces(args)
  {
    var first := Print(args[0]);
    assert first + "" == first;
    if |args| == 1 {
      SplitTree(args[0], "", 0);
    } else {
      SplitArgs(args[1..]);
      PiecesCons(args);
      var rest := PrintArgs(args[1..]);
      assert PrintArgs(args) == first + ([','] + ([' '] + rest));
      SplitComma(rest);
      SplitTree(args[0], [','] + ([' '] + rest), 0);
    }
  }

  // ---------------------------------------------------------------- trimming printed trees

  lemma TrimPrinted(t: Tree)
    ensures Trim(Print(t)) == match t case Leaf(n) => Trim(n) case Node(b, args) => Print(Node(TrimStart(b), args))
  {
    if t.Node? {
      var x := "<" + PrintArgs(t.args) + ">";
      assert Print(t) == t.base + x;
      TrimStartConcat(t.base, x);
      var r := TrimStart(t.base) + x;
      assert TrimStart(Print(t)) == r;
      assert r[|r| - 1] == '>';
      assert r == Print(Node(TrimStart(t.base), t.args));
    }
  }

  lemma {:induction false} TrimStartPlain(s: string)
    requires Plain(s)
    ensures Plain(TrimStart(s))
  {
    if s != "" && IsSpace(s[0]) { TrimStartPlain(s[1..]); }
  }

  lemma {:induction false} TrimEndPlain(s: string)
    requires Plain(s)
    ensures Plain(TrimEnd(s))
    decreases |s|
  {
    if s != "" && IsSpace(s[|s| - 1]) { TrimEndPlain(s[..|s| - 1]); }
  }

  lemma FindOpen(b: string, x: string)
    requires Plain(b)
    ensures Find(b + "<" + x, "<") == Some(|b|)
  {
    FindFirst(b, "<", x);
  }

  // ---------------------------------------------------------------- the main result

  lemma NormalizeUnfold(b: string, inner: string, x: string)
    requires Plain(b) && Closing(inner + (">" + x), 0) == |inner|
    ensures Normalize(b + "<" + inner + ">" + x) ==
      b + "<" + Join(NormArgs(SplitTop(inner, 0), |inner| + 1), ", ") + ">"
  {
    var rest := inner + (">" + x);
    var s := b + "<" + inner + ">" + x;
    assert s == b + "<" + rest;
    FindOpen(b, rest);
    assert s[|b| + 1..] == rest && rest[..|inner|] == inner && s[..|b|] == b;
  }

  // Whatever follows the closing bracket is dropped.
  lemma {:induction false} NormalizeNode(b: string, args: seq<Tree>, x: string)
    requires Plain(b) && forall a :: a in args ==> WellFormed(a)
    ensures Normalize(Print(Node(b, args)) + x) == Print(Node(b, NormTrees(args)))
    decreases args, 2
  {
    var inner := PrintArgs(args);
    ClosingArgs(args, ">" + x, 0);
    assert Closing(">" + x, 0) == 0;
    NormalizeUnfold(b, inner, x);
    if args == [] {
      assert SplitTop(inner, 0) == [""] && LastComponent("") == "" && Trim("") == "";
      assert NormArgs([""], |inner| + 1) == [""] + NormArgs([""][1..], |inner| + 1);
    } else {
      SplitArgs(args);
      NormPieces(args, SplitTop(inner, 0), |inner| + 1);
    }
  }

  lemma NormalizeWhole(b: string, args: seq<Tree>)
    requires Plain(b) && forall a :: a in args ==> WellFormed(a)
    ensures Normalize(Print(Node(b, args))) == Print(Node(b, NormTrees(args)))
  {
    NormalizeNode(b, args, "");
    assert Print(Node(b, args)) + "" == Print(Node(b, args));
  }

  /** Normalising a printed template type prints its normalised tree: every argument that
      is not itself a template loses its namespace, at every depth, and nothing else moves. */
  lemma NormalizePrinted(t: Tree)
    requires WellFormed(t)
    ensures Normalize(Print(t)) == Print(NormTree(t))
  {
    match t
    case Leaf(n) => PlainNotOpen(n);
    case Node(b, args) => NormalizeWhole(b, args);
  }

  /** With text behind the closing bracket, such as a nested type's name, the rest of the
      type would have to stay: it does exactly when there is none. */
  lemma NormalizeTail(b: string, args: seq<Tree>, x: string)
    requires WellFormed(Node(b, args))
    ensures Normalize(Print(Node(b, args)) + x) == Print(NormTree(Node(b, args))) + x <==> x == ""
  {
    NormalizeNode(b, args, x);
    var r := Print(NormTree(Node(b, args)));
    assert |r + x| == |r| + |x|;
  }

  lemma {:induction false} PlainNotOpen(n: string)
    requires Plain(n)
    ensures Find(n, "<").None?
  {
    if n != "" {
      assert n[0] != "<"[0];
      PlainNotOpen(n[1..]);
    }
  }

  lemma {:induction false} NormPieces(args: seq<Tree>, pieces: seq<string>, bound: nat)
    requires forall a :: a in args ==> WellFormed(a)
    requires |pieces| == |args| && forall i :: 0 <= i < |pieces| ==> |pieces[i]| < bound
    requires forall i :: 0 <= i < |pieces| ==> pieces[i] == Print(args[i]) || pieces[i] == " " + Print(args[i])
    ensures Join(NormArgs(pieces, bound), ", ") == PrintArgs(NormTrees(args))
    decreases args, 1
  {
    if args != [] {
      assert args[0] in args;
      NormPieces(args[1..], pieces[1..], bound);
      NormOne(args[0], pieces[0]);
      var r := NormArgs(pieces, bound);
      assert r[1..] == NormArgs(pieces[1..], bound);
      assert NormTrees(args)[1..] == NormTrees(args[1..]);
      if |args| == 1 { assert args[1..] == []; }
    }
  }

  lemma NormOne(a: Tree, piece: string)
    requires WellFormed(a) && (piece == Print(a) || piece == " " + Print(a))
    ensures NormPiece(piece, |piece| + 1) == Print(NormArg(a))
    decreases a, 0
  {
    TrimBefore(' ', Print(a));
    TrimPrinted(a);
    match a
    case Leaf(n) =>
      TrimStartPlain(n);
      TrimEndPlain(TrimStart(n));
    case Node(b, args) =>
      TrimStartPlain(b);
      var a' := Node(TrimStart(b), args);
      assert Print(a')[|TrimStart(b)|] == '<';
      NormalizeNode(a'.base, args, "");
      assert Print(a') + "" == Print(a');
  }

  // ---------------------------------------------------------------- idempotence

  // The one thing that stops a second pass from agreeing with the first: an argument with
  // a blank right after its last `::`.
  predicate Settled(a: Tree)
    decreases a
  {
    match a
    case Leaf(n) => var m := LastComponent(Trim(n)); m == "" || !IsSpace(m[0])
    case Node(_, args) => forall i :: 0 <= i < |args| ==> Settled(args[i])
  }

  lemma NormLeafTwice(n: string)
    ensures var m := LastComponent(Trim(n)); LastComponent(Trim(m)) == m <==> m == "" || !IsSpace(m[0])
  {
    var m := LastComponent(Trim(n));
    LastComponentUnqualified(Trim(n));
    TrimEndTwice(TrimStart(n));
    if m != "" {
      assert m[|m| - 1] == Trim(n)[|Trim(n)| - 1];
      TrimShrinks(m);
      TrimShrinks(m[1..]);
      if !IsSpace(m[0]) { assert TrimStart(m) == m && TrimEnd(m) == m; }
      TrimShrinks(TrimStart(m));
    }
  }

  lemma {:induction false} NormArgTwice(a: Tree)
    ensures NormArg(NormArg(a)) == NormArg(a) <==> Settled(a)
    decreases a
  {
    match a
    case Leaf(n) => NormLeafTwice(n);
    case Node(b, args) =>
      TrimStartTwice(b);
      forall i | 0 <= i < |args| ensures NormArg(NormArg(args[i])) == NormArg(args[i]) <==> Settled(args[i]) {
        NormArgTwice(args[i]);
      }
      var once, twice := NormTrees(args), NormTrees(NormTrees(args));
      assert once == twice <==> forall i :: 0 <= i < |args| ==> once[i] == twice[i];
  }

  lemma {:induction false} LastComponentPlain(s: string)
    requires Plain(s)
    ensures Plain(LastComponent(s)) && |LastComponent(s)| <= |s|
  {
  }

  lemma {:induction false} NormArgWellFormed(a: Tree)
    requires WellFormed(a)
    ensures WellFormed(NormArg(a))
    decreases a
  {
    match a
    case Leaf(n) =>
      TrimStartPlain(n);
      TrimEndPlain(TrimStart(n));
      LastComponentPlain(Trim(n));
    case Node(b, args) =>
      TrimStartPlain(b);
      forall i | 0 <= i < |args| ensures WellFormed(NormTrees(args)[i]) { NormArgWellFormed(args[i]); }
  }

  // Normalising never lengthens a printed argument, and only an unchanged one keeps its length.
  lemma {:induction false} NormShrinks(a: Tree)
    ensures |Print(NormArg(a))| <= |Print(a)|
    ensures |Print(NormArg(a))| == |Print(a)| ==> NormArg(a) == a
    decreases a, 1
  {
    match a
    case Leaf(n) => TrimShrinks(n);
    case Node(b, args) =>
      TrimShrinks(b);
      NormArgsShrink(args);
  }

  lemma {:induction false} NormArgsShrink(args: seq<Tree>)
    ensures |PrintArgs(NormTrees(args))| <= |PrintArgs(args)|
    ensures |PrintArgs(NormTrees(args))| == |PrintArgs(args)| ==> NormTrees(args) == args
    decreases args, 0
  {
    if args != [] {
      NormShrinks(args[0]);
      NormArgsShrink(args[1..]);
      assert NormTrees(args)[1..] == NormTrees(args[1..]);
      assert args == [args[0]] + args[1..];
    }
  }

  // Normalising is idempotent on a printed type exactly when every argument is settled.
  lemma NormalizeTwice(b: string, args: seq<Tree>)
    requires WellFormed(Node(b, args))
    ensures var s := Print(Node(b, args));
      Normalize(Normalize(s)) == Normalize(s) <==> forall i :: 0 <= i < |args| ==> Settled(args[i])
  {
    var once, twice := NormTrees(args), NormTrees(NormTrees(args));
    NormalizeWhole(b, args);
    forall i | 0 <= i < |args| ensures WellFormed(once[i]) { NormArgWellFormed(args[i]); }
    NormalizeWhole(b, once);
    forall i | 0 <= i < |args| ensures once[i] == twice[i] <==> Settled(args[i]) { NormArgTwice(args[i]); }
    assert once == twice <==> forall i :: 0 <= i < |args| ==> once[i] == twice[i];
    NormArgsShrink(once);
    if Print(Node(b, twice)) == Print(Node(b, once)) {
      assert |PrintArgs(twice)| == |PrintArgs(once)|;
    }
  }

  // A blank behind the last `::` survives the first round and not the second.
  lemma UnsettledArgument(b: string)
    requires Plain(b)
    ensures var s := Print(Node(b, [Leaf("a:: b")])); Normalize(Normalize(s)) != Normalize(s)
  {
    var n := "a:: b";
    assert n[1..] == ":: b" && ":: b"[1..] == ": b" && ": b"[1..] == " b" && " b"[1..] == "b" && "b"[1..] == "";
    assert RFind("b").None? && RFind(" b").None? && ": b"[1] != "::"[1];
    assert RFind(": b").None? && RFind(":: b") == Some(0) && RFind(n) == Some(1);
    assert LastComponent(n) == " b";
    TrimTrimmed(n);
    assert !Settled([Leaf(n)][0]);
    NormalizeTwice(b, [Leaf(n)]);
  }

  // ---------------------------------------------------------------- struct-table lookup

  function StripKind(s: string): string {
    if "struct." <= s then s[7..] else if "class." <= s then s[6..] else if "union." <= s then s[6..] else s
  }

  predicate EndsWith(s: string, p: string) {
    |p| <= |s| && s[|s| - |p|..] == p
  }

  predicate SuffixMatch(key: string, name: string) {
    StripKind(key) == StripKind(name) || EndsWith(StripKind(key), "::" + StripKind(name))
  }

  predicate TemplateMatch(key: string, name: string) {
    '<' in StripKind(key) && Normalize(StripKind(key)) == Normalize(name)
  }

  // The size of the only match, if there is exactly one.
  function Sole(matches: set<string>, ir: map<string, nat>): Option<nat>
    requires matches <= ir.Keys
  {
    if |matches| == 1 then
      SoleIsUnique(matches);
      var k :| k in matches;
      Some(ir[k])
    else None
  }

  lemma SoleIsUnique(matches: set<string>)
    requires |matches| == 1
    ensures forall a, b :: a in matches && b in matches ==> a == b
  {
    forall a, b | a in matches && b in matches ensures a == b {
      var rest := matches - {a};
      assert |rest| == 0;
      assert b !in rest;
    }
  }

  function SuffixMatches(name: string, ir: map<string, nat>): set<string> {
    set k | k in ir && SuffixMatch(k, name)
  }

  function TemplateMatches(name: string, ir: map<string, nat>): set<string> {
    set k | k in ir && TemplateMatch(k, name)
  }

  // Exact name, then the only suffix match, then the only template match.
  function ResolveViaIr(name: string, ir: map<string, nat>): Option<nat> {
    if name in ir then Some(ir[name])
    else
      var bySuffix := Sole(SuffixMatches(name, ir), ir);
      if bySuffix.Some? then bySuffix
      else if '<' in name then Sole(TemplateMatches(name, ir), ir)
      else None
  }

  // s is the bare name b, or b under one of the three kinds.
  ghost predicate Named(s: string, b: string) {
    || s == "struct." + b || s == "class." + b || s == "union." + b
    || (s == b && !("struct." <= s) && !("class." <= s) && !("union." <= s))
  }

  lemma NamedIsStripped(s: string, b: string)
    ensures Named(s, b) <==> StripKind(s) == b
  {
    if s == "struct." + b { PrefixFirst("struct.", b, 's'); }
    if s == "class." + b { PrefixFirst("class.", b, 'c'); }
    if s == "union." + b { PrefixFirst("union.", b, 'u'); }
    if "struct." <= s { assert s == "struct." + s[7..]; }
    if "class." <= s { assert s == "class." + s[6..]; }
    if "union." <= s { assert s == "union." + s[6..]; }
  }

  lemma PrefixFirst(p: string, b: string, c: char)
    requires p != "" && p[0] == c
    ensures (p + b)[0] == c && p <= p + b && (p + b)[|p|..] == b
  {
  }

  // The second step's matches, read off the names: under any kinds, the bare name itself or
  // one in some namespace.
  ghost predicate InNamespace(key: string, name: string) {
    exists k, n, ns :: Named(key, k) && Named(name, n) && (k == n || k == ns + "::" + n)
  }

  lemma EndsBehind(k: string, p: string)
    ensures EndsWith(k, p) <==> exists front: string :: k == front + p
  {
    if EndsWith(k, p) { assert k == k[..|k| - |p|] + p; }
  }

  lemma SuffixMatchIff(key: string, name: string)
    ensures SuffixMatch(key, name) <==> InNamespace(key, name)
  {
    var k, n := StripKind(key), StripKind(name);
    forall b ensures Named(key, b) <==> b == k { NamedIsStripped(key, b); }
    forall b ensures Named(name, b) <==> b == n { NamedIsStripped(name, b); }
    EndsBehind(k, "::" + n);
    forall ns: string ensures ns + ("::" + n) == ns + "::" + n {}
    if SuffixMatch(key, name) {
      var ns: string := "";
      if k != n { ns :| k == ns + ("::" + n); }
      assert Named(key, k) && Named(name, n) && (k == n || k == ns + "::" + n);
    }
    if InNamespace(key, name) && k != n {
      var k', n', ns :| Named(key, k') && Named(name, n') && (k' == n' || k' == ns + "::" + n');
      assert k == ns + ("::" + n);
    }
  }

  // The third step's: a template whose arguments agree once they are normalised.
  ghost predicate SameTemplate(key: string, name: string) {
    exists k :: Named(key, k) && '<' in k && Normalize(k) == Normalize(name)
  }

  lemma TemplateMatchIff(key: string, name: string)
    ensures TemplateMatch(key, name) <==> SameTemplate(key, name)
  {
    NamedIsStripped(key, StripKind(key));
    if k :| Named(key, k) && '<' in k && Normalize(k) == Normalize(name) { NamedIsStripped(key, k); }
  }

  ghost predicate OnlyInNamespace(ir: map<string, nat>, name: string, key: string) {
    key in ir && InNamespace(key, name) && forall k :: k in ir && InNamespace(k, name) ==> k == key
  }

  ghost predicate OnlyTemplate(ir: map<string, nat>, name: string, key: string) {
    key in ir && SameTemplate(key, name) && forall k :: k in ir && SameTemplate(k, name) ==> k == key
  }

  lemma SoleIff(matches: set<string>, ir: map<string, nat>, n: nat)
    requires matches <= ir.Keys
    ensures Sole(matches, ir) == Some(n) <==>
      exists key :: key in matches && (forall k :: k in matches ==> k == key) && ir[key] == n
  {
    if |matches| == 1 {
      SoleIsUnique(matches);
      var x :| x in matches;
    }
    if key :| key in matches && forall k :: k in matches ==> k == key {
      assert matches == {key};
    }
  }

  lemma SoleSuffix(name: string, ir: map<string, nat>, n: nat)
    ensures Sole(SuffixMatches(name, ir), ir) == Some(n) <==>
      exists key :: OnlyInNamespace(ir, name, key) && ir[key] == n
  {
    var found := SuffixMatches(name, ir);
    forall k | k in ir ensures k in found <==> InNamespace(k, name) { SuffixMatchIff(k, name); }
    SoleIff(found, ir, n);
    forall key ensures OnlyInNamespace(ir, name, key) <==> key in found && forall k :: k in found ==> k == key {}
  }

  lemma SoleTemplate(name: string, ir: map<string, nat>, n: nat)
    ensures Sole(TemplateMatches(name, ir), ir) == Some(n) <==>
      exists key :: OnlyTemplate(ir, name, key) && ir[key] == n
  {
    var found := TemplateMatches(name, ir);
    forall k | k in ir ensures k in found <==> SameTemplate(k, name) { TemplateMatchIff(k, name); }
    SoleIff(found, ir, n);
    forall key ensures OnlyTemplate(ir, name, key) <==> key in found && forall k :: k in found ==> k == key {}
  }

  /** The whole lookup, read off the table: the entry of the name itself; for want of one the
      only entry that puts it in a namespace; for want of just one, and for a template, the only
      entry with the same normal form. */
  lemma ResolveIs(name: string, ir: map<string, nat>, n: nat)
    ensures ResolveViaIr(name, ir) == Some(n) <==>
      || (name in ir && ir[name] == n)
      || (name !in ir && exists key :: OnlyInNamespace(ir, name, key) && ir[key] == n)
      || (name !in ir && '<' in name && !(exists key :: OnlyInNamespace(ir, name, key)) &&
          exists key :: OnlyTemplate(ir, name, key) && ir[key] == n)
  {
    SoleSuffix(name, ir, n);
    SoleTemplate(name, ir, n);
    var bySuffix := Sole(SuffixMatches(name, ir), ir);
    if bySuffix.Some? { SoleSuffix(name, ir, bySuffix.value); }
    if key :| OnlyInNamespace(ir, name, key) { SoleSuffix(name, ir, ir[key]); }
  }

  /** The lookup's own comment promises no answer whenever some step is ambiguous. For a name
      with several suffix matches that holds exactly when the template step does not single
      out an entry: the code goes on to it. */
  lemma AmbiguousSuffixAnswered(name: string, ir: map<string, nat>)
    requires name !in ir && |SuffixMatches(name, ir)| > 1
    ensures ResolveViaIr(name, ir).None? <==> !('<' in name && |TemplateMatches(name, ir)| == 1)
  {
  }

  // A single template match is answered whatever the suffix step saw.
  lemma AnswerAmbiguous(c: string, name: string, ir: map<string, nat>)
    requires name !in ir && c in ir && |SuffixMatches(name, ir)| > 1
    requires '<' in name && TemplateMatches(name, ir) == {c}
    ensures ResolveViaIr(name, ir) == Some(ir[c])
  {
    SoleOne(c, ir);
  }

  lemma SoleOne(c: string, ir: map<string, nat>)
    requires c in ir
    ensures Sole({c}, ir) == Some(ir[c])
  {
    assert |{c}| == 1;
  }

  lemma TwoSuffixes(a: string, b: string, name: string, ir: map<string, nat>)
    requires a != b && a in ir && b in ir && SuffixMatch(a, name) && SuffixMatch(b, name)
    ensures |SuffixMatches(name, ir)| > 1
  {
    CardinalitySubset({a, b}, SuffixMatches(name, ir));
  }

  lemma OneTemplate(a: string, b: string, c: string, name: string, ir: map<string, nat>)
    requires ir.Keys == {a, b, c} && TemplateMatch(c, name) && !TemplateMatch(a, name) && !TemplateMatch(b, name)
    ensures TemplateMatches(name, ir) == {c}
  {
  }

  const SHORT := "o" + "<" + "T" + ">"

  // A name with two suffix matches that is answered all the same.
  lemma AmbiguousYetResolved() returns (ir: map<string, nat>)
    ensures SHORT !in ir && |SuffixMatches(SHORT, ir)| > 1 && ResolveViaIr(SHORT, ir) == Some(24)
  {
    var a := SuffixKey('A');
    var b := SuffixKey('B');
    var c := TemplateKey();
    ir := map[a := 8, b := 16, c := 24];
    DistinctKeys(a, b, c, ir);
    TwoSuffixes(a, b, SHORT, ir);
    OneTemplate(a, b, c, SHORT, ir);
    AnswerAmbiguous(c, SHORT, ir);
  }

  lemma DistinctKeys(a: string, b: string, c: string, ir: map<string, nat>)
    requires a != "" && b != "" && a[0] == 'A' && b[0] == 'B' && |c| == 7 && c[0] == 'o'
    requires ir == map[a := 8, b := 16, c := 24]
    ensures a != b && c != a && c != b && SHORT !in ir && ir.Keys == {a, b, c} && ir[c] == 24
  {
    assert |SHORT| == 4 && SHORT[0] == 'o';
  }

  // "X::o<T>" for the given X: a suffix match of "o<T>", but no template match.
  lemma SuffixKey(x: char) returns (key: string)
    requires x == 'A' || x == 'B'
    ensures '<' in SHORT && SHORT[0] == 'o' && key != "" && key[0] == x && key[1..] == "::" + SHORT
    ensures SuffixMatch(key, SHORT) && !TemplateMatch(key, SHORT)
  {
    key := [x] + ("::" + SHORT);
    assert SHORT[1] == '<' && key[4] == '<';
    SuffixOf(x, SHORT);
    SuffixNormal(x);
  }

  lemma SuffixOf(x: char, name: string)
    requires x != 's' && x != 'c' && x != 'u' && name != "" && name[0] == 'o'
    ensures var key := [x] + ("::" + name); key[1..] == "::" + name && StripKind(key) == key && SuffixMatch(key, name)
  {
    var key := [x] + ("::" + name);
    assert key[|key| - |"::" + name|..] == "::" + name;
    NotPrefixed(key);
    NotPrefixed(name);
  }

  lemma SuffixNormal(x: char)
    requires x == 'A' || x == 'B'
    ensures Normalize([x] + ("::" + SHORT)) != Normalize(SHORT)
  {
    var base := [x] + "::" + "o";
    assert base + "<" + "T" + ">" == [x] + ("::" + SHORT);
    UnqualifiedT();
    NormalizeOneLeaf(base, "T");
    NormalizeOneLeaf("o", "T");
    assert (base + "<" + "T" + ">")[0] == x && ("o" + "<" + "T" + ">")[0] == 'o';
  }

  lemma TemplateKey() returns (key: string)
    ensures |key| == 7 && key[0] == 'o' && TemplateMatch(key, SHORT)
  {
    key := "o" + "<" + "n::T" + ">";
    assert key[0] == 'o' && key[1] == '<';
    NotPrefixed(key);
    TemplateNormal();
  }

  lemma TemplateNormal()
    ensures Normalize("o" + "<" + "n::T" + ">") == Normalize(SHORT)
  {
    UnqualifiedT();
    NormalizeOneLeaf("o", "n::T");
    NormalizeOneLeaf("o", "T");
  }

  const NESTED := SHORT + "::it"
  const QUALIFIED := "o" + "<" + "n::T" + ">"

  // The size of `o<n::T>` is returned for `o<T>::it`, its nested type.
  lemma NestedTypeMistaken()
    ensures NESTED != QUALIFIED && ResolveViaIr(NESTED, map[QUALIFIED := 24]) == Some(24)
  {
    var ir := map[QUALIFIED := 24];
    assert |QUALIFIED| == 7 && QUALIFIED[0] == 'o' && QUALIFIED[1] == '<';
    assert |NESTED| == 8 && NESTED[0] == 'o' && NESTED[1] == '<';
    NotPrefixed(QUALIFIED);
    NotPrefixed(NESTED);
    TemplateNormal();
    NestedNormal();
    assert SuffixMatches(NESTED, ir) == {} && TemplateMatches(NESTED, ir) == {QUALIFIED};
    SoleOne(QUALIFIED, ir);
  }

  lemma NestedNormal()
    ensures Normalize(NESTED) == Normalize(SHORT)
  {
    var args := [Leaf("T")];
    assert forall a :: a in args ==> a == Leaf("T");
    OneLeaf("T");
    assert Print(Node("o", args)) == SHORT;
    NormalizeNode("o", args, "::it");
    NormalizeWhole("o", args);
  }

  lemma NotPrefixed(s: string)
    requires s != "" && s[0] != 's' && s[0] != 'c' && s[0] != 'u'
    ensures StripKind(s) == s
  {
    assert "struct."[0] == 's' && "class."[0] == 'c' && "union."[0] == 'u';
  }

  lemma CardinalitySubset(a: set<string>, b: set<string>)
    requires a <= b
    ensures |a| <= |b|
  {
    if a != {} {
      var x :| x in a;
      CardinalitySubset(a - {x}, b - {x});
    }
  }

  lemma UnqualifiedT()
    ensures LastComponent(Trim("T")) == "T" && LastComponent(Trim("n::T")) == "T"
  {
    assert "n::T"[1..] == "::T" && "::T"[1..] == ":T" && ":T"[1..] == "T" && "T"[1..] == "";
    assert RFind("T").None?;
    assert ":T"[1] != "::"[1];
    assert RFind(":T").None?;
    assert RFind("::T") == Some(0);
    assert RFind("n::T") == Some(1);
  }

  lemma NormalizeOneLeaf(b: string, n: string)
    requires Plain(b) && Plain(n)
    ensures Normalize(b + "<" + n + ">") == b + "<" + LastComponent(Trim(n)) + ">"
  {
    var args := [Leaf(n)];
    assert forall a :: a in args ==> a == Leaf(n);
    NormalizeWhole(b, args);
    OneLeaf(n);
    OneLeaf(LastComponent(Trim(n)));
    assert NormTrees(args) == [Leaf(LastComponent(Trim(n)))];
  }

  lemma OneLeaf(n: string)
    ensures PrintArgs([Leaf(n)]) == n
  {
  }
}
