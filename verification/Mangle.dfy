/** The length-prefixed segment scanners for mangled names (src/mangle.rs). */
module Mangle {
  import opened Options
  import opened Text
  import opened Decimal

  // ---------------------------------------------------------------- the scanners

  function DigitRun(s: string): (n: nat)
    ensures n <= |s| && (s != "" && IsDigit(s[0]) ==> n > 0)
  {
    if s == "" || !IsDigit(s[0]) then 0 else 1 + DigitRun(s[1..])
  }

  // The declared length; zero when it does not fit a usize.
  function Length(digits: string): nat {
    var n := ParseUint(digits, USIZE_MAX);
    if n.Some? then n.value else 0
  }

  predicate StartsSegment(c: char) {
    IsAlpha(c) || c == '_'
  }

  // Past the underscore that ends a back-reference or disambiguator block.
  function AfterBlock(s: string): (r: string)
    ensures |r| <= |s|
  {
    if s == "" then "" else if s[0] == '_' then s[1..] else AfterBlock(s[1..])
  }

  // The number at the front: the segment it announces, if any, and how far it reaches.
  function Number(s: string): (r: (seq<string>, nat))
    requires s != "" && IsDigit(s[0])
    ensures 0 < r.1 <= |s|
  {
    var j := DigitRun(s);
    var len := Length(s[..j]);
    if len == 0 || j + len > |s| then ([], j)
    else (if StartsSegment(s[j]) then [s[j..j + len]] else [], j + len)
  }

  // The segments of the rest of a name; the v0 scanner also skips `B..._` and `s..._`.
  function Scan(v0: bool, s: string): seq<string>
    decreases |s|
  {
    if s == "" then []
    else if IsDigit(s[0]) then Number(s).0 + Scan(v0, s[Number(s).1..])
    else if v0 && (s[0] == 'B' || s[0] == 's') then Scan(v0, AfterBlock(s[1..]))
    else Scan(v0, s[1..])
  }

  method DigitsEnd(name: string, i: nat) returns (j: nat)
    requires i < |name| && IsDigit(name[i])
    ensures i < j <= |name| && j - i == DigitRun(name[i..])
  {
    j := i;
    while j < |name| && IsDigit(name[j])
      invariant i <= j <= |name|
      invariant DigitRun(name[i..]) == j - i + DigitRun(name[j..])
    {
      assert name[j..][1..] == name[j + 1..];
      j := j + 1;
    }
  }

  // Slicing the tail at i is slicing the whole.
  lemma SliceSlice(name: string, i: nat, n: nat, len: nat)
    requires i + n + len <= |name|
    ensures name[i..][..n] == name[i..i + n] && name[i..][n..n + len] == name[i + n..i + n + len]
  {
  }

  lemma TailTail(name: string, i: nat, next: nat)
    requires i <= next <= |name|
    ensures name[i..][next - i..] == name[next..]
  {
  }

  lemma OtherStep(v0: bool, name: string, i: nat)
    requires i < |name| && !IsDigit(name[i])
    ensures Scan(v0, name[i..]) ==
      if v0 && (name[i] == 'B' || name[i] == 's') then Scan(v0, AfterBlock(name[i + 1..])) else Scan(v0, name[i + 1..])
  {
    assert name[i..][1..] == name[i + 1..];
  }

  // The number at position i, and the position after it.
  method TakeNumber(name: string, i: nat) returns (seg: seq<string>, next: nat)
    requires i < |name| && IsDigit(name[i])
    ensures i < next <= |name| && Number(name[i..]) == (seg, next - i)
  {
    var j := DigitsEnd(name, i);
    var len := Length(name[i..j]);
    SliceSlice(name, i, j - i, 0);
    if len == 0 || j + len > |name| { return [], j; }
    SliceSlice(name, i, j - i, len);
    seg := if StartsSegment(name[j]) then [name[j..j + len]] else [];
    next := j + len;
  }

  lemma NumberStep(v0: bool, name: string, i: nat, seg: seq<string>, next: nat)
    requires i < next <= |name| && IsDigit(name[i]) && Number(name[i..]) == (seg, next - i)
    ensures Scan(v0, name[i..]) == seg + Scan(v0, name[next..])
  {
    TailTail(name, i, next);
  }

  ghost predicate ScannedTo(v0: bool, name: string, out: seq<string>, i: nat) {
    i <= |name| && out + Scan(v0, name[i..]) == Scan(v0, name)
  }

  lemma ScannedStart(v0: bool, name: string)
    ensures ScannedTo(v0, name, [], 0)
  {
    assert name[0..] == name;
  }

  lemma ScannedNext(v0: bool, name: string, out: seq<string>, i: nat, seg: seq<string>, next: nat)
    requires ScannedTo(v0, name, out, i) && next <= |name| && Scan(v0, name[i..]) == seg + Scan(v0, name[next..])
    ensures ScannedTo(v0, name, out + seg, next)
  {
  }

  method ExtractItaniumSegments(name: string) returns (out: seq<string>)
    ensures out == Scan(false, name)
  {
    out := [];
    var i := 0;
    ScannedStart(false, name);
    while i < |name|
      invariant ScannedTo(false, name, out, i)
      decreases |name| - i
    {
      var seg, next := [], i + 1;
      if IsDigit(name[i]) {
        seg, next := TakeNumber(name, i);
        NumberStep(false, name, i, seg, next);
      } else {
        OtherStep(false, name, i);
      }
      ScannedNext(false, name, out, i, seg, next);
      out, i := out + seg, next;
    }
  }

  method ExtractV0Segments(name: string) returns (out: seq<string>)
    ensures out == Scan(true, name)
  {
    out := [];
    var i := 0;
    ScannedStart(true, name);
    while i < |name|
      invariant ScannedTo(true, name, out, i)
      decreases |name| - i
    {
      var seg, next := [], i + 1;
      if IsDigit(name[i]) {
        seg, next := TakeNumber(name, i);
        NumberStep(true, name, i, seg, next);
      } else {
        OtherStep(true, name, i);
        if name[i] == 'B' || name[i] == 's' { next := BlockEnd(name, i + 1); }
      }
      ScannedNext(true, name, out, i, seg, next);
      out, i := out + seg, next;
    }
  }

  method BlockEnd(name: string, start: nat) returns (i: nat)
    requires start <= |name|
    ensures start <= i <= |name| && name[i..] == AfterBlock(name[start..])
  {
    i := start;
    while i < |name| && name[i] != '_'
      invariant start <= i <= |name|
      invariant AfterBlock(name[i..]) == AfterBlock(name[start..])
    {
      assert name[i..][1..] == name[i + 1..];
      i := i + 1;
    }
    if i < |name| {
      assert name[i..][1..] == name[i + 1..];
      i := i + 1;
    }
  }

  // ---------------------------------------------------------------- encoding

  // A mangled name is made of identifiers and the text between them.
  datatype Piece = Gap(text: string) | Ident(id: string)

  // Text the scanner passes over without taking anything from it: no digits outside the
  // v0 blocks, and every block closed.
  predicate IsGap(v0: bool, s: string)
    decreases |s|
  {
    if s == "" then true
    else if IsDigit(s[0]) then false
    else if v0 && (s[0] == 'B' || s[0] == 's') then '_' in s[1..] && IsGap(v0, AfterBlock(s[1..]))
    else IsGap(v0, s[1..])
  }

  // A nonempty identifier whose length is a usize. The v0 mangling inserts an underscore
  // before identifiers that start with a digit or an underscore; those are treated below.
  predicate IsIdent(v0: bool, id: string) {
    id != "" && |id| <= USIZE_MAX && (IsAlpha(id[0]) || (!v0 && id[0] == '_'))
  }

  predicate IsPiece(v0: bool, p: Piece) {
    match p
    case Gap(text) => IsGap(v0, text)
    case Ident(id) => IsIdent(v0, id)
  }

  function Encode(p: Piece): string {
    match p
    case Gap(text) => text
    case Ident(id) => Dec(|id|) + id
  }

  function Mangled(ps: seq<Piece>): string {
    if ps == [] then "" else Encode(ps[0]) + Mangled(ps[1..])
  }

  function Idents(ps: seq<Piece>): seq<string> {
    if ps == [] then [] else (if ps[0].Ident? then [ps[0].id] else []) + Idents(ps[1..])
  }

  lemma {:induction false} AfterBlockConcat(s: string, x: string)
    requires '_' in s
    ensures AfterBlock(s + x) == AfterBlock(s) + x
  {
    if s[0] == '_' {
      assert (s + x)[1..] == s[1..] + x;
    } else {
      assert s == [s[0]] + s[1..];
      assert (s + x)[1..] == s[1..] + x;
      AfterBlockConcat(s[1..], x);
    }
  }

  lemma {:induction false} ScanGap(v0: bool, s: string, x: string)
    requires IsGap(v0, s)
    ensures Scan(v0, s + x) == Scan(v0, x)
    decreases |s|
  {
    if s == "" {
      assert s + x == x;
    } else {
      assert (s + x)[1..] == s[1..] + x;
      if v0 && (s[0] == 'B' || s[0] == 's') {
        AfterBlockConcat(s[1..], x);
        ScanGap(v0, AfterBlock(s[1..]), x);
      } else {
        ScanGap(v0, s[1..], x);
      }
    }
  }

  lemma {:induction false} DigitRunIs(d: string, x: string)
    requires AllDigits(d) && (x == "" || !IsDigit(x[0]))
    ensures DigitRun(d + x) == |d|
  {
    if d == "" {
      assert d + x == x;
    } else {
      assert (d + x)[1..] == d[1..] + x;
      DigitRunIs(d[1..], x);
    }
  }

  // A length-prefixed block of text: taken if it starts like an identifier.
  lemma ScanBlock(v0: bool, id: string, x: string)
    requires id != "" && |id| <= USIZE_MAX && !IsDigit(id[0])
    ensures Scan(v0, Dec(|id|) + id + x) == (if StartsSegment(id[0]) then [id] else []) + Scan(v0, x)
  {
    var d := Dec(|id|);
    var s := d + id + x;
    NumberOfBlock(id, x);
    assert s[0] == d[0] && s[|d| + |id|..] == x;
  }

  lemma NumberOfBlock(id: string, x: string)
    requires id != "" && |id| <= USIZE_MAX && !IsDigit(id[0])
    ensures var d := Dec(|id|); Number(d + id + x) == (if StartsSegment(id[0]) then [id] else [], |d| + |id|)
  {
    var d := Dec(|id|);
    var s := d + id + x;
    BlockSlices(d, id, x);
    RunOfBlock(d, id, x);
    LengthOfDec(|id|);
  }

  lemma RunOfBlock(d: string, id: string, x: string)
    requires AllDigits(d) && id != "" && !IsDigit(id[0])
    ensures DigitRun(d + id + x) == |d|
  {
    DigitRunIs(d, id + x);
    assert d + id + x == d + (id + x);
  }

  lemma LengthOfDec(n: nat)
    requires n <= USIZE_MAX
    ensures Length(Dec(n)) == n
  {
    ParseOfDec(n, USIZE_MAX);
  }

  lemma BlockSlices(d: string, id: string, x: string)
    requires d != "" && id != ""
    ensures var s := d + id + x;
      s[0] == d[0] && s[..|d|] == d && s[|d|] == id[0] && s[|d|..|d| + |id|] == id
  {
  }

  /** Scanning a mangled name returns exactly its identifiers, in order. */
  lemma {:induction false} ScanMangled(v0: bool, ps: seq<Piece>)
    requires forall k :: 0 <= k < |ps| ==> IsPiece(v0, ps[k])
    ensures Scan(v0, Mangled(ps)) == Idents(ps)
  {
    if ps != [] {
      ScanMangled(v0, ps[1..]);
      var rest := Mangled(ps[1..]);
      match ps[0]
      case Gap(text) => ScanGap(v0, text, rest);
      case Ident(id) => ScanBlock(v0, id, rest);
    }
  }

  // ---------------------------------------------------------------- separated identifiers

  predicate IsIdentChar(c: char) {
    IsAlpha(c) || IsDigit(c) || c == '_'
  }

  // The v0 encoding of any identifier (Rust RFC 2603, undisambiguated-identifier).
  function EncodeV0(id: string): string
    requires id != ""
  {
    Dec(|id|) + (if IsAlpha(id[0]) then "" else "_") + id
  }

  lemma {:induction false} ShiftedSame(id: string)
    requires id != ""
    ensures "_" + id[..|id| - 1] == id <==> forall i :: 0 <= i < |id| ==> id[i] == '_'
  {
    var s := "_" + id[..|id| - 1];
    if s == id {
      var i := 0;
      while i < |id|
        invariant 0 <= i <= |id| && forall k :: 0 <= k < i ==> id[k] == '_'
      {
        assert id[i] == s[i];
        i := i + 1;
      }
    }
  }

  predicate AllUnderscores(id: string) {
    forall i :: 0 <= i < |id| ==> id[i] == '_'
  }

  // Any v0 identifier, and a name made of such identifiers and gaps.
  predicate IsIdentV0(id: string) {
    id != "" && |id| <= USIZE_MAX && forall i :: 0 <= i < |id| ==> IsIdentChar(id[i])
  }

  predicate IsPieceV0(p: Piece) {
    match p
    case Gap(text) => IsGap(true, text)
    case Ident(id) => IsIdentV0(id)
  }

  function MangledV0(ps: seq<Piece>): string
    requires forall k :: 0 <= k < |ps| ==> IsPieceV0(ps[k])
  {
    if ps == [] then ""
    else
      assert IsPieceV0(ps[0]);
      (if ps[0].Ident? then EncodeV0(ps[0].id) else ps[0].text) + MangledV0(ps[1..])
  }

  // The scanner takes the separator for the first character, and leaves the last one to be
  // scanned with the rest of the name.
  lemma ScanShifted(id: string, x: string)
    requires id != "" && |id| <= USIZE_MAX && !IsAlpha(id[0])
    ensures Scan(true, EncodeV0(id) + x) == ["_" + id[..|id| - 1]] + Scan(true, [id[|id| - 1]] + x)
  {
    var n := |id|;
    var seg, last := "_" + id[..n - 1], [id[n - 1]];
    assert EncodeV0(id) + x == Dec(n) + seg + (last + x);
    ScanBlock(true, seg, last + x);
  }

  lemma ScanPlain(id: string, x: string)
    requires id != "" && |id| <= USIZE_MAX && IsAlpha(id[0])
    ensures Scan(true, EncodeV0(id) + x) == [id] + Scan(true, x)
  {
    assert EncodeV0(id) + x == Dec(|id|) + id + x;
    ScanBlock(true, id, x);
  }

  // An identifier of underscores only is shifted onto itself, and the one left over is skipped.
  lemma ScanUnderscores(id: string, x: string)
    requires id != "" && |id| <= USIZE_MAX && AllUnderscores(id)
    ensures Scan(true, EncodeV0(id) + x) == [id] + Scan(true, x)
  {
    ScanShifted(id, x);
    ShiftedSame(id);
    assert "_"[1..] == "" && IsGap(true, "");
    ScanGap(true, "_", x);
    assert [id[|id| - 1]] == "_";
  }

  /** The v0 scanner does not know the separating underscore. It recovers the identifiers of a
      whole name exactly when each of them starts with a letter or is made of underscores only. */
  lemma {:induction false} ScanSeparated(ps: seq<Piece>)
    requires forall k :: 0 <= k < |ps| ==> IsPieceV0(ps[k])
    ensures Scan(true, MangledV0(ps)) == Idents(ps) <==>
      forall k :: 0 <= k < |ps| && ps[k].Ident? ==> IsAlpha(ps[k].id[0]) || AllUnderscores(ps[k].id)
  {
    if ps != [] {
      var rest := ps[1..];
      ScanSeparated(rest);
      assert forall k :: 0 < k < |ps| ==> ps[k] == rest[k - 1];
      var more := MangledV0(rest);
      match ps[0]
      case Gap(text) => ScanGap(true, text, more);
      case Ident(id) =>
        if IsAlpha(id[0]) {
          ScanPlain(id, more);
          ConsSame(id, Scan(true, more), Idents(rest));
        } else if AllUnderscores(id) {
          ScanUnderscores(id, more);
          ConsSame(id, Scan(true, more), Idents(rest));
        } else {
          ScanShifted(id, more);
          ShiftedSame(id);
          assert Scan(true, MangledV0(ps))[0] != Idents(ps)[0];
        }
    }
  }

  lemma ConsSame(id: string, a: seq<string>, b: seq<string>)
    ensures [id] + a == [id] + b <==> a == b
  {
    if [id] + a == [id] + b { assert ([id] + a)[1..] == ([id] + b)[1..]; }
  }

  // `2__15hello`: the character left over joins the next length, and an identifier that starts
  // with a letter is lost.
  lemma NextIdentifierLost()
    ensures Scan(true, EncodeV0("_1") + EncodeV0("hello")) == ["__"]
  {
    HelloEncoded();
    ScanShifted("_1", EncodeV0("hello"));
    LongNumber();
  }

  lemma HelloEncoded()
    ensures EncodeV0("hello") == "5hello" && ["_1"[1]] + "5hello" == "15hello" && "_" + "_1"[..1] == "__"
  {
    assert Dec(5) == "5" && "hello"[0] == 'h' && "_1"[..1] == "_";
  }

  lemma LongNumber()
    ensures Scan(true, "15hello") == []
  {
    var s := "15hello";
    assert s == Dec(15) + "hello" by { assert Dec(1) == "1" && Dec(15) == Dec(1) + "5"; }
    DigitRunIs(Dec(15), "hello");
    LengthOfDec(15);
    assert |Dec(15)| == 2 && s[..2] == Dec(15) && s[2..] == "hello";
    assert Number(s) == ([], 2);
    assert "hello"[1..] == "ello" && "ello"[1..] == "llo" && "llo"[1..] == "lo" && "lo"[1..] == "o" && "o"[1..] == "";
    assert IsGap(true, "o") && IsGap(true, "lo") && IsGap(true, "llo") && IsGap(true, "ello") && IsGap(true, "hello");
    ScanGap(true, "hello", "");
    assert "hello" + "" == "hello";
  }
}
