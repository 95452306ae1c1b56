/** String operations the text-level passes and parsers share. Characters outside ASCII are
    ordinary, non-blank characters. */
module Text {
  import opened Options

  predicate IsSpace(c: char) {
    c == ' ' || c == '\t' || c == '\n' || c == '\r' || c == '\U{0b}' || c == '\U{0c}'
  }

  predicate IsDigit(c: char) {
    '0' <= c <= '9'
  }

  predicate IsAlpha(c: char) {
    'a' <= c <= 'z' || 'A' <= c <= 'Z'
  }

  function TrimStart(s: string): string {
    if s != "" && IsSpace(s[0]) then TrimStart(s[1..]) else s
  }

  function TrimEnd(s: string): string {
    if s != "" && IsSpace(s[|s| - 1]) then TrimEnd(s[..|s| - 1]) else s
  }

  function Trim(s: string): string {
    TrimEnd(TrimStart(s))
  }

  predicate OccursAt(s: string, p: string, i: int) {
    0 <= i <= |s| && p <= s[i..]
  }

  predicate Contains(s: string, p: string) {
    exists i :: 0 <= i <= |s| && OccursAt(s, p, i)
  }

  // The first occurrence, if any.
  function Find(s: string, p: string): (r: Option<nat>)
    ensures r.Some? ==> r.value + |p| <= |s|
  {
    if p <= s then Some(0) else if s == "" then None else Later(Find(s[1..], p), 1)
  }

  function Later(r: Option<nat>, n: nat): Option<nat> {
    if r.None? then None else Some(r.value + n)
  }

  lemma {:induction false} FindIsFirst(s: string, p: string)
    ensures var r := Find(s, p);
      && (r.Some? ==> OccursAt(s, p, r.value) && forall i :: 0 <= i < r.value ==> !OccursAt(s, p, i))
      && (r.None? ==> !Contains(s, p))
  {
    assert s[0..] == s;
    if !(p <= s) && s != "" {
      FindIsFirst(s[1..], p);
      forall i | 0 < i <= |s| ensures OccursAt(s, p, i) == OccursAt(s[1..], p, i - 1) { OccursTail(s, p, i); }
    }
  }

  lemma OccursTail(s: string, p: string, i: nat)
    requires 0 < i <= |s|
    ensures OccursAt(s, p, i) == OccursAt(s[1..], p, i - 1)
  {
    assert s[i..] == s[1..][i - 1..];
  }

  function Join(parts: seq<string>, sep: string): string {
    if parts == [] then ""
    else if |parts| == 1 then parts[0]
    else parts[0] + sep + Join(parts[1..], sep)
  }

  function Concat(parts: seq<string>): string {
    if parts == [] then "" else parts[0] + Concat(parts[1..])
  }

  lemma Regroup(x: string, y: string, z: string)
    ensures x + (y + z) == (x + y) + z
  {
  }

  lemma {:induction false} ConcatAppend(a: seq<string>, b: seq<string>)
    ensures Concat(a + b) == Concat(a) + Concat(b)
  {
    if a == [] {
      assert a + b == b;
    } else {
      ConcatAppend(a[1..], b);
      assert (a + b)[1..] == a[1..] + b;
      Regroup(a[0], Concat(a[1..]), Concat(b));
    }
  }

  // ---------------------------------------------------------------- trimming

  predicate Trimmed(s: string) {
    s != "" ==> !IsSpace(s[0]) && !IsSpace(s[|s| - 1])
  }

  lemma TrimTrimmed(s: string)
    requires Trimmed(s)
    ensures Trim(s) == s
  {
  }

  // Trimming shortens, and text it does not shorten it does not change.
  lemma {:induction false} TrimShrinks(s: string)
    ensures |TrimEnd(s)| <= |s| && |TrimStart(s)| <= |s| && |Trim(s)| <= |s|
    ensures |TrimStart(s)| == |s| ==> TrimStart(s) == s
    ensures |TrimEnd(s)| == |s| ==> TrimEnd(s) == s
    ensures |Trim(s)| == |s| ==> Trim(s) == s
    decreases |s|
  {
    if s != "" {
      TrimShrinks(s[1..]);
      TrimShrinks(s[..|s| - 1]);
      if IsSpace(s[0]) { assert TrimStart(s) == TrimStart(s[1..]); } else { assert TrimStart(s) == s; }
      if |TrimStart(s)| < |s| { TrimShrinks(TrimStart(s)); }
    }
  }

  lemma {:induction false} TrimStartConcat(p: string, x: string)
    ensures TrimStart(p + x) == if TrimStart(p) == "" then TrimStart(x) else TrimStart(p) + x
  {
    if p == "" {
      assert p + x == x;
    } else if IsSpace(p[0]) {
      TrimStartConcat(p[1..], x);
      assert (p + x)[1..] == p[1..] + x;
    }
  }

  lemma TrimBefore(c: char, s: string)
    requires IsSpace(c)
    ensures Trim([c] + s) == Trim(s)
  {
    assert ([c] + s)[1..] == s;
  }

  lemma TrimAfter(s: string, c: char)
    requires IsSpace(c)
    ensures Trim(s + [c]) == Trim(s)
  {
    TrimStartConcat(s, [c]);
    assert [c][1..] == "";
    var t := TrimStart(s);
    if t != "" { assert (t + [c])[..|t|] == t; }
  }

  lemma {:induction false} TrimStartTwice(s: string)
    ensures TrimStart(TrimStart(s)) == TrimStart(s)
    ensures TrimStart(s) == "" || !IsSpace(TrimStart(s)[0])
  {
    if s != "" && IsSpace(s[0]) { TrimStartTwice(s[1..]); }
  }

  lemma {:induction false} TrimEndTwice(s: string)
    ensures TrimEnd(TrimEnd(s)) == TrimEnd(s)
    ensures TrimEnd(s) == "" || !IsSpace(TrimEnd(s)[|TrimEnd(s)| - 1])
    decreases |s|
  {
    if s != "" && IsSpace(s[|s| - 1]) { TrimEndTwice(s[..|s| - 1]); }
  }

  // ---------------------------------------------------------------- splitting

  // Put text in front of the first piece.
  function Prepend(p: string, parts: seq<string>): seq<string>
    requires parts != []
  {
    [p + parts[0]] + parts[1..]
  }

  lemma PrependTwice(p: string, q: string, parts: seq<string>)
    requires parts != []
    ensures Prepend(p, Prepend(q, parts)) == Prepend(p + q, parts)
  {
    assert p + (q + parts[0]) == (p + q) + parts[0];
  }

  lemma PrependNothing(parts: seq<string>)
    requires parts != []
    ensures Prepend("", parts) == parts
  {
    assert "" + parts[0] == parts[0];
  }

  // split(','): never empty.
  function SplitComma(s: string): (parts: seq<string>)
    ensures parts != [] && forall i :: 0 <= i < |parts| ==> |parts[i]| <= |s|
  {
    if s == "" then [""]
    else if s[0] == ',' then [""] + SplitComma(s[1..])
    else Prepend([s[0]], SplitComma(s[1..]))
  }

  lemma {:induction false} SplitCommaPiece(p: string, x: string)
    requires ',' !in p
    ensures SplitComma(p + x) == Prepend(p, SplitComma(x))
  {
    if p == "" {
      assert p + x == x;
      PrependNothing(SplitComma(x));
    } else {
      assert (p + x)[1..] == p[1..] + x;
      SplitCommaPiece(p[1..], x);
      PrependTwice([p[0]], p[1..], SplitComma(x));
      assert [p[0]] + p[1..] == p;
    }
  }

  // ---------------------------------------------------------------- searching

  lemma FindStep(c: char, s: string, p: string)
    requires !(p <= [c] + s)
    ensures Find([c] + s, p) == Later(Find(s, p), 1)
  {
    assert ([c] + s)[1..] == s;
  }

  lemma OtherFirst(c: char, s: string, p: string)
    requires p != "" && p[0] != c
    ensures !(p <= [c] + s)
  {
    assert ([c] + s)[0] == c;
  }

  // Text without the pattern's first character is passed over.
  lemma {:induction false} FindSkip(u: string, s: string, p: string)
    requires p != "" && p[0] !in u
    ensures Find(u + s, p) == Later(Find(s, p), |u|)
  {
    if u == "" {
      assert u + s == s;
    } else {
      var c, v := u[0], u[1..];
      FindSkip(v, s, p);
      OtherFirst(c, v + s, p);
      FindStep(c, v + s, p);
      assert u + s == [c] + (v + s);
    }
  }

  // The first occurrence is at the first place its first character appears.
  lemma FindFirst(x: string, p: string, y: string)
    requires p != "" && p[0] !in x
    ensures Find(x + p + y, p) == Some(|x|)
  {
    assert x + p + y == x + (p + y);
    FindSkip(x, p + y, p);
  }

  // An occurrence with none before it is the first.
  lemma FindAt(s: string, p: string, n: nat)
    requires n <= |s| && OccursAt(s, p, n) && forall i :: 0 <= i < n ==> !OccursAt(s, p, i)
    ensures Find(s, p) == Some(n)
  {
    FindIsFirst(s, p);
    assert Contains(s, p);
    assert OccursAt(s, p, Find(s, p).value);
  }

  lemma FindChar(x: string, c: char, y: string)
    requires c !in x
    ensures Find(x + [c] + y, [c]) == Some(|x|)
  {
    FindFirst(x, [c], y);
  }

  // No occurrence where the pattern's first character is absent.
  lemma {:induction false} FindAbsent(s: string, p: string)
    requires p != "" && p[0] !in s
    ensures Find(s, p).None?
  {
    if s != "" {
      assert s == [s[0]] + s[1..];
      FindAbsent(s[1..], p);
    }
  }

  // The last occurrence, if any.
  function FindLast(s: string, p: string): (r: Option<nat>)
    ensures r.Some? ==> OccursAt(s, p, r.value) && forall i :: r.value < i <= |s| ==> !OccursAt(s, p, i)
    ensures r.None? ==> !Contains(s, p)
  {
    assert s[0..] == s;
    if s == "" then if p == "" then Some(0) else None
    else
      var r := FindLast(s[1..], p);
      assert forall i :: 0 < i <= |s| ==> s[i..] == s[1..][i - 1..];
      assert forall i :: 0 < i <= |s| ==> OccursAt(s, p, i) == OccursAt(s[1..], p, i - 1);
      if r.Some? then Some(r.value + 1) else if p <= s then Some(0) else None
  }

  lemma LastOnly(x: string, p: string, y: string)
    requires p != "" && p[0] !in p[1..] && p[0] !in y
    ensures FindLast(x + p + y, p) == Some(|x|)
  {
    var s := x + p + y;
    assert s[|x|..] == p + y && OccursAt(s, p, |x|);
    forall k | |x| < k <= |s| ensures !OccursAt(s, p, k) {
      if k < |s| {
        assert s[k] == (p[1..] + y)[k - |x| - 1];
        assert s[k..][0] == s[k];
      }
    }
  }
}
