/** The functions of Go's strings package that the models need, on sequences of characters. */
module GoStrings {
  predicate HasPrefix(s: string, p: string) {
    p <= s
  }

  predicate HasSuffix(s: string, t: string) {
    |t| <= |s| && s[|s| - |t|..] == t
  }

  /** strings.ToLower restricted to the ASCII letters: 32 is the distance from 'A' to 'a'. */
  function LowerChar(c: char): (d: char)
    ensures d as int == if 65 <= c as int <= 90 then c as int + 32 else c as int
  {
    if 'A' <= c <= 'Z' then c - 'A' + 'a' else c
  }

  function Lower(s: string): (t: string)
    ensures |t| == |s| && forall i :: 0 <= i < |s| ==> t[i] == LowerChar(s[i])
  {
    seq(|s|, i requires 0 <= i < |s| => LowerChar(s[i]))
  }

  lemma LowerIdempotent(s: string)
    ensures Lower(Lower(s)) == Lower(s)
  {
  }

  /** White space in the Latin-1 range, which is what host files contain. */
  predicate IsSpace(c: char) {
    c in {' ', '\t', '\n', '\r', '\U{0B}', '\U{0C}', '\U{85}', '\U{A0}'}
  }

  function TrimLeft(s: string): string {
    if s != "" && IsSpace(s[0]) then TrimLeft(s[1..]) else s
  }

  function TrimRight(s: string): string {
    if s != "" && IsSpace(s[|s| - 1]) then TrimRight(s[..|s| - 1]) else s
  }

  function TrimSpace(s: string): string {
    TrimRight(TrimLeft(s))
  }

  /** strings.Trim(s, string(c)). */
  function TrimChar(s: string, c: char): string {
    if s != "" && s[0] == c then TrimChar(s[1..], c)
    else if s != "" && s[|s| - 1] == c then TrimChar(s[..|s| - 1], c)
    else s
  }

  function ReplaceChar(s: string, a: char, b: char): (t: string)
    ensures |t| == |s| && forall i :: 0 <= i < |s| ==> t[i] == if s[i] == a then b else s[i]
  {
    seq(|s|, i requires 0 <= i < |s| => if s[i] == a then b else s[i])
  }

  /** strings.Split on a one-character separator: always at least one part. */
  function Split(s: string, c: char): (parts: seq<string>)
    ensures parts != []
  {
    if s == "" then [""]
    else if s[0] == c then [""] + Split(s[1..], c)
    else var rest := Split(s[1..], c); [[s[0]] + rest[0]] + rest[1..]
  }

  function Join(parts: seq<string>, c: char): string
    requires parts != []
  {
    if |parts| == 1 then parts[0] else parts[0] + [c] + Join(parts[1..], c)
  }

  predicate AllSpace(s: string) {
    forall i :: 0 <= i < |s| ==> IsSpace(s[i])
  }

  predicate Trimmed(s: string) {
    s != "" ==> !IsSpace(s[0]) && !IsSpace(s[|s| - 1])
  }

  lemma {:induction false} TrimLeftCuts(s: string) returns (l: string)
    ensures AllSpace(l) && s == l + TrimLeft(s) && (TrimLeft(s) != "" ==> !IsSpace(TrimLeft(s)[0]))
  {
    if s != "" && IsSpace(s[0]) {
      l := TrimLeftCuts(s[1..]);
      l := [s[0]] + l;
    } else {
      l := "";
    }
  }

  lemma {:induction false} TrimRightCuts(s: string) returns (r: string)
    ensures AllSpace(r) && s == TrimRight(s) + r && (TrimRight(s) != "" ==> !IsSpace(TrimRight(s)[|TrimRight(s)| - 1]))
  {
    if s != "" && IsSpace(s[|s| - 1]) {
      r := TrimRightCuts(s[..|s| - 1]);
      r := r + [s[|s| - 1]];
    } else {
      r := "";
    }
  }

  /** Only white space is cut, and none is left at either end. */
  lemma TrimSpaceCuts(s: string) returns (l: string, r: string)
    ensures AllSpace(l) && AllSpace(r) && s == l + TrimSpace(s) + r && Trimmed(TrimSpace(s))
  {
    l := TrimLeftCuts(s);
    r := TrimRightCuts(TrimLeft(s));
    var t := TrimSpace(s);
    assert TrimLeft(s) == t + r;
    if t != "" { assert t[0] == TrimLeft(s)[0]; }
  }

  lemma {:induction false} TrimLeftSkips(l: string, t: string)
    requires AllSpace(l) && (t != "" ==> !IsSpace(t[0]))
    ensures TrimLeft(l + t) == t
  {
    if l == "" {
      assert l + t == t;
    } else {
      assert (l + t)[1..] == l[1..] + t;
      TrimLeftSkips(l[1..], t);
    }
  }

  lemma {:induction false} TrimRightSkips(t: string, r: string)
    requires AllSpace(r) && (t != "" ==> !IsSpace(t[|t| - 1]))
    ensures TrimRight(t + r) == t
  {
    if r == "" {
      assert t + r == t;
    } else {
      assert (t + r)[..|t + r| - 1] == t + r[..|r| - 1];
      TrimRightSkips(t, r[..|r| - 1]);
    }
  }

  /** There is only one way to do that. */
  lemma TrimSpaceUnique(l: string, t: string, r: string)
    requires AllSpace(l) && AllSpace(r) && t != "" && Trimmed(t)
    ensures TrimSpace(l + t + r) == t
  {
    assert l + t + r == l + (t + r);
    TrimLeftSkips(l, t + r);
    TrimRightSkips(t, r);
  }

  lemma {:induction false} TrimSubset(s: string, c: char)
    ensures c in TrimLeft(s) ==> c in s
    ensures c in TrimRight(s) ==> c in s
  {
    if s != "" {
      TrimSubset(s[1..], c);
      TrimRightSubset(s, c);
    }
  }

  lemma {:induction false} TrimRightSubset(s: string, c: char)
    ensures c in TrimRight(s) ==> c in s
  {
    if s != "" && IsSpace(s[|s| - 1]) { TrimRightSubset(s[..|s| - 1], c); }
  }

  lemma {:induction false} SplitConcat(a: string, b: string, c: char)
    ensures Split(a + [c] + b, c) == Split(a, c) + Split(b, c)
  {
    var s := a + [c] + b;
    if a == "" {
      assert s[1..] == b;
    } else {
      assert s[1..] == a[1..] + [c] + b;
      SplitConcat(a[1..], b, c);
    }
  }

  lemma {:induction false} JoinSplit(s: string, c: char)
    ensures Join(Split(s, c), c) == s
  {
    if s != "" {
      JoinSplit(s[1..], c);
      var rest := Split(s[1..], c);
      if s[0] == c {
        assert ([""] + rest)[1..] == rest;
      } else {
        var parts := [[s[0]] + rest[0]] + rest[1..];
        assert parts[1..] == rest[1..];
      }
    }
  }

  lemma {:induction false} JoinConcat(x: seq<string>, y: seq<string>, c: char)
    requires x != [] && y != []
    ensures Join(x + y, c) == Join(x, c) + [c] + Join(y, c)
  {
    assert (x + y)[1..] == x[1..] + y;
    if |x| > 1 {
      JoinConcat(x[1..], y, c);
      assert x[0] + [c] + (Join(x[1..], c) + [c] + Join(y, c)) == x[0] + [c] + Join(x[1..], c) + [c] + Join(y, c);
    }
  }

  lemma {:induction false} SplitFree(s: string, c: char, d: char)
    ensures forall i :: 0 <= i < |Split(s, c)| ==> c !in Split(s, c)[i]
    ensures forall i :: 0 <= i < |Split(s, c)| && d in Split(s, c)[i] ==> d in s
  {
    if s != "" { SplitFree(s[1..], c, d); }
  }

  lemma {:induction false} SplitWord(s: string, c: char)
    requires c !in s
    ensures Split(s, c) == [s]
  {
    if s != "" {
      SplitWord(s[1..], c);
      assert [s[0]] + s[1..] == s;
    }
  }

  /** Splitting undoes joining. */
  lemma {:induction false} SplitJoin(parts: seq<string>, c: char)
    requires parts != [] && forall i :: 0 <= i < |parts| ==> c !in parts[i]
    ensures Split(Join(parts, c), c) == parts
  {
    SplitWord(parts[0], c);
    if |parts| > 1 {
      SplitJoin(parts[1..], c);
      SplitConcat(parts[0], Join(parts[1..], c), c);
    }
  }

  lemma {:induction false} TrimCharRight(s: string, c: char)
    ensures TrimChar(s + [c], c) == TrimChar(s, c)
  {
    var t := s + [c];
    if s == "" {
      assert t[1..] == "";
    } else if s[0] == c {
      assert t[1..] == s[1..] + [c];
      TrimCharRight(s[1..], c);
    } else {
      assert t[..|t| - 1] == s;
    }
  }

  lemma {:induction false} JoinEnds(parts: seq<string>, c: char)
    requires parts != [] && parts[|parts| - 1] != ""
    ensures var s, last := Join(parts, c), parts[|parts| - 1]; s != "" && s[|s| - 1] == last[|last| - 1]
    ensures parts[0] != "" ==> Join(parts, c)[0] == parts[0][0]
  {
    if |parts| > 1 { JoinEnds(parts[1..], c); }
  }

  // ---------------------------------------------------------------- parts by position

  /** s[i..j] is a stretch between two separators, or between a separator and an end of s. */
  ghost predicate Part(s: string, c: char, i: int, j: int) {
    && 0 <= i <= j <= |s|
    && (forall k :: i <= k < j ==> s[k] != c)
    && (i == 0 || s[i - 1] == c)
    && (j == |s| || s[j] == c)
  }

  lemma {:induction false} SplitFirst(s: string, c: char)
    ensures var p := Split(s, c)[0]; Part(s, c, 0, |p|) && p == s[..|p|]
  {
    if s != "" && s[0] != c { SplitFirst(s[1..], c); }
  }

  lemma PartTail(s: string, c: char, i: int, j: int)
    requires s != ""
    ensures 1 < i || (i == 1 && s[0] == c) ==> (Part(s, c, i, j) <==> Part(s[1..], c, i - 1, j - 1))
  {
    if 1 < i {
      if Part(s, c, i, j) { assert s[1..][i - 2] == s[i - 1]; }
      if Part(s[1..], c, i - 1, j - 1) {
        forall k | i <= k < j ensures s[k] != c { assert s[1..][k - 1] == s[k]; }
      }
    } else if i == 1 && s[0] == c && Part(s[1..], c, 0, j - 1) {
      forall k | 1 <= k < j ensures s[k] != c { assert s[1..][k - 1] == s[k]; }
    }
  }

  lemma PartUnique(s: string, c: char, i: int, j: int, k: int)
    requires Part(s, c, i, j) && Part(s, c, i, k)
    ensures j == k
  {
  }

  lemma SliceOfTail(s: string, i: int, j: int)
    requires 1 <= i <= j <= |s|
    ensures s[1..][i - 1..j - 1] == s[i..j]
  {
    var a, b := s[1..][i - 1..j - 1], s[i..j];
    assert forall k :: 0 <= k < j - i ==> a[k] == s[1..][i - 1 + k] == s[i + k] == b[k];
  }

  /** Every stretch after the first separator is among the parts. */
  lemma {:induction false} SplitFinds(s: string, c: char, i: int, j: int)
    requires 0 < i && Part(s, c, i, j)
    ensures s[i..j] in Split(s, c)[1..]
  {
    PartTail(s, c, i, j);
    var rest := Split(s[1..], c);
    SliceOfTail(s, i, j);
    if i > 1 {
      SplitFinds(s[1..], c, i - 1, j - 1);
      assert s[0] == c ==> Split(s, c)[1..] == rest;
    } else {
      SplitFirst(s[1..], c);
      var p := rest[0];
      assert Split(s, c)[1..] == rest;
      PartUnique(s[1..], c, 0, |p|, j - 1);
    }
  }

  /** Every part after the first is such a stretch. */
  lemma {:induction false} SplitPart(s: string, c: char, n: nat) returns (i: int, j: int)
    requires 0 < n < |Split(s, c)|
    ensures 0 < i && Part(s, c, i, j) && s[i..j] == Split(s, c)[n]
  {
    var rest := Split(s[1..], c);
    if s[0] == c && n == 1 {
      SplitFirst(s[1..], c);
      i, j := 1, |rest[0]| + 1;
      PartTail(s, c, i, j);
    } else {
      var i', j' := SplitPart(s[1..], c, if s[0] == c then n - 1 else n);
      i, j := i' + 1, j' + 1;
      PartTail(s, c, i, j);
      SliceOfTail(s, i, j);
    }
  }
}
