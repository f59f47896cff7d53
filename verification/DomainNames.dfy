/**
Domain names in presentation form, as the DNS library splits them: a dot separates labels unless an
odd number of backslashes stands before it.
*/
module DomainNames {
  import opened Messages

  /** The length of the run of backslashes that ends just before position i. */
  function Backslashes(s: string, i: nat): nat
    requires i <= |s|
  {
    if i == 0 || s[i - 1] != '\\' then 0 else 1 + Backslashes(s, i - 1)
  }

  predicate Separates(s: string, i: nat)
    requires i < |s|
  {
    s[i] == '.' && Backslashes(s, i) % 2 == 0
  }

  predicate IsFqdn(s: string) {
    s != "" && Separates(s, |s| - 1)
  }

  function Fqdn(s: string): string {
    if IsFqdn(s) then s else s + "."
  }

  function UnFqdn(s: string): string {
    if IsFqdn(s) then s[..|s| - 1] else s
  }

  // ---------------------------------------------------------------- which dots separate

  function Slashes(k: nat): string {
    seq(k, _ => '\\')
  }

  predicate EndsInSlash(b: string) {
    b != "" && b[|b| - 1] == '\\'
  }

  lemma {:induction false} SlashesCounted(b: string, k: nat, rest: string)
    requires !EndsInSlash(b)
    ensures Backslashes(b + Slashes(k) + rest, |b| + k) == k
  {
    if k > 0 {
      assert b + Slashes(k) + rest == b + Slashes(k - 1) + (['\\'] + rest);
      SlashesCounted(b, k - 1, ['\\'] + rest);
    }
  }

  /** A dot separates labels exactly when an even number of backslashes stands before it. */
  lemma DotSeparatesIff(b: string, k: nat, rest: string)
    requires !EndsInSlash(b)
    ensures Separates(b + Slashes(k) + "." + rest, |b| + k) <==> k % 2 == 0
  {
    var s := b + Slashes(k) + "." + rest;
    SlashesCounted(b, k, "." + rest);
    assert s == b + Slashes(k) + ("." + rest);
    assert s[|b| + k] == '.';
  }

  /** UnFqdn drops one final dot, and only one that separates; Fqdn adds one where it is missing. */
  lemma FinalDot(b: string, k: nat)
    requires !EndsInSlash(b)
    ensures UnFqdn(b + Slashes(k) + ".") == if k % 2 == 0 then b + Slashes(k) else b + Slashes(k) + "."
    ensures Fqdn(b + Slashes(k) + ".") == if k % 2 == 0 then b + Slashes(k) + "." else b + Slashes(k) + ".."
    ensures !(b + Slashes(k) != "" && (b + Slashes(k))[|b| + k - 1] == '.') ==>
              UnFqdn(b + Slashes(k)) == b + Slashes(k) && Fqdn(b + Slashes(k)) == b + Slashes(k) + "."
  {
    var s := b + Slashes(k) + ".";
    DotSeparatesIff(b, k, "");
    assert s + "" == s && s[..|b| + k] == b + Slashes(k);
    assert s + "." == b + Slashes(k) + "..";
  }

  // ---------------------------------------------------------------- labels

  /** The start of the label after the one at off; a final dot starts no label. */
  function NextLabel(s: string, off: nat): Option<nat>
    decreases |s| - off
  {
    if off + 1 >= |s| then None
    else if Separates(s, off) then Some(off + 1)
    else NextLabel(s, off + 1)
  }

  lemma {:induction false} NextLabelSeparates(s: string, off: nat)
    requires NextLabel(s, off).Some?
    ensures var i := NextLabel(s, off).value; off < i < |s| && Separates(s, i - 1)
    decreases |s| - off
  {
    if !Separates(s, off) { NextLabelSeparates(s, off + 1); }
  }

  /** Starts of the labels from the one at off. */
  function Starts(s: string, off: nat): (starts: seq<nat>)
    ensures starts != [] && starts[0] == off
    decreases |s| - off
  {
    match NextLabel(s, off)
    case None => [off]
    case Some(i) => NextLabelSeparates(s, off); [off] + Starts(s, i)
  }

  function Split(s: string): seq<nat> {
    if s == "." then [] else Starts(s, 0)
  }

  /** parent in helper.go: the name without its first label, "" when there is at most one. */
  function Parent(name: string): string {
    var s := Fqdn(name);
    var i := Split(s);
    if |i| > 1 then SecondStart(s); s[i[1]..] else ""
  }

  lemma SecondStart(s: string)
    requires |Split(s)| > 1
    ensures NextLabel(s, 0).Some? && Split(s)[1] == NextLabel(s, 0).value
    ensures 0 < Split(s)[1] < |s|
  {
    NextLabelSeparates(s, 0);
  }

  // ---------------------------------------------------------------- cutting at a separator

  lemma {:induction false} BackslashesAfterCut(s: string, k: nat, i: nat)
    requires 0 < k <= i <= |s| && s[k - 1] == '.'
    ensures Backslashes(s[k..], i - k) == Backslashes(s, i)
  {
    if i > k { BackslashesAfterCut(s, k, i - 1); }
  }

  lemma SeparatesAfterCut(s: string, k: nat, i: nat)
    requires 0 < k <= i < |s| && s[k - 1] == '.'
    ensures Separates(s[k..], i - k) == Separates(s, i)
  {
    BackslashesAfterCut(s, k, i);
  }

  lemma {:induction false} NextLabelAfterCut(s: string, k: nat, off: nat)
    requires 0 < k <= off <= |s| && s[k - 1] == '.'
    ensures NextLabel(s, off) == match NextLabel(s[k..], off - k) case None => None case Some(i) => Some(i + k)
    decreases |s| - off
  {
    if off + 1 < |s| {
      SeparatesAfterCut(s, k, off);
      NextLabelAfterCut(s, k, off + 1);
    }
  }

  lemma {:induction false} StartsAfterCut(s: string, k: nat, off: nat)
    requires 0 < k <= off <= |s| && s[k - 1] == '.'
    ensures |Starts(s[k..], off - k)| == |Starts(s, off)|
    decreases |s| - off
  {
    NextLabelAfterCut(s, k, off);
    if NextLabel(s, off).Some? {
      NextLabelSeparates(s, off);
      StartsAfterCut(s, k, NextLabel(s, off).value);
    }
  }

  // ---------------------------------------------------------------- the parent of a name

  /** Fully qualified, at least one label, no empty label. */
  ghost predicate Proper(s: string) {
    && IsFqdn(s)
    && forall i :: 0 <= i < |s| && Separates(s, i) ==> 0 < i && !Separates(s, i - 1)
  }

  /** The parent of a proper name has exactly one label fewer and is proper; one label has no parent. */
  lemma ParentDropsOneLabel(s: string)
    requires Proper(s)
    ensures |Split(s)| >= 1
    ensures |Split(s)| == 1 ==> Parent(s) == ""
    ensures |Split(s)| > 1 ==> Proper(Parent(s)) && |Split(Parent(s))| == |Split(s)| - 1
  {
    assert s != ".";
    if |Split(s)| > 1 {
      SecondStart(s);
      NextLabelSeparates(s, 0);
      var k := Split(s)[1];
      var t := s[k..];
      forall i | 0 <= i < |t| ensures Separates(t, i) == Separates(s, i + k) {
        SeparatesAfterCut(s, k, i + k);
      }
      assert Proper(t);
      assert t != ".";
      StartsAfterCut(s, k, k);
    }
  }

  lemma {:induction false} NextLabelFirst(s: string, off: nat, i: nat)
    requires off < i < |s| && Separates(s, i - 1) && forall j :: off <= j < i - 1 ==> !Separates(s, j)
    ensures NextLabel(s, off) == Some(i)
    decreases |s| - off
  {
    if off < i - 1 { NextLabelFirst(s, off + 1, i); }
  }

  lemma {:induction false} NextLabelSkips(s: string, off: nat, j: nat)
    requires NextLabel(s, off).Some? && off <= j < NextLabel(s, off).value - 1
    ensures j < |s| && !Separates(s, j)
    decreases |s| - off
  {
    NextLabelSeparates(s, off);
    if off < j { NextLabelSkips(s, off + 1, j); }
  }

  /** The first separating dot of the name stands after first. */
  ghost predicate FirstLabel(first: string, rest: string) {
    var s := first + "." + rest;
    Separates(s, |first|) && forall i :: 0 <= i < |first| ==> !Separates(s, i)
  }

  /** parent cuts the first label and its dot, and nothing else. */
  lemma ParentCutsFirstLabel(first: string, rest: string)
    requires FirstLabel(first, rest) && IsFqdn(rest)
    ensures Parent(first + "." + rest) == rest
  {
    var s := first + "." + rest;
    var k := |first| + 1;
    assert s[k..] == rest && s[k - 1] == '.' && rest[|rest| - 1] == s[|s| - 1];
    SeparatesAfterCut(s, k, |s| - 1);
    NextLabelFirst(s, 0, k);
    ParentAtCut(s, k);
  }

  lemma ParentAtCut(s: string, k: nat)
    requires IsFqdn(s) && 1 <= k < |s| && NextLabel(s, 0) == Some(k)
    ensures Parent(s) == s[k..]
  {
    assert Split(s) == [0] + Starts(s, k);
  }

  /** The name is one label followed by an empty one. */
  ghost predicate EmptySecondLabel(s: string) {
    |s| >= 2 && Separates(s, |s| - 2) && forall j :: 0 <= j < |s| - 2 ==> !Separates(s, j)
  }

  /** The parent is the root exactly for names of one label followed by an empty one. */
  lemma ParentIsRootIff(name: string)
    ensures Parent(name) == "." <==> EmptySecondLabel(Fqdn(name))
  {
    var s := Fqdn(name);
    assert s[|s| - 1] == '.';
    if Parent(name) == "." {
      SecondStart(s);
      NextLabelSeparates(s, 0);
      assert Split(s)[1] == |s| - 1;
      forall j | 0 <= j < |s| - 2 ensures !Separates(s, j) {
        NextLabelSkips(s, 0, j);
      }
    }
    if EmptySecondLabel(s) {
      NextLabelFirst(s, 0, |s| - 1);
      assert Split(s) == [0] + Starts(s, |s| - 1);
      assert s[|s| - 1..] == ".";
    }
  }

  /**
  Whatever the name, the parent's fully qualified form is shorter, or as long and, unlike the
  original, really fully qualified; so walking up ends.
  */
  lemma ParentShrinks(name: string)
    requires Parent(name) != ""
    ensures IsFqdn(Fqdn(Parent(name)))
    ensures |Fqdn(Parent(name))| < |Fqdn(name)| || (|Fqdn(Parent(name))| == |Fqdn(name)| && !IsFqdn(Fqdn(name)))
  {
    var s := Fqdn(name);
    SecondStart(s);
    NextLabelSeparates(s, 0);
    var k := Split(s)[1];
    var t := s[k..];
    SeparatesAfterCut(s, k, |s| - 1);
    assert s[|s| - 1] == '.';
    if !IsFqdn(t) {
      assert (t + ".")[|t| - 1] == '.';
    }
  }
}
