/**
The value-level account of the label trie in sfx_tree.go.

A node is named by the labels that lead to it, written in query order, so the node
for "google.com" is ["google", "com"]; its parent is the name without the first label.
A shape records, for every node of the tree, the value it carries ("" for none).
*/
module SuffixShape {
  type Name = seq<string>
  type Shape = map<Name, string>
  type Table = map<Name, string>

  function Parent(n: Name): Name
    requires n != []
  {
    n[1..]
  }

  function Child(k: string, n: Name): Name {
    [k] + n
  }

  ghost predicate IsSuffix(a: Name, b: Name) {
    |a| <= |b| && b[|b| - |a|..] == a
  }

  function Suffixes(n: Name): set<Name> {
    set i | 0 <= i <= |n| :: n[i..]
  }

  /** The root exists and every node hangs below its parent. */
  ghost predicate Rooted(sh: Shape) {
    && [] in sh
    && forall n {:trigger Parent(n)} :: n in sh && n != [] ==> Parent(n) in sh
  }

  ghost predicate HasChild(sh: Shape, n: Name) {
    exists k :: Child(k, n) in sh
  }

  /** The table a tree stands for: the names that carry a value. */
  function Entries(sh: Shape): Table {
    map n | n in sh && sh[n] != "" :: sh[n]
  }

  ghost predicate NoEmptyValue(m: Table) {
    forall n :: n in m ==> m[n] != ""
  }

  /** The names of the nodes a minimal tree for table m needs: the root and all suffixes of stored names. */
  function Support(m: Table): set<Name> {
    {[]} + set s, i | s in m && 0 <= i <= |s| :: s[i..]
  }

  /** The minimal tree of a table. */
  function Canon(m: Table): Shape {
    map n | n in Support(m) :: if n in m then m[n] else ""
  }

  // ---------------------------------------------------------------- operations on shapes

  /** The tree with a node for every suffix of n, new nodes carrying no value. */
  function Grown(sh: Shape, n: Name): Shape {
    map x | x in sh.Keys + Suffixes(n) :: if x in sh then sh[x] else ""
  }

  function Inserted(sh: Shape, n: Name, v: string): Shape {
    Grown(sh, n)[n := v]
  }

  /** Removes n while it has neither value nor children, then its parent, and so on; the root stays. */
  ghost function Pruned(sh: Shape, n: Name): Shape
    requires n in sh && Rooted(sh)
    decreases |n|
  {
    if n != [] && sh[n] == "" && !HasChild(sh, n) then
      RootedWithoutLeaf(sh, n);
      Pruned(sh - {n}, Parent(n))
    else sh
  }

  ghost function Deleted(sh: Shape, n: Name): Shape
    requires Rooted(sh)
  {
    if n in sh then Pruned(sh[n := ""], n) else sh
  }

  /** The value of the longest stored non-empty suffix of n, "" if there is none. */
  function LongestSuffixValue(m: Table, n: Name): string {
    if n == [] then ""
    else if n in m then m[n]
    else LongestSuffixValue(m, n[1..])
  }

  /** What SearchDomain returns: the node's own value when the whole query has a node. */
  function Found(sh: Shape, n: Name): string {
    if n in sh then sh[n] else LongestSuffixValue(Entries(sh), n)
  }

  // ---------------------------------------------------------------- basic facts

  lemma RootedWithoutLeaf(sh: Shape, n: Name)
    requires Rooted(sh) && n in sh && n != [] && !HasChild(sh, n)
    ensures Rooted(sh - {n}) && Parent(n) in sh - {n}
  {
    forall x {:trigger Parent(x)} | x in sh - {n} && x != []
      ensures Parent(x) in sh - {n}
    {
      assert x == Child(x[0], Parent(x));
    }
    assert Parent(n) != n;
  }

  lemma {:induction false} RootedSuffix(sh: Shape, n: Name, i: nat)
    requires Rooted(sh) && n in sh && i <= |n|
    ensures n[i..] in sh
  {
    if i == 0 {
      assert n[0..] == n;
    } else {
      assert Parent(n)[i - 1..] == n[i..];
      RootedSuffix(sh, Parent(n), i - 1);
    }
  }

  lemma SupportIsSuffix(m: Table, n: Name)
    ensures n in Support(m) <==> n == [] || exists s :: s in m && IsSuffix(n, s)
  {
    if n in Support(m) && n != [] {
      var s, i :| s in m && 0 <= i <= |s| && n == s[i..];
      assert IsSuffix(n, s);
    }
    if s :| s in m && IsSuffix(n, s) {
      assert n == s[|s| - |n|..];
    }
  }

  lemma SupportClosed(m: Table, n: Name)
    requires n in Support(m) && n != []
    ensures Parent(n) in Support(m)
  {
    var s, i :| s in m && 0 <= i <= |s| && n == s[i..];
    assert Parent(n) == s[i + 1..];
  }

  lemma CanonRooted(m: Table)
    ensures Rooted(Canon(m))
  {
    forall n {:trigger Parent(n)} | n in Canon(m) && n != [] ensures Parent(n) in Canon(m) {
      SupportClosed(m, n);
    }
  }

  lemma StoredInSupport(m: Table, n: Name)
    requires n in m
    ensures n in Support(m)
  {
    assert n == n[0..];
  }

  /** A table is recovered from its tree, so different tables have different trees. */
  lemma CanonEntries(m: Table)
    requires NoEmptyValue(m)
    ensures Entries(Canon(m)) == m
  {
    forall n | n in m ensures n in Canon(m) {
      StoredInSupport(m, n);
    }
  }

  // ---------------------------------------------------------------- insertion and deletion refine the table

  lemma SuffixesStep(n: Name)
    requires n != []
    ensures Suffixes(n) == Suffixes(n[1..]) + {n}
  {
    forall x | x in Suffixes(n) ensures x in Suffixes(n[1..]) + {n} {
      var j :| 0 <= j <= |n| && x == n[j..];
      if j > 0 { assert x == n[1..][j - 1..]; }
    }
    forall x | x in Suffixes(n[1..]) ensures x in Suffixes(n) {
      var j :| 0 <= j <= |n[1..]| && x == n[1..][j..];
      assert x == n[j + 1..];
    }
    assert n == n[0..];
  }

  /** Growing for one more label adds at most the node of the longer name. */
  lemma GrownStep(sh: Shape, n: Name, i: nat)
    requires i < |n|
    ensures var g := Grown(sh, n[i + 1..]);
            Grown(sh, n[i..]) == g + if n[i..] in g then map[] else map[n[i..] := ""]
  {
    SuffixesStep(n[i..]);
    assert n[i..][1..] == n[i + 1..];
  }

  lemma SuffixesClosed(n: Name, x: Name)
    requires x in Suffixes(n) && x != []
    ensures Parent(x) in Suffixes(n)
  {
    var i :| 0 <= i <= |n| && x == n[i..];
    assert Parent(x) == n[i + 1..];
  }

  lemma InsertedRooted(sh: Shape, n: Name, v: string)
    requires Rooted(sh)
    ensures Rooted(Inserted(sh, n, v))
  {
    var t := Inserted(sh, n, v);
    assert n == n[0..];
    assert t.Keys == sh.Keys + Suffixes(n);
    forall x {:trigger Parent(x)} | x in t && x != [] ensures Parent(x) in t {
      if x !in sh { SuffixesClosed(n, x); }
    }
  }

  /** Insertion on any tree: the table maps n to v; storing "" amounts to removing n. */
  lemma InsertedEntries(sh: Shape, n: Name, v: string)
    ensures Entries(Inserted(sh, n, v)) == if v == "" then Entries(sh) - {n} else Entries(sh)[n := v]
  {
    assert n == n[0..];
    assert n in Suffixes(n);
  }

  lemma {:induction false} PrunedEntries(sh: Shape, n: Name)
    requires Rooted(sh) && n in sh
    ensures Rooted(Pruned(sh, n)) && Entries(Pruned(sh, n)) == Entries(sh)
    decreases |n|
  {
    if n != [] && sh[n] == "" && !HasChild(sh, n) {
      RootedWithoutLeaf(sh, n);
      PrunedEntries(sh - {n}, Parent(n));
      assert Entries(sh - {n}) == Entries(sh);
    }
  }

  /** Deletion on any tree: the table loses n and nothing else. */
  lemma DeletedEntries(sh: Shape, n: Name)
    requires Rooted(sh)
    ensures Rooted(Deleted(sh, n)) && Entries(Deleted(sh, n)) == Entries(sh) - {n}
  {
    if n in sh {
      ClearedEntries(sh, n);
      PrunedEntries(sh[n := ""], n);
    }
  }

  // ---------------------------------------------------------------- minimal trees stay minimal

  lemma SupportInsert(m: Table, n: Name, v: string)
    ensures Support(m[n := v]) == Support(m) + Suffixes(n)
  {
    var m' := m[n := v];
    forall x | x in Support(m') ensures x in Support(m) + Suffixes(n) {
      if x != [] {
        var s, i :| s in m' && 0 <= i <= |s| && x == s[i..];
        assert s == n || s in m;
      }
    }
    forall x | x in Suffixes(n) ensures x in Support(m') {
      var i :| 0 <= i <= |n| && x == n[i..];
      assert n in m';
    }
    forall x | x in Support(m) ensures x in Support(m') {
      if x != [] {
        var s, i :| s in m && 0 <= i <= |s| && x == s[i..];
        assert s in m';
      }
    }
  }

  /** Inserting into the minimal tree of m gives the minimal tree of the updated table. */
  lemma InsertedCanon(m: Table, n: Name, v: string)
    ensures Inserted(Canon(m), n, v) == Canon(m[n := v])
  {
    SupportInsert(m, n, v);
    assert n == n[0..];
    assert n in Suffixes(n);
    forall x | x in m ensures x in Canon(m) { StoredInSupport(m, x); }
  }

  /**
  Pruning from n, when every node that is not one of n's suffixes is supported by the table,
  removes precisely the unsupported nodes.
  */
  lemma {:induction false} PrunedCanon(sh: Shape, n: Name, m: Table)
    requires Rooted(sh) && n in sh && Entries(sh) == m
    requires forall x :: x in sh ==> x in Support(m) || IsSuffix(x, n)
    ensures Pruned(sh, n) == Canon(m)
    decreases |n|
  {
    if n != [] && sh[n] == "" && !HasChild(sh, n) {
      RootedWithoutLeaf(sh, n);
      var t := sh - {n};
      assert Entries(t) == m;
      forall x | x in t ensures x in Support(m) || IsSuffix(x, Parent(n)) {
        if x !in Support(m) {
          assert x != n && IsSuffix(x, n);
          assert |x| < |n|;
          assert Parent(n)[|Parent(n)| - |x|..] == n[|n| - |x|..];
        }
      }
      PrunedCanon(t, Parent(n), m);
    } else {
      if n != [] { LiveNodeSupported(sh, n, m); }
      forall x | x in sh ensures x in Support(m) {
        SupportIsSuffix(m, n);
        SupportIsSuffix(m, x);
        if x !in Support(m) {
          SuffixTransitiveInto(m, x, n);
        }
      }
      forall x | x in Support(m) ensures x in sh {
        if x != [] {
          var s, i :| s in m && 0 <= i <= |s| && x == s[i..];
          RootedSuffix(sh, s, i);
        }
      }
      assert sh == Canon(m);
    }
  }

  /** A node with a value or a child is supported when all non-suffix nodes are. */
  lemma LiveNodeSupported(sh: Shape, n: Name, m: Table)
    requires n in sh && Entries(sh) == m && n != []
    requires sh[n] != "" || HasChild(sh, n)
    requires forall x :: x in sh ==> x in Support(m) || IsSuffix(x, n)
    ensures n in Support(m)
  {
    if sh[n] != "" {
      StoredInSupport(m, n);
    } else {
      var k :| Child(k, n) in sh;
      var c := Child(k, n);
      assert !IsSuffix(c, n);
      SupportClosed(m, c);
      assert Parent(c) == n;
    }
  }

  lemma SuffixTransitiveInto(m: Table, x: Name, n: Name)
    requires IsSuffix(x, n) && n in Support(m)
    ensures x in Support(m)
  {
    if n != [] {
      var s, i :| s in m && 0 <= i <= |s| && n == s[i..];
      assert x == s[|s| - |x|..];
    }
  }

  lemma SupportAfterRemoval(m: Table, n: Name, x: Name)
    requires x in Support(m) || x == n
    ensures x in Support(m - {n}) || IsSuffix(x, n)
  {
    if x != [] && x != n {
      var s, i :| s in m && 0 <= i <= |s| && x == s[i..];
      if s == n { assert IsSuffix(x, n); } else { assert s in m - {n}; }
    }
  }

  lemma ClearedEntries(sh: Shape, n: Name)
    requires Rooted(sh) && n in sh
    ensures Rooted(sh[n := ""]) && Entries(sh[n := ""]) == Entries(sh) - {n}
  {
  }

  /** Deleting from the minimal tree of m gives the minimal tree of m without n. */
  lemma DeletedCanon(m: Table, n: Name)
    requires NoEmptyValue(m)
    ensures Rooted(Canon(m)) && Deleted(Canon(m), n) == Canon(m - {n})
  {
    CanonRooted(m);
    CanonEntries(m);
    var sh := Canon(m);
    if n in sh {
      var t := sh[n := ""];
      var m' := m - {n};
      ClearedEntries(sh, n);
      forall x | x in t ensures x in Support(m') || IsSuffix(x, n) {
        SupportAfterRemoval(m, n, x);
      }
      PrunedCanon(t, n, m');
    } else {
      assert n !in m by { if n in m { StoredInSupport(m, n); } }
      assert m - {n} == m;
    }
  }

  // ---------------------------------------------------------------- whole runs

  datatype Op = Insert(name: Name, value: string) | Delete(name: Name)

  ghost function ApplyShape(sh: Shape, op: Op): Shape
    requires Rooted(sh)
  {
    match op
    case Insert(n, v) => Inserted(sh, n, v)
    case Delete(n) => Deleted(sh, n)
  }

  function ApplyTable(m: Table, op: Op): Table {
    match op
    case Insert(n, v) => if v == "" then m - {n} else m[n := v]
    case Delete(n) => m - {n}
  }

  lemma ApplyRefines(sh: Shape, op: Op)
    requires Rooted(sh)
    ensures Rooted(ApplyShape(sh, op)) && Entries(ApplyShape(sh, op)) == ApplyTable(Entries(sh), op)
  {
    match op
    case Insert(n, v) => InsertedRooted(sh, n, v); InsertedEntries(sh, n, v);
    case Delete(n) => DeletedEntries(sh, n);
  }

  /** The tree after a run of operations, latest last, starting from newSuffixTreeRoot. */
  ghost function RunShape(ops: seq<Op>): (sh: Shape)
    ensures Rooted(sh)
  {
    if ops == [] then map[[] := ""]
    else
      var before := RunShape(ops[..|ops| - 1]);
      ApplyRefines(before, ops[|ops| - 1]);
      ApplyShape(before, ops[|ops| - 1])
  }

  function RunTable(ops: seq<Op>): Table {
    if ops == [] then map[] else ApplyTable(RunTable(ops[..|ops| - 1]), ops[|ops| - 1])
  }

  /** Every run whatsoever, empty values included, refines the run on tables. */
  lemma {:induction false} RunRefines(ops: seq<Op>)
    ensures Entries(RunShape(ops)) == RunTable(ops)
  {
    if ops != [] {
      RunRefines(ops[..|ops| - 1]);
      ApplyRefines(RunShape(ops[..|ops| - 1]), ops[|ops| - 1]);
    }
  }

  ghost predicate StoresNoEmpty(ops: seq<Op>) {
    forall i :: 0 <= i < |ops| && ops[i].Insert? ==> ops[i].value != ""
  }

  /** Every tree reachable without storing empty values is the minimal tree of its table. */
  lemma {:induction false} RunCanonical(ops: seq<Op>)
    requires StoresNoEmpty(ops)
    ensures RunShape(ops) == Canon(RunTable(ops)) && NoEmptyValue(RunTable(ops))
  {
    if ops != [] {
      var before := ops[..|ops| - 1];
      RunCanonical(before);
      var m := RunTable(before);
      match ops[|ops| - 1]
      case Insert(n, v) =>
        assert ops[|ops| - 1].value != "";
        InsertedCanon(m, n, v);
      case Delete(n) => DeletedCanon(m, n);
    }
  }

  /** In a minimal tree every node but the root has a value or a child. */
  lemma CanonMinimal(m: Table, n: Name)
    requires NoEmptyValue(m) && n in Canon(m) && n != []
    ensures Canon(m)[n] != "" || HasChild(Canon(m), n)
  {
    if n !in m {
      var s, i :| s in m && 0 <= i <= |s| && n == s[i..];
      assert s == s[0..];
      assert Child(s[i - 1], n) == s[i - 1..];
      assert Child(s[i - 1], n) in Canon(m);
    }
  }

  /** So no reachable tree has a useless node. */
  lemma RunMinimal(ops: seq<Op>, n: Name)
    requires StoresNoEmpty(ops) && n in RunShape(ops) && n != []
    ensures RunShape(ops)[n] != "" || HasChild(RunShape(ops), n)
  {
    RunCanonical(ops);
    CanonMinimal(RunTable(ops), n);
  }

  /** Trees reachable by different histories with the same table are identical. */
  lemma ShapeDeterminedByTable(a: seq<Op>, b: seq<Op>)
    requires StoresNoEmpty(a) && StoresNoEmpty(b) && RunTable(a) == RunTable(b)
    ensures RunShape(a) == RunShape(b)
  {
    RunCanonical(a);
    RunCanonical(b);
  }

  /** Inserting a name that stores nothing and deleting it again restores the tree exactly. */
  lemma InsertDeleteRestores(ops: seq<Op>, n: Name, v: string)
    requires StoresNoEmpty(ops) && v != "" && n !in RunTable(ops)
    ensures RunShape(ops + [Insert(n, v), Delete(n)]) == RunShape(ops)
  {
    var one := ops + [Insert(n, v)];
    RunTableSnoc(ops, Insert(n, v));
    RunTableSnoc(one, Delete(n));
    assert RunTable(one + [Delete(n)]) == RunTable(ops);
    ShapeDeterminedByTable(one + [Delete(n)], ops);
    assert ops + [Insert(n, v), Delete(n)] == one + [Delete(n)];
  }

  lemma RunTableSnoc(ops: seq<Op>, op: Op)
    ensures RunTable(ops + [op]) == ApplyTable(RunTable(ops), op)
  {
    assert (ops + [op])[..|ops|] == ops;
  }

  // ---------------------------------------------------------------- search

  /** No stored name supports a query whose node is missing, so longer suffixes cannot match. */
  lemma {:induction false} MissingSkips(sh: Shape, n: Name, i: nat)
    requires Rooted(sh) && 0 < i <= |n| && n[i - 1..] !in sh
    ensures LongestSuffixValue(Entries(sh), n) == LongestSuffixValue(Entries(sh), n[i..])
    ensures n !in sh
  {
    if n in sh { RootedSuffix(sh, n, i - 1); }
    if i == 1 {
      assert n[0..] == n;
    } else {
      assert n[1..][i - 2..] == n[i - 1..] && n[1..][i - 1..] == n[i..];
      MissingSkips(sh, n[1..], i - 1);
    }
  }

  lemma {:induction false} LongestFound(m: Table, n: Name, i: nat)
    requires NoEmptyValue(m) && i < |n| && n[i..] in m
    ensures LongestSuffixValue(m, n) != ""
  {
    assert n[0..] == n;
    if n !in m {
      assert n[1..][i - 1..] == n[i..];
      LongestFound(m, n[1..], i - 1);
    }
  }

  /** The longest stored suffix wins. */
  lemma {:induction false} LongestWins(m: Table, n: Name, i: nat)
    requires i < |n| && n[i..] in m && forall j :: 0 <= j < i ==> n[j..] !in m
    ensures LongestSuffixValue(m, n) == m[n[i..]]
  {
    assert n[0..] == n;
    if i > 0 {
      assert n[1..][i - 1..] == n[i..];
      forall j | 0 <= j < i - 1 ensures n[1..][j..] !in m {
        assert n[1..][j..] == n[j + 1..];
      }
      LongestWins(m, n[1..], i - 1);
    }
  }

  lemma {:induction false} LongestAbsent(m: Table, n: Name)
    requires forall i :: 0 <= i < |n| ==> n[i..] !in m
    ensures LongestSuffixValue(m, n) == ""
  {
    if n != [] {
      assert n == n[0..];
      forall i | 0 <= i < |n[1..]| ensures n[1..][i..] !in m {
        assert n[1..][i..] == n[i + 1..];
      }
      LongestAbsent(m, n[1..]);
    }
  }

  /** The query stores nothing, lies strictly inside a stored name, and a shorter suffix is stored. */
  ghost predicate Shadowed(m: Table, q: Name) {
    && q !in m
    && (exists s :: s in m && |q| < |s| && IsSuffix(q, s))
    && (exists i :: 1 <= i < |q| && q[i..] in m)
  }

  /**
  Search on a minimal tree is longest-suffix match on all non-empty queries except the shadowed
  ones, where it reports nothing although a stored suffix exists.
  */
  lemma SearchIsLongestSuffixUnlessShadowed(m: Table, q: Name)
    requires NoEmptyValue(m) && q != []
    ensures Found(Canon(m), q) == LongestSuffixValue(m, q) <==> !Shadowed(m, q)
    ensures Shadowed(m, q) ==> Found(Canon(m), q) == ""
  {
    CanonEntries(m);
    SupportIsSuffix(m, q);
    if q in Canon(m) && q !in m {
      assert Found(Canon(m), q) == "";
      var s :| s in m && IsSuffix(q, s);
      assert s[0..] == s;
      assert exists s :: s in m && |q| < |s| && IsSuffix(q, s);
      if i :| 1 <= i < |q| && q[i..] in m {
        LongestFound(m, q, i);
      } else {
        assert q == q[0..];
        LongestAbsent(m, q);
      }
    }
  }

  /** The same for every tree a run can build. */
  lemma ReachableSearch(ops: seq<Op>, q: Name)
    requires StoresNoEmpty(ops) && q != []
    ensures Found(RunShape(ops), q) == LongestSuffixValue(RunTable(ops), q) <==> !Shadowed(RunTable(ops), q)
    ensures Shadowed(RunTable(ops), q) ==> Found(RunShape(ops), q) == ""
  {
    RunCanonical(ops);
    SearchIsLongestSuffixUnlessShadowed(RunTable(ops), q);
  }

  /** "www.corp" is shadowed by a rule below it although "corp" has a rule of its own. */
  lemma ShadowedExample()
    ensures Shadowed(RunTable([Insert(["corp"], "10.0.0.1"), Insert(["a", "www", "corp"], "10.0.0.2")]), ["www", "corp"])
  {
    var ops := [Insert(["corp"], "10.0.0.1"), Insert(["a", "www", "corp"], "10.0.0.2")];
    assert ops[..1] == [Insert(["corp"], "10.0.0.1")];
    assert ops[..1][..0] == [];
    var m := map[["corp"] := "10.0.0.1", ["a", "www", "corp"] := "10.0.0.2"];
    assert RunTable(ops) == m;
    var q: Name := ["www", "corp"];
    var s: Name := ["a", "www", "corp"];
    assert s in m && IsSuffix(q, s) by { assert s[1..] == q; }
    assert q[1..] == ["corp"];
  }
}
