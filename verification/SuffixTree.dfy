/**
The pointer tree of sfx_tree.go, proved against SuffixShape. The ghost map `at` names every
node; Valid says that no node is shared, that every key field and child pointer agrees with
the names, and that nothing else hangs in the tree.
*/
module SuffixTrees {
  import opened SuffixShape

  /** The last j labels of a name. */
  ghost function Tail(keys: Name, j: nat): (t: Name)
    requires j <= |keys|
    ensures |t| == j
  {
    keys[|keys| - j..]
  }

  class Node {
    var key: string
    var value: string
    var children: map<string, Node>
    ghost const name: Name

    constructor (key: string, ghost name: Name)
      ensures this.key == key && value == "" && children == map[] && this.name == name
    {
      this.key, this.name := key, name;
      value := "";
      children := map[];
    }
  }

  class SuffixTree {
    const root: Node
    ghost var at: map<Name, Node>

    ghost predicate Valid()
      reads this, at.Values
    {
      && [] in at && at[[]] == root && root.key == ""
      && (forall n {:trigger at[n]} :: n in at ==> at[n].name == n)
      && (forall n {:trigger at[n].key} :: n in at && n != [] ==> at[n].key == n[0])
      && (forall n {:trigger Parent(n)} :: n in at && n != [] ==>
            Parent(n) in at && n[0] in at[Parent(n)].children)
      && (forall n, k {:trigger k in at[n].children} :: n in at && k in at[n].children ==>
            Child(k, n) in at && at[n].children[k] == at[Child(k, n)])
    }

    /** The value of every node, by name. */
    ghost function Shape(): (sh: Shape)
      requires Valid()
      reads this, at.Values
      ensures Rooted(sh)
    {
      map n | n in at :: at[n].value
    }

    constructor ()
      ensures Valid() && fresh(at.Values)
      ensures Shape() == RunShape([])
    {
      root := new Node("", []);
      at := map[[] := root];
    }

    /** ensureSubTree on the node named n, and the step to the child. */
    method EnsureSubTree(node: Node, key: string, ghost n: Name) returns (child: Node)
      requires Valid() && n in at && at[n] == node
      modifies this, node
      ensures Valid() && forall n :: n in at && n !in old(at) ==> fresh(at[n])
      ensures forall x :: x in old(at) ==> x in at && at[x] == old(at[x])
      ensures Shape() == old(Shape()) + if Child(key, n) in old(Shape()) then map[] else map[Child(key, n) := ""]
      ensures Child(key, n) in at && child == at[Child(key, n)]
    {
      assert Parent(Child(key, n)) == n;
      if key !in node.children {
        var leaf := new Node(key, Child(key, n));
        AddLeaf(node, key, n, leaf);
      }
      child := node.children[key];
    }

    method AddLeaf(node: Node, key: string, ghost n: Name, leaf: Node)
      requires Valid() && n in at && at[n] == node && Child(key, n) !in at
      requires leaf !in at.Values && leaf.key == key && leaf.name == Child(key, n) && leaf.value == "" && leaf.children == map[]
      modifies this, node
      ensures Valid() && at == old(at)[Child(key, n) := leaf]
      ensures forall x :: x in old(at) ==> old(at)[x].value == old(at[x].value)
      ensures node.children == old(node.children)[key := leaf]
    {
      assert Parent(Child(key, n)) == n;
      forall x {:trigger Parent(x)} | x in at && x != [] ensures Parent(x) != Child(key, n) {
      }
      node.children := node.children[key := leaf];
      at := at[Child(key, n) := leaf];
    }

    method InsertDomain(keys: Name, value: string)
      requires Valid()
      modifies this, at.Values
      ensures Valid() && forall n :: n in at && n !in old(at) ==> fresh(at[n])
      ensures Shape() == Inserted(old(Shape()), keys, value)
      ensures forall n :: n in old(at) ==> n in at && at[n] == old(at[n])
    {
      ghost var before := Shape();
      var current := root;
      var i := |keys|;
      assert keys[i..] == [];
      while i > 0
        invariant 0 <= i <= |keys|
        invariant Valid() && forall n :: n in at && n !in old(at) ==> fresh(at[n])
        invariant keys[i..] in at && current == at[keys[i..]]
        invariant forall n :: n in old(at) ==> n in at && at[n] == old(at[n])
        invariant Shape() == Grown(before, keys[i..])
      {
        current := Descend(current, keys, i - 1, before);
        i := i - 1;
      }
      assert keys[0..] == keys;
      SetValue(current, keys, value);
    }

    /** The body of the insertion loop: from the node of the labels after i to the one from i on. */
    method Descend(node: Node, keys: Name, i: nat, ghost before: Shape) returns (child: Node)
      requires Valid() && i < |keys| && keys[i + 1..] in at && at[keys[i + 1..]] == node
      requires Shape() == Grown(before, keys[i + 1..])
      modifies this, node
      ensures Valid() && forall n :: n in at && n !in old(at) ==> fresh(at[n])
      ensures forall n :: n in old(at) ==> n in at && at[n] == old(at[n])
      ensures keys[i..] in at && child == at[keys[i..]]
      ensures Shape() == Grown(before, keys[i..])
    {
      assert keys[i..] == Child(keys[i], keys[i + 1..]);
      GrownStep(before, keys, i);
      child := EnsureSubTree(node, keys[i], keys[i + 1..]);
    }

    /** An assignment to the value field of the node named n. */
    method SetValue(node: Node, ghost n: Name, value: string)
      requires Valid() && n in at && at[n] == node
      modifies node
      ensures Valid() && at == old(at)
      ensures Shape() == old(Shape())[n := value]
    {
      node.value := value;
    }

    method SearchDomain(keys: Name) returns (value: string, found: bool)
      requires Valid()
      ensures value == Found(Shape(), keys) && found == (value != "")
    {
      var current := root;
      var best := "";
      var i := |keys|;
      ghost var sh := Shape();
      assert keys[i..] == [];
      while i > 0
        invariant 0 <= i <= |keys|
        invariant keys[i..] in at && current == at[keys[i..]]
        invariant best == LongestSuffixValue(Entries(sh), keys[i..])
      {
        i := i - 1;
        assert keys[i..] == Child(keys[i], keys[i + 1..]);
        assert Parent(keys[i..]) == keys[i + 1..];
        if keys[i] in current.children {
          current := current.children[keys[i]];
          if current.value != "" {
            best := current.value;
          }
        } else {
          MissingSkips(sh, keys, i + 1);
          return best, best != "";
        }
      }
      assert keys[0..] == keys;
      return current.value, current.value != "";
    }

    method Delete(keys: Name)
      requires Valid()
      modifies this, at.Values
      ensures Valid() && at.Values <= old(at.Values)
      ensures Shape() == Deleted(old(Shape()), keys)
      ensures forall n :: n in at ==> n in old(at) && at[n] == old(at[n])
    {
      var current := root;
      var path: seq<Node> := [];
      var i := |keys|;
      assert keys[i..] == [];
      while i > 0
        invariant 0 <= i <= |keys| && |path| == |keys| - i
        invariant keys[i..] in at && current == at[keys[i..]]
        invariant forall j :: 0 <= j < |path| ==> Tail(keys, j) in at && path[j] == at[Tail(keys, j)]
      {
        assert keys[i - 1..] == Child(keys[i - 1], keys[i..]) && Parent(keys[i - 1..]) == keys[i..];
        if keys[i - 1] !in current.children {
          MissingSkips(Shape(), keys, i);
          return;
        }
        assert Tail(keys, |path|) == keys[i..];
        path := path + [current];
        current := current.children[keys[i - 1]];
        i := i - 1;
      }
      assert keys[0..] == keys;
      SetValue(current, keys, "");
      Prune(keys, path);
    }

    /** The clean-up loop: path is indexed forward, keys backward. */
    method Prune(keys: Name, path: seq<Node>)
      requires Valid() && keys in at && |path| == |keys|
      requires forall j :: 0 <= j < |path| ==> Tail(keys, j) in at && path[j] == at[Tail(keys, j)]
      modifies this, at.Values
      ensures Valid() && at.Values <= old(at.Values)
      ensures Shape() == Pruned(old(Shape()), keys)
      ensures forall n :: n in at ==> n in old(at) && at[n] == old(at[n])
    {
      ghost var target := Pruned(Shape(), keys);
      var i := |path| - 1;
      assert Tail(keys, |keys|) == keys;
      while i >= 0
        invariant -1 <= i < |path|
        invariant Valid() && at.Values <= old(at.Values) && Tail(keys, i + 1) in at
        invariant Pruned(Shape(), Tail(keys, i + 1)) == target
        invariant forall n :: n in at ==> n in old(at) && at[n] == old(at[n])
      {
        assert Tail(keys, i + 1) == Child(keys[|keys| - 1 - i], Tail(keys, i));
        assert Parent(Tail(keys, i + 1)) == Tail(keys, i);
        var removed := PruneStep(path[i], keys[|keys| - 1 - i], Tail(keys, i));
        if !removed {
          return;
        }
        i := i - 1;
      }
    }

    /** One iteration: removes the child if it has neither value nor children. */
    method PruneStep(parent: Node, childKey: string, ghost p: Name) returns (removed: bool)
      requires Valid() && p in at && at[p] == parent && Child(childKey, p) in at
      modifies this, parent
      ensures Valid() && at.Values <= old(at.Values)
      ensures at == if removed then old(at) - {Child(childKey, p)} else old(at)
      ensures removed ==> Pruned(Shape(), p) == Pruned(old(Shape()), Child(childKey, p))
      ensures !removed ==> Shape() == old(Shape()) == Pruned(old(Shape()), Child(childKey, p))
    {
      ghost var c := Child(childKey, p);
      assert Parent(c) == p;
      var childNode := parent.children[childKey];
      if childNode.value == "" && |childNode.children| == 0 {
        forall k ensures Child(k, c) !in at {
          assert Parent(Child(k, c)) == c && Child(k, c)[0] == k;
        }
        RemoveLeaf(parent, childKey, p);
        removed := true;
      } else {
        if childNode.children != map[] {
          var k :| k in childNode.children;
          assert Child(k, c) in Shape();
        }
        removed := false;
      }
    }

    /** delete(parent.children, childKey) for a child without children. */
    method RemoveLeaf(parent: Node, childKey: string, ghost p: Name)
      requires Valid() && p in at && at[p] == parent && Child(childKey, p) in at
      requires !HasChild(Shape(), Child(childKey, p))
      modifies this, parent
      ensures Valid() && at == old(at) - {Child(childKey, p)}
      ensures Shape() == old(Shape()) - {Child(childKey, p)}
    {
      ghost var c := Child(childKey, p);
      assert Parent(c) == p && c != p && c[0] == childKey;
      parent.children := parent.children - {childKey};
      at := at - {c};
      forall x {:trigger Parent(x)} | x in at && x != []
        ensures Parent(x) in at && x[0] in at[Parent(x)].children
      {
        assert x == Child(x[0], Parent(x));
      }
      forall x, k {:trigger k in at[x].children} | x in at && k in at[x].children
        ensures Child(k, x) in at && at[x].children[k] == at[Child(k, x)]
      {
        assert k in old(at[x].children);
        assert Child(k, x)[0] == k && Child(k, x)[1..] == x;
      }
    }
  }
}
