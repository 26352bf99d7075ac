/** Parser-visible interfaces of Sources.

An interface holds the bindings of one Source and refers to the interfaces of
its direct includes. Interfaces are immutable and refer only to older ones, so
what an interface makes visible is a finite tree.
 */
module InterfaceTrees {
  import opened Collections

  type Source = nat

  type Content = nat

  /** A scope and a name inside it. */
  datatype Key = Key(scope: string, name: string)

  type Local = map<Key, nat>

  /** The number of an interface object; objects are never reused. */
  type Ref = nat

  datatype Node = Node(local: Local, imports: seq<Ref>)

  datatype Tree = Tree(local: Local, imports: seq<Tree>)

  /** Interfaces refer to older interfaces only. */
  ghost predicate Grounded(objects: seq<Node>) {
    forall r: nat :: r < |objects| ==> forall i <- objects[r].imports :: i < r
  }

  /** What an interface makes visible. */
  function Unfold(objects: seq<Node>, ref: Ref): Tree
    requires Grounded(objects) && ref < |objects|
    decreases ref, 0
  {
    Tree(objects[ref].local, UnfoldAll(objects, ref, |objects[ref].imports|))
  }

  function UnfoldAll(objects: seq<Node>, ref: Ref, n: nat): (trees: seq<Tree>)
    requires Grounded(objects) && ref < |objects| && n <= |objects[ref].imports|
    ensures |trees| == n
    ensures forall i: nat :: i < n ==>
              objects[ref].imports[i] < ref && trees[i] == Unfold(objects, objects[ref].imports[i])
    decreases ref, 0, n
  {
    if n == 0 then []
    else
      assert objects[ref].imports[n - 1] in objects[ref].imports;
      UnfoldAll(objects, ref, n - 1) + [Unfold(objects, objects[ref].imports[n - 1])]
  }

  /** Appending objects changes nothing that was visible. */
  lemma {:induction false} UnfoldStable(objects: seq<Node>, longer: seq<Node>, ref: Ref)
    requires Grounded(objects) && Grounded(longer) && objects <= longer && ref < |objects|
    ensures Unfold(longer, ref) == Unfold(objects, ref)
    decreases ref
  {
    var imports := objects[ref].imports;
    forall i: nat | i < |imports|
      ensures UnfoldAll(longer, ref, |imports|)[i] == UnfoldAll(objects, ref, |imports|)[i]
    {
      assert imports[i] in imports;
      UnfoldStable(objects, longer, imports[i]);
    }
  }

  // ----- Recursive lookup -----

  /** The first binding in depth-first order: the own ones before those of the includes. */
  ghost function Lookup(tree: Tree, key: Key): Option<nat>
    decreases tree, 0
  {
    if key in tree.local then Some(tree.local[key]) else LookupIn(tree.imports, key)
  }

  ghost function LookupIn(trees: seq<Tree>, key: Key): Option<nat>
    decreases trees, 1
  {
    if trees == [] then None
    else if Lookup(trees[0], key).Some? then Lookup(trees[0], key)
    else LookupIn(trees[1..], key)
  }

  /** find_constant_recursive: terminates, and finds what the tree shows. */
  method FindRecursive(objects: seq<Node>, ref: Ref, key: Key) returns (found: Option<nat>)
    requires Grounded(objects) && ref < |objects|
    ensures found == Lookup(Unfold(objects, ref), key)
    decreases ref
  {
    var node := objects[ref];
    if key in node.local {
      return Some(node.local[key]);
    }
    ghost var trees := UnfoldAll(objects, ref, |node.imports|);
    assert trees[0..] == trees;
    for i := 0 to |node.imports|
      invariant LookupIn(trees, key) == LookupIn(trees[i..], key)
    {
      assert node.imports[i] in node.imports;
      found := FindRecursive(objects, node.imports[i], key);
      assert trees[i..][0] == trees[i] && trees[i..][1..] == trees[i + 1..];
      if found.Some? {
        return;
      }
    }
    assert trees[|trees|..] == [];
    return None;
  }

  /** One textual include: visible to what stands at or after the offset. */
  datatype Import = Import(visibleFrom: nat, ref: Ref)

  /** The trees of the includes that stand before `offset`. */
  ghost function VisibleTrees(objects: seq<Node>, imports: seq<Import>, offset: nat): seq<Tree>
    requires Grounded(objects) && forall i <- imports :: i.ref < |objects|
  {
    if imports == [] then []
    else
      var rest := VisibleTrees(objects, imports[1..], offset);
      if imports[0].visibleFrom <= offset then [Unfold(objects, imports[0].ref)] + rest else rest
  }

  /** find_constant_exact over the positional includes of one parser run. */
  method FindExact(objects: seq<Node>, imports: seq<Import>, key: Key, offset: nat) returns (found: Option<nat>)
    requires Grounded(objects) && forall i <- imports :: i.ref < |objects|
    ensures key.name == "" ==> found == None
    ensures key.name != "" ==> found == LookupIn(VisibleTrees(objects, imports, offset), key)
  {
    if key.name == "" {
      return None;
    }
    ghost var all := VisibleTrees(objects, imports, offset);
    assert imports[0..] == imports;
    for i := 0 to |imports|
      invariant LookupIn(all, key) == LookupIn(VisibleTrees(objects, imports[i..], offset), key)
    {
      assert imports[i..][0] == imports[i] && imports[i..][1..] == imports[i + 1..];
      assert imports[i] in imports;
      if imports[i].visibleFrom <= offset {
        found := FindRecursive(objects, imports[i].ref, key);
        ghost var rest := VisibleTrees(objects, imports[i + 1..], offset);
        assert ([Unfold(objects, imports[i].ref)] + rest)[1..] == rest;
        if found.Some? {
          return;
        }
      }
    }
    assert imports[|imports|..] == [];
    return None;
  }
}
