/** The canonical TypeRef table of a Graph generation.

A TypeRef is an index into one table of records. Entry zero is a sentinel, the
next twenty entries are the builtins, and every later entry is either a named
type (a generation-local type slot) or one modifier wrapped around an earlier
entry. The table is hash-consed through two lookup indexes. What an index
*means* is the tree obtained by unfolding it; hash-consing is correct when two
valid indexes are equal exactly when their trees are equal.
 */
module TypeTable {

  // builtin_type::void_type is 19, so the table starts with 1 + 20 entries.
  const BUILTIN_COUNT: nat := 20
  const PREFIX_SIZE: nat := BUILTIN_COUNT + 1
  const MAX_U32: nat := 0xFFFF_FFFF

  type BuiltinCode = code: nat | code < BUILTIN_COUNT

  datatype DerivedKind = Pointer | Array | LvalueReference | RvalueReference

  datatype DerivedKey = DerivedKey(kind: DerivedKind, child: nat, payload: nat)

  datatype Record =
    | Builtin(code: nat)
    | Named(handle: nat)
    | Derived(key: DerivedKey)

  /** The structural type a TypeRef stands for. */
  datatype Tree =
    | BuiltinTree(code: nat)
    | NamedTree(handle: nat)
    | DerivedTree(kind: DerivedKind, payload: nat, child: Tree)

  /** Only arrays carry a payload, and an array extent is never zero. */
  predicate PayloadFits(kind: DerivedKind, payload: nat) {
    kind.Array? <==> payload != 0
  }

  predicate RecordFits(record: Record, position: nat) {
    match record
    case Builtin(_) => false
    case Named(handle) => handle != 0
    case Derived(key) => 0 < key.child < position && PayloadFits(key.kind, key.payload)
  }

  ghost predicate HasPrefix(table: seq<Record>) {
    && |table| >= PREFIX_SIZE && table[0] == Builtin(BUILTIN_COUNT - 1)
    && (forall i :: 1 <= i < PREFIX_SIZE ==> table[i] == Builtin(i - 1))
  }

  ghost predicate WellFormed(table: seq<Record>) {
    && HasPrefix(table)
    && (forall i :: PREFIX_SIZE <= i < |table| ==> RecordFits(table[i], i))
  }

  predicate IsRef(table: seq<Record>, ref: nat) {
    0 < ref < |table|
  }

  function Meaning(table: seq<Record>, ref: nat): (tree: Tree)
    requires WellFormed(table) && IsRef(table, ref)
    decreases ref
  {
    match table[ref]
    case Builtin(code) => BuiltinTree(code)
    case Named(handle) => NamedTree(handle)
    case Derived(key) => DerivedTree(key.kind, key.payload, Meaning(table, key.child))
  }

  /** The named type at the bottom of a tree, or zero over a builtin. */
  function TreeBase(tree: Tree): nat {
    match tree
    case BuiltinTree(_) => 0
    case NamedTree(handle) => handle
    case DerivedTree(_, _, child) => TreeBase(child)
  }

  function Base(table: seq<Record>, ref: nat): nat
    requires WellFormed(table) && IsRef(table, ref)
    decreases ref
  {
    match table[ref]
    case Builtin(_) => 0
    case Named(handle) => handle
    case Derived(key) => Base(table, key.child)
  }

  /** The lookup indexes hold exactly the named and derived records at or after `from`. */
  ghost predicate Indexed(table: seq<Record>, from: nat, named: map<nat, nat>, derived: map<DerivedKey, nat>) {
    && (forall h <- named :: from <= named[h] < |table| && table[named[h]] == Named(h))
    && (forall k <- derived :: from <= derived[k] < |table| && table[derived[k]] == Derived(k))
    && (forall r :: from <= r < |table| && table[r].Named? ==>
          table[r].handle in named && named[table[r].handle] == r)
    && (forall r :: from <= r < |table| && table[r].Derived? ==>
          table[r].key in derived && derived[table[r].key] == r)
  }

  /** A valid TypeRef is canonical: it is the only index with its meaning. */
  ghost predicate Canonical(table: seq<Record>)
    requires WellFormed(table)
  {
    forall a, b :: IsRef(table, a) && IsRef(table, b) ==>
      (Meaning(table, a) == Meaning(table, b) <==> a == b)
  }

  lemma {:induction false} SameMeaningSameRef(table: seq<Record>, named: map<nat, nat>, derived: map<DerivedKey, nat>,
                                              a: nat, b: nat)
    requires WellFormed(table) && Indexed(table, PREFIX_SIZE, named, derived)
    requires IsRef(table, a) && IsRef(table, b)
    requires Meaning(table, a) == Meaning(table, b)
    ensures a == b
    decreases a
  {
    match table[a]
    case Builtin(_) =>
    case Named(_) =>
    case Derived(key) =>
      SameMeaningSameRef(table, named, derived, key.child, table[b].key.child);
  }

  lemma IndexedIsCanonical(table: seq<Record>, named: map<nat, nat>, derived: map<DerivedKey, nat>)
    requires WellFormed(table) && Indexed(table, PREFIX_SIZE, named, derived)
    ensures Canonical(table)
  {
    forall a, b | IsRef(table, a) && IsRef(table, b) && Meaning(table, a) == Meaning(table, b)
      ensures a == b
    {
      SameMeaningSameRef(table, named, derived, a, b);
    }
  }

  lemma {:induction false} BaseOfMeaning(table: seq<Record>, ref: nat)
    requires WellFormed(table) && IsRef(table, ref)
    ensures Base(table, ref) == TreeBase(Meaning(table, ref))
    decreases ref
  {
    if table[ref].Derived? {
      BaseOfMeaning(table, table[ref].key.child);
    }
  }

  /** Appending records never changes what an existing TypeRef means. */
  lemma {:induction false} MeaningStable(table: seq<Record>, longer: seq<Record>, ref: nat)
    requires WellFormed(table) && WellFormed(longer) && table <= longer
    requires IsRef(table, ref)
    ensures Meaning(longer, ref) == Meaning(table, ref)
    ensures Base(longer, ref) == Base(table, ref)
    decreases ref
  {
    if table[ref].Derived? {
      MeaningStable(table, longer, table[ref].key.child);
    }
  }

  /** Every handle a TypeRef can reach is the handle of some named record. */
  lemma {:induction false} BaseIsNamed(table: seq<Record>, ref: nat)
    requires WellFormed(table) && IsRef(table, ref)
    ensures Base(table, ref) != 0 ==>
              exists r: nat :: IsRef(table, r) && table[r] == Named(Base(table, ref))
    decreases ref
  {
    if table[ref].Derived? {
      BaseIsNamed(table, table[ref].key.child);
    } else if table[ref].Named? {
      assert IsRef(table, ref) && table[ref] == Named(Base(table, ref));
    }
  }

  // ----- The initial table -----

  function InitialTable(): (table: seq<Record>)
    ensures |table| == PREFIX_SIZE && WellFormed(table)
    ensures Indexed(table, PREFIX_SIZE, map[], map[])
  {
    [Builtin(BUILTIN_COUNT - 1)] + seq(BUILTIN_COUNT, i requires 0 <= i => Builtin(i))
  }

  /** Reading the dense `named_type_refs` vector as a map from handle to TypeRef. */
  function NamedMap(refs: seq<nat>): (named: map<nat, nat>)
    ensures forall h: nat :: h in named <==> (h < |refs| && refs[h] != 0)
    ensures forall h <- named :: named[h] == refs[h]
  {
    map h: nat | h < |refs| && refs[h] != 0 :: refs[h]
  }

  // ----- Modifier lists -----

  datatype Modifier = Modifier(kind: DerivedKind, payload: nat)

  /** The tree denoted by a base wrapped in modifiers, innermost first. */
  function Wrap(base: Tree, modifiers: seq<Modifier>): Tree
    decreases |modifiers|
  {
    if modifiers == [] then base
    else
      var last := modifiers[|modifiers| - 1];
      DerivedTree(last.kind, last.payload, Wrap(base, modifiers[..|modifiers| - 1]))
  }

  lemma WrapOneMore(base: Tree, modifiers: seq<Modifier>, from: nat, to: nat)
    requires from <= to < |modifiers|
    ensures Wrap(base, modifiers[from..to + 1])
         == DerivedTree(modifiers[to].kind, modifiers[to].payload, Wrap(base, modifiers[from..to]))
  {
    var slice := modifiers[from..to + 1];
    assert slice[..|slice| - 1] == modifiers[from..to];
  }

  lemma {:induction false} WrapKeepsBase(base: Tree, modifiers: seq<Modifier>)
    ensures TreeBase(Wrap(base, modifiers)) == TreeBase(base)
    decreases |modifiers|
  {
    if modifiers != [] {
      WrapKeepsBase(base, modifiers[..|modifiers| - 1]);
    }
  }
}
