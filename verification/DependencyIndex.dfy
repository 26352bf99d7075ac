/** The loops that read dependency lists off the members of every type slot. */
module DependencyIndex {
  import opened Collections
  import opened TypeTable
  import opened TypeGraph

  /** Follows derived records down to a builtin (handle zero) or a named type.
  The number of steps is bounded by the table, which is enough because every
  record refers to an earlier one. */
  method WalkToBase(table: seq<Record>, initial: nat) returns (found: bool, handle: nat)
    requires WellFormed(table)
    ensures found <==> IsRef(table, initial)
    ensures found ==> handle == Base(table, initial)
  {
    var current: nat := initial;
    for depth := 0 to |table|
      invariant IsRef(table, initial) <==> IsRef(table, current)
      invariant IsRef(table, initial) ==> Base(table, current) == Base(table, initial) && current + depth <= initial
    {
      if current == 0 || current >= |table| {
        return false, 0;
      }
      match table[current]
      case Builtin(_) => return true, 0;
      case Named(named) => return true, named;
      case Derived(key) => current := key.child;
    }
    assert !IsRef(table, initial);
    return false, 0;
  }

  /** The distinct named bases of a member list, in order of first mention. */
  method CollectDependencies(table: seq<Record>, members: seq<Member>) returns (valid: bool, output: seq<nat>)
    requires WellFormed(table)
    ensures valid <==> RefsValid(table, members)
    ensures valid ==> output == Bases(table, members)
    ensures valid ==> NoDuplicates(output) && SetOf(output) == Dependencies(table, members)
  {
    output := [];
    for i := 0 to |members|
      invariant RefsValid(table, members[..i]) && output == Bases(table, members[..i])
    {
      TakeNext(members, i);
      assert members[..i + 1][..i] == members[..i];
      var found, base := WalkToBase(table, members[i].ref);
      if !found {
        assert members[i] in members;
        return false, [];
      }
      if base != 0 {
        output := PushNew(output, base);
      }
    }
    TakeAll(members);
    valid := true;
  }

  /** A slot that the index builder accepts. */
  ghost predicate SlotIndexable(types: Types, members: seq<Member>, table: seq<Record>, handle: nat)
    requires WellFormed(table)
  {
    LiveSlot(types, handle) && types[handle - 1].value.kind.Aggregate? ==>
      && InArena(types[handle - 1].value.definition, members)
      && var own := Slice(types[handle - 1].value.definition, members);
      && RefsValid(table, own)
      && (forall m <- own :: Base(table, m.ref) <= |types|)
  }

  ghost function OwnMembers(types: Types, members: seq<Member>, handle: nat): seq<Member> {
    if LiveSlot(types, handle) && types[handle - 1].value.kind.Aggregate?
       && InArena(types[handle - 1].value.definition, members)
    then Slice(types[handle - 1].value.definition, members)
    else []
  }

  /** The list of one slot: the bases its members mention. */
  ghost function OwnBases(types: Types, members: seq<Member>, table: seq<Record>, handle: nat): seq<nat>
    requires WellFormed(table)
  {
    var own := OwnMembers(types, members, handle);
    if RefsValid(table, own) then Bases(table, own) else []
  }

  /** The slots below `n` that list `d`, in slot order. */
  function DependentsBelow(forward: seq<seq<nat>>, d: nat, n: nat): (r: seq<nat>)
    requires n <= |forward|
    ensures forall h: nat :: h in r <==> h < n && d in forward[h]
    ensures NoDuplicates(r)
  {
    if n == 0 then []
    else DependentsBelow(forward, d, n - 1) + if d in forward[n - 1] then [n - 1] else []
  }

  /** The builder's vectors after the slots below `next`. */
  ghost predicate BuiltBelow(types: Types, members: seq<Member>, table: seq<Record>, next: nat,
                             forward: seq<seq<nat>>, reverse: seq<seq<nat>>)
    requires WellFormed(table)
  {
    && |forward| == |reverse| == |types| + 1 && 1 <= next <= |types| + 1
    && (forall h: nat :: h < |forward| ==> forward[h] == if 1 <= h < next then OwnBases(types, members, table, h) else [])
    && (forall d: nat :: d < |reverse| ==> reverse[d] == DependentsBelow(forward, d, next))
  }

  /** Both vectors as the builder leaves them, list by list. */
  ghost predicate Built(types: Types, members: seq<Member>, table: seq<Record>, forward: seq<seq<nat>>,
                        reverse: seq<seq<nat>>)
    requires WellFormed(table)
  {
    BuiltBelow(types, members, table, |types| + 1, forward, reverse)
  }

  /** Exact dependency lists of every slot. */
  ghost predicate IndexedAll(types: Types, members: seq<Member>, table: seq<Record>, forward: seq<seq<nat>>,
                             reverse: seq<seq<nat>>)
    requires WellFormed(table)
  {
    && |forward| == |reverse| == |types| + 1
    && Inverse(|types|, forward, reverse)
    && (forall h: nat :: h > |types| || h == 0 ==> At(forward, h) == [])
    && (forall h :: 1 <= h <= |types| ==>
          && RefsValid(table, OwnMembers(types, members, h))
          && SetOf(At(forward, h)) == Dependencies(table, OwnMembers(types, members, h)))
  }

  lemma {:induction false} DependentsAgree(forward: seq<seq<nat>>, forward': seq<seq<nat>>, d: nat, n: nat)
    requires n <= |forward| && n <= |forward'| && forall h :: 0 <= h < n ==> forward[h] == forward'[h]
    ensures DependentsBelow(forward', d, n) == DependentsBelow(forward, d, n)
  {
    if n > 0 {
      DependentsAgree(forward, forward', d, n - 1);
    }
  }

  /** What the builder computes is exact for slots it accepts. */
  lemma BuiltIsIndexed(types: Types, members: seq<Member>, table: seq<Record>, forward: seq<seq<nat>>,
                       reverse: seq<seq<nat>>)
    requires WellFormed(table) && Built(types, members, table, forward, reverse)
    requires forall h :: SlotIndexable(types, members, table, h)
    ensures IndexedAll(types, members, table, forward, reverse)
  {
    hide DependentsBelow, WellFormed;
    forall h: nat
      ensures RefsValid(table, OwnMembers(types, members, h))
      ensures forall d <- At(forward, h) :: 1 <= h <= |types| && 1 <= d <= |types|
    {
      assert SlotIndexable(types, members, table, h);
      if 1 <= h <= |types| {
        BasesInRange(types, table, OwnMembers(types, members, h));
      }
    }
  }

  lemma BasesInRange(types: Types, table: seq<Record>, own: seq<Member>)
    requires WellFormed(table) && RefsValid(table, own) && forall m <- own :: Base(table, m.ref) <= |types|
    ensures forall d <- Bases(table, own) :: 1 <= d <= |types|
  {
    assert forall d <- Bases(table, own) :: d in SetOf(Bases(table, own));
  }

  /** Records one slot's dependency list and its reverse edges. */
  method AddSlot(count: nat, forward: seq<seq<nat>>, reverse: seq<seq<nat>>, handle: nat, dependencies: seq<nat>)
    returns (inRange: bool, forward': seq<seq<nat>>, reverse': seq<seq<nat>>)
    requires |forward| == |reverse| == count + 1 && 1 <= handle <= count && NoDuplicates(dependencies)
    ensures inRange <==> forall d <- dependencies :: d <= count
    ensures inRange ==>
              && forward' == forward[handle := dependencies] && |reverse'| == count + 1
              && forall d: nat :: d <= count ==> reverse'[d] == reverse[d] + if d in dependencies then [handle] else []
  {
    forward' := forward[handle := dependencies];
    reverse' := reverse;
    for i := 0 to |dependencies|
      invariant |reverse'| == count + 1
      invariant forall j :: 0 <= j < i ==> dependencies[j] <= count
      invariant forall d: nat :: d <= count ==> reverse'[d] == reverse[d] + if d in dependencies[..i] then [handle] else []
    {
      var dependency := dependencies[i];
      if dependency >= |reverse'| {
        assert dependency in dependencies;
        return false, forward', reverse';
      }
      TakeNext(dependencies, i);
      DistinctNext(dependencies, i);
      reverse' := reverse'[dependency := reverse'[dependency] + [handle]];
    }
    TakeAll(dependencies);
    inRange := true;
  }

  lemma BuiltStep(types: Types, members: seq<Member>, table: seq<Record>, raw: nat, forward: seq<seq<nat>>,
                  reverse: seq<seq<nat>>, dependencies: seq<nat>, reverse': seq<seq<nat>>)
    requires WellFormed(table) && 1 <= raw <= |types|
    requires BuiltBelow(types, members, table, raw, forward, reverse)
    requires dependencies == OwnBases(types, members, table, raw)
    requires |reverse'| == |types| + 1
    requires forall d: nat :: d <= |types| ==> reverse'[d] == reverse[d] + if d in dependencies then [raw] else []
    ensures BuiltBelow(types, members, table, raw + 1, forward[raw := dependencies], reverse')
  {
    hide OwnBases;
    var forward' := forward[raw := dependencies];
    forall d: nat | d <= |types|
      ensures reverse'[d] == DependentsBelow(forward', d, raw + 1)
    {
      DependentsAgree(forward, forward', d, raw);
    }
  }

  lemma InRangeIffIndexable(types: Types, table: seq<Record>, own: seq<Member>, dependencies: seq<nat>)
    requires WellFormed(table) && RefsValid(table, own)
    requires SetOf(dependencies) == Dependencies(table, own)
    ensures 0 !in dependencies
    ensures (forall d <- dependencies :: d <= |types|) <==> (forall m <- own :: Base(table, m.ref) <= |types|)
  {
    assert forall d :: d in dependencies <==> d in SetOf(dependencies);
    assert forall m <- own :: Base(table, m.ref) != 0 ==> Base(table, m.ref) in SetOf(dependencies);
  }

  /** One turn of the outer loop, for a live aggregate. */
  method IndexAggregate(types: Types, members: seq<Member>, table: seq<Record>, raw: nat,
                        forward: seq<seq<nat>>, reverse: seq<seq<nat>>)
    returns (valid: bool, forward': seq<seq<nat>>, reverse': seq<seq<nat>>)
    requires WellFormed(table) && LiveSlot(types, raw) && types[raw - 1].value.kind.Aggregate?
    requires BuiltBelow(types, members, table, raw, forward, reverse)
    ensures valid <==> SlotIndexable(types, members, table, raw)
    ensures valid ==> BuiltBelow(types, members, table, raw + 1, forward', reverse')
  {
    hide DependentsBelow;
    var definition := types[raw - 1].value.definition;
    if !InArena(definition, members) {
      return false, forward, reverse;
    }
    var own := Slice(definition, members);
    var refsValid, dependencies := CollectDependencies(table, own);
    if !refsValid {
      return false, forward, reverse;
    }
    InRangeIffIndexable(types, table, own, dependencies);
    valid, forward', reverse' := AddSlot(|types|, forward, reverse, raw, dependencies);
    if valid {
      BuiltStep(types, members, table, raw, forward, reverse, dependencies, reverse');
    }
  }

  /** graph::rebuild_dependency_index, and its twin over the detached storage of a rebuild. */
  method BuildDependencyIndex(types: Types, members: seq<Member>, table: seq<Record>)
    returns (valid: bool, forward: seq<seq<nat>>, reverse: seq<seq<nat>>)
    requires WellFormed(table)
    ensures valid <==> forall h :: SlotIndexable(types, members, table, h)
    ensures valid ==> Built(types, members, table, forward, reverse)
    ensures valid ==> IndexedAll(types, members, table, forward, reverse)
  {
    hide WellFormed, BuiltBelow, SlotIndexable, IndexedAll;
    forward := seq(|types| + 1, i => []);
    reverse := seq(|types| + 1, i => []);
    NothingBuilt(types, members, table, forward, reverse);
    for raw := 1 to |types| + 1
      invariant BuiltBelow(types, members, table, raw, forward, reverse)
      invariant forall h :: 1 <= h < raw ==> SlotIndexable(types, members, table, h)
    {
      if types[raw - 1].None? || !types[raw - 1].value.kind.Aggregate? {
        SkipSlot(types, members, table, raw, forward, reverse);
      }
      if types[raw - 1].Some? && types[raw - 1].value.kind.Aggregate? {
        valid, forward, reverse := IndexAggregate(types, members, table, raw, forward, reverse);
        if !valid {
          return false, [], [];
        }
      }
    }
    forall h: nat | h == 0 || h > |types|
      ensures SlotIndexable(types, members, table, h)
    {
      EmptySlotIndexable(types, members, table, h);
    }
    BuiltIsIndexed(types, members, table, forward, reverse);
    valid := true;
  }

  lemma NothingBuilt(types: Types, members: seq<Member>, table: seq<Record>, forward: seq<seq<nat>>,
                     reverse: seq<seq<nat>>)
    requires WellFormed(table) && |forward| == |reverse| == |types| + 1
    requires forall h: nat :: h <= |types| ==> forward[h] == [] && reverse[h] == []
    ensures BuiltBelow(types, members, table, 1, forward, reverse)
  {
    forall d: nat | d <= |types|
      ensures DependentsBelow(forward, d, 1) == []
    {
      assert DependentsBelow(forward, d, 0) == [];
    }
  }

  lemma {:induction false} SkipSlot(types: Types, members: seq<Member>, table: seq<Record>, raw: nat,
                 forward: seq<seq<nat>>, reverse: seq<seq<nat>>)
    requires WellFormed(table) && 1 <= raw <= |types|
    requires types[raw - 1].None? || !types[raw - 1].value.kind.Aggregate?
    requires BuiltBelow(types, members, table, raw, forward, reverse)
    ensures BuiltBelow(types, members, table, raw + 1, forward, reverse)
    ensures SlotIndexable(types, members, table, raw)
  {
    hide WellFormed, Slice, InArena;
    assert OwnMembers(types, members, raw) == [];
    assert OwnBases(types, members, table, raw) == [];
    assert forward[raw := []] == forward;
    BuiltStep(types, members, table, raw, forward, reverse, [], reverse);
  }

  lemma EmptySlotIndexable(types: Types, members: seq<Member>, table: seq<Record>, h: nat)
    requires WellFormed(table) && (h == 0 || h > |types|)
    ensures SlotIndexable(types, members, table, h)
  {
  }
}
