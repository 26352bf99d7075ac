/** The committed Graph and one isolated candidate mutation of it.

`Graph` owns the committed type storage; `GraphUpdate` overlays touched slots,
validates them, prepares publication and publishes or cancels. Every path that
can fail runs before `PublishPrepared`, which only writes.
 */
module GraphUpdates {
  import opened Collections
  import opened TypeTable
  import opened TypeGraph
  import opened GraphCandidate
  import opened GraphHistory
  import opened DependencyIndex
  import C = CompiledState

  datatype Status = Success | InvalidState | ConfigurationFailed | InitializationFailed

  class Graph {
    var types: Types
    var memberRecords: seq<Member>
    var enumValueRecords: seq<EnumValue>
    var canonicalTypes: seq<Record>
    var namedTypeRefs: seq<nat>
    var derivedTypeIndex: map<DerivedKey, nat>
    var typeDependencies: seq<seq<nat>>
    var reverseTypeDependents: seq<seq<nat>>

    ghost function Snapshot(): Store
      reads this
    {
      Store(types, memberRecords, enumValueRecords, canonicalTypes, namedTypeRefs, derivedTypeIndex,
            typeDependencies, reverseTypeDependents)
    }

    ghost predicate Valid()
      reads this
    {
      Snapshot().Valid()
    }

    lemma StoreFields()
      ensures Snapshot() == Store(types, memberRecords, enumValueRecords, canonicalTypes, namedTypeRefs, derivedTypeIndex,
                                  typeDependencies, reverseTypeDependents)
    {
    }

    lemma ValidFrom()
      requires Snapshot().Valid()
      ensures Valid()
    {
    }

    constructor ()
      ensures Valid() && Snapshot() == EmptyStore()
    {
      types, memberRecords, enumValueRecords := [], [], [];
      canonicalTypes := InitialTable();
      namedTypeRefs, derivedTypeIndex := [], map[];
      typeDependencies, reverseTypeDependents := [], [];
    }

    /** swap_compiled: another Graph's tables take the place of these. */
    method Swap(imported: Store)
      modifies this
      ensures Snapshot() == imported
    {
      types, memberRecords, enumValueRecords := imported.types, imported.members, imported.values;
      canonicalTypes, namedTypeRefs, derivedTypeIndex := imported.table, imported.namedRefs, imported.derivedIndex;
      typeDependencies, reverseTypeDependents := imported.forward, imported.reverse;
    }
  }

  /** The stage at which an allocation fails while owner storage grows, if any. */
  datatype GrowthStage = GrowTypes | GrowNamedRefs | GrowForward | GrowReverse | NoFailure

  /** The publication list of new named TypeRefs holds exactly the lookup index. */
  ghost predicate PairsMatch(pairs: seq<(nat, nat)>, index: map<nat, nat>) {
    && (forall i :: 0 <= i < |pairs| ==> pairs[i].0 in index && index[pairs[i].0] == pairs[i].1)
    && (forall h <- index :: (h, index[h]) in pairs)
  }

  lemma PairsMatchAppend(pairs: seq<(nat, nat)>, index: map<nat, nat>, handle: nat, ref: nat)
    requires PairsMatch(pairs, index) && handle !in index
    ensures PairsMatch(pairs + [(handle, ref)], index[handle := ref])
  {
    assert (handle, ref) == (pairs + [(handle, ref)])[|pairs|];
  }

  class GraphUpdate {
    const graph: Graph
    const full: bool

    var changes: Changes
    var changedTypes: seq<nat>
    var nextTypeSlot: nat
    var entityTypes: map<nat, nat>

    var addedTypes: seq<Record>
    var addedNamedRefs: seq<(nat, nat)>
    var addedNamed: map<nat, nat>
    var addedDerived: map<DerivedKey, nat>

    var failure: Status
    var prepared: bool
    var committed: bool

    var preparedForward: map<nat, seq<nat>>
    var preparedReverse: map<nat, seq<nat>>
    var preparedTypesSize: nat
    var preparedNamedSize: nat
    var preparedForwardSize: nat
    var preparedReverseSize: nat
    var preparedOwnerGrowth: bool

    var rebuiltTable: seq<Record>
    var rebuiltNamed: seq<nat>
    var rebuiltDerived: map<DerivedKey, nat>
    var remap: seq<nat>
    /** The complete detached storage that a rebuild swaps in. */
    var rebuilt: Store

    /** The committed Store this update started from. */
    ghost const base: Store

    /** The replaced slots of a rebuild, with members in the new table. */
    ghost var carriedChanges: Changes

    ghost function Overlay(): Candidate
      reads `changes, `changedTypes, `nextTypeSlot, `addedTypes, `addedNamed, `addedDerived
    {
      Candidate(full, changes, changedTypes, nextTypeSlot, addedTypes, addedNamed, addedDerived)
    }

    ghost function Table(): seq<Record>
      reads `addedTypes
    {
      base.table + addedTypes
    }

    /** The candidate is being built and nothing has failed. */
    ghost predicate Active()
      reads `changes, `changedTypes, `nextTypeSlot, `entityTypes
      reads `addedTypes, `addedNamedRefs, `addedNamed, `addedDerived
      reads `failure, `prepared, `committed, `preparedOwnerGrowth, graph
    {
      && base.Valid()
      && graph.Snapshot() == base
      && failure == Success && !prepared && !committed && !preparedOwnerGrowth
      && CandidateValid(base, Overlay())
      && PairsMatch(addedNamedRefs, addedNamed)
      && (forall n <- entityTypes :: 1 <= entityTypes[n] < nextTypeSlot)
    }

    /** `entities` are the slots of the committed entities by name; a rebuild starts without them. */
    constructor (owner: Graph, reconstructAll: bool, entities: map<nat, nat>)
      requires owner.Valid() && forall n <- entities :: 1 <= entities[n] <= |owner.types|
      ensures graph == owner && full == reconstructAll && base == owner.Snapshot()
      ensures Active() && changes == map[] && addedTypes == []
      ensures nextTypeSlot == if full then 1 else |base.types| + 1
      ensures entityTypes == if full then map[] else entities
      ensures Overlay() == Candidate(full, map[], [], nextTypeSlot, [], map[], map[])
    {
      graph, full := owner, reconstructAll;
      changes, changedTypes := map[], [];
      entityTypes := if reconstructAll then map[] else entities;
      nextTypeSlot := if reconstructAll then 1 else |owner.types| + 1;
      addedTypes, addedNamedRefs, addedNamed, addedDerived := [], [], map[], map[];
      failure, prepared, committed := Success, false, false;
      preparedForward, preparedReverse, preparedOwnerGrowth := map[], map[], false;
      preparedTypesSize, preparedNamedSize, preparedForwardSize, preparedReverseSize := 0, 0, 0, 0;
      rebuiltTable, rebuiltNamed, rebuiltDerived, remap := [], [], map[], [];
      rebuilt := Store([], [], [], [], [], map[], [], []);
      base := owner.Snapshot();
      new;
      assert base.table + addedTypes == base.table;
      assert NamedMap(base.namedRefs) + addedNamed == NamedMap(base.namedRefs);
      assert base.derivedIndex + addedDerived == base.derivedIndex;
    }

    // ----- TypeRef creation -----

    /** get_or_create_named_type_ref: the one TypeRef of a named type. */
    method GetOrCreateNamed(handle: nat) returns (status: Status, output: nat)
      requires Active() && handle < nextTypeSlot
      modifies this`addedTypes, this`addedNamedRefs, this`addedNamed, this`failure
      ensures status == Success || status == ConfigurationFailed ==> Active()
      ensures status == ConfigurationFailed <==> handle == 0
      ensures status == InitializationFailed ==> |old(Table())| > MAX_U32 && failure == status
      ensures status != InvalidState
      ensures old(addedTypes) <= addedTypes
      ensures status == Success ==>
                IsRef(Table(), output) && Meaning(Table(), output) == NamedTree(handle)
    {
      hide Store.Valid, CandidateValid, PairsMatch, WellFormed, Indexed, Meaning;
      output := 0;
      if handle == 0 {
        return ConfigurationFailed, output;
      }
      if !full && handle < |graph.namedTypeRefs| && graph.namedTypeRefs[handle] != 0 {
        CommittedNamedOnly(base, Overlay(), handle);
        return Success, graph.namedTypeRefs[handle];
      }
      if handle in addedNamed {
        AddedOf(base, Overlay());
        NamedFound(base, Overlay(), handle);
        return Success, addedNamed[handle];
      }
      var raw := |graph.canonicalTypes| + |addedTypes|;
      if raw > MAX_U32 {
        failure := InitializationFailed;
        return failure, output;
      }
      output := raw;
      NamedCreated(base, Overlay(), handle);
      PairsMatchAppend(addedNamedRefs, addedNamed, handle, output);
      addedTypes := addedTypes + [Named(handle)];
      addedNamedRefs := addedNamedRefs + [(handle, output)];
      addedNamed := addedNamed[handle := output];
      status := Success;
    }

    /** get_or_create_derived: the one TypeRef of a modifier around a child. */
    method GetOrCreateDerived(kind: DerivedKind, child: nat, payload: nat) returns (status: Status, output: nat)
      requires Active()
      modifies this`addedTypes, this`addedDerived, this`failure
      ensures status == Success ==> (Active() <==> child < |old(Table())|)
      ensures status == ConfigurationFailed <==> child == 0 || !PayloadFits(kind, payload)
      ensures status == InitializationFailed ==> |old(Table())| > MAX_U32
      ensures status != InvalidState && (status != Success ==> failure == status)
      ensures old(addedTypes) <= addedTypes
      ensures status == Success && child < |old(Table())| ==>
                && IsRef(Table(), child) && IsRef(Table(), output)
                && Meaning(Table(), output) == DerivedTree(kind, payload, Meaning(Table(), child))
    {
      hide Store.Valid, CandidateValid, PairsMatch, WellFormed, Indexed, Meaning;
      output := 0;
      if child == 0 || !PayloadFits(kind, payload) {
        failure := ConfigurationFailed;
        return failure, output;
      }
      var key := DerivedKey(kind, child, payload);
      AddedOf(base, Overlay());
      if key in addedDerived {
        DerivedFound(base, Overlay(), key);
        return Success, addedDerived[key];
      }
      if !full && key in graph.derivedTypeIndex {
        DerivedFound(base, Overlay(), key);
        return Success, graph.derivedTypeIndex[key];
      }
      var raw := |graph.canonicalTypes| + |addedTypes|;
      if raw > MAX_U32 {
        failure := InitializationFailed;
        return failure, output;
      }
      output := raw;
      ghost var before := Table();
      if child < |before| {
        DerivedCreated(base, Overlay(), key);
      }
      addedTypes := addedTypes + [Derived(key)];
      addedDerived := addedDerived[key := output];
      status := Success;
      if child >= |before| {
        // The source accepts a child that does not exist; the record then dangles.
        assert Table() == before + [Derived(key)];
        DanglingRecord(before, key);
        DanglingTable();
      }
    }

    lemma DanglingTable()
      requires !WellFormed(Table())
      ensures !Active()
    {
      if Active() {
        TableFacts();
      }
    }

    // ----- Recording changes -----

    /** touch_type followed by storing the new candidate. */
    method Touch(handle: nat, change: Change, counted: bool)
      requires Active() && Touchable(Overlay(), handle, change, counted)
      requires BuildValid(Table(), nextTypeSlot, change)
      modifies this`changes, this`changedTypes, this`nextTypeSlot
      ensures Active()
      ensures changes == old(changes)[handle := change]
      ensures nextTypeSlot == if counted then handle + 1 else old(nextTypeSlot)
      ensures Overlay() == Touched(old(Overlay()), handle, change, counted)
    {
      hide Store.Valid, CandidateValid, PairsMatch, BuildValid;
      TouchedValid(base, Overlay(), handle, change, counted);
      if counted {
        nextTypeSlot := nextTypeSlot + 1;
      }
      if handle !in changes {
        changedTypes := changedTypes + [handle];
      }
      changes := changes[handle := change];
    }

    /** assign_type: the entity `name` gets a replacement in its slot, which may be the next one. */
    method AssignType(name: nat, handle: nat, change: Change) returns (status: Status)
      requires Active() && 1 <= handle <= nextTypeSlot && change.Replacement?
      requires BuildValid(Table(), nextTypeSlot, change)
      modifies this`changes, this`changedTypes, this`nextTypeSlot, this`entityTypes
      modifies this`addedTypes, this`addedNamedRefs, this`addedNamed, this`failure
      ensures status == Success ==> Active()
      ensures status == Success || (status == InitializationFailed == failure && |old(Table())| > MAX_U32)
      ensures changes == old(changes)[handle := change]
      ensures nextTypeSlot == if handle == old(nextTypeSlot) then handle + 1 else old(nextTypeSlot)
      ensures entityTypes == old(entityTypes)[name := handle]
      ensures status == Success ==> AssignedIn(base, old(Overlay()), handle, change, Overlay())
    {
      hide Store.Valid, CandidateValid, PairsMatch, BuildValid, Touchable, NamedMap, AddedValid, Meaning;
      SlotTouchable(Overlay(), handle, change);
      Touch(handle, change, handle == nextTypeSlot);
      EntityRecorded(name, handle);
      entityTypes := entityTypes[name := handle];
      var ref;
      status, ref := GetOrCreateNamed(handle);
      if status == Success {
        TableFacts();
        NamedInOverlay(handle, ref);
      }
    }

    lemma NamedInOverlay(handle: nat, ref: nat)
      requires Active() && IsRef(Table(), ref) && WellFormed(Table()) && Meaning(Table(), ref) == NamedTree(handle)
      ensures AddedValid(base, Overlay()) && Named(handle) in base.table + Overlay().added
    {
      AddedOf(base, Overlay());
      assert Table()[ref] == Named(handle);
    }

    /** materialize for an aggregate: what the update already collected for it is carried over. */
    method MaterializeAggregate(name: nat, handle: nat, defined: bool) returns (status: Status)
      requires Active() && 1 <= handle <= nextTypeSlot
      modifies this`changes, this`changedTypes, this`nextTypeSlot, this`entityTypes
      modifies this`addedTypes, this`addedNamedRefs, this`addedNamed, this`failure
      ensures status == Success ==> Active()
      ensures status == Success || (status == InitializationFailed == failure && |old(Table())| > MAX_U32)
      ensures changes == old(changes)[handle := Replacement(Aggregate, PLAIN, AggregateBuild(old(changes), handle, defined))]
      ensures nextTypeSlot == if handle == old(nextTypeSlot) then handle + 1 else old(nextTypeSlot)
      ensures entityTypes == old(entityTypes)[name := handle]
      ensures status == Success ==> AssignedIn(base, old(Overlay()), handle, changes[handle], Overlay())
    {
      var change := Replacement(Aggregate, PLAIN, AggregateBuild(changes, handle, defined));
      assert BuildValid(Table(), nextTypeSlot, change) by {
        ActiveFacts();
        AggregateBuildValid(base, Overlay(), handle, defined);
      }
      hide *;
      status := AssignType(name, handle, change);
    }

    /** materialize for an enum; the contribution behind it was checked when it was built. */
    method MaterializeEnum(name: nat, handle: nat, enumeration: EnumEntry, defined: bool, values: seq<EnumValue>)
      returns (status: Status)
      requires Active() && 1 <= handle <= nextTypeSlot
      requires enumeration.underlying <= C.LAST_UNDERLYING && forall v <- values :: v.name != 0
      modifies this`changes, this`changedTypes, this`nextTypeSlot, this`entityTypes
      modifies this`addedTypes, this`addedNamedRefs, this`addedNamed, this`failure
      ensures status == Success ==> Active()
      ensures status == Success || (status == InitializationFailed == failure && |old(Table())| > MAX_U32)
      ensures changes == old(changes)[handle := Replacement(Enumeration, enumeration, Build(defined, values, [], [], []))]
      ensures nextTypeSlot == if handle == old(nextTypeSlot) then handle + 1 else old(nextTypeSlot)
      ensures entityTypes == old(entityTypes)[name := handle]
      ensures status == Success ==> AssignedIn(base, old(Overlay()), handle, changes[handle], Overlay())
    {
      var change := Replacement(Enumeration, enumeration, Build(defined, values, [], [], []));
      assert BuildValid(Table(), nextTypeSlot, change);
      hide *;
      status := AssignType(name, handle, change);
    }

    /** materialize when no declaration is left: the entity's slot is given up. */
    method Tombstone(name: nat, handle: nat)
      requires Active() && 1 <= handle < nextTypeSlot
      modifies this`changes, this`changedTypes, this`nextTypeSlot, this`entityTypes
      ensures Active()
      ensures changes == old(changes)[handle := Removed] && nextTypeSlot == old(nextTypeSlot)
      ensures entityTypes == old(entityTypes) - {name}
    {
      assert BuildValid(Table(), nextTypeSlot, Removed);
      Touch(handle, Removed, false);
      entityTypes := entityTypes - {name};
    }

    /** begin_source_replacement: an anonymous enum of the replaced Source is given up, whatever
    slot its Source recorded for it. */
    method ReleaseAnonymous(handle: nat)
      requires Active() && !full && 1 <= handle
      modifies this`changes, this`changedTypes, this`nextTypeSlot
      ensures Active()
      ensures changes == old(changes)[handle := Removed] && nextTypeSlot == old(nextTypeSlot)
      ensures Overlay() == Touched(old(Overlay()), handle, Removed, false)
    {
      assert BuildValid(Table(), nextTypeSlot, Removed);
      Touch(handle, Removed, false);
    }

    /** add_anonymous_enum: the slot was drawn from the committed free list, which in
    a rebuild says nothing about the counter, or else comes off the counter. */
    method AddAnonymousEnum(handle: nat, drawn: bool, enumeration: EnumEntry, values: seq<EnumValue>)
      requires Active()
      requires if drawn then 1 <= handle && (handle < nextTypeSlot || full) else handle == nextTypeSlot
      requires enumeration.underlying <= C.LAST_UNDERLYING && forall v <- values :: v.name != 0
      modifies this`changes, this`changedTypes, this`nextTypeSlot
      ensures Active()
      ensures changes == old(changes)[handle := Replacement(Enumeration, enumeration, Build(true, values, [], [], []))]
      ensures nextTypeSlot == if drawn then old(nextTypeSlot) else handle + 1
      ensures Overlay() == Touched(old(Overlay()), handle, changes[handle], !drawn)
    {
      var change := Replacement(Enumeration, enumeration, Build(true, values, [], [], []));
      assert BuildValid(Table(), nextTypeSlot, change);
      Touch(handle, change, !drawn);
    }

    lemma EntityRecorded(name: nat, handle: nat)
      requires Active() && 1 <= handle < nextTypeSlot
      ensures var entities := entityTypes[name := handle];
              forall n <- entities :: 1 <= entities[n] < nextTypeSlot
    {
    }

    /** Input a member list must satisfy before its types are even looked up. */
    ghost predicate MembersAccepted(input: seq<MemberBuild>, modifiers: seq<Modifier>) {
      && (forall i :: 0 <= i < |input| ==>
            && input[i].name != 0
            && (input[i].builtin.Some? <==> input[i].userType == 0)
            && input[i].modifierOffset <= |modifiers|
            && input[i].modifierCount <= |modifiers| - input[i].modifierOffset)
      && (forall i, j :: 0 <= i < j < |input| ==> input[i].name != input[j].name)
    }

    /** Collects the members of a defined aggregate; named bases stay pending. */
    method DefineMembers(handle: nat, input: seq<MemberBuild>, modifiers: seq<Modifier>) returns (status: Status)
      requires Active()
      modifies this`changes, this`changedTypes, this`nextTypeSlot, this`failure
      ensures nextTypeSlot == old(nextTypeSlot)
      ensures status == Success <==>
                && handle in old(changes) && old(changes)[handle].Replacement?
                && old(changes)[handle].kind.Aggregate? && old(changes)[handle].build.definitionPending
                && MembersAccepted(input, modifiers)
      ensures status == Success ==>
                && Active()
                && changes == old(changes)[handle := old(changes)[handle].(build :=
                     Build(true, [], [], input, modifiers))]
      ensures status != Success ==> status == ConfigurationFailed == failure
    {
      if handle !in changes || !changes[handle].Replacement? || !changes[handle].kind.Aggregate?
         || !changes[handle].build.definitionPending {
        failure := ConfigurationFailed;
        return failure;
      }
      assert BuildValid(Table(), nextTypeSlot, changes[handle]);
      var names: set<nat> := {};
      for i := 0 to |input|
        invariant MembersAccepted(input[..i], modifiers)
        invariant forall n :: n in names <==> exists k :: 0 <= k < i && input[k].name == n
      {
        var member := input[i];
        if member.name == 0 || (member.builtin.Some? == (member.userType != 0)) || member.name in names
           || member.modifierOffset > |modifiers| || member.modifierCount > |modifiers| - member.modifierOffset {
          failure := ConfigurationFailed;
          return failure;
        }
        names := names + {member.name};
      }
      TakeAll(input);
      var build := Build(true, [], [], input, modifiers);
      assert BuildValid(Table(), nextTypeSlot, changes[handle].(build := build)) by {
        assert forall m <- input :: m.name != 0;
      }
      Touch(handle, changes[handle].(build := build), false);
      status := Success;
    }

    // ----- Resolving pending members -----

    lemma TableFacts()
      requires Active()
      ensures WellFormed(Table()) && |base.table| >= PREFIX_SIZE && base.table <= Table()
      ensures nextTypeSlot >= 1
    {
      CandidateTable(base, Overlay());
    }

    lemma ActiveFacts()
      requires Active()
      ensures base.Valid() && CandidateValid(base, Overlay()) && PairsMatch(addedNamedRefs, addedNamed)
      ensures failure == Success && graph.Snapshot() == base
      ensures Overlay().order == changedTypes && Overlay().changes == changes && Overlay().next == nextTypeSlot
      ensures Overlay().full == full && Table() == base.table + Overlay().added
      ensures graph.canonicalTypes + addedTypes == Table() == base.table + addedTypes
      ensures Overlay() == Candidate(full, changes, changedTypes, nextTypeSlot, addedTypes, addedNamed, addedDerived)
    {
    }

    /** Wraps a resolved base in a slice of the modifier list. */
    method ApplyModifiers(ghost baseTree: Tree, initial: nat, modifiers: seq<Modifier>, begin: nat, count: nat)
      returns (status: Status, resolved: nat)
      requires Active() && WellFormed(Table()) && begin + count <= |modifiers|
      requires IsRef(Table(), initial) && Meaning(Table(), initial) == baseTree
      modifies this`addedTypes, this`addedDerived, this`failure
      ensures status == Success ==>
                && Active() && WellFormed(Table()) && IsRef(Table(), resolved)
                && Meaning(Table(), resolved) == Wrap(baseTree, modifiers[begin..begin + count])
                && (forall i :: begin <= i < begin + count ==> PayloadFits(modifiers[i].kind, modifiers[i].payload))
      ensures status == ConfigurationFailed ==>
                exists i :: begin <= i < begin + count && !PayloadFits(modifiers[i].kind, modifiers[i].payload)
      ensures status == InitializationFailed ==> |Table()| > MAX_U32
      ensures status != InvalidState && (status != Success ==> failure == status)
      ensures old(addedTypes) <= addedTypes
    {
      hide Store.Valid, CandidateValid, PairsMatch, WellFormed, Meaning, Wrap, PayloadFits;
      resolved := initial;
      WrapNone(baseTree, modifiers, begin);
      for index := 0 to count
        invariant Active() && old(addedTypes) <= addedTypes
        invariant WellFormed(Table()) && IsRef(Table(), resolved)
        invariant Meaning(Table(), resolved) == Wrap(baseTree, modifiers[begin..begin + index])
        invariant forall i :: begin <= i < begin + index ==> PayloadFits(modifiers[i].kind, modifiers[i].payload)
      {
        var modifier := modifiers[begin + index];
        ghost var before := Table();
        var next;
        status, next := GetOrCreateDerived(modifier.kind, resolved, modifier.payload);
        if status != Success {
          return status, next;
        }
        TableFacts();
        MeaningStable(before, Table(), resolved);
        WrapOneMore(baseTree, modifiers, begin, begin + index);
        resolved := next;
      }
      status := Success;
    }

    /** One member: its base, then its modifiers from the inside out. */
    method ResolveMember(member: MemberBuild, modifiers: seq<Modifier>) returns (status: Status, resolved: nat)
      requires Active()
      modifies this`addedTypes, this`addedNamedRefs, this`addedNamed, this`addedDerived, this`failure
      ensures status == Success ==>
                && Active() && IsRef(Table(), resolved)
                && Resolvable(member, modifiers, entityTypes)
                && Meaning(Table(), resolved) == DeclaredType(member, modifiers, entityTypes)
      ensures status == ConfigurationFailed ==> !Resolvable(member, modifiers, entityTypes)
      ensures status == InitializationFailed ==> |Table()| > MAX_U32
      ensures status != InvalidState && (status != Success ==> failure == status)
      ensures old(addedTypes) <= addedTypes
    {
      hide Store.Valid, CandidateValid, PairsMatch, WellFormed, Meaning, Wrap, DeclaredType;
      resolved := 0;
      if member.builtin.Some? {
        resolved := member.builtin.value + 1;
        TableFacts();
        BuiltinMeaning(Table(), member.builtin.value);
        status := Success;
      } else {
        if member.userType !in entityTypes {
          failure := ConfigurationFailed;
          return failure, resolved;
        }
        status, resolved := GetOrCreateNamed(entityTypes[member.userType]);
        if status != Success {
          return status, resolved;
        }
      }
      var begin, count := member.modifierOffset, member.modifierCount;
      if begin > |modifiers| || count > |modifiers| - begin {
        failure := ConfigurationFailed;
        return failure, resolved;
      }
      TableFacts();
      status, resolved := ApplyModifiers(DeclaredBase(member, entityTypes), resolved, modifiers, begin, count);
      if status != Success {
        return status, resolved;
      }
      DeclaredTypeIsWrap(member, modifiers, entityTypes);
      status := Success;
    }

    /** resolve_pending_members for the aggregate candidate of one slot. */
    method ResolvePendingMembers(handle: nat) returns (status: Status)
      requires Active() && handle in changes
      requires changes[handle].Replacement? && changes[handle].kind.Aggregate?
      modifies this`addedTypes, this`addedNamedRefs, this`addedNamed, this`addedDerived, this`failure, this`changes
      ensures status == Success ==>
                && Active() && WellFormed(Table())
                && changes == old(changes)[handle := changes[handle]]
                && Resolved(Table(), old(changes)[handle], changes[handle], entityTypes)
      ensures status == ConfigurationFailed ==>
                exists m :: m in old(changes)[handle].build.pendingMembers
                         && !Resolvable(m, old(changes)[handle].build.pendingModifiers, entityTypes)
      ensures status == InitializationFailed ==> |Table()| > MAX_U32 && old(changes)[handle].build.pendingMembers != []
      ensures status != InvalidState && (status != Success ==> failure == status)
      ensures old(addedTypes) <= addedTypes
    {
      hide Store.Valid, CandidateValid, PairsMatch, WellFormed, MembersDenote;
      TableFacts();
      var build := changes[handle].build;
      if build.pendingMembers == [] {
        return Success;
      }
      var members: seq<Member> := [];
      NoMembersDenote(Table(), build.pendingMembers, build.pendingModifiers, entityTypes);
      for i := 0 to |build.pendingMembers|
        invariant Active() && changes == old(changes) && old(addedTypes) <= addedTypes
        invariant WellFormed(Table())
        invariant MembersDenote(Table(), members, build.pendingMembers[..i], build.pendingModifiers, entityTypes)
      {
        ghost var before := Table();
        var resolved;
        status, resolved := ResolveMember(build.pendingMembers[i], build.pendingModifiers);
        if status != Success {
          assert build.pendingMembers[i] in build.pendingMembers;
          return status;
        }
        TableFacts();
        var member := Member(build.pendingMembers[i].name, resolved);
        MembersDenotePush(before, Table(), members, member, build.pendingMembers, i, build.pendingModifiers, entityTypes);
        members := members + [member];
      }
      assert build.pendingMembers[..|build.pendingMembers|] == build.pendingMembers;
      var change := changes[handle].(build := build.(members := members, pendingMembers := [], pendingModifiers := []));
      ResolvedBuildValid(base, Overlay(), handle, change, entityTypes);
      changes := changes[handle := change];
      status := Success;
    }

    // ----- Validation -----

    /** The chain of one member TypeRef ends in a builtin or in a type that will be live. */
    method TypeRefIsLive(ref: nat) returns (live: bool)
      requires Active() && WellFormed(Table())
      ensures live <==> RefIsLive(base, Overlay(), ref)
    {
      hide Store.Valid, CandidateValid, PairsMatch, WellFormed, Base;
      var found, handle := WalkToBase(graph.canonicalTypes + addedTypes, ref);
      live := found && (handle == 0 || TypeIsLive(graph.types, full, changes, handle));
    }

    method MembersAreLive(members: seq<Member>) returns (live: bool)
      requires Active() && WellFormed(Table())
      ensures live <==> forall m <- members :: RefIsLive(base, Overlay(), m.ref)
    {
      hide Store.Valid, CandidateValid, PairsMatch, WellFormed, RefIsLive;
      for i := 0 to |members|
        invariant forall k :: 0 <= k < i ==> RefIsLive(base, Overlay(), members[k].ref)
      {
        live := TypeRefIsLive(members[i].ref);
        if !live {
          assert members[i] in members;
          return;
        }
      }
      live := true;
    }

    /** The validate_handle lambda. */
    method ValidateHandle(handle: nat) returns (passes: bool)
      requires Active() && WellFormed(Table())
      ensures passes <==> SlotPasses(base, Overlay(), handle)
    {
      hide Store.Valid, CandidateValid, PairsMatch, WellFormed, RefIsLive;
      ArenasOf(base);
      if handle in changes && changes[handle].Removed? {
        return true;
      }
      if handle in changes && changes[handle].Replacement? {
        if !changes[handle].kind.Aggregate? {
          return true;
        }
        var build := changes[handle].build;
        if build.pendingMembers != [] || build.pendingModifiers != [] {
          return false;
        }
        passes := MembersAreLive(build.members);
        return;
      }
      if full || !LiveSlot(graph.types, handle) || !graph.types[handle - 1].value.kind.Aggregate? {
        return true;
      }
      passes := MembersAreLive(Slice(graph.types[handle - 1].value.definition, graph.memberRecords));
    }

    /** validate_live_member_type_refs. An incremental update starts from the
    changed slots and follows reverse dependencies, visiting each slot once; the
    answer is nevertheless the one that checking every slot would give. */
    method ValidateLiveMemberTypeRefs() returns (status: Status, work: seq<nat>)
      requires Active() && WellFormed(Table())
      modifies this`failure
      ensures base.InArenas()
      ensures status == Success <==> EverySlotPasses(base, Overlay())
      ensures status == Success ==> Active()
      ensures status != Success ==> status == ConfigurationFailed == failure
      ensures NoDuplicates(work)
      ensures status == Success && !full ==> forall h :: h in work <==> InClosure(base, Overlay(), h)
    {
      hide Store.Valid, CandidateValid, PairsMatch, WellFormed, EverySlotPasses, InClosure;
      ArenasOf(base);
      var passes;
      if full {
        passes, work := ValidateReplacements();
      } else {
        passes, work := ValidateClosure();
      }
      if passes {
        status := Success;
      } else {
        failure := ConfigurationFailed;
        status := failure;
      }
    }

    /** A rebuild validates every replacement in slot order, also one that was drawn
    from the free list and lies beyond the counter. */
    method ValidateReplacements() returns (passes: bool, work: seq<nat>)
      requires Active() && WellFormed(Table()) && base.InArenas() && full
      ensures passes <==> EverySlotPasses(base, Overlay())
      ensures NoDuplicates(work)
    {
      hide Store.Valid, CandidateValid, PairsMatch, WellFormed, SlotPasses, EverySlotPasses;
      work := [];
      TableFacts();
      var limit := HandleLimit(changedTypes, nextTypeSlot);
      for handle := 1 to limit
        invariant NoDuplicates(work) && (forall h <- work :: h < handle)
        invariant forall h :: 1 <= h < handle ==> SlotPasses(base, Overlay(), h)
      {
        if handle !in changes || !changes[handle].Replacement? {
          SkippedSlotPasses(base, Overlay(), handle);
          continue;
        }
        work := PushNew(work, handle);
        passes := ValidateHandle(handle);
        if !passes {
          SomeSlotFails(base, Overlay(), handle);
          return;
        }
      }
      OrderOf(base, Overlay());
      EverySlotFrom(base, Overlay(), limit);
      passes := true;
    }

    /** Appends the dependents of one slot that were not visited yet. */
    method PushDependents(handle: nat, before: seq<nat>, ghost limit: nat) returns (work: seq<nat>)
      requires Active() && !full && nextTypeSlot <= limit
      requires NoDuplicates(before) && InClosure(base, Overlay(), handle)
      requires forall h <- before :: 1 <= h < limit && InClosure(base, Overlay(), h)
      ensures before <= work && NoDuplicates(work) && (forall h <- before :: h in work)
      ensures forall h <- work :: 1 <= h < limit && InClosure(base, Overlay(), h)
      ensures forall d <- At(base.reverse, handle) :: d in work
    {
      hide Store.Valid, CandidateValid, PairsMatch, InClosure, NoDuplicates;
      var dependents := At(graph.reverseTypeDependents, handle);
      work := before;
      for k := 0 to |dependents|
        invariant before <= work && NoDuplicates(work)
        invariant forall h <- work :: 1 <= h < limit && InClosure(base, Overlay(), h)
        invariant forall d <- dependents[..k] :: d in work
      {
        DependentInRange(base, Overlay(), handle, dependents[k]);
        ClosureStep(base, Overlay(), handle, dependents[k]);
        ghost var previous := work;
        work := PushNew(work, dependents[k]);
        assert forall h :: h in work <==> h in previous || h == dependents[k];
        TakeNext(dependents, k);
      }
    }

    /** The worklist of an incremental validation. */
    method ValidateClosure() returns (passes: bool, work: seq<nat>)
      requires Active() && WellFormed(Table()) && base.InArenas() && !full
      ensures passes <==> EverySlotPasses(base, Overlay())
      ensures NoDuplicates(work)
      ensures passes ==> forall h :: h in work <==> InClosure(base, Overlay(), h)
    {
      hide Store.Valid, CandidateValid, PairsMatch, WellFormed, SlotPasses, EverySlotPasses, InClosure, At, NoDuplicates;
      work := changedTypes;
      WorkStarts(base, Overlay());
      TableFacts();
      var limit := HandleLimit(changedTypes, nextTypeSlot);
      var position := 0;
      while position < |work|
        invariant 0 <= position <= |work| && NoDuplicates(work)
        invariant forall h <- work :: 1 <= h < limit && InClosure(base, Overlay(), h)
        invariant forall h <- changes :: h in work
        invariant forall i :: 0 <= i < position ==> SlotPasses(base, Overlay(), work[i])
        invariant forall i, h :: 0 <= i < position && h in At(base.reverse, work[i]) ==> h in work
        decreases limit - position
      {
        DistinctBounded(work, limit - 1);
        var handle := work[position];
        assert handle in work;
        passes := ValidateHandle(handle);
        if !passes {
          ClosureInRange(base, Overlay(), handle);
          SomeSlotFails(base, Overlay(), handle);
          return;
        }
        work := PushDependents(handle, work, limit);
        position := position + 1;
      }
      WorkComplete(base, Overlay(), work);
      passes := true;
    }

    // ----- Dependency index updates -----

    /** Re-points the reverse lists of everything one slot used to or will depend on. */
    method UpdateReverse(handle: nat, previous: seq<nat>, current: seq<nat>, updates: map<nat, seq<nat>>)
      returns (updates': map<nat, seq<nat>>)
      requires graph.reverseTypeDependents == base.reverse
      ensures updates' == WithEdges(base, updates, handle, current, Affected(previous, current))
    {
      hide Affected, WithEdges, Redirected, Overridden, At, NoDuplicates, SetOf, Without, PushNew;
      updates' := updates;
      var affected := previous;
      AffectedNone(previous, current);
      for i := 0 to |current|
        invariant affected == Affected(previous, current[..i])
      {
        AffectedNext(previous, current, i);
        affected := PushNew(affected, current[i]);
      }
      TakeAll(current);
      WithoutEdges(base, updates, handle, current, affected);
      for k := 0 to |affected|
        invariant updates' == WithEdges(base, updates, handle, current, affected[..k])
      {
        WithEdgesNext(base, updates, handle, current, affected, k);
        var dependency := affected[k];
        var dependents := if dependency in updates' then updates'[dependency]
                          else At(graph.reverseTypeDependents, dependency);
        dependents := Without(dependents, handle);
        if dependency in current {
          dependents := PushNew(dependents, handle);
        }
        updates' := updates'[dependency := dependents];
      }
      TakeAll(affected);
    }

    /** The dependency list one changed slot will have. */
    method NewDependencies(handle: nat) returns (valid: bool, current: seq<nat>)
      requires Active() && WellFormed(Table()) && !full && handle in changes
      ensures valid && CandidateValid(base, Overlay()) && current == NewList(base, Overlay(), handle)
    {
      hide Store.Valid, WellFormed, PairsMatch, OverlayValid, AddedValid, Bases;
      var previous := At(graph.typeDependencies, handle);
      match changes[handle]
      case Unchanged =>
        return true, previous;
      case Removed =>
        return true, [];
      case Replacement(kind, _, build) =>
        if kind.Aggregate? && build.definitionPending {
          assert BuildValid(Table(), nextTypeSlot, changes[handle]);
          valid, current := CollectDependencies(graph.canonicalTypes + addedTypes, build.members);
        } else {
          return true, [];
        }
    }

    /** prepare_dependency_index_updates */
    method PrepareDependencyIndexUpdates() returns (forward: map<nat, seq<nat>>, reverse: map<nat, seq<nat>>)
      requires Active() && WellFormed(Table()) && !full
      ensures base.Valid() && CandidateValid(base, Overlay()) && OrderMatches(Overlay())
      ensures forward == ForwardAfter(base, Overlay(), changedTypes)
      ensures reverse == ReverseAfter(base, Overlay(), changedTypes)
      ensures IndexUpdatesExact(base, Overlay(), forward, reverse)
    {
      hide Store.Valid, CandidateValid, PairsMatch, WellFormed, NewList, At, WithEdges, Affected, IndexUpdatesExact,
           ForwardAfter, ReverseAfter, OrderMatches, Active, Table, NoDuplicates;
      forward, reverse := map[], map[];
      ActiveFacts();
      SnapshotFields();
      OrderOf(base, Overlay());
      OrderFacts(Overlay());
      NoLists(base, Overlay());
      for i := 0 to |changedTypes|
        invariant forall h <- changedTypes[..i] :: h in changes
        invariant forward == ForwardAfter(base, Overlay(), changedTypes[..i])
        invariant reverse == ReverseAfter(base, Overlay(), changedTypes[..i])
      {
        var handle := changedTypes[i];
        assert handle in changedTypes;
        var _, current := NewDependencies(handle);
        ListsNext(base, Overlay(), changedTypes, i);
        reverse := UpdateReverse(handle, At(graph.typeDependencies, handle), current, reverse);
        forward := forward[handle := current];
      }
      TakeAll(changedTypes);
      PreparedIndexExact(base, Overlay());
    }

    // ----- Rebuilding the canonical table -----

    ghost predicate Rebuilding(table: seq<Record>)
      reads this
    {
      && WellFormed(table)
      && RebuiltTableValid(rebuiltTable, rebuiltNamed, rebuiltDerived, nextTypeSlot)
      && RemapValid(table, remap, rebuiltTable)
    }

    /** The remap_type lambda: memoised recursion over one TypeRef. It ends because
    every record refers to an earlier one. */
    method RemapType(table: seq<Record>, ref: nat) returns (status: Status, output: nat)
      requires Rebuilding(table)
      modifies this`rebuiltTable, this`rebuiltDerived, this`remap
      ensures Rebuilding(table) && old(rebuiltTable) <= rebuiltTable
      ensures status != InvalidState
      ensures status == Success ==>
                IsRef(table, ref) && IsRef(rebuiltTable, output) && Meaning(rebuiltTable, output) == Meaning(table, ref)
      ensures status == ConfigurationFailed && IsRef(table, ref) ==>
                && Base(table, ref) != 0
                && (Base(table, ref) >= |rebuiltNamed| || rebuiltNamed[Base(table, ref)] == 0)
      ensures status == InitializationFailed ==> |rebuiltTable| > MAX_U32
      decreases ref
    {
      hide RebuiltTableValid, WellFormed;
      status, output := Success, 0;
      if ref == 0 || ref >= |remap| {
        return ConfigurationFailed, output;
      }
      if remap[ref] != 0 {
        return Success, remap[ref];
      }
      match table[ref]
      case Builtin(code) =>
        RebuiltBuiltin(table, rebuiltTable, rebuiltNamed, rebuiltDerived, nextTypeSlot, ref);
        output := code + 1;
      case Named(handle) =>
        if handle == 0 || handle >= |rebuiltNamed| || rebuiltNamed[handle] == 0 {
          NamedRecord(table, ref);
          return ConfigurationFailed, output;
        }
        RebuiltNamedFound(rebuiltTable, rebuiltNamed, rebuiltDerived, nextTypeSlot, handle);
        output := rebuiltNamed[handle];
      case Derived(key) =>
        DerivedRecord(table, ref);
        var child;
        status, child := RemapType(table, key.child);
        if status != Success {
          return status, output;
        }
        status, output := RebuildDerived(table, DerivedKey(key.kind, child, key.payload));
        if status != Success {
          return status, output;
        }
      RebuiltWellFormed(rebuiltTable, rebuiltNamed, rebuiltDerived, nextTypeSlot);
      RemapMemo(table, remap, rebuiltTable, ref, output);
      remap := remap[ref := output];
      status := Success;
    }

    /** Finds or appends one derived record of the new table. */
    method RebuildDerived(table: seq<Record>, key: DerivedKey) returns (status: Status, output: nat)
      requires Rebuilding(table) && IsRef(rebuiltTable, key.child) && PayloadFits(key.kind, key.payload)
      modifies this`rebuiltTable, this`rebuiltDerived
      ensures Rebuilding(table) && old(rebuiltTable) <= rebuiltTable
      ensures status == Success || (status == InitializationFailed && |rebuiltTable| > MAX_U32)
      ensures status == Success ==>
                && IsRef(rebuiltTable, output)
                && WellFormed(old(rebuiltTable))
                && Meaning(rebuiltTable, output) == DerivedTree(key.kind, key.payload, Meaning(old(rebuiltTable), key.child))
    {
      hide RebuiltTableValid, WellFormed;
      RebuiltWellFormed(rebuiltTable, rebuiltNamed, rebuiltDerived, nextTypeSlot);
      if key in rebuiltDerived {
        RebuiltDerivedFound(rebuiltTable, rebuiltNamed, rebuiltDerived, nextTypeSlot, key);
        return Success, rebuiltDerived[key];
      }
      output := |rebuiltTable|;
      if output > MAX_U32 {
        return InitializationFailed, 0;
      }
      RebuiltDerivedAdded(rebuiltTable, rebuiltNamed, rebuiltDerived, nextTypeSlot, key);
      RebuiltWellFormed(rebuiltTable + [Derived(key)], rebuiltNamed, rebuiltDerived[key := output], nextTypeSlot);
      RemapExtend(table, remap, rebuiltTable, rebuiltTable + [Derived(key)]);
      rebuiltTable := rebuiltTable + [Derived(key)];
      rebuiltDerived := rebuiltDerived[key := output];
      status := Success;
    }

    /** Every live user type gets exactly one named TypeRef in the new table. */
    method RebuildNamedTypes() returns (fits: bool, table: seq<Record>, named: seq<nat>)
      requires Active() && full
      ensures !fits ==> |table| > MAX_U32
      ensures fits ==>
                && RebuiltTableValid(table, named, map[], nextTypeSlot)
                && |named| == nextTypeSlot
                && forall h <- changes :: changes[h].Replacement? && h < nextTypeSlot ==> named[h] != 0
    {
      hide Store.Valid, CandidateValid, PairsMatch, RebuiltTableValid;
      NextAtLeastOne(base, Overlay());
      ChangesFromOne(base, Overlay());
      table := InitialTable();
      named := seq(nextTypeSlot, i => 0);
      RebuiltTableStart(named, nextTypeSlot);
      for handle := 1 to nextTypeSlot
        invariant RebuiltTableValid(table, named, map[], nextTypeSlot) && |named| == nextTypeSlot && |table| > 0
        invariant forall h :: handle <= h < nextTypeSlot ==> named[h] == 0
        invariant forall h :: 1 <= h < handle && h in changes && changes[h].Replacement? ==> named[h] != 0
      {
        // Unlike validation, this test also accepts a committed slot that the rebuild left untouched.
        var live := if handle in changes && changes[handle].Removed? then false
                    else if handle in changes && changes[handle].Replacement? then true
                    else LiveSlot(graph.types, handle);
        if live {
          if |table| > MAX_U32 {
            return false, table, named;
          }
          RebuiltNamedAdded(table, named, nextTypeSlot, handle);
          named := named[handle := |table|];
          table := table + [Named(handle)];
        }
      }
      fits := true;
    }

    /** Carries one member list over to the new table. */
    method RemapMembers(table: seq<Record>, members: seq<Member>) returns (status: Status, carried: seq<Member>)
      requires Rebuilding(table)
      requires forall m <- members ::
                 && IsRef(table, m.ref)
                 && (Base(table, m.ref) == 0
                     || (Base(table, m.ref) < |rebuiltNamed| && rebuiltNamed[Base(table, m.ref)] != 0))
      modifies this`rebuiltTable, this`rebuiltDerived, this`remap
      ensures Rebuilding(table) && WellFormed(rebuiltTable) && old(rebuiltTable) <= rebuiltTable
      ensures status == Success || (status == InitializationFailed && |rebuiltTable| > MAX_U32)
      ensures status == Success ==> SameMembers(table, members, rebuiltTable, carried)
    {
      hide RebuiltTableValid, WellFormed, RemapValid;
      RebuiltWellFormed(rebuiltTable, rebuiltNamed, rebuiltDerived, nextTypeSlot);
      carried := [];
      for i := 0 to |members|
        invariant Rebuilding(table) && WellFormed(rebuiltTable) && old(rebuiltTable) <= rebuiltTable
        invariant SameMembers(table, members[..i], rebuiltTable, carried)
      {
        assert members[i] in members;
        ghost var before := rebuiltTable;
        var output;
        status, output := RemapType(table, members[i].ref);
        RebuiltWellFormed(rebuiltTable, rebuiltNamed, rebuiltDerived, nextTypeSlot);
        if status != Success {
          return status, carried;
        }
        SameMembersPush(table, members, i, before, rebuiltTable, carried, output);
        carried := carried + [Member(members[i].name, output)];
      }
      TakeAll(members);
      status := Success;
    }

    /** Carries every replaced aggregate over to the new table. */
    method RemapChanges(table: seq<Record>) returns (status: Status, carried: Changes)
      requires Active() && full && table == Table() && Rebuilding(table)
      requires base.InArenas() && EverySlotPasses(base, Overlay())
      requires |rebuiltNamed| == nextTypeSlot
      requires forall h <- changes :: changes[h].Replacement? && h < nextTypeSlot ==> rebuiltNamed[h] != 0
      modifies this`rebuiltTable, this`rebuiltDerived, this`remap
      ensures Rebuilding(table) && WellFormed(rebuiltTable)
      ensures status == Success || (status == InitializationFailed && |rebuiltTable| > MAX_U32)
      ensures status == Success ==>
                && carried.Keys == changes.Keys
                && forall h <- changes :: SameChange(table, changes[h], rebuiltTable, carried[h])
    {
      hide Store.Valid, CandidateValid, RebuiltTableValid, WellFormed, EverySlotPasses, RemapValid, SameChange, SameMembers, Base;
      ghost var named := rebuiltNamed;
      var c := changes;
      carried := c;
      ChangesFromOne(base, Overlay());
      NextAtLeastOne(base, Overlay());
      RebuiltWellFormed(rebuiltTable, rebuiltNamed, rebuiltDerived, nextTypeSlot);
      ghost var overlay := Overlay();
      hide Active, Overlay, Table, Rebuilding;
      for handle := 1 to nextTypeSlot
        invariant Rebuilding(table) && WellFormed(table) && WellFormed(rebuiltTable)
        invariant carried.Keys == c.Keys
        invariant forall h <- c :: h < handle ==> SameChange(table, c[h], rebuiltTable, carried[h])
        invariant forall h <- c :: h >= handle ==> carried[h] == c[h]
      {
        if handle in c {
          ghost var before := rebuiltTable;
          if c[handle].Replacement? && c[handle].kind.Aggregate? {
            CheckedMembersRemap(base, overlay, handle, named);
            var members;
            status, members := RemapMembers(table, c[handle].build.members);
            if status != Success {
              return;
            }
            CarriedSlot(table, c[handle], rebuiltTable, members);
            carried := carried[handle := c[handle].(build := c[handle].build.(members := members))];
          } else {
            OtherSlot(table, c[handle], rebuiltTable);
          }
          CarriedExtend(table, c, before, rebuiltTable, carried, handle);
        }
      }
      forall h <- c | h >= nextTypeSlot
        ensures SameChange(table, c[h], rebuiltTable, carried[h])
      {
        StrayIsEnum(base, overlay, h);
        OtherSlot(table, c[h], rebuiltTable);
      }
      status := Success;
    }

    /** rebuild_canonical_type_table: a compact table holding one named entry per
    live type and the derived entries that current members reach. After a
    successful validation only the 32-bit size limit can stop it. */
    method RebuildCanonicalTypeTable() returns (status: Status, carried: Changes)
      requires Active() && full && WellFormed(Table())
      requires base.InArenas() && EverySlotPasses(base, Overlay())
      modifies this`rebuiltTable, this`rebuiltNamed, this`rebuiltDerived, this`remap, this`failure
      ensures status == Success || (status == InitializationFailed && |rebuiltTable| > MAX_U32)
      ensures status != Success ==> failure == status
      ensures status == Success ==>
                Active() && CarriedOver(base, Overlay(), carried, rebuiltTable, rebuiltNamed, rebuiltDerived)
    {
      hide Store.Valid, CandidateValid, PairsMatch, RebuiltTableValid, WellFormed, EverySlotPasses, RemapValid, SameChange,
           Active, Store.InArenas;
      ActiveFacts();
      carried := changes;
      var fits;
      fits, rebuiltTable, rebuiltNamed := RebuildNamedTypes();
      if !fits {
        failure := InitializationFailed;
        return failure, carried;
      }
      rebuiltDerived := map[];
      var table := graph.canonicalTypes + addedTypes;
      remap := seq(|table|, i => 0);
      EmptyRemap(table, remap, rebuiltTable, rebuiltNamed, rebuiltDerived, nextTypeSlot);
      status, carried := RemapChanges(table);
      if status != Success {
        failure := status;
      }
    }

    // ----- Laying out rebuilt storage -----

    /** Materializes every replaced slot into fresh arenas, in slot order. */
    method BuildRebuildStorage(carried: Changes) returns (types: Types, members: seq<Member>, values: seq<EnumValue>)
      requires Active() && full && base.InArenas()
      requires carried.Keys == changes.Keys
      ensures LaidOutFor(base, nextTypeSlot, carried, types, members, values)
    {
      hide Store.Valid, PairsMatch, AddedValid, BuildValid, ViewOf, LaidOut, ChangedView, EntryInArenas;
      types, members, values := [], [], [];
      ChangesFromOne(base, Overlay());
      NextAtLeastOne(base, Overlay());
      NothingSourced(carried);
      hide Sourced;
      for handle := 1 to nextTypeSlot
        invariant |types| == handle - 1
        invariant AllInArenas(types, members, values)
        invariant Sourced([], [], [], carried, types, members, values)
        invariant forall h :: 0 <= h < handle ==> ViewIn(types, members, values, h) == ViewAfter(base, true, carried, h)
      {
        ghost var before := types;
        if handle in carried && carried[handle].Replacement? {
          var (entry, members', values') := LaidOut(carried[handle], members, values);
          LaidOutView(carried[handle], members, values);
          types := types + [Some(entry)];
          OtherViewsStable(before, types, members, values, handle - 1, members', values');
          SourcedLaidOut([], [], [], carried, before, members, values, handle, types);
          members, values := members', values';
        } else {
          types := types + [None];
          OtherViewsStable(before, types, members, values, handle - 1, members, values);
          SourcedWithout([], [], [], carried, before, members, values, types);
        }
      }
    }

    // ----- Preparing publication -----

    method ResolveAllPending() returns (status: Status)
      requires Active()
      modifies this`addedTypes, this`addedNamedRefs, this`addedNamed, this`addedDerived, this`failure, this`changes
      ensures status == Success ==>
                && Active() && WellFormed(Table())
                && changes.Keys == old(changes).Keys
                && forall h <- changes :: Resolved(Table(), old(changes)[h], changes[h], entityTypes)
      ensures status == ConfigurationFailed ==> SomeUnresolvable(old(changes), entityTypes)
      ensures status == InitializationFailed ==> |Table()| > MAX_U32 && SomePending(old(changes))
      ensures status != InvalidState && (status != Success ==> failure == status)
      ensures old(addedTypes) <= addedTypes
    {
      hide *;
      ghost var start := changes;
      ActiveFacts();
      WorkStarts(base, Overlay());
      TableFacts();
      NothingResolved(Table(), changedTypes, changes, entityTypes);
      for i := 0 to |changedTypes|
        invariant Active() && WellFormed(Table())
        invariant changes.Keys == start.Keys && old(addedTypes) <= addedTypes
        invariant ResolvedBefore(Table(), changedTypes, i, start, changes, entityTypes)
      {
        var handle := changedTypes[i];
        assert handle in changedTypes;
        if changes[handle].Replacement? && changes[handle].kind.Aggregate? {
          ghost var before, previous := Table(), changes;
          ActiveFacts();
          NotYetResolved(Table(), changedTypes, i, start, changes, entityTypes);
          status := ResolvePendingMembers(handle);
          if status != Success {
            if status == ConfigurationFailed {
              ghost var m :| m in previous[handle].build.pendingMembers
                             && !Resolvable(m, previous[handle].build.pendingModifiers, entityTypes);
              UnresolvableFound(start, handle, m, entityTypes);
            } else {
              PendingFound(start, handle);
            }
            return;
          }
          ActiveFacts();
          ResolvedNext(before, Table(), changedTypes, i, start, previous, changes, entityTypes);
        } else {
          SkippedNext(Table(), changedTypes, i, start, changes, entityTypes);
        }
      }
      ActiveFacts();
      AllResolved(base, Overlay(), Table(), start, entityTypes);
      status := Success;
    }

    /** Nothing published yet, and the committed vectors can be cut back to `base`. */
    ghost predicate CanRollBack()
      reads `preparedOwnerGrowth, graph
      reads `preparedTypesSize, `preparedNamedSize, `preparedForwardSize, `preparedReverseSize
    {
      if !preparedOwnerGrowth || full then graph.Snapshot() == base
      else
        && preparedTypesSize == |base.types| && preparedNamedSize == |base.namedRefs|
        && preparedForwardSize == |base.forward| && preparedReverseSize == |base.reverse|
        && base.types <= graph.types && base.namedRefs <= graph.namedTypeRefs
        && base.forward <= graph.typeDependencies && base.reverse <= graph.reverseTypeDependents
        && graph.Snapshot() == base.(types := graph.types, namedRefs := graph.namedTypeRefs,
                                     forward := graph.typeDependencies, reverse := graph.reverseTypeDependents)
    }

    /** The size that the named TypeRef vector needs. */
    function NamedSize(): nat
      reads `addedNamedRefs
    {
      MaxHandle(addedNamedRefs)
    }

    ghost predicate ReadyIncrementally()
      reads `changes, `changedTypes, `nextTypeSlot, `addedTypes, `addedNamedRefs, `addedNamed, `addedDerived
      reads `preparedForward, `preparedReverse, graph
    {
      && base.Valid() && CandidateValid(base, Overlay()) && !full
      && EverySlotPasses(base, Overlay())
      && OrderMatches(Overlay())
      && preparedForward == ForwardAfter(base, Overlay(), changedTypes)
      && preparedReverse == ReverseAfter(base, Overlay(), changedTypes)
      && IndexUpdatesExact(base, Overlay(), preparedForward, preparedReverse)
      && PairsMatch(addedNamedRefs, addedNamed)
      && graph.Snapshot() == Grown(base, nextTypeSlot, NamedSize())
    }

    ghost predicate ReadyToRebuild()
      reads `changes, `changedTypes, `nextTypeSlot, `addedTypes, `addedNamed, `addedDerived
      reads `carriedChanges, `rebuilt
    {
      && base.Valid() && full
      && RebuildStep(base, Overlay(), carriedChanges, rebuilt)
      && rebuilt.Valid()
    }

    ghost predicate Ready()
      reads this, graph
    {
      && failure == Success && prepared && !committed && CanRollBack()
      && if full then ReadyToRebuild() else ReadyIncrementally()
    }

    lemma NothingPublished()
      requires CanRollBack() && full
      ensures graph.Snapshot() == base
    {
    }

    lemma GrownTypes()
      requires Ready() && !full
      ensures |graph.types| == if |base.types| >= nextTypeSlot - 1 then |base.types| else nextTypeSlot - 1
    {
      hide Store.Valid, AddedValid, BuildValid, EverySlotPasses, OrderMatches, IndexUpdatesExact, PairsMatch;
      hide ForwardAfter, ReverseAfter, CanRollBack;
    }

    lemma GrowthFacts(fails: GrowthStage)
      requires preparedOwnerGrowth && !full && nextTypeSlot >= 1
      requires preparedTypesSize == |base.types| && preparedNamedSize == |base.namedRefs|
      requires preparedForwardSize == |base.forward| && preparedReverseSize == |base.reverse|
      requires graph.types == if fails.GrowTypes? then base.types else PadTo(base.types, nextTypeSlot - 1, None)
      requires graph.namedTypeRefs == if fails.GrowTypes? || fails.GrowNamedRefs? then base.namedRefs
                                      else PadTo(base.namedRefs, NamedSize(), 0)
      requires graph.typeDependencies == if fails.GrowTypes? || fails.GrowNamedRefs? || fails.GrowForward? then base.forward
                                         else PadTo(base.forward, nextTypeSlot, [])
      requires graph.reverseTypeDependents == if fails.NoFailure? then PadTo(base.reverse, nextTypeSlot, []) else base.reverse
      requires graph.memberRecords == base.members && graph.enumValueRecords == base.values
      requires graph.canonicalTypes == base.table && graph.derivedTypeIndex == base.derivedIndex
      ensures CanRollBack()
      ensures fails == NoFailure ==> graph.Snapshot() == Grown(base, nextTypeSlot, NamedSize())
    {
    }

    lemma ActiveRollsBack()
      requires Active()
      ensures CanRollBack() && !prepared && !committed && failure == Success
    {
      hide Store.Valid, CandidateValid, PairsMatch;
    }

    lemma SnapshotFields()
      ensures graph.Snapshot() == base ==>
                && graph.types == base.types && graph.memberRecords == base.members && graph.enumValueRecords == base.values
                && graph.canonicalTypes == base.table && graph.namedTypeRefs == base.namedRefs
                && graph.derivedTypeIndex == base.derivedIndex
                && graph.typeDependencies == base.forward && graph.reverseTypeDependents == base.reverse
    {
    }

    /** Grows the committed vectors so that publication cannot allocate. */
    method GrowOwner(fails: GrowthStage) returns (status: Status)
      requires Active() && !full
      modifies this`preparedTypesSize, this`preparedNamedSize, this`preparedForwardSize, this`preparedReverseSize
      modifies this`preparedOwnerGrowth, this`failure
      modifies graph`types, graph`namedTypeRefs, graph`typeDependencies, graph`reverseTypeDependents
      ensures CanRollBack()
      ensures status == if fails == NoFailure then Success else InitializationFailed
      ensures status == Success ==> failure == Success && graph.Snapshot() == Grown(base, nextTypeSlot, NamedSize())
      ensures status != Success ==> failure == status
    {
      hide *;
      ActiveFacts();
      SnapshotFields();
      NextAtLeastOne(base, Overlay());
      preparedTypesSize, preparedNamedSize := |graph.types|, |graph.namedTypeRefs|;
      preparedForwardSize, preparedReverseSize := |graph.typeDependencies|, |graph.reverseTypeDependents|;
      preparedOwnerGrowth := true;
      if fails != GrowTypes {
        graph.types := PadTo(graph.types, nextTypeSlot - 1, None);
        if fails != GrowNamedRefs {
          graph.namedTypeRefs := PadTo(graph.namedTypeRefs, NamedSize(), 0);
          if fails != GrowForward {
            graph.typeDependencies := PadTo(graph.typeDependencies, nextTypeSlot, []);
            if fails != GrowReverse {
              graph.reverseTypeDependents := PadTo(graph.reverseTypeDependents, nextTypeSlot, []);
            }
          }
        }
      }
      status := if fails == NoFailure then Success else InitializationFailed;
      failure := status;
      GrowthFacts(fails);
    }

    /** The detached storage of a rebuild: table, arenas, slots and indexes. */
    method PrepareRebuild() returns (status: Status)
      requires Active() && full && WellFormed(Table())
      requires base.InArenas() && EverySlotPasses(base, Overlay())
      modifies this`rebuiltTable, this`rebuiltNamed, this`rebuiltDerived, this`remap, this`failure
      modifies this`rebuilt, this`carriedChanges
      ensures status == Success || (status == InitializationFailed && |rebuiltTable| > MAX_U32)
      ensures status != Success ==> failure == status
      ensures status == Success ==> failure == Success && ReadyToRebuild()
    {
      hide *;
      var carried;
      status, carried := RebuildCanonicalTypeTable();
      if status != Success {
        return;
      }
      ghost var overlay := Overlay();
      ActiveFacts();
      CarriedKeys(base, overlay, carried, rebuiltTable, rebuiltNamed, rebuiltDerived);
      var types, members, values := BuildRebuildStorage(carried);
      ghost var detached := Store(types, members, values, rebuiltTable, rebuiltNamed, rebuiltDerived, [], []);
      RebuiltDetached(base, overlay, carried, detached);
      var valid, forward, reverse := BuildDependencyIndex(types, members, rebuiltTable);
      assert valid;
      RebuiltComplete(base, overlay, carried, detached, forward, reverse);
      rebuilt := Store(types, members, values, rebuiltTable, rebuiltNamed, rebuiltDerived, forward, reverse);
      carriedChanges := carried;
      RebuildIsReady(overlay);
    }

    lemma RebuildIsReady(overlay: Candidate)
      requires base.Valid() && full && rebuilt.Valid()
      requires overlay == Candidate(full, changes, changedTypes, nextTypeSlot, addedTypes, addedNamed, addedDerived)
      requires RebuildStep(base, overlay, carriedChanges, rebuilt)
      ensures ReadyToRebuild()
    {
      hide Store.Valid, RebuildStep;
    }

    /** Dependency lists and room for them: the tail of an incremental prepare. */
    method PrepareIncrement(fails: GrowthStage) returns (status: Status)
      requires Active() && !full && WellFormed(Table())
      requires base.InArenas() && EverySlotPasses(base, Overlay())
      modifies this`preparedForward, this`preparedReverse, this`failure
      modifies this`preparedTypesSize, this`preparedNamedSize, this`preparedForwardSize, this`preparedReverseSize
      modifies this`preparedOwnerGrowth
      modifies graph`types, graph`namedTypeRefs, graph`typeDependencies, graph`reverseTypeDependents
      ensures CanRollBack()
      ensures status == if fails == NoFailure then Success else InitializationFailed
      ensures status == Success ==> failure == Success && ReadyIncrementally()
      ensures status != Success ==> failure == status
    {
      hide *;
      ghost var overlay := Overlay();
      ActiveFacts();
      var forward, reverse := PrepareDependencyIndexUpdates();
      status := GrowOwner(fails);
      preparedForward, preparedReverse := forward, reverse;
      IncrementIsReady(overlay);
    }

    lemma IncrementIsReady(overlay: Candidate)
      requires base.Valid() && CandidateValid(base, overlay) && !full
      requires overlay == Candidate(full, changes, changedTypes, nextTypeSlot, addedTypes, addedNamed, addedDerived)
      requires base.InArenas() && WellFormed(base.table + overlay.added) && EverySlotPasses(base, overlay)
      requires OrderMatches(overlay)
      requires preparedForward == ForwardAfter(base, overlay, overlay.order)
      requires preparedReverse == ReverseAfter(base, overlay, overlay.order)
      requires IndexUpdatesExact(base, overlay, preparedForward, preparedReverse)
      requires PairsMatch(addedNamedRefs, addedNamed) && CanRollBack()
      ensures CanRollBack()
      ensures graph.Snapshot() == Grown(base, nextTypeSlot, NamedSize()) ==> ReadyIncrementally()
    {
      hide Store.Valid, CandidateValid, IndexUpdatesExact, WellFormed, Store.InArenas, EverySlotPasses, PairsMatch,
           ForwardAfter, ReverseAfter, OrderMatches;
    }

    /** What the semantic part of prepare_publish refuses, told from the state before it. */
    ghost predicate Refused()
      reads `changes, `changedTypes, `nextTypeSlot, `entityTypes, `addedTypes, `addedNamed, `addedDerived
    {
      || SomeUnresolvable(changes, entityTypes)
      || SomeDangling(base, Overlay(), entityTypes)
      || SomeLeftover(changes)
    }

    /** Enums have no members to refuse. */
    lemma EnumsNotRefused()
      requires Active() && full && forall h <- changes :: changes[h].Replacement? && changes[h].kind.Enumeration?
      ensures !Refused()
    {
      hide Store.Valid, AddedValid, OverlayValid, PairsMatch, WellFormed;
      forall h <- changes
        ensures changes[h].build.pendingMembers == []
      {
        assert BuildValid(base.table + Overlay().added, nextTypeSlot, changes[h]);
      }
    }

    /** Neither has a Graph without slots of which enums are given up. */
    lemma RemovalsNotRefused()
      requires Active() && base.types == [] && forall h <- changes :: changes[h].Removed?
      ensures !Refused()
    {
      hide Store.Valid, AddedValid, OverlayValid, PairsMatch, WellFormed;
      if base.InArenas() {
        forall h: nat
          ensures base.MembersOf(h) == []
        {
        }
      }
    }

    lemma LeftoverRefused(handle: nat)
      requires handle in changes && Leftover(changes[handle])
      ensures Refused()
    {
      hide SomeUnresolvable, SomeDangling;
    }

    twostate lemma CheckOutcome()
      requires old(Active()) && base.Valid() && CandidateValid(base, old(Overlay())) && WellFormed(Table())
      requires WellFormed(old(Table())) && entityTypes == old(entityTypes) && nextTypeSlot == old(nextTypeSlot)
      requires old(addedTypes) <= addedTypes && changes.Keys == old(changes).Keys
      requires forall h <- changes :: Resolved(Table(), old(changes)[h], changes[h], entityTypes)
      ensures base.InArenas() && (EverySlotPasses(base, Overlay()) <==> !old(Refused()))
    {
      hide Store.Valid, CandidateValid, PairsMatch, WellFormed, EverySlotPasses, Resolved, SomeUnresolvable, SomeDangling,
           SomeLeftover, Store.InArenas;
      NoneUnresolvable(base, old(Overlay()), Overlay(), entityTypes);
      CheckDecided(base, old(Overlay()), Overlay(), entityTypes);
    }

    /** The semantic part of prepare_publish: pending members, then every reference.
    With room in the table it succeeds exactly when every pending member resolves,
    no slot that stays mentions one that goes, and no aggregate was left with
    modifiers and no member to put them on. */
    method CheckCandidate() returns (status: Status)
      requires Active()
      modifies this`addedTypes, this`addedNamedRefs, this`addedNamed, this`addedDerived, this`failure, this`changes
      ensures status == Success ==> !old(Refused())
      ensures status == ConfigurationFailed ==> old(Refused())
      ensures status == InitializationFailed ==> |Table()| > MAX_U32 && SomePending(old(changes))
      ensures status != InvalidState && (status != Success ==> failure == status)
      ensures status == Success ==>
                && Active() && WellFormed(Table()) && base.InArenas() && EverySlotPasses(base, Overlay())
                && ResolvedFrom(base, old(Overlay()), Overlay(), entityTypes)
    {
      ghost var before := Overlay();
      assert before == Candidate(full, changes, changedTypes, nextTypeSlot, addedTypes, addedNamed, addedDerived);
      hide Store.Valid, CandidateValid, PairsMatch, WellFormed, EverySlotPasses, Resolved, Store.InArenas, InClosure,
           NoDuplicates, Overlay, Table, SomeUnresolvable, SomeDangling, SomeLeftover, ResolvedFrom;
      ActiveFacts();
      TableFacts();
      CandidateTable(base, before);
      status := ResolveAllPending();
      if status != Success {
        return;
      }
      CheckOutcome();
      ResolvedOverlay(before);
      var visited;
      status, visited := ValidateLiveMemberTypeRefs();
    }

    lemma ResolvedOverlay(before: Candidate)
      requires before.full == full && before.next == nextTypeSlot && before.changes.Keys == changes.Keys
      requires before.added <= addedTypes && WellFormed(base.table + before.added) && WellFormed(Table())
      requires forall h <- changes :: Resolved(Table(), before.changes[h], changes[h], entityTypes)
      ensures ResolvedFrom(base, before, Overlay(), entityTypes)
    {
    }

    /** The steps of prepare_publish once its guards have passed. Apart from
    allocation and the 32-bit size of the table, it fails exactly for what
    CheckCandidate refuses. */
    method PrepareActive(fails: GrowthStage) returns (status: Status)
      requires Active()
      modifies this
      modifies graph`types, graph`namedTypeRefs, graph`typeDependencies, graph`reverseTypeDependents
      ensures CanRollBack() && !committed
      ensures status == Success ==> !old(Refused())
      ensures status == ConfigurationFailed ==> old(Refused())
      ensures status == InitializationFailed ==> fails != NoFailure || |Table()| > MAX_U32 || |rebuiltTable| > MAX_U32
      ensures status != InvalidState && (status != Success ==> failure == status)
      ensures status == Success ==>
                && failure == Success && prepared
                && (if full then ReadyToRebuild() else ReadyIncrementally())
                && entityTypes == old(entityTypes)
                && ResolvedFrom(base, old(Overlay()), Overlay(), entityTypes)
    {
      hide Store.Valid, CandidateValid, PairsMatch, WellFormed, EverySlotPasses, Resolved, ReadyIncrementally, ReadyToRebuild,
           Store.InArenas, Overlay, Table, NamedSize, Refused, Active, CanRollBack;
      ActiveRollsBack();
      status := CheckCandidate();
      if status != Success {
        return;
      }
      if full {
        status := PrepareRebuild();
      } else {
        status := PrepareIncrement(fails);
      }
      if status == Success {
        prepared := true;
      }
    }

    /** prepare_publish: every step that can fail. A failure leaves the committed
    Graph as it was, up to vector growth that Cancel undoes. */
    method PreparePublish(fails: GrowthStage) returns (status: Status)
      requires Active() || (CanRollBack() && (failure != Success || prepared || committed))
      modifies this
      modifies graph`types, graph`namedTypeRefs, graph`typeDependencies, graph`reverseTypeDependents
      ensures status == Success ==> !old(Refused())
      ensures old(Active()) && status == ConfigurationFailed ==> old(Refused())
      ensures old(Active()) ==> status != InvalidState
      ensures old(Active()) && status == InitializationFailed ==>
                fails != NoFailure || |Table()| > MAX_U32 || |rebuiltTable| > MAX_U32
      ensures status != Success ==> failure == status
      ensures status == Success ==>
                && old(Active()) && Ready()
                && entityTypes == old(entityTypes)
                && ResolvedFrom(base, old(Overlay()), Overlay(), entityTypes)
      ensures CanRollBack() && committed == old(committed)
    {
      hide Store.Valid, CandidateValid, PairsMatch, WellFormed, Resolved, ReadyIncrementally, ReadyToRebuild,
           Overlay, Table, NamedSize, Refused;
      if failure != Success {
        return failure;
      }
      if prepared || committed {
        failure := InvalidState;
        return failure;
      }
      status := PrepareActive(fails);
    }

    // ----- Publication -----

    /** Every record now in the committed arenas was there before or comes from the changes. */
    ghost predicate SourcedSoFar()
      reads `changes, graph`types, graph`memberRecords, graph`enumValueRecords
    {
      Sourced(base.types, base.members, base.values, changes, graph.types, graph.memberRecords, graph.enumValueRecords)
    }

    /** Writes one replaced or removed slot in place. */
    method PublishType(handle: nat)
      requires !full && handle in changes && 1 <= handle <= |graph.types|
      requires AllInArenas(graph.types, graph.memberRecords, graph.enumValueRecords)
      modifies graph`types, graph`memberRecords, graph`enumValueRecords
      ensures |graph.types| == old(|graph.types|)
      ensures AllInArenas(graph.types, graph.memberRecords, graph.enumValueRecords)
      ensures ViewIn(graph.types, graph.memberRecords, graph.enumValueRecords, handle) ==
              match changes[handle] {
                case Unchanged => old(ViewIn(graph.types, graph.memberRecords, graph.enumValueRecords, handle))
                case Removed => None
                case Replacement(_, _, _) => Some(ChangedView(changes[handle]))
              }
      ensures forall h: nat :: h != handle ==>
                ViewIn(graph.types, graph.memberRecords, graph.enumValueRecords, h)
                == old(ViewIn(graph.types, graph.memberRecords, graph.enumValueRecords, h))
      ensures old(SourcedSoFar()) ==> SourcedSoFar()
    {
      hide ViewOf, LaidOut, ChangedView, EntryInArenas, Sourced;
      match changes[handle]
      case Unchanged =>
      case Removed =>
        OtherViewsStable(graph.types, graph.types[handle - 1 := None], graph.memberRecords, graph.enumValueRecords, handle - 1,
                         graph.memberRecords, graph.enumValueRecords);
        if SourcedSoFar() {
          SourcedWithout(base.types, base.members, base.values, changes, graph.types, graph.memberRecords,
                         graph.enumValueRecords, graph.types[handle - 1 := None]);
        }
        graph.types := graph.types[handle - 1 := None];
      case Replacement(_, _, _) =>
        var (entry, members, values) := LaidOut(changes[handle], graph.memberRecords, graph.enumValueRecords);
        LaidOutView(changes[handle], graph.memberRecords, graph.enumValueRecords);
        OtherViewsStable(graph.types, graph.types[handle - 1 := Some(entry)], graph.memberRecords, graph.enumValueRecords,
                         handle - 1, members, values);
        if SourcedSoFar() {
          SourcedLaidOut(base.types, base.members, base.values, changes, graph.types, graph.memberRecords,
                         graph.enumValueRecords, handle, graph.types[handle - 1 := Some(entry)]);
        }
        graph.types := graph.types[handle - 1 := Some(entry)];
        graph.memberRecords, graph.enumValueRecords := members, values;
    }

    /** Writes every touched slot; the result is the old map of views overridden by the changes. */
    method PublishTypes()
      requires !full && base.InArenas() && NoDuplicates(changedTypes)
      requires forall h :: h in changedTypes <==> h in changes
      requires forall h <- changes :: 1 <= h <= |graph.types|
      requires AllInArenas(graph.types, graph.memberRecords, graph.enumValueRecords)
      requires forall h: nat :: ViewIn(graph.types, graph.memberRecords, graph.enumValueRecords, h) == base.View(h)
      requires SourcedSoFar()
      modifies graph`types, graph`memberRecords, graph`enumValueRecords
      ensures SourcedSoFar()
      ensures |graph.types| == old(|graph.types|)
      ensures AllInArenas(graph.types, graph.memberRecords, graph.enumValueRecords)
      ensures forall h: nat :: ViewIn(graph.types, graph.memberRecords, graph.enumValueRecords, h)
                            == ViewAfter(base, false, changes, h)
    {
      hide AllInArenas, ViewIn, ChangedView, Store.View, Store.InArenas, SourcedSoFar;
      for i := 0 to |changedTypes|
        invariant |graph.types| == old(|graph.types|)
        invariant AllInArenas(graph.types, graph.memberRecords, graph.enumValueRecords) && SourcedSoFar()
        invariant forall h: nat :: ViewIn(graph.types, graph.memberRecords, graph.enumValueRecords, h)
                    == if h in changedTypes[..i] then ViewAfter(base, false, changes, h) else base.View(h)
      {
        DistinctNext(changedTypes, i);
        TakeNext(changedTypes, i);
        assert changedTypes[i] in changedTypes;
        PublishType(changedTypes[i]);
      }
      TakeAll(changedTypes);
    }

    /** Writes the new named TypeRefs. */
    method PublishNamedRefs()
      requires PairsMatch(addedNamedRefs, addedNamed)
      requires forall p <- addedNamedRefs :: p.0 < |graph.namedTypeRefs| && p.1 != 0
      modifies graph`namedTypeRefs
      ensures NamedMap(graph.namedTypeRefs) == NamedMap(old(graph.namedTypeRefs)) + addedNamed
    {
      hide NamedMap;
      ghost var start := NamedMap(graph.namedTypeRefs);
      ghost var written: map<nat, nat> := map[];
      for i := 0 to |addedNamedRefs|
        invariant |graph.namedTypeRefs| == old(|graph.namedTypeRefs|)
        invariant forall k :: 0 <= k < i ==> addedNamedRefs[k].0 in written
        invariant forall h <- written :: h in addedNamed && written[h] == addedNamed[h]
        invariant NamedMap(graph.namedTypeRefs) == start + written
      {
        var (handle, ref) := addedNamedRefs[i];
        assert addedNamedRefs[i] in addedNamedRefs;
        NamedWritten(graph.namedTypeRefs, handle, ref);
        graph.namedTypeRefs := graph.namedTypeRefs[handle := ref];
        written := written[handle := ref];
      }
      forall h <- addedNamed
        ensures h in written
      {
        assert (h, addedNamed[h]) in addedNamedRefs;
      }
      assert written == addedNamed;
    }

    lemma ReadyFacts()
      requires ReadyIncrementally()
      ensures base.Valid() && base.InArenas() && CandidateValid(base, Overlay()) && EverySlotPasses(base, Overlay())
      ensures OrderMatches(Overlay())
      ensures preparedForward == ForwardAfter(base, Overlay(), changedTypes)
      ensures preparedReverse == ReverseAfter(base, Overlay(), changedTypes)
      ensures IndexUpdatesExact(base, Overlay(), preparedForward, preparedReverse)
      ensures PairsMatch(addedNamedRefs, addedNamed)
      ensures graph.types == PadTo(base.types, nextTypeSlot - 1, None)
      ensures graph.memberRecords == base.members && graph.enumValueRecords == base.values
      ensures graph.canonicalTypes == base.table && graph.derivedTypeIndex == base.derivedIndex
      ensures graph.namedTypeRefs == PadTo(base.namedRefs, NamedSize(), 0)
      ensures graph.typeDependencies == PadTo(base.forward, nextTypeSlot, [])
      ensures graph.reverseTypeDependents == PadTo(base.reverse, nextTypeSlot, [])
      ensures Overlay() == Candidate(full, changes, changedTypes, nextTypeSlot, addedTypes, addedNamed, addedDerived)
    {
      hide Store.Valid, AddedValid, BuildValid, IndexUpdatesExact, WellFormed, EverySlotPasses, PairsMatch, PadTo,
           OrderMatches, ForwardAfter, ReverseAfter;
      ArenasOf(base);
    }

    /** publish_prepared of an incremental update: writes in place, cannot fail. It takes for
    granted that every touched slot lies in the grown vectors. */
    method PublishIncrement()
      requires !full && ReadyIncrementally() && Contained(Overlay())
      modifies graph
      ensures IncrementalStep(base, Overlay(), graph.Snapshot())
      ensures graph.Valid()
    {
      hide *;
      ghost var overlay := Overlay();
      ReadyFacts();
      PublishStarts(base, overlay, NamedSize(), addedNamedRefs, preparedForward, preparedReverse);
      NamedSizeCovers();
      PaddedSourced(base, nextTypeSlot, changes);
      SourcedStarts();
      PublishTypes();
      graph.canonicalTypes := graph.canonicalTypes + addedTypes;
      PublishNamedRefs();
      graph.derivedTypeIndex := graph.derivedTypeIndex + addedDerived;
      graph.typeDependencies := Replaced(graph.typeDependencies, preparedForward);
      graph.reverseTypeDependents := Replaced(graph.reverseTypeDependents, preparedReverse);
      graph.StoreFields();
      SourcedEnds();
      PublishEnds(base, overlay, preparedForward, preparedReverse, graph.Snapshot());
      IncrementIsStep(base, overlay, preparedForward, preparedReverse, graph.Snapshot());
      IncrementalStepValid(base, overlay, graph.Snapshot());
      graph.ValidFrom();
    }

    lemma SourcedStarts()
      requires nextTypeSlot >= 1 && graph.types == PadTo(base.types, nextTypeSlot - 1, None)
      requires Sourced(base.types, base.members, base.values, changes, PadTo(base.types, nextTypeSlot - 1, None),
                       base.members, base.values)
      requires graph.memberRecords == base.members && graph.enumValueRecords == base.values
      ensures SourcedSoFar()
    {
      hide Sourced, PadTo;
    }

    lemma SourcedEnds()
      requires SourcedSoFar()
      ensures Sourced(base.types, base.members, base.values, changes, graph.types, graph.memberRecords, graph.enumValueRecords)
    {
    }

    lemma NamedSizeCovers()
      ensures forall p <- addedNamedRefs :: p.0 < NamedSize()
    {
    }

    /** The update as one step of a run. */
    ghost function AsCommit(): Commit
      reads `changes, `changedTypes, `nextTypeSlot, `addedTypes, `addedNamed, `addedDerived, `carriedChanges
    {
      if full then Rebuild(Overlay(), carriedChanges) else Incremental(Overlay())
    }

    /** publish_prepared: in either mode the committed Graph takes one step of a run. */
    method PublishPrepared()
      requires Ready() && (full || Contained(Overlay()))
      modifies this`committed, this`preparedOwnerGrowth, graph
      ensures committed && graph.Valid()
      ensures Step(base, AsCommit(), graph.Snapshot())
      ensures full ==> graph.Snapshot() == rebuilt
    {
      hide Store.Valid, IncrementalStep, RebuildStep, ReadyIncrementally, Overlay;
      if full {
        graph.types, graph.memberRecords, graph.enumValueRecords := rebuilt.types, rebuilt.members, rebuilt.values;
        graph.canonicalTypes, graph.namedTypeRefs, graph.derivedTypeIndex := rebuilt.table, rebuilt.namedRefs, rebuilt.derivedIndex;
        graph.typeDependencies, graph.reverseTypeDependents := rebuilt.forward, rebuilt.reverse;
      } else {
        PublishIncrement();
        preparedOwnerGrowth := false;
      }
      committed := true;
    }

    /** cancel: undoes vector growth, so that the committed Graph is exactly what it was. */
    method Cancel()
      requires committed || CanRollBack()
      modifies this`preparedOwnerGrowth, this`prepared, this`failure
      modifies graph`types, graph`namedTypeRefs, graph`typeDependencies, graph`reverseTypeDependents
      ensures !committed ==> graph.Snapshot() == base && failure == InvalidState && prepared
      ensures committed ==> graph.Snapshot() == old(graph.Snapshot())
    {
      if committed {
        return;
      }
      if preparedOwnerGrowth && !full {
        if |graph.types| > preparedTypesSize {
          graph.types := graph.types[..preparedTypesSize];
        }
        if |graph.namedTypeRefs| > preparedNamedSize {
          graph.namedTypeRefs := graph.namedTypeRefs[..preparedNamedSize];
        }
        if |graph.typeDependencies| > preparedForwardSize {
          graph.typeDependencies := graph.typeDependencies[..preparedForwardSize];
        }
        if |graph.reverseTypeDependents| > preparedReverseSize {
          graph.reverseTypeDependents := graph.reverseTypeDependents[..preparedReverseSize];
        }
        preparedOwnerGrowth := false;
      }
      prepared := true;
      failure := InvalidState;
    }
  }

  /** A record whose child does not exist yet cannot be part of a table. */
  lemma DanglingRecord(table: seq<Record>, key: DerivedKey)
    requires WellFormed(table) && key.child >= |table|
    ensures !WellFormed(table + [Derived(key)])
  {
    assert (table + [Derived(key)])[|table|] == Derived(key);
  }

  lemma SlotTouchable(c: Candidate, handle: nat, change: Change)
    requires 1 <= handle <= c.next
    ensures Touchable(c, handle, change, handle == c.next)
  {
  }

  lemma AggregateBuildValid(s: Store, c: Candidate, handle: nat, defined: bool)
    requires CandidateValid(s, c)
    ensures BuildValid(s.table + c.added, c.next, Replacement(Aggregate, PLAIN, AggregateBuild(c.changes, handle, defined)))
  {
    if handle in c.changes {
      assert BuildValid(s.table + c.added, c.next, c.changes[handle]);
    }
  }

  /** An aggregate that is given modifiers and no member is taken by define_members
  and refused when the update is checked, although every reference resolves. */
  method LeftoverModifiersRefused() returns (given: Status, checked: Status)
    ensures given == Success && checked == ConfigurationFailed
  {
    hide GraphUpdate.Active, GraphUpdate.Refused, EmptyStore, WellFormed;
    var graph := new Graph();
    EmptyTable();
    var update := new GraphUpdate(graph, false, map[]);
    assert |update.Table()| == PREFIX_SIZE;
    given := update.MaterializeAggregate(1, 1, true);
    given := update.DefineMembers(1, [], [Modifier(Pointer, 0)]);
    update.LeftoverRefused(1);
    checked := update.CheckCandidate();
  }

  /** A rebuild whose only enum draws slot 1 lays out no slot. */
  method RebuildDrawing(graph: Graph) returns (status: Status)
    requires graph.Valid()
    modifies graph
    ensures status == Success || status == InitializationFailed
    ensures graph.Valid() && (status == Success ==> graph.types == [])
  {
    hide GraphUpdate.Active, GraphUpdate.Ready, GraphUpdate.Refused, GraphUpdate.CanRollBack, Store.Valid, Step, ResolvedFrom;
    var update := new GraphUpdate(graph, true, map[]);
    update.AddAnonymousEnum(1, true, PLAIN, []);
    ghost var c := update.Overlay();
    update.EnumsNotRefused();
    status := update.PreparePublish(NoFailure);
    if status != Success {
      update.NothingPublished();
      return;
    }
    ResolvedStays(update.base, c, update.Overlay(), update.entityTypes);
    update.PublishPrepared();
    NothingLaidOut(update.base, update.AsCommit(), graph.Snapshot());
  }

  /** A slot that nobody is told about: the rebuild above leaves its Source the number 1, and
  the next increment gives that enum up. Nothing refuses the increment, and it is ready to
  write slot 1 of vectors that have no such place. */
  method LostSlotPrepared(graph: Graph) returns (status: Status, update: GraphUpdate)
    requires graph.Valid()
    modifies graph
    ensures fresh(update) && update.graph == graph
    ensures status == Success || status == InitializationFailed
    ensures status == Success ==> update.Ready() && !update.full && |graph.types| == 0 && 1 in update.changes
    ensures status == Success ==> !Contained(update.Overlay())
  {
    hide GraphUpdate.Active, GraphUpdate.Ready, GraphUpdate.Refused, GraphUpdate.CanRollBack, Store.Valid, ResolvedFrom;
    status := RebuildDrawing(graph);
    if status != Success {
      update := new GraphUpdate(graph, false, map[]);
      return;
    }
    update := new GraphUpdate(graph, false, map[]);
    update.ReleaseAnonymous(1);
    update.RemovalsNotRefused();
    ghost var c := update.Overlay();
    status := update.PreparePublish(NoFailure);
    if status == Success {
      ResolvedStays(update.base, c, update.Overlay(), update.entityTypes);
      update.GrownTypes();
    }
  }

  /** Resolution touches no other slots and counts no more of them. */
  lemma ResolvedStays(s: Store, c: Candidate, c': Candidate, entityTypes: map<nat, nat>)
    requires ResolvedFrom(s, c, c', entityTypes)
    ensures c'.full == c.full && c'.next == c.next && c'.changes.Keys == c.changes.Keys
    ensures Contained(c') <==> Contained(c)
  {
    hide WellFormed, Resolved;
  }

  lemma NothingLaidOut(s: Store, commit: Commit, s': Store)
    requires Step(s, commit, s') && commit.Rebuild? && commit.candidate.next == 1
    ensures s'.types == []
  {
    hide Store.Valid, CandidateValid, EverySlotPasses, Sourced;
  }

  lemma EmptyTable()
    ensures |EmptyStore().table| == PREFIX_SIZE
  {
  }

  lemma OrderFacts(c: Candidate)
    requires OrderMatches(c)
    ensures forall h <- c.order :: h in c.changes
  {
  }

  lemma NoLists(s: Store, c: Candidate)
    requires CandidateValid(s, c)
    ensures c.order[..0] == [] && ForwardAfter(s, c, []) == map[] && ReverseAfter(s, c, []) == map[]
  {
  }

  lemma ListsNext(s: Store, c: Candidate, done: seq<nat>, i: nat)
    requires CandidateValid(s, c) && i < |done| && forall h <- done :: h in c.changes
    ensures (forall h <- done[..i + 1] :: h in c.changes) && (forall h <- done[..i] :: h in c.changes)
    ensures ForwardAfter(s, c, done[..i + 1]) == ForwardAfter(s, c, done[..i])[done[i] := NewList(s, c, done[i])]
    ensures var current := NewList(s, c, done[i]);
            ReverseAfter(s, c, done[..i + 1])
            == WithEdges(s, ReverseAfter(s, c, done[..i]), done[i], current, Affected(At(s.forward, done[i]), current))
  {
    hide CandidateValid, NewList, WithEdges, Affected, At;
    assert done[..i + 1][..i] == done[..i] && done[..i + 1] == done[..i] + [done[i]];
  }

  lemma AffectedNone(previous: seq<nat>, current: seq<nat>)
    ensures Affected(previous, current[..0]) == previous
  {
  }

  lemma AffectedNext(previous: seq<nat>, current: seq<nat>, i: nat)
    requires i < |current|
    ensures Affected(previous, current[..i + 1]) == PushNew(Affected(previous, current[..i]), current[i])
  {
    assert current[..i + 1][..i] == current[..i];
  }

  lemma WithoutEdges(s: Store, reverse: map<nat, seq<nat>>, handle: nat, current: seq<nat>, affected: seq<nat>)
    ensures WithEdges(s, reverse, handle, current, affected[..0]) == reverse
  {
  }

  lemma WithEdgesNext(s: Store, reverse: map<nat, seq<nat>>, handle: nat, current: seq<nat>, affected: seq<nat>, k: nat)
    requires k < |affected|
    ensures var before := WithEdges(s, reverse, handle, current, affected[..k]);
            var dependents := if affected[k] in before then before[affected[k]] else At(s.reverse, affected[k]);
            var others := Without(dependents, handle);
            WithEdges(s, reverse, handle, current, affected[..k + 1])
            == before[affected[k] := if affected[k] in current then PushNew(others, handle) else others]
  {
    hide Without, PushNew;
    assert affected[..k + 1][..k] == affected[..k];
  }

  lemma PublishStarts(s: Store, c: Candidate, namedSize: nat, pairs: seq<(nat, nat)>, forward: map<nat, seq<nat>>,
                      reverse: map<nat, seq<nat>>)
    requires s.Valid() && CandidateValid(s, c) && !c.full && s.InArenas() && Contained(c)
    requires PairsMatch(pairs, c.addedNamed)
    requires IndexUpdatesExact(s, c, forward, reverse)
    ensures NoDuplicates(c.order) && forall h :: h in c.order <==> h in c.changes
    ensures c.next >= 1 && |PadTo(s.types, c.next - 1, None)| == c.next - 1
    ensures forall h <- c.changes :: 1 <= h <= c.next - 1
    ensures AllInArenas(PadTo(s.types, c.next - 1, None), s.members, s.values)
    ensures forall h: nat :: ViewIn(PadTo(s.types, c.next - 1, None), s.members, s.values, h) == s.View(h)
    ensures |PadTo(s.namedRefs, namedSize, 0)| >= namedSize
    ensures NamedMap(PadTo(s.namedRefs, namedSize, 0)) == NamedMap(s.namedRefs)
    ensures forall p <- pairs :: p.1 != 0
    ensures |Replaced(PadTo(s.forward, c.next, []), forward)| == c.next
    ensures |Replaced(PadTo(s.reverse, c.next, []), reverse)| == c.next
    ensures forall h: nat :: At(Replaced(PadTo(s.forward, c.next, []), forward), h) == Overridden(s.forward, forward, h)
    ensures forall h: nat :: At(Replaced(PadTo(s.reverse, c.next, []), reverse), h) == Overridden(s.reverse, reverse, h)
  {
    hide BuildValid, Indexed, IndexUpdatesExact, Dependencies, Store.TableValid, Store.MembersResolve;
    WorkStarts(s, c);
    PaddedTypes(s, c.next);
    NamedPadded(s.namedRefs, namedSize);
    AddedRefsValid(s, c, pairs);
    UpdateBounds(s, c, forward, reverse);
    PaddedReplaced(s.forward, c.next, forward);
    PaddedReplaced(s.reverse, c.next, reverse);
  }

  lemma AddedRefsValid(s: Store, c: Candidate, pairs: seq<(nat, nat)>)
    requires CandidateValid(s, c) && !c.full && PairsMatch(pairs, c.addedNamed)
    ensures forall p <- pairs :: p.1 != 0
  {
    forall p <- pairs
      ensures p.1 != 0
    {
      var i :| 0 <= i < |pairs| && pairs[i] == p;
      assert p.0 in NamedMap(s.namedRefs) + c.addedNamed;
    }
  }

  lemma UpdateBounds(s: Store, c: Candidate, forward: map<nat, seq<nat>>, reverse: map<nat, seq<nat>>)
    requires s.Valid() && CandidateValid(s, c) && !c.full && Contained(c) && IndexUpdatesExact(s, c, forward, reverse)
    ensures forall h <- forward :: h < c.next
    ensures forall h <- reverse :: h < c.next
    ensures |s.forward| <= c.next && |s.reverse| <= c.next
  {
    ChangesInRange(s, c);
  }

  /** A vector with the prepared entries swapped in. */
  function Replaced(vector: seq<seq<nat>>, updates: map<nat, seq<nat>>): seq<seq<nat>> {
    seq(|vector|, i requires 0 <= i < |vector| => if i in updates then updates[i] else vector[i])
  }

  lemma PaddedReplaced(vector: seq<seq<nat>>, size: nat, updates: map<nat, seq<nat>>)
    requires |vector| <= size && forall h <- updates :: h < size
    ensures |PadTo(vector, size, [])| == |Replaced(PadTo(vector, size, []), updates)| == size
    ensures forall h: nat :: At(Replaced(PadTo(vector, size, []), updates), h) == Overridden(vector, updates, h)
  {
  }

  lemma PaddedSourced(s: Store, next: nat, changes: Changes)
    requires next >= 1
    ensures Sourced(s.types, s.members, s.values, changes, PadTo(s.types, next - 1, None), s.members, s.values)
  {
  }

  lemma IncrementIsStep(s: Store, c: Candidate, forward: map<nat, seq<nat>>, reverse: map<nat, seq<nat>>, s': Store)
    requires s.Valid() && s.InArenas() && CandidateValid(s, c) && !c.full && Contained(c)
    requires EverySlotPasses(s, c) && OrderMatches(c)
    requires forward == ForwardAfter(s, c, c.order) && reverse == ReverseAfter(s, c, c.order)
    requires PublishedIncrementally(s, c, forward, reverse, s')
    ensures IncrementalStep(s, c, s')
  {
    CandidateTable(s, c);
    hide Store.Valid, CandidateValid, PublishedIncrementally, SlotPasses, InClosure, ForwardAfter, ReverseAfter, OrderMatches,
         WellFormed;
    forall h: nat | InClosure(s, c, h)
      ensures SlotPasses(s, c, h)
    {
      ClosureInRange(s, c, h);
    }
  }

  lemma ClosureInRange(s: Store, c: Candidate, h: nat)
    requires s.Valid() && CandidateValid(s, c) && !c.full && InClosure(s, c, h)
    ensures h in c.changes || 1 <= h < c.next
  {
    hide Store.Valid, CandidateValid;
    var path :| DependentPath(s, c, path, h);
    if |path| > 1 {
      DependentInRange(s, c, path[|path| - 2], path[|path| - 1]);
    }
  }

  lemma PublishEnds(s: Store, c: Candidate, forward: map<nat, seq<nat>>, reverse: map<nat, seq<nat>>, s': Store)
    requires s.InArenas() && c.next >= 1
    requires |s'.types| == c.next - 1 && AllInArenas(s'.types, s'.members, s'.values)
    requires forall h: nat :: ViewIn(s'.types, s'.members, s'.values, h) == ViewAfter(s, false, c.changes, h)
    requires Sourced(s.types, s.members, s.values, c.changes, s'.types, s'.members, s'.values)
    requires s'.table == s.table + c.added
    requires NamedMap(s'.namedRefs) == NamedMap(s.namedRefs) + c.addedNamed
    requires s'.derivedIndex == s.derivedIndex + c.addedDerived
    requires |s'.forward| == |s'.reverse| == c.next
    requires forall h: nat :: At(s'.forward, h) == Overridden(s.forward, forward, h)
    requires forall d: nat :: At(s'.reverse, d) == Overridden(s.reverse, reverse, d)
    ensures PublishedIncrementally(s, c, forward, reverse, s')
  {
    hide ViewOf, ViewAfter, NamedMap, At, Overridden, Sourced;
    forall h: nat
      ensures s'.View(h) == ViewAfter(s, false, c.changes, h)
    {
      assert ViewIn(s'.types, s'.members, s'.values, h) == ViewAfter(s, false, c.changes, h);
    }
  }

  lemma RebuiltDetached(s: Store, c: Candidate, carried: Changes, s': Store)
    requires s.Valid() && CandidateValid(s, c) && c.full && WellFormed(s.table + c.added)
    requires s.InArenas() && EverySlotPasses(s, c)
    requires CarriedOver(s, c, carried, s'.table, s'.namedRefs, s'.derivedIndex)
    requires LaidOutFor(s, c.next, carried, s'.types, s'.members, s'.values)
    ensures WellFormed(s'.table) && s'.InArenas()
    ensures PublishedByRebuild(s, c, carried, s')
    ensures forall h :: SlotIndexable(s'.types, s'.members, s'.table, h)
  {
    hide Store.Valid, CandidateValid, WellFormed, EverySlotPasses, SameChange, RebuiltView, ViewIn, SlotIndexable,
         Store.MembersResolve, PublishedByRebuild, Sourced, Indexed;
    RebuiltWellFormed(s'.table, s'.namedRefs, s'.derivedIndex, c.next);
    RebuiltViews(s, c, carried, s');
    RebuiltMembersResolve(s, c, carried, s');
    ResolvingIsIndexable(s');
  }

  /** The detached storage together with its dependency lists is what a rebuild commits. */
  lemma RebuiltComplete(s: Store, c: Candidate, carried: Changes, detached: Store, forward: seq<seq<nat>>,
                        reverse: seq<seq<nat>>)
    requires s.Valid() && CandidateValid(s, c) && c.full && s.InArenas() && WellFormed(s.table + c.added)
    requires EverySlotPasses(s, c)
    requires PublishedByRebuild(s, c, carried, detached) && WellFormed(detached.table)
    requires Built(detached.types, detached.members, detached.table, forward, reverse)
    ensures RebuildStep(s, c, carried, detached.(forward := forward, reverse := reverse))
    ensures detached.(forward := forward, reverse := reverse).Valid()
  {
    hide Store.Valid, CandidateValid, WellFormed, EverySlotPasses, SameChange, RebuiltView, Built, Sourced, RebuiltTableValid,
         ViewOf;
    var s' := detached.(forward := forward, reverse := reverse);
    forall h: nat
      ensures s'.InArenas() && s'.View(h) == detached.View(h)
    {
    }
    RebuildStepValid(s, c, carried, s');
  }

  lemma CarriedKeys(s: Store, c: Candidate, carried: Changes, table: seq<Record>, named: seq<nat>,
                    derived: map<DerivedKey, nat>)
    requires WellFormed(s.table + c.added) && CarriedOver(s, c, carried, table, named, derived)
    ensures carried.Keys == c.changes.Keys && WellFormed(table)
  {
  }

  lemma RebuiltViews(s: Store, c: Candidate, carried: Changes, s': Store)
    requires s.InArenas() && WellFormed(s.table + c.added)
    requires carried.Keys == c.changes.Keys
    requires |s'.types| == c.next - 1
    requires RebuiltTableValid(s'.table, s'.namedRefs, s'.derivedIndex, c.next) && WellFormed(s'.table)
    requires NamesCover(c.changes, c.next, s'.namedRefs)
    requires forall h <- c.changes :: SameChange(s.table + c.added, c.changes[h], s'.table, carried[h])
    requires AllInArenas(s'.types, s'.members, s'.values)
    requires forall h: nat :: ViewIn(s'.types, s'.members, s'.values, h) == RebuiltView(s, c.next, carried, h)
    requires Sourced([], [], [], carried, s'.types, s'.members, s'.values)
    ensures PublishedByRebuild(s, c, carried, s')
  {
    hide RebuiltTableValid, WellFormed, SameChange, RebuiltView, ViewOf, Sourced;
    forall h: nat
      ensures s'.View(h) == RebuiltView(s, c.next, carried, h)
    {
      assert ViewIn(s'.types, s'.members, s'.values, h) == RebuiltView(s, c.next, carried, h);
    }
  }

  /** std::max over the handles, plus one; zero for an empty list. */
  function MaxHandle(pairs: seq<(nat, nat)>): (size: nat)
    ensures forall p <- pairs :: p.0 < size
  {
    if pairs == [] then 0
    else
      var rest := MaxHandle(pairs[1..]);
      assert forall p <- pairs :: p == pairs[0] || p in pairs[1..];
      if pairs[0].0 + 1 > rest then pairs[0].0 + 1 else rest
  }

  /** candidate_types.size(): past every touched slot. */
  function HandleLimit(handles: seq<nat>, least: nat): (limit: nat)
    ensures limit >= least && forall h <- handles :: h < limit
  {
    if handles == [] then least
    else
      var rest := HandleLimit(handles[1..], least);
      assert forall h <- handles :: h == handles[0] || h in handles[1..];
      if handles[0] + 1 > rest then handles[0] + 1 else rest
  }

  lemma PendingFound(changes: Changes, h: nat)
    requires h in changes && changes[h].Replacement? && changes[h].build.pendingMembers != []
    ensures SomePending(changes)
  {
  }

  /** The loop state of resolution: slots before `i` in the order are resolved, the others as at the start. */
  ghost predicate ResolvedBefore(table: seq<Record>, order: seq<nat>, i: nat, start: Changes, now: Changes,
                                 entityTypes: map<nat, nat>)
    requires WellFormed(table) && i <= |order|
  {
    && (forall k :: 0 <= k < |order| ==> order[k] in start && order[k] in now)
    && (forall k :: 0 <= k < i ==> Resolved(table, start[order[k]], now[order[k]], entityTypes))
    && (forall k :: i <= k < |order| ==> now[order[k]] == start[order[k]])
  }

  lemma NothingResolved(table: seq<Record>, order: seq<nat>, start: Changes, entityTypes: map<nat, nat>)
    requires WellFormed(table) && forall h <- order :: h in start
    ensures ResolvedBefore(table, order, 0, start, start, entityTypes)
  {
  }

  lemma NotYetResolved(table: seq<Record>, order: seq<nat>, i: nat, start: Changes, now: Changes,
                       entityTypes: map<nat, nat>)
    requires WellFormed(table) && i < |order| && ResolvedBefore(table, order, i, start, now, entityTypes)
    ensures order[i] in start && now[order[i]] == start[order[i]]
  {
  }

  lemma ResolvedNext(table: seq<Record>, longer: seq<Record>, order: seq<nat>, i: nat, start: Changes, now: Changes,
                     now': Changes, entityTypes: map<nat, nat>)
    requires WellFormed(table) && WellFormed(longer) && table <= longer
    requires NoDuplicates(order) && i < |order|
    requires ResolvedBefore(table, order, i, start, now, entityTypes)
    requires order[i] in now' && now' == now[order[i] := now'[order[i]]]
    requires Resolved(longer, now[order[i]], now'[order[i]], entityTypes)
    ensures ResolvedBefore(longer, order, i + 1, start, now', entityTypes)
  {
    hide Resolved, WellFormed;
    forall k | 0 <= k < i
      ensures Resolved(longer, start[order[k]], now'[order[k]], entityTypes)
    {
      ResolvedExtend(table, longer, start[order[k]], now[order[k]], entityTypes);
    }
  }

  lemma SkippedNext(table: seq<Record>, order: seq<nat>, i: nat, start: Changes, now: Changes,
                    entityTypes: map<nat, nat>)
    requires WellFormed(table) && i < |order| && ResolvedBefore(table, order, i, start, now, entityTypes)
    requires !(now[order[i]].Replacement? && now[order[i]].kind.Aggregate?)
    ensures ResolvedBefore(table, order, i + 1, start, now, entityTypes)
  {
  }

  lemma AllResolved(s: Store, c: Candidate, table: seq<Record>, start: Changes, entityTypes: map<nat, nat>)
    requires CandidateValid(s, c) && WellFormed(table) && c.changes.Keys == start.Keys
    requires ResolvedBefore(table, c.order, |c.order|, start, c.changes, entityTypes)
    ensures forall h <- c.changes :: Resolved(table, start[h], c.changes[h], entityTypes)
  {
    hide Resolved, WellFormed, AddedValid, BuildValid;
    forall h <- c.changes
      ensures Resolved(table, start[h], c.changes[h], entityTypes)
    {
      assert h in SetOf(c.order);
    }
  }

  lemma NextAtLeastOne(s: Store, c: Candidate)
    requires CandidateValid(s, c)
    ensures c.next >= 1
  {
  }

  lemma EmptyRemap(table: seq<Record>, remap: seq<nat>, rebuilt: seq<Record>, named: seq<nat>,
                   derived: map<DerivedKey, nat>, next: nat)
    requires WellFormed(table) && RebuiltTableValid(rebuilt, named, derived, next)
    requires |remap| == |table| && forall i :: 0 <= i < |remap| ==> remap[i] == 0
    ensures WellFormed(rebuilt) && RemapValid(table, remap, rebuilt)
  {
  }

  lemma CheckedMembersRemap(s: Store, c: Candidate, handle: nat, named: seq<nat>)
    requires s.InArenas() && CandidateValid(s, c) && c.full
    requires WellFormed(s.table + c.added) && EverySlotPasses(s, c)
    requires handle in c.changes && c.changes[handle].Replacement? && c.changes[handle].kind.Aggregate?
    requires |named| == c.next && forall h <- c.changes :: c.changes[h].Replacement? && h < c.next ==> named[h] != 0
    ensures forall m <- c.changes[handle].build.members ::
              && IsRef(s.table + c.added, m.ref)
              && (Base(s.table + c.added, m.ref) == 0
                  || (Base(s.table + c.added, m.ref) < |named| && named[Base(s.table + c.added, m.ref)] != 0))
  {
    forall m <- c.changes[handle].build.members
      ensures IsRef(s.table + c.added, m.ref)
      ensures Base(s.table + c.added, m.ref) == 0
              || (Base(s.table + c.added, m.ref) < |named| && named[Base(s.table + c.added, m.ref)] != 0)
    {
      CheckedMemberRemaps(s, c, handle, m);
    }
  }

  lemma CarriedExtend(table: seq<Record>, changes: Changes, rebuilt: seq<Record>, longer: seq<Record>,
                      carried: Changes, handle: nat)
    requires WellFormed(table) && WellFormed(rebuilt) && WellFormed(longer) && rebuilt <= longer
    requires carried.Keys == changes.Keys
    requires forall h <- changes :: h < handle ==> SameChange(table, changes[h], rebuilt, carried[h])
    ensures forall h <- changes :: h < handle ==> SameChange(table, changes[h], longer, carried[h])
  {
    hide SameChange, WellFormed;
    forall h <- changes | h < handle
      ensures SameChange(table, changes[h], longer, carried[h])
    {
      SameChangeExtend(table, changes[h], rebuilt, longer, carried[h]);
    }
  }

  lemma CarriedSlot(table: seq<Record>, change: Change, rebuilt: seq<Record>, members: seq<Member>)
    requires WellFormed(table) && WellFormed(rebuilt) && change.Replacement?
    requires change.kind.Aggregate? && SameMembers(table, change.build.members, rebuilt, members)
    ensures SameChange(table, change, rebuilt, change.(build := change.build.(members := members)))
  {
  }

  lemma OtherSlot(table: seq<Record>, change: Change, rebuilt: seq<Record>)
    requires WellFormed(table) && WellFormed(rebuilt)
    requires !(change.Replacement? && change.kind.Aggregate?)
    ensures SameChange(table, change, rebuilt, change)
  {
  }

  lemma ChangesInRange(s: Store, c: Candidate)
    requires CandidateValid(s, c) && Contained(c)
    ensures forall h <- c.changes :: 1 <= h < c.next
  {
  }

  lemma ChangesFromOne(s: Store, c: Candidate)
    requires CandidateValid(s, c)
    ensures forall h <- c.changes :: 1 <= h
  {
  }

  lemma StrayIsEnum(s: Store, c: Candidate, h: nat)
    requires CandidateValid(s, c) && c.full && h in c.changes && h >= c.next
    ensures c.changes[h].Replacement? && c.changes[h].kind.Enumeration?
  {
  }

  lemma NothingSourced(changes: Changes)
    ensures Sourced([], [], [], changes, [], [], [])
  {
  }

  lemma RebuiltWellFormed(rebuilt: seq<Record>, named: seq<nat>, derived: map<DerivedKey, nat>, next: nat)
    requires RebuiltTableValid(rebuilt, named, derived, next)
    ensures WellFormed(rebuilt)
  {
  }

  lemma RebuiltBuiltin(table: seq<Record>, rebuilt: seq<Record>, named: seq<nat>, derived: map<DerivedKey, nat>,
                       next: nat, ref: nat)
    requires WellFormed(table) && RebuiltTableValid(rebuilt, named, derived, next)
    requires IsRef(table, ref) && table[ref].Builtin?
    ensures IsRef(rebuilt, table[ref].code + 1)
    ensures Meaning(rebuilt, table[ref].code + 1) == Meaning(table, ref)
  {
  }

  lemma NamedRecord(table: seq<Record>, ref: nat)
    requires WellFormed(table) && IsRef(table, ref) && table[ref].Named?
    ensures table[ref].handle != 0 && Base(table, ref) == table[ref].handle
  {
  }

  lemma DerivedRecord(table: seq<Record>, ref: nat)
    requires WellFormed(table) && IsRef(table, ref) && table[ref].Derived?
    ensures IsRef(table, table[ref].key.child) && table[ref].key.child < ref
    ensures PayloadFits(table[ref].key.kind, table[ref].key.payload)
    ensures Base(table, ref) == Base(table, table[ref].key.child)
    ensures Meaning(table, ref) == DerivedTree(table[ref].key.kind, table[ref].key.payload, Meaning(table, table[ref].key.child))
  {
  }

  lemma RemapMemo(table: seq<Record>, remap: seq<nat>, rebuilt: seq<Record>, ref: nat, output: nat)
    requires WellFormed(table) && WellFormed(rebuilt) && RemapValid(table, remap, rebuilt)
    requires IsRef(table, ref) && IsRef(rebuilt, output) && Meaning(rebuilt, output) == Meaning(table, ref)
    ensures RemapValid(table, remap[ref := output], rebuilt)
  {
  }

  lemma ArenasOf(s: Store)
    requires s.Valid()
    ensures s.InArenas() && WellFormed(s.table)
  {
  }

  lemma SkippedSlotPasses(s: Store, c: Candidate, handle: nat)
    requires s.InArenas() && CandidateValid(s, c) && c.full
    requires !(handle in c.changes && c.changes[handle].Replacement?)
    ensures WellFormed(s.table + c.added) && SlotPasses(s, c, handle)
  {
  }

  lemma SomeSlotFails(s: Store, c: Candidate, handle: nat)
    requires s.InArenas() && WellFormed(s.table + c.added) && (1 <= handle < c.next || handle in c.changes)
    requires !SlotPasses(s, c, handle)
    ensures !EverySlotPasses(s, c)
  {
  }

  lemma EverySlotFrom(s: Store, c: Candidate, limit: nat)
    requires s.InArenas() && CandidateValid(s, c) && WellFormed(s.table + c.added)
    requires c.next <= limit && forall h <- c.changes :: h < limit
    requires forall h :: 1 <= h < limit ==> SlotPasses(s, c, h)
    ensures EverySlotPasses(s, c)
  {
  }

  lemma WorkStarts(s: Store, c: Candidate)
    requires CandidateValid(s, c)
    ensures NoDuplicates(c.order)
    ensures forall h <- c.order :: 1 <= h && h in c.changes && InClosure(s, c, h)
    ensures forall h <- c.changes :: h in c.order
  {
    assert forall h :: h in c.order <==> h in SetOf(c.order);
    forall h <- c.order
      ensures InClosure(s, c, h)
    {
      assert h in SetOf(c.order);
      ClosureRoot(s, c, h);
    }
    assert forall h <- c.changes :: h in SetOf(c.order);
  }

  lemma DependentInRange(s: Store, c: Candidate, handle: nat, dependent: nat)
    requires s.Valid() && CandidateValid(s, c) && !c.full && dependent in At(s.reverse, handle)
    ensures 1 <= dependent < c.next
  {
    assert handle in At(s.forward, dependent);
  }

  lemma WorkComplete(s: Store, c: Candidate, work: seq<nat>)
    requires s.Valid() && CandidateValid(s, c) && !c.full
    requires s.InArenas() && WellFormed(s.table + c.added)
    requires forall h <- work :: InClosure(s, c, h)
    requires forall h <- c.changes :: h in work
    requires forall i :: 0 <= i < |work| ==> SlotPasses(s, c, work[i])
    requires forall i, h :: 0 <= i < |work| && h in At(s.reverse, work[i]) ==> h in work
    ensures EverySlotPasses(s, c)
    ensures forall h :: h in work <==> InClosure(s, c, h)
  {
    hide Store.Valid, CandidateValid, SlotPasses, EverySlotPasses, At, WellFormed, DependentPath;
    forall d: nat, h: nat | d in work && h in At(s.reverse, d)
      ensures h in work
    {
      var i :| 0 <= i < |work| && work[i] == d;
    }
    forall h: nat | InClosure(s, c, h)
      ensures h in work
    {
      var path :| DependentPath(s, c, path, h);
      ClosureIsLeast(s, c, work, path, h);
    }
    forall h: nat | InClosure(s, c, h)
      ensures SlotPasses(s, c, h)
    {
      var i :| 0 <= i < |work| && work[i] == h;
    }
    ClosureCheckIsGlobal(s, c);
  }

  lemma BuiltinMeaning(table: seq<Record>, code: BuiltinCode)
    requires WellFormed(table)
    ensures IsRef(table, code + 1) && Meaning(table, code + 1) == BuiltinTree(code)
  {
  }

  lemma WrapNone(tree: Tree, modifiers: seq<Modifier>, begin: nat)
    requires begin <= |modifiers|
    ensures Wrap(tree, modifiers[begin..begin]) == tree
  {
  }

  lemma DeclaredTypeIsWrap(m: MemberBuild, modifiers: seq<Modifier>, entityTypes: map<nat, nat>)
    requires Resolvable(m, modifiers, entityTypes)
    ensures DeclaredType(m, modifiers, entityTypes)
         == Wrap(DeclaredBase(m, entityTypes), modifiers[m.modifierOffset..m.modifierOffset + m.modifierCount])
  {
  }

  lemma NoMembersDenote(table: seq<Record>, declared: seq<MemberBuild>, modifiers: seq<Modifier>,
                        entityTypes: map<nat, nat>)
    requires WellFormed(table)
    ensures MembersDenote(table, [], declared[..0], modifiers, entityTypes)
  {
  }

  lemma ResolvedBuildValid(s: Store, c: Candidate, handle: nat, change: Change, entityTypes: map<nat, nat>)
    requires CandidateValid(s, c) && handle in c.changes && c.changes[handle].Replacement? && c.changes[handle].kind.Aggregate?
    requires change.Replacement? && change == c.changes[handle].(build := c.changes[handle].build.(
               members := change.build.members, pendingMembers := [], pendingModifiers := []))
    requires forall n <- entityTypes :: entityTypes[n] < c.next
    requires WellFormed(s.table + c.added)
    requires MembersDenote(s.table + c.added, change.build.members, c.changes[handle].build.pendingMembers,
                           c.changes[handle].build.pendingModifiers, entityTypes)
    ensures CandidateValid(s, c.(changes := c.changes[handle := change]))
  {
    hide WellFormed, AddedValid;
    assert BuildValid(s.table + c.added, c.next, c.changes[handle]);
    MembersDenoteBuild(s.table + c.added, change.build.members, c.changes[handle].build.pendingMembers,
                       c.changes[handle].build.pendingModifiers, entityTypes, c.next);
    assert handle < c.next;
    TouchedValid(s, c, handle, change, false);
  }
}
