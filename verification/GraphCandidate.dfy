/** The candidate overlay of one Graph update, as a value.

An update never edits the committed `Store` before publication. It records, per
touched type slot, whether the slot is unchanged, removed or replaced, and the
TypeRef records it appended. This module says what the published Store will be
and proves the facts that make the sparse checks of an incremental update as
strong as the exhaustive ones.
 */
module GraphCandidate {
  import opened Collections
  import opened TypeTable
  import opened TypeGraph
  import opened DependencyIndex
  import C = CompiledState

  /** Builder input for one member: a builtin or a user type name, and a modifier slice. */
  datatype MemberBuild = MemberBuild(name: nat, builtin: Option<BuiltinCode>, userType: nat,
                                     modifierOffset: nat, modifierCount: nat)

  datatype Build = Build(
    definitionPending: bool, values: seq<EnumValue>, members: seq<Member>,
    pendingMembers: seq<MemberBuild>, pendingModifiers: seq<Modifier>)

  datatype Change =
    | Unchanged
    | Removed
    | Replacement(kind: UserTypeKind, enumeration: EnumEntry, build: Build)

  type Changes = map<nat, Change>

  datatype Candidate = Candidate(
    full: bool, changes: Changes, order: seq<nat>, next: nat,
    added: seq<Record>, addedNamed: map<nat, nat>, addedDerived: map<DerivedKey, nat>)

  /** What may touch a slot at or above the counter. A rebuild counts its slots anew but
  lets anonymous enums draw from the committed free list. Such a slot is not laid out, yet
  its Source keeps the number, and a later increment gives it up. */
  predicate Stray(full: bool, change: Change) {
    if full then change.Replacement? && change.kind.Enumeration? else change.Removed?
  }

  /** Every touched slot lies in the vectors that an increment grows to its counter. */
  ghost predicate Contained(c: Candidate) {
    forall h <- c.changes :: h < c.next
  }

  ghost predicate OverlayValid(s: Store, c: Candidate) {
    && NoDuplicates(c.order)
    && SetOf(c.order) == c.changes.Keys
    && (forall h <- c.changes :: 1 <= h && (h < c.next || Stray(c.full, c.changes[h])))
    && 1 <= c.next
    && (if c.full then forall h :: 1 <= h < c.next ==> h in c.changes
        else |s.types| < c.next && forall h :: |s.types| < h < c.next ==> h in c.changes)
  }

  ghost predicate AddedValid(s: Store, c: Candidate) {
    && 1 <= c.next
    && |s.table| >= PREFIX_SIZE
    && WellFormed(s.table + c.added)
    && HandlesBounded(c.added, c.next - 1)
    && if c.full
       then Indexed(s.table + c.added, |s.table|, c.addedNamed, c.addedDerived)
       else
         && NamedMap(s.namedRefs).Keys !! c.addedNamed.Keys
         && s.derivedIndex.Keys !! c.addedDerived.Keys
         && Indexed(s.table + c.added, PREFIX_SIZE,
                    NamedMap(s.namedRefs) + c.addedNamed, s.derivedIndex + c.addedDerived)
  }

  /** Members of the candidate mention slots below the counter. */
  ghost predicate MembersBelow(table: seq<Record>, members: seq<Member>, next: nat) {
    WellFormed(table) ==> forall m <- members :: IsRef(table, m.ref) && Base(table, m.ref) < next
  }

  /** Everything in a build is named, and its kind decides what it can hold. */
  predicate BuildSound(kind: UserTypeKind, enumeration: EnumEntry, build: Build) {
    && (forall m <- build.members :: m.name != 0)
    && (forall m <- build.pendingMembers :: m.name != 0)
    && (forall v <- build.values :: v.name != 0)
    && match kind
       case Aggregate => enumeration == PLAIN && build.values == []
       case Enumeration => enumeration.underlying <= C.LAST_UNDERLYING && build.members == [] && build.pendingMembers == []
  }

  ghost predicate BuildValid(table: seq<Record>, next: nat, change: Change) {
    change.Replacement? ==>
      && RefsValid(table, change.build.members)
      && MembersBelow(table, change.build.members, next)
      && BuildSound(change.kind, change.enumeration, change.build)
  }

  ghost predicate CandidateValid(s: Store, c: Candidate)
  {
    && OverlayValid(s, c)
    && AddedValid(s, c)
    && (forall h <- c.changes :: BuildValid(s.table + c.added, c.next, c.changes[h]))
  }

  lemma BuildExtend(table: seq<Record>, longer: seq<Record>, next: nat, more: nat, change: Change)
    requires WellFormed(table) && WellFormed(longer) && table <= longer && next <= more
    requires BuildValid(table, next, change)
    ensures BuildValid(longer, more, change)
  {
    hide WellFormed, BuildSound;
    if change.Replacement? {
      forall m <- change.build.members
        ensures IsRef(longer, m.ref) && Base(longer, m.ref) < more
      {
        MeaningStable(table, longer, m.ref);
      }
    }
  }

  /** Appending table records or counting more slots leaves every collected build valid. */
  lemma AppendKeepsBuilds(s: Store, c: Candidate, c': Candidate)
    requires WellFormed(s.table + c.added) && WellFormed(s.table + c'.added)
    requires c'.changes == c.changes && c.added <= c'.added && c.next <= c'.next
    requires forall h <- c.changes :: BuildValid(s.table + c.added, c.next, c.changes[h])
    ensures forall h <- c'.changes :: BuildValid(s.table + c'.added, c'.next, c'.changes[h])
  {
    hide WellFormed, BuildValid;
    forall h <- c'.changes
      ensures BuildValid(s.table + c'.added, c'.next, c'.changes[h])
    {
      BuildExtend(s.table + c.added, s.table + c'.added, c.next, c'.next, c.changes[h]);
    }
  }

  function WithNamed(s: Store, c: Candidate, handle: nat): Candidate {
    c.(added := c.added + [Named(handle)], addedNamed := c.addedNamed[handle := |s.table| + |c.added|])
  }

  function WithDerived(s: Store, c: Candidate, key: DerivedKey): Candidate {
    c.(added := c.added + [Derived(key)], addedDerived := c.addedDerived[key := |s.table| + |c.added|])
  }

  lemma IndexedAppendNamed(table: seq<Record>, from: nat, named: map<nat, nat>, derived: map<DerivedKey, nat>,
                           handle: nat)
    requires Indexed(table, from, named, derived) && from <= |table| && handle !in named
    ensures Indexed(table + [Named(handle)], from, named[handle := |table|], derived)
  {
  }

  lemma IndexedAppendDerived(table: seq<Record>, from: nat, named: map<nat, nat>, derived: map<DerivedKey, nat>,
                             key: DerivedKey)
    requires Indexed(table, from, named, derived) && from <= |table| && key !in derived
    ensures Indexed(table + [Derived(key)], from, named, derived[key := |table|])
  {
  }

  lemma WellFormedAppend(table: seq<Record>, record: Record)
    requires WellFormed(table) && RecordFits(record, |table|)
    ensures WellFormed(table + [record])
  {
  }

  lemma HandlesBoundedPush(table: seq<Record>, record: Record, count: nat)
    requires HandlesBounded(table, count) && (record.Named? ==> record.handle <= count)
    ensures HandlesBounded(table + [record], count)
  {
  }

  /** What either lookup index answers for a handle is its one TypeRef. */
  lemma NamedFound(s: Store, c: Candidate, handle: nat)
    requires AddedValid(s, c)
    requires handle in c.addedNamed || (!c.full && handle in NamedMap(s.namedRefs))
    ensures var ref := if handle in c.addedNamed then c.addedNamed[handle] else NamedMap(s.namedRefs)[handle];
            var table := s.table + c.added;
            IsRef(table, ref) && Meaning(table, ref) == NamedTree(handle)
  {
    if !c.full {
      assert handle in NamedMap(s.namedRefs) + c.addedNamed;
    }
  }

  lemma AddedOf(s: Store, c: Candidate)
    requires CandidateValid(s, c)
    ensures AddedValid(s, c)
  {
  }

  lemma CommittedNamedOnly(s: Store, c: Candidate, handle: nat)
    requires CandidateValid(s, c) && !c.full && handle < |s.namedRefs| && s.namedRefs[handle] != 0
    ensures var table := s.table + c.added;
            IsRef(table, s.namedRefs[handle]) && Meaning(table, s.namedRefs[handle]) == NamedTree(handle)
  {
    assert handle in NamedMap(s.namedRefs);
    NamedFound(s, c, handle);
  }

  lemma DerivedFound(s: Store, c: Candidate, key: DerivedKey)
    requires AddedValid(s, c)
    requires key in c.addedDerived || (!c.full && key in s.derivedIndex)
    ensures var ref := if key in c.addedDerived then c.addedDerived[key] else s.derivedIndex[key];
            var table := s.table + c.added;
            && IsRef(table, ref) && IsRef(table, key.child)
            && Meaning(table, ref) == DerivedTree(key.kind, key.payload, Meaning(table, key.child))
  {
    if !c.full {
      assert key in s.derivedIndex + c.addedDerived;
    }
  }

  lemma NamedAddedValid(s: Store, c: Candidate, handle: nat)
    requires AddedValid(s, c) && 0 < handle < c.next
    requires handle !in c.addedNamed && (!c.full ==> handle !in NamedMap(s.namedRefs))
    ensures AddedValid(s, WithNamed(s, c, handle))
  {
    hide WellFormed, Indexed, HandlesBounded, NamedMap;
    var c' := WithNamed(s, c, handle);
    var table := s.table + c.added;
    assert s.table + c'.added == table + [Named(handle)];
    WellFormedAppend(table, Named(handle));
    HandlesBoundedPush(c.added, Named(handle), c.next - 1);
    if c.full {
      IndexedAppendNamed(table, |s.table|, c.addedNamed, c.addedDerived, handle);
    } else {
      var named := NamedMap(s.namedRefs) + c.addedNamed;
      IndexedAppendNamed(table, PREFIX_SIZE, named, s.derivedIndex + c.addedDerived, handle);
      assert named[handle := |table|] == NamedMap(s.namedRefs) + c'.addedNamed;
    }
  }

  lemma DerivedAddedValid(s: Store, c: Candidate, key: DerivedKey)
    requires AddedValid(s, c) && IsRef(s.table + c.added, key.child) && PayloadFits(key.kind, key.payload)
    requires key !in c.addedDerived && (!c.full ==> key !in s.derivedIndex)
    ensures AddedValid(s, WithDerived(s, c, key))
  {
    hide WellFormed, Indexed, HandlesBounded, NamedMap;
    var c' := WithDerived(s, c, key);
    var table := s.table + c.added;
    assert s.table + c'.added == table + [Derived(key)];
    WellFormedAppend(table, Derived(key));
    HandlesBoundedPush(c.added, Derived(key), c.next - 1);
    if c.full {
      IndexedAppendDerived(table, |s.table|, c.addedNamed, c.addedDerived, key);
    } else {
      var derived := s.derivedIndex + c.addedDerived;
      IndexedAppendDerived(table, PREFIX_SIZE, NamedMap(s.namedRefs) + c.addedNamed, derived, key);
      assert derived[key := |table|] == s.derivedIndex + c'.addedDerived;
    }
  }

  /** A candidate that differs only by appended records is still valid. */
  lemma GrownTableKeepsCandidate(s: Store, c: Candidate, c': Candidate)
    requires CandidateValid(s, c) && AddedValid(s, c')
    requires c'.full == c.full && c'.changes == c.changes && c'.order == c.order && c'.next == c.next
    requires c.added <= c'.added
    ensures CandidateValid(s, c')
  {
    AddedTable(s, c);
    AddedTable(s, c');
    hide AddedValid, BuildValid, WellFormed;
    AppendKeepsBuilds(s, c, c');
  }

  lemma AddedTable(s: Store, c: Candidate)
    requires AddedValid(s, c)
    ensures WellFormed(s.table + c.added)
  {
  }

  lemma NamedCreated(s: Store, c: Candidate, handle: nat)
    requires CandidateValid(s, c) && 0 < handle < c.next
    requires handle !in c.addedNamed && (!c.full ==> handle !in NamedMap(s.namedRefs))
    ensures CandidateValid(s, WithNamed(s, c, handle))
    ensures var table := s.table + WithNamed(s, c, handle).added;
            IsRef(table, |table| - 1) && Meaning(table, |table| - 1) == NamedTree(handle)
  {
    NamedAddedValid(s, c, handle);
    GrownTableKeepsCandidate(s, c, WithNamed(s, c, handle));
  }

  lemma DerivedCreated(s: Store, c: Candidate, key: DerivedKey)
    requires CandidateValid(s, c) && IsRef(s.table + c.added, key.child) && PayloadFits(key.kind, key.payload)
    requires key !in c.addedDerived && (!c.full ==> key !in s.derivedIndex)
    ensures CandidateValid(s, WithDerived(s, c, key))
    ensures var table := s.table + WithDerived(s, c, key).added;
            && IsRef(table, |table| - 1) && IsRef(table, key.child)
            && Meaning(table, |table| - 1) == DerivedTree(key.kind, key.payload, Meaning(table, key.child))
  {
    DerivedAddedValid(s, c, key);
    GrownTableKeepsCandidate(s, c, WithDerived(s, c, key));
  }

  // ----- Touching slots -----

  /** The build of an aggregate that is declared again: members collected earlier in
  the same update stay, those of the committed generation are not taken over. */
  function AggregateBuild(changes: Changes, handle: nat, defined: bool): Build {
    if handle in changes && changes[handle].Replacement? && changes[handle].kind.Aggregate? then
      var previous := changes[handle].build;
      Build(defined, [], previous.members, previous.pendingMembers, previous.pendingModifiers)
    else Build(defined, [], [], [], [])
  }

  /** Recording a change for a slot; `counted` when the slot is the next one of the counter. */
  function Touched(c: Candidate, handle: nat, change: Change, counted: bool): Candidate {
    c.(changes := c.changes[handle := change],
       order := if handle in c.changes then c.order else c.order + [handle],
       next := if counted then c.next + 1 else c.next)
  }

  /** A slot comes off the counter, is in range, or is one that the counter need not reach. */
  predicate Touchable(c: Candidate, handle: nat, change: Change, counted: bool) {
    if counted then handle == c.next else 1 <= handle && (handle < c.next || Stray(c.full, change))
  }

  /** assign_type: a slot is touched and its one TypeRef looked up or created. */
  ghost predicate AssignedIn(s: Store, c: Candidate, handle: nat, change: Change, c': Candidate) {
    && AddedValid(s, c') && c.added <= c'.added && Named(handle) in s.table + c'.added
    && c' == Touched(c, handle, change, handle == c.next).(added := c'.added, addedNamed := c'.addedNamed)
  }

  lemma TouchedOverlayValid(s: Store, c: Candidate, handle: nat, change: Change, counted: bool)
    requires OverlayValid(s, c) && Touchable(c, handle, change, counted)
    ensures OverlayValid(s, Touched(c, handle, change, counted))
  {
    var c' := Touched(c, handle, change, counted);
    assert handle !in c.changes ==> handle !in SetOf(c.order);
    forall h
      ensures h in SetOf(c'.order) <==> h in c'.changes
    {
      assert h in c.order <==> h in SetOf(c.order);
    }
    assert SetOf(c'.order) == c'.changes.Keys;
  }

  lemma TouchedValid(s: Store, c: Candidate, handle: nat, change: Change, counted: bool)
    requires CandidateValid(s, c) && Touchable(c, handle, change, counted)
    requires BuildValid(s.table + c.added, c.next, change)
    ensures CandidateValid(s, Touched(c, handle, change, counted))
  {
    TouchedOverlayValid(s, c, handle, change, counted);
    HandlesWiden(c.added, c.next - 1, c.next);
    hide OverlayValid, Indexed, WellFormed, BuildValid, HandlesBounded;
    var c' := Touched(c, handle, change, counted);
    forall h <- c'.changes
      ensures BuildValid(s.table + c'.added, c'.next, c'.changes[h])
    {
      BuildExtend(s.table + c.added, s.table + c.added, c.next, c'.next, c'.changes[h]);
    }
  }

  lemma HandlesWiden(table: seq<Record>, count: nat, more: nat)
    requires HandlesBounded(table, count) && count <= more
    ensures HandlesBounded(table, more)
  {
  }

  // ----- Resolving declared member types -----

  ghost predicate Resolvable(m: MemberBuild, modifiers: seq<Modifier>, entityTypes: map<nat, nat>) {
    && (m.builtin.None? ==> m.userType in entityTypes)
    && m.modifierOffset + m.modifierCount <= |modifiers|
    && forall i :: m.modifierOffset <= i < m.modifierOffset + m.modifierCount ==>
         PayloadFits(modifiers[i].kind, modifiers[i].payload)
  }

  function DeclaredBase(m: MemberBuild, entityTypes: map<nat, nat>): Tree
    requires m.builtin.None? ==> m.userType in entityTypes
  {
    if m.builtin.Some? then BuiltinTree(m.builtin.value) else NamedTree(entityTypes[m.userType])
  }

  /** The type a member was declared with: its base wrapped in its modifiers. */
  ghost function DeclaredType(m: MemberBuild, modifiers: seq<Modifier>, entityTypes: map<nat, nat>): Tree
    requires Resolvable(m, modifiers, entityTypes)
  {
    Wrap(DeclaredBase(m, entityTypes), modifiers[m.modifierOffset..m.modifierOffset + m.modifierCount])
  }

  /** Resolved members carry the declared names and denote the declared types. */
  ghost predicate MembersDenote(table: seq<Record>, members: seq<Member>, declared: seq<MemberBuild>,
                                modifiers: seq<Modifier>, entityTypes: map<nat, nat>)
    requires WellFormed(table)
  {
    && |members| == |declared|
    && forall i :: 0 <= i < |members| ==>
         && members[i].name == declared[i].name
         && IsRef(table, members[i].ref)
         && Resolvable(declared[i], modifiers, entityTypes)
         && Meaning(table, members[i].ref) == DeclaredType(declared[i], modifiers, entityTypes)
  }

  lemma MembersDenoteExtend(table: seq<Record>, longer: seq<Record>, members: seq<Member>, declared: seq<MemberBuild>,
                            modifiers: seq<Modifier>, entityTypes: map<nat, nat>)
    requires WellFormed(table) && WellFormed(longer) && table <= longer
    requires MembersDenote(table, members, declared, modifiers, entityTypes)
    ensures MembersDenote(longer, members, declared, modifiers, entityTypes)
  {
    forall i | 0 <= i < |members|
      ensures Meaning(longer, members[i].ref) == Meaning(table, members[i].ref)
    {
      MeaningStable(table, longer, members[i].ref);
    }
  }

  /** Resolved members are named and mention slots that entities hold. */
  lemma MembersDenoteBuild(table: seq<Record>, members: seq<Member>, declared: seq<MemberBuild>,
                           modifiers: seq<Modifier>, entityTypes: map<nat, nat>, next: nat)
    requires WellFormed(table) && MembersDenote(table, members, declared, modifiers, entityTypes)
    requires 1 <= next && forall n <- entityTypes :: entityTypes[n] < next
    requires forall d <- declared :: d.name != 0
    ensures RefsValid(table, members) && MembersBelow(table, members, next)
    ensures forall m <- members :: m.name != 0
  {
    hide WellFormed, Wrap;
    forall m <- members
      ensures m.name != 0 && IsRef(table, m.ref) && Base(table, m.ref) < next
    {
      var i :| 0 <= i < |members| && members[i] == m;
      assert declared[i] in declared;
      BaseOfMeaning(table, m.ref);
      WrapKeepsBase(DeclaredBase(declared[i], entityTypes),
                    modifiers[declared[i].modifierOffset..declared[i].modifierOffset + declared[i].modifierCount]);
    }
  }

  lemma MembersDenotePush(table: seq<Record>, longer: seq<Record>, members: seq<Member>, member: Member,
                          declared: seq<MemberBuild>, next: nat, modifiers: seq<Modifier>, entityTypes: map<nat, nat>)
    requires WellFormed(table) && WellFormed(longer) && table <= longer && next < |declared|
    requires MembersDenote(table, members, declared[..next], modifiers, entityTypes)
    requires member.name == declared[next].name && IsRef(longer, member.ref)
    requires Resolvable(declared[next], modifiers, entityTypes)
    requires Meaning(longer, member.ref) == DeclaredType(declared[next], modifiers, entityTypes)
    ensures MembersDenote(longer, members + [member], declared[..next + 1], modifiers, entityTypes)
  {
    MembersDenoteExtend(table, longer, members, declared[..next], modifiers, entityTypes);
    TakeNext(declared, next);
  }

  /** The state of a build after its pending members were resolved. */
  ghost predicate Resolved(table: seq<Record>, before: Change, after: Change, entityTypes: map<nat, nat>)
    requires WellFormed(table)
  {
    if before.Replacement? && before.kind.Aggregate? && before.build.pendingMembers != [] then
      && after.Replacement?
      && after == before.(build := before.build.(members := after.build.members, pendingMembers := [], pendingModifiers := []))
      && MembersDenote(table, after.build.members, before.build.pendingMembers, before.build.pendingModifiers, entityTypes)
    else after == before
  }

  lemma ResolvedExtend(table: seq<Record>, longer: seq<Record>, before: Change, after: Change,
                       entityTypes: map<nat, nat>)
    requires WellFormed(table) && WellFormed(longer) && table <= longer
    requires Resolved(table, before, after, entityTypes)
    ensures Resolved(longer, before, after, entityTypes)
  {
    if before.Replacement? && before.kind.Aggregate? && before.build.pendingMembers != [] {
      MembersDenoteExtend(table, longer, after.build.members, before.build.pendingMembers,
                          before.build.pendingModifiers, entityTypes);
    }
  }

  lemma CandidateTable(s: Store, c: Candidate)
    requires CandidateValid(s, c)
    ensures WellFormed(s.table + c.added) && |s.table| >= PREFIX_SIZE && c.next >= 1
  {
  }

  /** type_is_live: the candidate's answer overrides the committed one. */
  predicate TypeIsLive(types: Types, full: bool, changes: Changes, handle: nat) {
    if handle in changes && changes[handle].Removed? then false
    else if handle in changes && changes[handle].Replacement? then true
    else !full && LiveSlot(types, handle)
  }

  ghost predicate RefIsLive(s: Store, c: Candidate, ref: nat)
    requires WellFormed(s.table + c.added)
  {
    var table := s.table + c.added;
    IsRef(table, ref) && (Base(table, ref) == 0 || TypeIsLive(s.types, c.full, c.changes, Base(table, ref)))
  }

  /** What the validation of one type slot checks. */
  ghost predicate SlotPasses(s: Store, c: Candidate, handle: nat)
    requires s.InArenas() && WellFormed(s.table + c.added)
  {
    if handle in c.changes && c.changes[handle].Removed? then true
    else if handle in c.changes && c.changes[handle].Replacement? then
      c.changes[handle].kind.Aggregate? ==>
        && c.changes[handle].build.pendingMembers == []
        && c.changes[handle].build.pendingModifiers == []
        && forall m <- c.changes[handle].build.members :: RefIsLive(s, c, m.ref)
    else !c.full ==> forall m <- s.MembersOf(handle) :: RefIsLive(s, c, m.ref)
  }

  ghost predicate EverySlotPasses(s: Store, c: Candidate)
    requires s.InArenas() && WellFormed(s.table + c.added)
  {
    forall h :: 1 <= h < c.next || h in c.changes ==> SlotPasses(s, c, h)
  }

  /** `path` leads from a changed slot to `handle` along committed reverse dependencies. */
  ghost predicate DependentPath(s: Store, c: Candidate, path: seq<nat>, handle: nat) {
    && path != []
    && path[0] in c.changes
    && path[|path| - 1] == handle
    && forall i :: 0 <= i < |path| - 1 ==> path[i + 1] in At(s.reverse, path[i])
  }

  /** The reverse closure of the changed slots. */
  ghost predicate InClosure(s: Store, c: Candidate, handle: nat) {
    exists path :: DependentPath(s, c, path, handle)
  }

  lemma ClosureStep(s: Store, c: Candidate, handle: nat, dependent: nat)
    requires InClosure(s, c, handle) && dependent in At(s.reverse, handle)
    ensures InClosure(s, c, dependent)
  {
    var path :| DependentPath(s, c, path, handle);
    assert DependentPath(s, c, path + [dependent], dependent);
  }

  lemma ClosureRoot(s: Store, c: Candidate, handle: nat)
    requires handle in c.changes
    ensures InClosure(s, c, handle)
  {
    assert DependentPath(s, c, [handle], handle);
  }

  /** A set that holds the changed slots and is closed under dependents holds the closure. */
  lemma {:induction false} ClosureIsLeast(s: Store, c: Candidate, closed: seq<nat>, path: seq<nat>, handle: nat)
    requires forall h <- c.changes :: h in closed
    requires forall d, h :: d in closed && h in At(s.reverse, d) ==> h in closed
    requires DependentPath(s, c, path, handle)
    ensures handle in closed
    decreases |path|
  {
    if |path| > 1 {
      var before := path[..|path| - 1];
      ClosureIsLeast(s, c, closed, before, before[|before| - 1]);
      assert path[|path| - 1] in At(s.reverse, path[|path| - 2]);
    }
  }

  /** A slot outside the closure was live with live members before, and none of
  the slots it mentions was touched. */
  lemma UntouchedSlotPasses(s: Store, c: Candidate, handle: nat)
    requires s.Valid() && CandidateValid(s, c) && !c.full
    requires !InClosure(s, c, handle)
    ensures SlotPasses(s, c, handle)
  {
    hide InClosure;
    var table := s.table + c.added;
    if handle in c.changes {
      ClosureRoot(s, c, handle);
    }
    forall m | m in s.MembersOf(handle)
      ensures RefIsLive(s, c, m.ref)
    {
      assert s.Resolves(m.ref);
      MeaningStable(s.table, table, m.ref);
      var base := Base(s.table, m.ref);
      if base != 0 {
        assert base in Dependencies(s.table, s.MembersOf(handle));
        assert base in SetOf(At(s.forward, handle));
        assert handle in At(s.reverse, base);
        if base in c.changes {
          ClosureRoot(s, c, base);
          ClosureStep(s, c, base, handle);
        }
      }
    }
  }

  /** Checking the closure of the changed slots is as strong as checking every slot. */
  lemma ClosureCheckIsGlobal(s: Store, c: Candidate)
    requires s.Valid() && CandidateValid(s, c) && !c.full
    requires forall h: nat :: InClosure(s, c, h) ==> SlotPasses(s, c, h)
    ensures EverySlotPasses(s, c)
  {
    hide InClosure;
    forall h: nat
      ensures SlotPasses(s, c, h)
    {
      if !InClosure(s, c, h) {
        UntouchedSlotPasses(s, c, h);
      }
    }
  }

  // ----- What makes the check fail -----

  ghost predicate Unresolvable(change: Change, m: MemberBuild, entityTypes: map<nat, nat>) {
    change.Replacement? && m in change.build.pendingMembers && !Resolvable(m, change.build.pendingModifiers, entityTypes)
  }

  /** Some replaced aggregate has a member whose type cannot be resolved. */
  ghost predicate SomeUnresolvable(changes: Changes, entityTypes: map<nat, nat>) {
    exists h, m :: h in changes && Unresolvable(changes[h], m, entityTypes)
  }

  lemma UnresolvableFound(changes: Changes, h: nat, m: MemberBuild, entityTypes: map<nat, nat>)
    requires h in changes && changes[h].Replacement? && m in changes[h].build.pendingMembers
    requires !Resolvable(m, changes[h].build.pendingModifiers, entityTypes)
    ensures SomeUnresolvable(changes, entityTypes)
  {
    assert Unresolvable(changes[h], m, entityTypes);
  }

  /** An aggregate that was given modifiers but no member to put them on. Resolution
  leaves them behind, and validation takes what is left behind for unfinished work. */
  predicate Leftover(change: Change) {
    && change.Replacement? && change.kind.Aggregate?
    && change.build.pendingMembers == [] && change.build.pendingModifiers != []
  }

  ghost predicate SomeLeftover(changes: Changes) {
    exists h :: h in changes && Leftover(changes[h])
  }

  ghost predicate SomePending(changes: Changes) {
    exists h :: h in changes && changes[h].Replacement? && changes[h].build.pendingMembers != []
  }

  /** A member declared over an entity whose slot will not be live. */
  ghost predicate DeclaredDead(s: Store, c: Candidate, entityTypes: map<nat, nat>, m: MemberBuild) {
    m.builtin.None? && m.userType in entityTypes && !TypeIsLive(s.types, c.full, c.changes, entityTypes[m.userType])
  }

  /** A slot that will be live mentions one that will not. */
  ghost predicate SlotDangles(s: Store, c: Candidate, entityTypes: map<nat, nat>, handle: nat)
    requires s.InArenas() && WellFormed(s.table + c.added)
  {
    if handle in c.changes && c.changes[handle].Removed? then false
    else if handle in c.changes && c.changes[handle].Replacement? then
      && c.changes[handle].kind.Aggregate?
      && var build := c.changes[handle].build;
      if build.pendingMembers != [] then exists m <- build.pendingMembers :: DeclaredDead(s, c, entityTypes, m)
      else exists m <- build.members :: !RefIsLive(s, c, m.ref)
    else !c.full && exists m <- s.MembersOf(handle) :: !RefIsLive(s, c, m.ref)
  }

  ghost predicate SomeDangling(s: Store, c: Candidate, entityTypes: map<nat, nat>) {
    s.InArenas() && WellFormed(s.table + c.added) && exists h :: SlotDangles(s, c, entityTypes, h)
  }

  /** The candidate after its pending members were resolved, with `c` the one before. */
  ghost predicate ResolvedFrom(s: Store, c: Candidate, c': Candidate, entityTypes: map<nat, nat>) {
    && c'.full == c.full && c'.next == c.next && c'.changes.Keys == c.changes.Keys && c.added <= c'.added
    && WellFormed(s.table + c.added) && WellFormed(s.table + c'.added)
    && forall h <- c.changes :: Resolved(s.table + c'.added, c.changes[h], c'.changes[h], entityTypes)
  }

  lemma NoneUnresolvable(s: Store, c: Candidate, c': Candidate, entityTypes: map<nat, nat>)
    requires CandidateValid(s, c) && ResolvedFrom(s, c, c', entityTypes)
    ensures !SomeUnresolvable(c.changes, entityTypes)
  {
    hide OverlayValid, AddedValid, WellFormed;
    forall h, m | h in c.changes && c.changes[h].Replacement? && m in c.changes[h].build.pendingMembers
      ensures Resolvable(m, c.changes[h].build.pendingModifiers, entityTypes)
    {
      assert BuildValid(s.table + c.added, c.next, c.changes[h]);
      assert Resolved(s.table + c'.added, c.changes[h], c'.changes[h], entityTypes);
    }
  }

  /** Resolution changes neither what is live nor what an old TypeRef means. */
  lemma LivenessKept(s: Store, c: Candidate, c': Candidate, entityTypes: map<nat, nat>, ref: nat)
    requires ResolvedFrom(s, c, c', entityTypes)
    ensures forall h :: TypeIsLive(s.types, c'.full, c'.changes, h) <==> TypeIsLive(s.types, c.full, c.changes, h)
    ensures IsRef(s.table + c.added, ref) ==> (RefIsLive(s, c', ref) <==> RefIsLive(s, c, ref))
  {
    hide WellFormed, Base;
    forall h | h in c.changes
      ensures c'.changes[h].Removed? == c.changes[h].Removed? && c'.changes[h].Replacement? == c.changes[h].Replacement?
    {
      assert Resolved(s.table + c'.added, c.changes[h], c'.changes[h], entityTypes);
    }
    if IsRef(s.table + c.added, ref) {
      MeaningStable(s.table + c.added, s.table + c'.added, ref);
    }
  }

  lemma ResolvedMemberLive(s: Store, c: Candidate, c': Candidate, entityTypes: map<nat, nat>, m: Member,
                           declared: MemberBuild, modifiers: seq<Modifier>)
    requires ResolvedFrom(s, c, c', entityTypes) && forall n <- entityTypes :: 1 <= entityTypes[n]
    requires Resolvable(declared, modifiers, entityTypes) && IsRef(s.table + c'.added, m.ref)
    requires Meaning(s.table + c'.added, m.ref) == DeclaredType(declared, modifiers, entityTypes)
    ensures RefIsLive(s, c', m.ref) <==> !DeclaredDead(s, c, entityTypes, declared)
  {
    hide WellFormed, Wrap, ResolvedFrom;
    ResolvedTable(s, c, c', entityTypes);
    LivenessKept(s, c, c', entityTypes, m.ref);
    BaseOfMeaning(s.table + c'.added, m.ref);
    WrapKeepsBase(DeclaredBase(declared, entityTypes),
                  modifiers[declared.modifierOffset..declared.modifierOffset + declared.modifierCount]);
  }

  lemma ResolvedTable(s: Store, c: Candidate, c': Candidate, entityTypes: map<nat, nat>)
    requires ResolvedFrom(s, c, c', entityTypes)
    ensures WellFormed(s.table + c'.added)
  {
  }

  /** One slot passes after resolution exactly when before it nothing dangled and nothing was left over. */
  lemma SlotDecided(s: Store, c: Candidate, c': Candidate, entityTypes: map<nat, nat>, h: nat)
    requires s.Valid() && CandidateValid(s, c) && ResolvedFrom(s, c, c', entityTypes)
    requires forall n <- entityTypes :: 1 <= entityTypes[n]
    ensures SlotPasses(s, c', h) <==>
              !SlotDangles(s, c, entityTypes, h) && !(h in c.changes && Leftover(c.changes[h]))
  {
    hide OverlayValid, AddedValid, WellFormed, Store.TableValid, Store.IndexExact, RefIsLive, DeclaredDead, Resolvable, DeclaredType;
    if h in c.changes {
      assert Resolved(s.table + c'.added, c.changes[h], c'.changes[h], entityTypes);
    }
    if h in c.changes && c.changes[h].Replacement? {
      assert BuildValid(s.table + c.added, c.next, c.changes[h]);
      if c.changes[h].kind.Aggregate? {
        ReplacementDecided(s, c, c', entityTypes, h);
      }
    } else {
      CommittedTable(s);
      forall m <- s.MembersOf(h)
        ensures RefIsLive(s, c', m.ref) <==> RefIsLive(s, c, m.ref)
      {
        CommittedRef(s, c, h, m);
        LivenessKept(s, c, c', entityTypes, m.ref);
      }
    }
  }

  lemma CommittedRef(s: Store, c: Candidate, h: nat, m: Member)
    requires s.Valid() && m in s.MembersOf(h)
    ensures IsRef(s.table + c.added, m.ref)
  {
    assert s.Resolves(m.ref);
  }

  lemma ReplacementDecided(s: Store, c: Candidate, c': Candidate, entityTypes: map<nat, nat>, h: nat)
    requires s.InArenas() && ResolvedFrom(s, c, c', entityTypes)
    requires forall n <- entityTypes :: 1 <= entityTypes[n]
    requires h in c.changes && c.changes[h].Replacement? && c.changes[h].kind.Aggregate?
    requires RefsValid(s.table + c.added, c.changes[h].build.members)
    ensures SlotPasses(s, c', h) <==> !SlotDangles(s, c, entityTypes, h) && !Leftover(c.changes[h])
  {
    hide WellFormed, RefIsLive, DeclaredDead, Resolvable, DeclaredType, Meaning;
    var build := c.changes[h].build;
    assert Resolved(s.table + c'.added, c.changes[h], c'.changes[h], entityTypes);
    var members := c'.changes[h].build.members;
    if build.pendingMembers == [] {
      forall m <- build.members
        ensures RefIsLive(s, c', m.ref) <==> RefIsLive(s, c, m.ref)
      {
        LivenessKept(s, c, c', entityTypes, m.ref);
      }
    } else {
      forall i | 0 <= i < |members|
        ensures RefIsLive(s, c', members[i].ref) <==> !DeclaredDead(s, c, entityTypes, build.pendingMembers[i])
      {
        ResolvedMemberLive(s, c, c', entityTypes, members[i], build.pendingMembers[i], build.pendingModifiers);
      }
      if forall m <- members :: RefIsLive(s, c', m.ref) {
        forall d <- build.pendingMembers
          ensures !DeclaredDead(s, c, entityTypes, d)
        {
          var i :| 0 <= i < |members| && build.pendingMembers[i] == d;
          assert members[i] in members;
        }
      } else {
        var m :| m in members && !RefIsLive(s, c', m.ref);
        var i :| 0 <= i < |members| && members[i] == m;
        assert build.pendingMembers[i] in build.pendingMembers;
      }
    }
  }

  /** Resolved members all resolve exactly when, before resolution, no slot that
  stays mentioned one that goes and no modifiers were left without a member. */
  lemma CheckDecided(s: Store, c: Candidate, c': Candidate, entityTypes: map<nat, nat>)
    requires s.Valid() && CandidateValid(s, c) && ResolvedFrom(s, c, c', entityTypes)
    requires forall n <- entityTypes :: 1 <= entityTypes[n]
    ensures s.InArenas()
    ensures EverySlotPasses(s, c') <==> !SomeLeftover(c.changes) && !SomeDangling(s, c, entityTypes)
  {
    CommittedTable(s);
    hide CandidateValid, WellFormed, SlotPasses, SlotDangles, Leftover;
    forall h: nat
      ensures SlotPasses(s, c', h) <==> !SlotDangles(s, c, entityTypes, h) && !(h in c.changes && Leftover(c.changes[h]))
    {
      SlotDecided(s, c, c', entityTypes, h);
    }
    forall h: nat | SlotDangles(s, c, entityTypes, h)
      ensures 1 <= h < c.next || h in c.changes
    {
      DanglingInRange(s, c, entityTypes, h);
    }
  }

  lemma DanglingInRange(s: Store, c: Candidate, entityTypes: map<nat, nat>, h: nat)
    requires s.InArenas() && CandidateValid(s, c) && WellFormed(s.table + c.added) && SlotDangles(s, c, entityTypes, h)
    ensures 1 <= h < c.next || h in c.changes
  {
  }

  // ----- What publication makes visible -----

  function ChangedView(change: Change): TypeView
    requires change.Replacement?
  {
    match change.kind
    case Aggregate =>
      AggregateView(change.build.definitionPending,
                    if change.build.definitionPending then change.build.members else [])
    case Enumeration =>
      EnumView(change.enumeration, change.build.definitionPending,
               if change.build.definitionPending then change.build.values else [])
  }

  /** The committed map of type views overridden by the touched slots. */
  ghost function ViewAfter(s: Store, full: bool, changes: Changes, handle: nat): Option<TypeView>
    requires s.InArenas()
  {
    if handle in changes && changes[handle].Removed? then None
    else if handle in changes && changes[handle].Replacement? then Some(ChangedView(changes[handle]))
    else if full then None
    else s.View(handle)
  }

  function ViewMembers(view: Option<TypeView>): seq<Member> {
    if view.Some? && view.value.AggregateView? then view.value.members else []
  }

  ghost function MembersAfter(s: Store, c: Candidate, handle: nat): seq<Member>
    requires s.InArenas()
  {
    ViewMembers(ViewAfter(s, c.full, c.changes, handle))
  }

  lemma MembersAreTheViewsMembers(s: Store, handle: nat)
    requires s.InArenas()
    ensures s.MembersOf(handle) == ViewMembers(s.View(handle))
  {
  }

  /** The members the published Store will hold all have valid TypeRefs. */
  lemma MembersAfterRefsValid(s: Store, c: Candidate, handle: nat)
    requires s.Valid() && CandidateValid(s, c)
    ensures RefsValid(s.table + c.added, MembersAfter(s, c, handle))
  {
    MembersAreTheViewsMembers(s, handle);
  }

  /** What prepare_dependency_index_updates leaves for publication. */
  ghost predicate IndexUpdatesExact(s: Store, c: Candidate, forward: map<nat, seq<nat>>, reverse: map<nat, seq<nat>>)
    requires s.Valid() && CandidateValid(s, c)
  {
    && forward.Keys == c.changes.Keys
    && (forall d <- reverse :: d < c.next)
    && (forall h <- forward ::
          && NoDuplicates(forward[h])
          && RefsValid(s.table + c.added, MembersAfter(s, c, h))
          && SetOf(forward[h]) == Dependencies(s.table + c.added, MembersAfter(s, c, h)))
    && (forall d: nat :: NoDuplicates(Overridden(s.reverse, reverse, d)))
    && (forall d: nat, h: nat ::
          h in Overridden(s.reverse, reverse, d) <==> d in Overridden(s.forward, forward, h))
  }

  /** A dependency vector with some entries swapped for prepared ones. */
  function Overridden(vector: seq<seq<nat>>, updates: map<nat, seq<nat>>, index: nat): seq<nat> {
    if index in updates then updates[index] else At(vector, index)
  }

  // ----- Editing the dependency index slot by slot -----

  /** The dependency list a changed slot will have. */
  ghost function NewList(s: Store, c: Candidate, handle: nat): seq<nat>
    requires CandidateValid(s, c) && handle in c.changes
  {
    match c.changes[handle]
    case Unchanged => At(s.forward, handle)
    case Removed => []
    case Replacement(kind, _, build) =>
      if kind.Aggregate? && build.definitionPending
      then (assert BuildValid(s.table + c.added, c.next, c.changes[handle]); Bases(s.table + c.added, build.members))
      else []
  }

  /** The prepared forward lists of the changed slots in `done`. */
  ghost function ForwardAfter(s: Store, c: Candidate, done: seq<nat>): (forward: map<nat, seq<nat>>)
    requires CandidateValid(s, c) && forall h <- done :: h in c.changes
    ensures forward.Keys == SetOf(done)
  {
    map h | h in done :: NewList(s, c, h)
  }

  /** The old and new dependencies of a slot, each once, old ones first. */
  function Affected(previous: seq<nat>, current: seq<nat>): (r: seq<nat>)
    ensures forall d :: d in r <==> d in previous || d in current
  {
    if current == [] then previous
    else
      var n := |current| - 1;
      assert current == current[..n] + [current[n]];
      PushNew(Affected(previous, current[..n]), current[n])
  }

  /** The dependents of a slot with `handle` taken out and, when it still depends, appended. */
  function Redirected(dependents: seq<nat>, handle: nat, wanted: bool): (r: seq<nat>)
    ensures NoDuplicates(dependents) ==> NoDuplicates(r)
    ensures forall h :: h in r <==> if h == handle then wanted else h in dependents
  {
    if wanted then PushNew(Without(dependents, handle), handle) else Without(dependents, handle)
  }

  /** The reverse lists after `handle` was redirected in those of `affected`. */
  function WithEdges(s: Store, reverse: map<nat, seq<nat>>, handle: nat, current: seq<nat>, affected: seq<nat>):
    (updates: map<nat, seq<nat>>)
    ensures forall d :: d in updates <==> d in reverse || d in affected
    decreases |affected|
  {
    if affected == [] then reverse
    else
      var n := |affected| - 1;
      assert affected == affected[..n] + [affected[n]];
      var before := WithEdges(s, reverse, handle, current, affected[..n]);
      before[affected[n] := Redirected(Overridden(s.reverse, before, affected[n]), handle, affected[n] in current)]
  }

  /** The prepared reverse lists after the changed slots in `done`. */
  ghost function ReverseAfter(s: Store, c: Candidate, done: seq<nat>): map<nat, seq<nat>>
    requires CandidateValid(s, c) && forall h <- done :: h in c.changes
    decreases |done|
  {
    if done == [] then map[]
    else
      var n := |done| - 1;
      var current := NewList(s, c, done[n]);
      WithEdges(s, ReverseAfter(s, c, done[..n]), done[n], current, Affected(At(s.forward, done[n]), current))
  }

  /** The lists edited so far are inverse to each other. */
  ghost predicate IndexPartial(s: Store, forward: map<nat, seq<nat>>, reverse: map<nat, seq<nat>>) {
    && (forall d: nat :: NoDuplicates(Overridden(s.reverse, reverse, d)))
    && (forall d: nat, h: nat ::
          h in Overridden(s.reverse, reverse, d) <==> d in Overridden(s.forward, forward, h))
  }

  /** In the middle of one slot: its edges are new for the dependencies already edited. */
  ghost predicate EdgesPartial(s: Store, forward: map<nat, seq<nat>>, reverse: map<nat, seq<nat>>, handle: nat,
                               previous: seq<nat>, current: seq<nat>, edited: seq<nat>) {
    && (forall d: nat :: NoDuplicates(Overridden(s.reverse, reverse, d)))
    && (forall d: nat :: handle in Overridden(s.reverse, reverse, d) <==> if d in edited then d in current else d in previous)
    && (forall d: nat, h: nat :: h != handle ==>
          (h in Overridden(s.reverse, reverse, d) <==> d in Overridden(s.forward, forward, h)))
  }

  lemma EdgesStart(s: Store, forward: map<nat, seq<nat>>, reverse: map<nat, seq<nat>>, handle: nat,
                   previous: seq<nat>, current: seq<nat>)
    requires IndexPartial(s, forward, reverse) && handle !in forward && previous == At(s.forward, handle)
    ensures EdgesPartial(s, forward, reverse, handle, previous, current, [])
  {
    hide At, NoDuplicates;
    assert Overridden(s.forward, forward, handle) == previous;
  }

  lemma EdgesStep(s: Store, forward: map<nat, seq<nat>>, reverse: map<nat, seq<nat>>, handle: nat,
                  previous: seq<nat>, current: seq<nat>, edited: seq<nat>, dependency: nat, dependents: seq<nat>)
    requires EdgesPartial(s, forward, reverse, handle, previous, current, edited)
    requires NoDuplicates(Overridden(s.reverse, reverse, dependency)) ==> NoDuplicates(dependents)
    requires handle in dependents <==> dependency in current
    requires forall h :: h != handle ==> (h in dependents <==> h in Overridden(s.reverse, reverse, dependency))
    ensures EdgesPartial(s, forward, reverse[dependency := dependents], handle, previous, current, edited + [dependency])
  {
    hide At, NoDuplicates;
    var reverse' := reverse[dependency := dependents];
    assert forall d: nat ::
        Overridden(s.reverse, reverse', d) == if d == dependency then dependents else Overridden(s.reverse, reverse, d);
  }

  lemma EdgesEnd(s: Store, forward: map<nat, seq<nat>>, reverse: map<nat, seq<nat>>, handle: nat,
                 previous: seq<nat>, current: seq<nat>, affected: seq<nat>)
    requires EdgesPartial(s, forward, reverse, handle, previous, current, affected)
    requires forall d: nat :: d in affected <==> d in previous || d in current
    ensures IndexPartial(s, forward[handle := current], reverse)
  {
    hide At, NoDuplicates;
    var forward' := forward[handle := current];
    forall d: nat, h: nat
      ensures h in Overridden(s.reverse, reverse, d) <==> d in Overridden(s.forward, forward', h)
    {
      assert Overridden(s.forward, forward', h) == if h == handle then current else Overridden(s.forward, forward, h);
    }
  }

  ghost predicate ForwardExact(s: Store, c: Candidate, handle: nat, list: seq<nat>)
    requires s.Valid() && CandidateValid(s, c)
  {
    && NoDuplicates(list)
    && RefsValid(s.table + c.added, MembersAfter(s, c, handle))
    && SetOf(list) == Dependencies(s.table + c.added, MembersAfter(s, c, handle))
  }

  /** The loop state after the changed slots in `done`. */
  ghost predicate IndexedSoFar(s: Store, c: Candidate, done: seq<nat>, forward: map<nat, seq<nat>>,
                               reverse: map<nat, seq<nat>>)
    requires s.Valid() && CandidateValid(s, c)
  {
    && IndexPartial(s, forward, reverse)
    && forward.Keys == SetOf(done)
    && (forall h <- forward :: ForwardExact(s, c, h, forward[h]))
    && (forall d <- reverse :: d < c.next)
  }

  lemma NothingIndexed(s: Store, c: Candidate)
    requires s.Valid() && CandidateValid(s, c)
    ensures IndexedSoFar(s, c, [], map[], map[])
  {
  }

  lemma IndexedSoFarParts(s: Store, c: Candidate, done: seq<nat>, forward: map<nat, seq<nat>>,
                          reverse: map<nat, seq<nat>>)
    requires s.Valid() && CandidateValid(s, c) && IndexedSoFar(s, c, done, forward, reverse)
    ensures IndexPartial(s, forward, reverse)
    ensures forall h :: h in forward <==> h in done
  {
    assert forall h :: h in done <==> h in SetOf(done);
  }

  lemma ForwardBounded(s: Store, handle: nat, d: nat)
    requires s.Valid() && d in At(s.forward, handle)
    ensures 1 <= d <= |s.types|
  {
  }

  lemma DependencyBounds(s: Store, c: Candidate, handle: nat, list: seq<nat>, d: nat)
    requires s.Valid() && CandidateValid(s, c) && !c.full && ForwardExact(s, c, handle, list)
    requires d in At(s.forward, handle) || d in list
    ensures d < c.next
  {
    if d in At(s.forward, handle) {
      ForwardBounded(s, handle, d);
    } else {
      assert d in SetOf(list);
      HandlesBoundedAppend(s.table, c.added, |s.types|, c.next - 1);
      DependencyInBounds(s.table + c.added, c.next - 1, MembersAfter(s, c, handle), d);
    }
  }

  lemma IndexedSoFarStep(s: Store, c: Candidate, done: seq<nat>, handle: nat, list: seq<nat>,
                         forward: map<nat, seq<nat>>,
                         reverse: map<nat, seq<nat>>, reverse': map<nat, seq<nat>>)
    requires s.Valid() && CandidateValid(s, c) && !c.full
    requires IndexedSoFar(s, c, done, forward, reverse)
    requires ForwardExact(s, c, handle, list)
    requires IndexPartial(s, forward[handle := list], reverse')
    requires forall d <- reverse' :: d in reverse || d in At(s.forward, handle) || d in list
    ensures IndexedSoFar(s, c, done + [handle], forward[handle := list], reverse')
  {
    hide Store.Valid, CandidateValid, IndexPartial, ForwardExact;
    assert SetOf(done + [handle]) == SetOf(done) + {handle};
    var forward' := forward[handle := list];
    assert forward'.Keys == forward.Keys + {handle};
    assert forward'.Keys == SetOf(done + [handle]);
    assert forall h <- forward' :: ForwardExact(s, c, h, forward'[h]);
    forall d <- reverse'
      ensures d < c.next
    {
      if d !in reverse {
        DependencyBounds(s, c, handle, list, d);
      }
    }
  }

  lemma IndexComplete(s: Store, c: Candidate, forward: map<nat, seq<nat>>, reverse: map<nat, seq<nat>>)
    requires s.Valid() && CandidateValid(s, c)
    requires IndexedSoFar(s, c, c.order, forward, reverse)
    ensures IndexUpdatesExact(s, c, forward, reverse)
  {
    hide Store.Valid, AddedValid, BuildValid, Overridden, Dependencies, MembersAfter, NoDuplicates, SetOf, RefsValid;
    forall h <- forward
      ensures ForwardExact(s, c, h, forward[h])
    {
    }
  }

  lemma {:induction false} EdgesOf(s: Store, forward: map<nat, seq<nat>>, reverse: map<nat, seq<nat>>, handle: nat,
                                   previous: seq<nat>, current: seq<nat>, affected: seq<nat>)
    requires EdgesPartial(s, forward, reverse, handle, previous, current, [])
    ensures EdgesPartial(s, forward, WithEdges(s, reverse, handle, current, affected), handle, previous, current, affected)
    decreases |affected|
  {
    hide EdgesPartial, Overridden, Redirected, NoDuplicates;
    if affected != [] {
      var n := |affected| - 1;
      EdgesOf(s, forward, reverse, handle, previous, current, affected[..n]);
      var before := WithEdges(s, reverse, handle, current, affected[..n]);
      EdgesStep(s, forward, before, handle, previous, current, affected[..n], affected[n],
                Redirected(Overridden(s.reverse, before, affected[n]), handle, affected[n] in current));
      assert affected == affected[..n] + [affected[n]];
    }
  }

  /** Redirecting a slot in everything it depended or will depend on keeps the lists inverse. */
  lemma EditedIsInverse(s: Store, forward: map<nat, seq<nat>>, reverse: map<nat, seq<nat>>, handle: nat,
                        current: seq<nat>)
    requires IndexPartial(s, forward, reverse) && handle !in forward
    ensures var affected := Affected(At(s.forward, handle), current);
            IndexPartial(s, forward[handle := current], WithEdges(s, reverse, handle, current, affected))
  {
    hide IndexPartial, EdgesPartial, At;
    var previous := At(s.forward, handle);
    EdgesStart(s, forward, reverse, handle, previous, current);
    EdgesOf(s, forward, reverse, handle, previous, current, Affected(previous, current));
    EdgesEnd(s, forward, WithEdges(s, reverse, handle, current, Affected(previous, current)), handle, previous, current,
             Affected(previous, current));
  }

  lemma NewListExact(s: Store, c: Candidate, handle: nat)
    requires s.Valid() && CandidateValid(s, c) && !c.full && handle in c.changes
    ensures ForwardExact(s, c, handle, NewList(s, c, handle))
  {
    hide OverlayValid, AddedValid, Store.TableValid, Store.MembersResolve;
    MembersAfterRefsValid(s, c, handle);
    CandidateTable(s, c);
    if c.changes[handle].Unchanged? {
      MembersAreTheViewsMembers(s, handle);
      CommittedTable(s);
      DependenciesStable(s.table, s.table + c.added, s.MembersOf(handle));
    }
  }

  lemma CommittedTable(s: Store)
    requires s.Valid()
    ensures s.InArenas() && WellFormed(s.table)
  {
  }

  /** The computed lists are exact for the slots done. */
  lemma {:induction false} EditedSoFar(s: Store, c: Candidate, done: seq<nat>)
    requires s.Valid() && CandidateValid(s, c) && !c.full
    requires NoDuplicates(done) && forall h <- done :: h in c.changes
    ensures IndexedSoFar(s, c, done, ForwardAfter(s, c, done), ReverseAfter(s, c, done))
    decreases |done|
  {
    hide Store.Valid, CandidateValid, IndexedSoFar, IndexPartial, NewList, At;
    if done == [] {
      NothingIndexed(s, c);
      assert ForwardAfter(s, c, []) == map[];
    } else {
      var n := |done| - 1;
      var handle, before := done[n], done[..n];
      DistinctPrefix(done, n);
      DistinctNext(done, n);
      assert done == before + [handle];
      EditedSoFar(s, c, before);
      var forward, reverse := ForwardAfter(s, c, before), ReverseAfter(s, c, before);
      var current := NewList(s, c, handle);
      IndexedSoFarParts(s, c, before, forward, reverse);
      EditedIsInverse(s, forward, reverse, handle, current);
      NewListExact(s, c, handle);
      assert ForwardAfter(s, c, done) == forward[handle := current];
      IndexedSoFarStep(s, c, before, handle, current, forward, reverse, ReverseAfter(s, c, done));
    }
  }

  /** The lists an incremental update prepares are exact for its candidate. */
  lemma PreparedIndexExact(s: Store, c: Candidate)
    requires s.Valid() && CandidateValid(s, c) && !c.full
    ensures OrderMatches(c)
    ensures IndexUpdatesExact(s, c, ForwardAfter(s, c, c.order), ReverseAfter(s, c, c.order))
  {
    OrderOf(s, c);
    hide Store.Valid, CandidateValid, IndexedSoFar, IndexUpdatesExact;
    EditedSoFar(s, c, c.order);
    IndexComplete(s, c, ForwardAfter(s, c, c.order), ReverseAfter(s, c, c.order));
  }

  /** The list of changed slots names each of them once. */
  ghost predicate OrderMatches(c: Candidate) {
    && NoDuplicates(c.order)
    && (forall h <- c.order :: h in c.changes)
    && (forall h <- c.changes :: h in c.order)
  }

  lemma OrderOf(s: Store, c: Candidate)
    requires CandidateValid(s, c)
    ensures OrderMatches(c)
  {
    assert forall h :: h in c.order <==> h in SetOf(c.order);
  }

  ghost predicate MemberGiven(changes: Changes, m: Member) {
    exists h :: h in changes && changes[h].Replacement? && m in changes[h].build.members
  }

  ghost predicate ValueGiven(changes: Changes, v: EnumValue) {
    exists h :: h in changes && changes[h].Replacement? && v in changes[h].build.values
  }

  /** An entry made for a replacement; an undefined one has an empty range. */
  ghost predicate EntryGiven(changes: Changes, e: TypeEntry) {
    && (e.definition.begin == 0 ==> e.definition.count == 0)
    && exists h :: h in changes && changes[h].Replacement? && e.kind == changes[h].kind && e.enumeration == changes[h].enumeration
  }

  /** Arena records and entries are old ones or come out of the changes. */
  ghost predicate Sourced(types: Types, members: seq<Member>, values: seq<EnumValue>, changes: Changes, types': Types,
                          members': seq<Member>, values': seq<EnumValue>) {
    && (forall m <- members' :: m in members || MemberGiven(changes, m))
    && (forall v <- values' :: v in values || ValueGiven(changes, v))
    && (forall t <- types' :: t.Some? ==> t in types || EntryGiven(changes, t.value))
  }

  /** The relation between the Store before and after an incremental publication. */
  ghost predicate PublishedIncrementally(s: Store, c: Candidate, forward: map<nat, seq<nat>>,
                                         reverse: map<nat, seq<nat>>, s': Store)
    requires s.InArenas()
  {
    && |s'.types| == c.next - 1
    && s'.InArenas()
    && (forall h: nat :: s'.View(h) == ViewAfter(s, false, c.changes, h))
    && Sourced(s.types, s.members, s.values, c.changes, s'.types, s'.members, s'.values)
    && s'.table == s.table + c.added
    && NamedMap(s'.namedRefs) == NamedMap(s.namedRefs) + c.addedNamed
    && s'.derivedIndex == s.derivedIndex + c.addedDerived
    && |s'.forward| == |s'.reverse| == c.next
    && (forall h: nat :: At(s'.forward, h) == Overridden(s.forward, forward, h))
    && (forall d: nat :: At(s'.reverse, d) == Overridden(s.reverse, reverse, d))
  }

  /** Dependencies are read off the records a list already had. */
  lemma DependenciesStable(table: seq<Record>, longer: seq<Record>, members: seq<Member>)
    requires WellFormed(table) && WellFormed(longer) && table <= longer
    requires RefsValid(table, members)
    ensures RefsValid(longer, members)
    ensures Dependencies(longer, members) == Dependencies(table, members)
  {
    forall m | m in members
      ensures Base(longer, m.ref) == Base(table, m.ref)
    {
      MeaningStable(table, longer, m.ref);
    }
  }

  lemma HandlesBoundedAppend(table: seq<Record>, added: seq<Record>, count: nat, more: nat)
    requires HandlesBounded(table, count) && HandlesBounded(added, more) && count <= more
    ensures HandlesBounded(table + added, more)
  {
  }

  lemma PublishedMembersResolve(s: Store, c: Candidate, forward: map<nat, seq<nat>>, reverse: map<nat, seq<nat>>,
                                s': Store)
    requires s.Valid() && CandidateValid(s, c) && !c.full
    requires EverySlotPasses(s, c)
    requires PublishedIncrementally(s, c, forward, reverse, s')
    ensures WellFormed(s'.table) && s'.MembersResolve()
    ensures forall h :: s'.MembersOf(h) == MembersAfter(s, c, h)
  {
    forall h: nat
      ensures s'.MembersOf(h) == MembersAfter(s, c, h)
    {
      MembersAreTheViewsMembers(s', h);
      MembersAreTheViewsMembers(s, h);
    }
    forall h: nat, m | m in s'.MembersOf(h)
      ensures s'.Resolves(m.ref)
    {
      MembersAreTheViewsMembers(s, h);
      assert s'.View(h) == ViewAfter(s, false, c.changes, h);
      assert 1 <= h < c.next;
      assert SlotPasses(s, c, h);
      assert RefIsLive(s, c, m.ref);
      LivenessAfter(s, c, s', Base(s'.table, m.ref));
    }
  }

  lemma LivenessAfter(s: Store, c: Candidate, s': Store, handle: nat)
    requires s.InArenas() && s'.InArenas() && !c.full
    requires forall h: nat :: s'.View(h) == ViewAfter(s, false, c.changes, h)
    ensures TypeIsLive(s.types, false, c.changes, handle) <==> s'.IsLive(handle)
  {
    assert s'.View(handle) == ViewAfter(s, false, c.changes, handle);
  }

  lemma PublishedForwardAt(s: Store, c: Candidate, forward: map<nat, seq<nat>>, reverse: map<nat, seq<nat>>,
                           s': Store, h: nat)
    requires s.Valid() && CandidateValid(s, c) && !c.full
    requires IndexUpdatesExact(s, c, forward, reverse)
    requires PublishedIncrementally(s, c, forward, reverse, s')
    requires s'.MembersOf(h) == MembersAfter(s, c, h)
    ensures RefsValid(s'.table, s'.MembersOf(h))
    ensures SetOf(At(s'.forward, h)) == Dependencies(s'.table, s'.MembersOf(h))
    ensures NoDuplicates(At(s'.forward, h))
  {
    MembersAfterRefsValid(s, c, h);
    if h !in c.changes {
      MembersAreTheViewsMembers(s, h);
      DependenciesStable(s.table, s'.table, s.MembersOf(h));
    }
  }

  lemma DependencyInBounds(table: seq<Record>, count: nat, members: seq<Member>, d: nat)
    requires WellFormed(table) && RefsValid(table, members) && HandlesBounded(table, count)
    requires d in Dependencies(table, members)
    ensures 1 <= d <= count
  {
    var m :| m in members && Base(table, m.ref) == d && d != 0;
    BaseBounded(table, count, m.ref);
  }

  lemma OverriddenInverse(s: Store, forward: map<nat, seq<nat>>, reverse: map<nat, seq<nat>>, s': Store)
    requires forall d: nat :: NoDuplicates(Overridden(s.reverse, reverse, d))
    requires forall d: nat, h: nat ::
               h in Overridden(s.reverse, reverse, d) <==> d in Overridden(s.forward, forward, h)
    requires forall h: nat :: At(s'.forward, h) == Overridden(s.forward, forward, h)
    requires forall d: nat :: At(s'.reverse, d) == Overridden(s.reverse, reverse, d)
    ensures forall d: nat :: NoDuplicates(At(s'.reverse, d))
    ensures forall d, h :: h in At(s'.reverse, d) <==> d in At(s'.forward, h)
  {
    hide Overridden, At, NoDuplicates;
    forall d: nat
      ensures NoDuplicates(At(s'.reverse, d))
    {
      assert At(s'.reverse, d) == Overridden(s.reverse, reverse, d);
    }
    forall d: nat, h: nat
      ensures h in At(s'.reverse, d) <==> d in At(s'.forward, h)
    {
      assert At(s'.reverse, d) == Overridden(s.reverse, reverse, d);
      assert At(s'.forward, h) == Overridden(s.forward, forward, h);
    }
  }

  lemma DependenciesInBounds(s': Store)
    requires s'.InArenas() && WellFormed(s'.table) && HandlesBounded(s'.table, |s'.types|)
    requires forall h :: RefsValid(s'.table, s'.MembersOf(h))
    requires forall h :: SetOf(At(s'.forward, h)) == Dependencies(s'.table, s'.MembersOf(h))
    ensures forall d: nat, h: nat :: d in At(s'.forward, h) ==> 1 <= h <= |s'.types| && 1 <= d <= |s'.types|
  {
    forall d: nat, h: nat | d in At(s'.forward, h)
      ensures 1 <= h <= |s'.types| && 1 <= d <= |s'.types|
    {
      assert d in SetOf(At(s'.forward, h));
      DependencyInBounds(s'.table, |s'.types|, s'.MembersOf(h), d);
      NonEmptyDependencies(s'.table, s'.MembersOf(h), d);
    }
  }

  lemma PublishedIndexExact(s: Store, c: Candidate, forward: map<nat, seq<nat>>, reverse: map<nat, seq<nat>>, s': Store)
    requires s.Valid() && CandidateValid(s, c) && !c.full
    requires IndexUpdatesExact(s, c, forward, reverse)
    requires PublishedIncrementally(s, c, forward, reverse, s')
    requires forall h :: s'.MembersOf(h) == MembersAfter(s, c, h)
    requires HandlesBounded(s'.table, |s'.types|)
    ensures s'.IndexExact()
  {
    hide Store.Valid, CandidateValid, ViewAfter, Dependencies, Store.View, Store.MembersOf, MembersAfter,
         NoDuplicates, SetOf, At, Overridden, WellFormed, HandlesBounded, RefsValid;
    CandidateTable(s, c);
    forall h: nat
      ensures RefsValid(s'.table, s'.MembersOf(h))
      ensures SetOf(At(s'.forward, h)) == Dependencies(s'.table, s'.MembersOf(h))
      ensures NoDuplicates(At(s'.forward, h))
    {
      PublishedForwardAt(s, c, forward, reverse, s', h);
    }
    OverriddenInverse(s, forward, reverse, s');
    DependenciesInBounds(s');
  }

  lemma NonEmptyDependencies(table: seq<Record>, members: seq<Member>, d: nat)
    requires WellFormed(table) && RefsValid(table, members) && d in Dependencies(table, members)
    ensures members != []
  {
  }

  /** A checked and indexed incremental publication leads from a valid Store to a valid Store. */
  lemma PublishedIsValid(s: Store, c: Candidate, forward: map<nat, seq<nat>>, reverse: map<nat, seq<nat>>, s': Store)
    requires s.Valid() && CandidateValid(s, c) && !c.full
    requires EverySlotPasses(s, c)
    requires IndexUpdatesExact(s, c, forward, reverse)
    requires PublishedIncrementally(s, c, forward, reverse, s')
    ensures s'.Valid()
  {
    HandlesBoundedAppend(s.table, c.added, |s.types|, c.next - 1);
    PublishedMembersResolve(s, c, forward, reverse, s');
    PublishedIndexExact(s, c, forward, reverse, s');
  }

  // ----- Rebuild -----

  /** Two member lists with the same names whose TypeRefs mean the same, each in its own table. */
  ghost predicate SameMembers(table: seq<Record>, members: seq<Member>, table': seq<Record>, members': seq<Member>)
    requires WellFormed(table) && WellFormed(table')
  {
    && |members| == |members'|
    && forall i :: 0 <= i < |members| ==>
         && members'[i].name == members[i].name
         && IsRef(table, members[i].ref) && IsRef(table', members'[i].ref)
         && Meaning(table', members'[i].ref) == Meaning(table, members[i].ref)
  }

  lemma {:induction false} SameMembersExtend(table: seq<Record>, members: seq<Member>, table': seq<Record>,
                                             longer: seq<Record>, members': seq<Member>)
    requires WellFormed(table) && WellFormed(table') && WellFormed(longer) && table' <= longer
    requires SameMembers(table, members, table', members')
    ensures SameMembers(table, members, longer, members')
  {
    forall i | 0 <= i < |members|
      ensures Meaning(longer, members'[i].ref) == Meaning(table, members[i].ref)
    {
      MeaningStable(table', longer, members'[i].ref);
    }
  }

  /** A change whose members were carried over to another table. */
  ghost predicate SameChange(table: seq<Record>, change: Change, table': seq<Record>, change': Change)
    requires WellFormed(table) && WellFormed(table')
  {
    if change.Replacement? && change.kind.Aggregate? then
      && change'.Replacement?
      && change' == change.(build := change.build.(members := change'.build.members))
      && SameMembers(table, change.build.members, table', change'.build.members)
    else change' == change
  }

  ghost predicate RebuiltTableValid(table: seq<Record>, named: seq<nat>, derived: map<DerivedKey, nat>, next: nat) {
    && 1 <= next
    && WellFormed(table)
    && Indexed(table, PREFIX_SIZE, NamedMap(named), derived)
    && HandlesBounded(table, next - 1)
    && |named| == next
  }

  /** What a rebuild leaves in a slot: nothing survives that lies outside the new slots. */
  ghost function RebuiltView(s: Store, next: nat, carried: Changes, handle: nat): Option<TypeView>
    requires s.InArenas()
  {
    if handle < next then ViewAfter(s, true, carried, handle) else None
  }

  /** The detached arenas and slots hold the view of every replaced slot below the counter and nothing else. */
  ghost predicate LaidOutFor(s: Store, next: nat, carried: Changes, types: Types, members: seq<Member>,
                             values: seq<EnumValue>)
    requires s.InArenas()
  {
    && |types| + 1 == next
    && AllInArenas(types, members, values)
    && (forall h: nat :: ViewIn(types, members, values, h) == RebuiltView(s, next, carried, h))
    && Sourced([], [], [], carried, types, members, values)
  }

  /** Every replaced slot below the counter has its named TypeRef. */
  ghost predicate NamesCover(changes: Changes, next: nat, named: seq<nat>) {
    |named| == next && forall h <- changes :: changes[h].Replacement? && h < next ==> named[h] != 0
  }

  /** The new table and every change carried over to it. */
  ghost predicate CarriedOver(s: Store, c: Candidate, carried: Changes, table: seq<Record>, named: seq<nat>,
                              derived: map<DerivedKey, nat>)
    requires WellFormed(s.table + c.added)
  {
    && RebuiltTableValid(table, named, derived, c.next) && NamesCover(c.changes, c.next, named)
    && carried.Keys == c.changes.Keys
    && forall h <- c.changes :: SameChange(s.table + c.added, c.changes[h], table, carried[h])
  }

  /** The relation between the candidate of a rebuild and the Store it publishes. */
  ghost predicate PublishedByRebuild(s: Store, c: Candidate, changes': Changes, s': Store)
    requires s.InArenas() && WellFormed(s.table + c.added)
  {
    && changes'.Keys == c.changes.Keys
    && |s'.types| == c.next - 1
    && RebuiltTableValid(s'.table, s'.namedRefs, s'.derivedIndex, c.next)
    && NamesCover(c.changes, c.next, s'.namedRefs)
    && (forall h <- c.changes :: SameChange(s.table + c.added, c.changes[h], s'.table, changes'[h]))
    && s'.InArenas()
    && (forall h: nat :: s'.View(h) == RebuiltView(s, c.next, changes', h))
    && Sourced([], [], [], changes', s'.types, s'.members, s'.values)
  }

  lemma CarriedMemberBase(table: seq<Record>, members: seq<Member>, table': seq<Record>, members': seq<Member>,
                          m: Member)
    returns (before: Member)
    requires WellFormed(table) && WellFormed(table')
    requires SameMembers(table, members, table', members') && m in members'
    ensures before in members && IsRef(table, before.ref) && IsRef(table', m.ref)
    ensures Base(table', m.ref) == Base(table, before.ref)
  {
    var i :| 0 <= i < |members'| && members'[i] == m;
    before := members[i];
    BaseOfMeaning(table, before.ref);
    BaseOfMeaning(table', m.ref);
  }

  lemma LivenessAfterRebuild(s: Store, c: Candidate, changes': Changes, s': Store, handle: nat)
    requires s.InArenas() && WellFormed(s.table + c.added)
    requires PublishedByRebuild(s, c, changes', s') && handle < c.next
    ensures TypeIsLive(s.types, true, c.changes, handle) <==> s'.IsLive(handle)
  {
    assert s'.View(handle) == RebuiltView(s, c.next, changes', handle);
    if handle in c.changes {
      assert SameChange(s.table + c.added, c.changes[handle], s'.table, changes'[handle]);
    }
  }

  lemma RebuiltSlotResolves(s: Store, c: Candidate, changes': Changes, s': Store, h: nat, m: Member)
    requires s.Valid() && CandidateValid(s, c) && c.full
    requires EverySlotPasses(s, c)
    requires PublishedByRebuild(s, c, changes', s')
    requires h in changes' && changes'[h].Replacement? && changes'[h].kind.Aggregate?
    requires m in changes'[h].build.members
    ensures s'.Resolves(m.ref)
  {
    var table := s.table + c.added;
    assert SameChange(table, c.changes[h], s'.table, changes'[h]);
    var before := CarriedMemberBase(table, c.changes[h].build.members, s'.table, changes'[h].build.members, m);
    assert SlotPasses(s, c, h);
    assert RefIsLive(s, c, before.ref);
    assert BuildValid(table, c.next, c.changes[h]);
    LivenessAfterRebuild(s, c, changes', s', Base(s'.table, m.ref));
  }

  lemma RebuiltMembersResolve(s: Store, c: Candidate, changes': Changes, s': Store)
    requires s.Valid() && CandidateValid(s, c) && c.full
    requires EverySlotPasses(s, c)
    requires PublishedByRebuild(s, c, changes', s')
    ensures s'.MembersResolve()
  {
    forall h: nat, m | m in s'.MembersOf(h)
      ensures s'.Resolves(m.ref)
    {
      MembersAreTheViewsMembers(s', h);
      assert s'.View(h) == RebuiltView(s, c.next, changes', h);
      RebuiltSlotResolves(s, c, changes', s', h, m);
    }
  }

  /** The memo of a table rebuild: entries map to TypeRefs with the same meaning. */
  ghost predicate RemapValid(table: seq<Record>, remap: seq<nat>, rebuilt: seq<Record>)
    requires WellFormed(table) && WellFormed(rebuilt)
  {
    && |remap| == |table|
    && forall r :: 0 <= r < |remap| && remap[r] != 0 ==>
         && r != 0 && IsRef(rebuilt, remap[r])
         && Meaning(rebuilt, remap[r]) == Meaning(table, r)
  }

  lemma RemapExtend(table: seq<Record>, remap: seq<nat>, rebuilt: seq<Record>, longer: seq<Record>)
    requires WellFormed(table) && WellFormed(rebuilt) && WellFormed(longer) && rebuilt <= longer
    requires RemapValid(table, remap, rebuilt)
    ensures RemapValid(table, remap, longer)
  {
    forall r | 0 <= r < |remap| && remap[r] != 0
      ensures Meaning(longer, remap[r]) == Meaning(rebuilt, remap[r])
    {
      MeaningStable(rebuilt, longer, remap[r]);
    }
  }

  lemma RebuiltNamedFound(rebuilt: seq<Record>, named: seq<nat>, derived: map<DerivedKey, nat>, next: nat, handle: nat)
    requires RebuiltTableValid(rebuilt, named, derived, next)
    requires handle < |named| && named[handle] != 0
    ensures IsRef(rebuilt, named[handle]) && Meaning(rebuilt, named[handle]) == NamedTree(handle)
  {
    assert handle in NamedMap(named);
  }

  lemma RebuiltDerivedFound(rebuilt: seq<Record>, named: seq<nat>, derived: map<DerivedKey, nat>, next: nat,
                            key: DerivedKey)
    requires RebuiltTableValid(rebuilt, named, derived, next)
    requires key in derived
    ensures IsRef(rebuilt, derived[key]) && IsRef(rebuilt, key.child)
    ensures Meaning(rebuilt, derived[key]) == DerivedTree(key.kind, key.payload, Meaning(rebuilt, key.child))
  {
  }

  lemma RebuiltDerivedAdded(rebuilt: seq<Record>, named: seq<nat>, derived: map<DerivedKey, nat>, next: nat,
                            key: DerivedKey)
    requires RebuiltTableValid(rebuilt, named, derived, next)
    requires key !in derived && IsRef(rebuilt, key.child) && PayloadFits(key.kind, key.payload)
    ensures RebuiltTableValid(rebuilt + [Derived(key)], named, derived[key := |rebuilt|], next)
    ensures var longer := rebuilt + [Derived(key)];
            && Meaning(longer, |rebuilt|) == DerivedTree(key.kind, key.payload, Meaning(longer, key.child))
            && Meaning(longer, key.child) == Meaning(rebuilt, key.child)
  {
    WellFormedAppend(rebuilt, Derived(key));
    HandlesBoundedPush(rebuilt, Derived(key), next - 1);
    IndexedAppendDerived(rebuilt, PREFIX_SIZE, NamedMap(named), derived, key);
    MeaningStable(rebuilt, rebuilt + [Derived(key)], key.child);
  }

  lemma RebuiltNamedAdded(rebuilt: seq<Record>, named: seq<nat>, next: nat, handle: nat)
    requires RebuiltTableValid(rebuilt, named, map[], next)
    requires 0 < handle < next && named[handle] == 0
    ensures RebuiltTableValid(rebuilt + [Named(handle)], named[handle := |rebuilt|], map[], next)
  {
    WellFormedAppend(rebuilt, Named(handle));
    HandlesBoundedPush(rebuilt, Named(handle), next - 1);
    assert handle !in NamedMap(named);
    IndexedAppendNamed(rebuilt, PREFIX_SIZE, NamedMap(named), map[], handle);
    assert NamedMap(named[handle := |rebuilt|]) == NamedMap(named)[handle := |rebuilt|];
  }

  lemma RebuiltTableStart(named: seq<nat>, next: nat)
    requires 1 <= next && |named| == next && forall h :: 0 <= h < next ==> named[h] == 0
    ensures RebuiltTableValid(InitialTable(), named, map[], next)
  {
    assert NamedMap(named) == map[];
  }

  /** The base of a checked member of a rebuild has a named TypeRef in the new table. */
  lemma CheckedMemberRemaps(s: Store, c: Candidate, handle: nat, m: Member)
    requires s.InArenas() && CandidateValid(s, c) && c.full
    requires WellFormed(s.table + c.added) && EverySlotPasses(s, c)
    requires handle in c.changes && c.changes[handle].Replacement? && c.changes[handle].kind.Aggregate?
    requires m in c.changes[handle].build.members
    ensures IsRef(s.table + c.added, m.ref)
    ensures var base := Base(s.table + c.added, m.ref);
            base != 0 ==> 1 <= base < c.next && base in c.changes && c.changes[base].Replacement?
  {
    assert SlotPasses(s, c, handle);
    assert RefIsLive(s, c, m.ref);
    assert BuildValid(s.table + c.added, c.next, c.changes[handle]);
  }

  lemma SameMembersPush(table: seq<Record>, members: seq<Member>, i: nat, rebuilt: seq<Record>, longer: seq<Record>,
                        carried: seq<Member>, ref: nat)
    requires WellFormed(table) && WellFormed(rebuilt) && WellFormed(longer) && rebuilt <= longer
    requires i < |members| && SameMembers(table, members[..i], rebuilt, carried)
    requires IsRef(table, members[i].ref) && IsRef(longer, ref)
    requires Meaning(longer, ref) == Meaning(table, members[i].ref)
    ensures SameMembers(table, members[..i + 1], longer, carried + [Member(members[i].name, ref)])
  {
    SameMembersExtend(table, members[..i], rebuilt, longer, carried);
  }

  lemma SameChangeExtend(table: seq<Record>, change: Change, rebuilt: seq<Record>, longer: seq<Record>, change': Change)
    requires WellFormed(table) && WellFormed(rebuilt) && WellFormed(longer) && rebuilt <= longer
    requires SameChange(table, change, rebuilt, change')
    ensures SameChange(table, change, longer, change')
  {
    if change.Replacement? && change.kind.Aggregate? {
      SameMembersExtend(table, change.build.members, rebuilt, longer, change'.build.members);
    }
  }

  // ----- Laying out definitions -----

  /** One replaced slot laid out at the end of the arenas. */
  function LaidOut(change: Change, members: seq<Member>, values: seq<EnumValue>): (TypeEntry, seq<Member>,
                   seq<EnumValue>)
    requires change.Replacement?
  {
    var build := change.build;
    if !build.definitionPending then
      (TypeEntry(change.kind, change.enumeration, NO_DEFINITION), members, values)
    else if change.kind.Aggregate? then
      (TypeEntry(change.kind, change.enumeration, Definition(|members| + 1, |build.members|)), members + build.members, values)
    else
      (TypeEntry(change.kind, change.enumeration, Definition(|values| + 1, |build.values|)), members, values + build.values)
  }

  lemma LaidOutView(change: Change, members: seq<Member>, values: seq<EnumValue>)
    requires change.Replacement?
    ensures var (entry, members', values') := LaidOut(change, members, values);
            && members <= members' && values <= values'
            && EntryInArenas(entry, members', values')
            && ViewOf(entry, members', values') == ChangedView(change)
  {
    var (entry, members', values') := LaidOut(change, members, values);
    if change.build.definitionPending {
      assert (members + change.build.members)[|members|..] == change.build.members;
      assert (values + change.build.values)[|values|..] == change.build.values;
    }
  }

  function ViewIn(types: Types, members: seq<Member>, values: seq<EnumValue>, handle: nat): Option<TypeView>
    requires AllInArenas(types, members, values)
  {
    if LiveSlot(types, handle) then Some(ViewOf(types[handle - 1].value, members, values)) else None
  }

  function SlotView(slot: Option<TypeEntry>, members: seq<Member>, values: seq<EnumValue>): Option<TypeView>
    requires slot.Some? ==> EntryInArenas(slot.value, members, values)
  {
    if slot.Some? then Some(ViewOf(slot.value, members, values)) else None
  }

  /** Writing or appending one slot while the arenas grow leaves every other slot's view alone. */
  lemma OtherViewsStable(types: Types, types': Types, members: seq<Member>, values: seq<EnumValue>, index: nat,
                         members': seq<Member>, values': seq<EnumValue>)
    requires AllInArenas(types, members, values)
    requires index < |types'| && |types| <= |types'| <= |types| + 1
    requires forall k :: 0 <= k < |types'| && k != index ==> k < |types| && types'[k] == types[k]
    requires members <= members' && values <= values'
    requires types'[index].Some? ==> EntryInArenas(types'[index].value, members', values')
    ensures AllInArenas(types', members', values')
    ensures ViewIn(types', members', values', index + 1) == SlotView(types'[index], members', values')
    ensures forall h: nat :: h != index + 1 ==> ViewIn(types', members', values', h) == ViewIn(types, members, values, h)
  {
    forall h | LiveSlot(types', h)
      ensures EntryInArenas(types'[h - 1].value, members', values')
      ensures h != index + 1 ==>
                && LiveSlot(types, h)
                && ViewOf(types'[h - 1].value, members', values') == ViewOf(types[h - 1].value, members, values)
    {
      if h != index + 1 {
        assert LiveSlot(types, h);
        ViewStable(types[h - 1].value, members, values, members', values');
      }
    }
  }

  lemma SourcedLaidOut(types: Types, members: seq<Member>, values: seq<EnumValue>, changes: Changes, types': Types,
                       members': seq<Member>, values': seq<EnumValue>, handle: nat, types2: Types)
    requires Sourced(types, members, values, changes, types', members', values')
    requires handle in changes && changes[handle].Replacement?
    requires forall t <- types2 :: t in types' || t == Some(LaidOut(changes[handle], members', values').0)
    ensures var (_, members2, values2) := LaidOut(changes[handle], members', values');
            Sourced(types, members, values, changes, types2, members2, values2)
  {
    var change := changes[handle];
    var (entry, members2, values2) := LaidOut(change, members', values');
    assert EntryGiven(changes, entry);
    forall m <- members2
      ensures m in members || MemberGiven(changes, m)
    {
      if m !in members' {
        assert m in change.build.members;
      }
    }
    forall v <- values2
      ensures v in values || ValueGiven(changes, v)
    {
      if v !in values' {
        assert v in change.build.values;
      }
    }
  }

  lemma SourcedWithout(types: Types, members: seq<Member>, values: seq<EnumValue>, changes: Changes, types': Types,
                       members': seq<Member>, values': seq<EnumValue>, types2: Types)
    requires Sourced(types, members, values, changes, types', members', values')
    requires forall t <- types2 :: t in types' || t == None
    ensures Sourced(types, members, values, changes, types2, members', values')
  {
  }

  // ----- Growing and publishing -----

  /** grow_sparse_vector: resize up to `size` with a default value, never down. */
  function PadTo<T>(vector: seq<T>, size: nat, default: T): seq<T> {
    if |vector| >= size then vector else vector + seq(size - |vector|, i => default)
  }

  /** The Store while an incremental update is prepared: longer vectors, same contents. */
  function Grown(s: Store, next: nat, namedSize: nat): Store {
    s.(types := PadTo(s.types, if next == 0 then 0 else next - 1, None),
       namedRefs := PadTo(s.namedRefs, namedSize, 0),
       forward := PadTo(s.forward, next, []),
       reverse := PadTo(s.reverse, next, []))
  }

  lemma PaddedTypes(s: Store, next: nat)
    requires s.InArenas() && next >= 1
    ensures AllInArenas(PadTo(s.types, next - 1, None), s.members, s.values)
    ensures forall h: nat :: ViewIn(PadTo(s.types, next - 1, None), s.members, s.values, h) == s.View(h)
  {
    var types := PadTo(s.types, next - 1, None);
    forall h: nat
      ensures LiveSlot(types, h) <==> LiveSlot(s.types, h)
    {
    }
  }

  lemma NamedPadded(refs: seq<nat>, size: nat)
    ensures NamedMap(PadTo(refs, size, 0)) == NamedMap(refs)
  {
    var padded := PadTo(refs, size, 0);
    assert forall h: nat :: h in NamedMap(padded) <==> h in NamedMap(refs);
  }

  lemma NamedWritten(refs: seq<nat>, handle: nat, ref: nat)
    requires handle < |refs| && ref != 0
    ensures NamedMap(refs[handle := ref]) == NamedMap(refs)[handle := ref]
  {
    assert forall h: nat :: h in NamedMap(refs[handle := ref]) <==> h in NamedMap(refs) || h == handle;
  }

  lemma RebuiltIndexExact(s': Store)
    requires s'.InArenas() && WellFormed(s'.table) && HandlesBounded(s'.table, |s'.types|)
    requires s'.MembersResolve()
    requires |s'.forward| == |s'.reverse| == |s'.types| + 1
    requires Inverse(|s'.types|, s'.forward, s'.reverse)
    requires forall h :: RefsValid(s'.table, s'.MembersOf(h)) && SetOf(At(s'.forward, h)) == Dependencies(s'.table, s'.MembersOf(h))
    ensures s'.IndexExact()
  {
  }
}
