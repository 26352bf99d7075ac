/** Which committed states export to an accepted checkpoint.

One update drafts types, entities and identities together; a commit publishes the
three. Whatever updates are committed, the state that results is exported as an
accepted checkpoint exactly when it has an entity table and every live entity
finds a live type of its kind in its slot.
 */
module GraphCommits {
  import opened Collections
  import opened TypeTable
  import opened TypeGraph
  import opened GraphCandidate
  import opened GraphHistory
  import C = CompiledState
  import G = CompiledGraph
  import N = StableIds
  import P = Checkpoint

  /** An update in progress: the types, and the names with their entities. */
  datatype Draft = Draft(c: Candidate, names: N.State, added: seq<N.Name>)

  function IdentityMap(identity: seq<C.U32>): (m: N.Identity)
    ensures forall n: nat :: n in m <==> n < |identity| && identity[n] != 0
    ensures forall n <- m :: m[n] == identity[n]
  {
    map n: nat | n < |identity| && identity[n] != 0 :: identity[n]
  }

  /** A live entity has a name and a slot that the table knows. */
  ghost predicate EntityDrafted(table: seq<Record>, next: nat, id: nat, e: N.Entity) {
    0 < id && (e.live ==> 0 < e.name && 1 <= e.slot < next && Named(e.slot) in table)
  }

  ghost predicate EntitiesDrafted(table: seq<Record>, next: nat, entities: map<nat, N.Entity>) {
    forall id <- entities :: EntityDrafted(table, next, id, entities[id])
  }

  ghost predicate DraftValid(before: G.Image, spelling: N.Spelling, d: Draft) {
    && CandidateValid(before.store, d.c)
    && N.Valid(IdentityMap(before.identity), before.nextStableId, spelling, d.names, d.added)
    && EntitiesDrafted(before.store.table + d.c.added, d.c.next, d.names.entities)
    && (forall n <- d.names.identity :: 0 < n)
  }

  function StartDraft(before: G.Image, full: bool): Draft {
    Draft(Candidate(full, map[], [], if full then 1 else |before.store.types| + 1, [], map[], map[]),
          N.State(map[], map[], map[], [], [], before.nextStableId), [])
  }

  // ----- Operations -----

  datatype Op =
    | Declare(entity: N.Entity, change: Change)
    | Forget(name: N.Name, slot: nat)
    | Anonymous(slot: nat, drawn: bool, change: Change)
    | Release(slots: seq<nat>)
    | Define(slot: nat, change: Change)
    | Refer(c: Candidate)
    | Renumber(list: seq<N.Name>, remap: seq<nat>)

  /** A replaced Source gives up the slots it has recorded for its anonymous enums. */
  function Released(c: Candidate, slots: seq<nat>): (r: Candidate)
    ensures r == c.(changes := r.changes, order := r.order)
    ensures forall h :: h in r.changes <==> h in c.changes || h in slots
    ensures forall h <- r.changes :: r.changes[h] == if h in slots then Removed else c.changes[h]
  {
    if slots == [] then c
    else
      var n := |slots| - 1;
      assert slots == slots[..n] + [slots[n]];
      Touched(Released(c, slots[..n]), slots[n], Removed, false)
  }

  ghost function Now(before: G.Image, d: Draft): N.Identity {
    IdentityMap(before.identity) + d.names.identity
  }

  /** The identity an entity is declared under: that of its name, or the next one. */
  ghost function IdFor(before: G.Image, d: Draft, name: N.Name): nat {
    if name in Now(before, d) then Now(before, d)[name] else d.names.next
  }

  ghost predicate DeclaresName(before: G.Image, spelling: N.Spelling, d: Draft, entity: N.Entity, d': Draft) {
    && entity.live && 0 < entity.name && entity.name in spelling
    && N.Declared(d.names, IdFor(before, d, entity.name), entity, d'.names)
    && d'.names.next == (if entity.name in Now(before, d) then d.names.next else d.names.next + 1)
    && d'.added == if entity.name in Now(before, d) then d.added else d.added + [entity.name]
  }

  ghost predicate Does(before: G.Image, spelling: N.Spelling, d: Draft, op: Op, d': Draft) {
    var table := before.store.table + d.c.added;
    match op
    case Declare(entity, change) =>
      && DeclaresName(before, spelling, d, entity, d')
      && 1 <= entity.slot <= d.c.next
      && change.Replacement? && (change.kind.Aggregate? <==> entity.aggregate) && BuildValid(table, d.c.next, change)
      && AssignedIn(before.store, d.c, entity.slot, change, d'.c)
    case Forget(name, slot) =>
      && name in IdentityMap(before.identity)
      && N.Tombstoned(IdentityMap(before.identity), d.names, name, d'.names) && d'.added == d.added
      && slot < d.c.next
      && d'.c == if slot == 0 then d.c else Touched(d.c, slot, Removed, false)
    case Anonymous(slot, drawn, change) =>
      && (if drawn then slot in before.free && 1 <= slot && (slot < d.c.next || d.c.full) else slot == d.c.next)
      && change.Replacement? && change.kind.Enumeration? && BuildValid(table, d.c.next, change)
      && d' == d.(c := Touched(d.c, slot, change, !drawn))
    case Release(slots) =>
      (d.c.full ==> slots == []) && 0 !in slots && d' == d.(c := Released(d.c, slots))
    case Define(slot, change) =>
      && slot in d.c.changes && d.c.changes[slot].Replacement? && d.c.changes[slot].kind.Aggregate?
      && change.Replacement? && change.kind.Aggregate? && BuildValid(table, d.c.next, change)
      && d' == d.(c := Touched(d.c, slot, change, false))
    case Refer(c) =>
      && AddedValid(before.store, c) && d.c.added <= c.added
      && c.full == d.c.full && c.changes == d.c.changes && c.order == d.c.order && c.next == d.c.next
      && d' == d.(c := c)
    case Renumber(list, remap) =>
      && (forall n :: n in list <==> n in d.added) && (forall n <- list :: n in spelling) && N.Sorted(spelling, list)
      && N.IsRemap(before.nextStableId, remap)
      && N.Reassigned(before.nextStableId, d.names, d.added, list, remap, d'.names)
      && d'.added == list && d'.c == d.c
  }

  /** A longer table and a higher counter keep what was drafted. */
  lemma DraftedWiden(table: seq<Record>, longer: seq<Record>, next: nat, more: nat, entities: map<nat, N.Entity>)
    requires EntitiesDrafted(table, next, entities) && table <= longer && next <= more
    ensures EntitiesDrafted(longer, more, entities)
  {
    forall id <- entities
      ensures EntityDrafted(longer, more, id, entities[id])
    {
      assert EntityDrafted(table, next, id, entities[id]);
      if entities[id].live {
        var r :| 0 <= r < |table| && table[r] == Named(entities[id].slot);
        assert longer[r] == table[r];
      }
    }
  }

  lemma DraftedPermuted(table: seq<Record>, next: nat, entities: map<nat, N.Entity>, base: nat, remap: seq<nat>,
                        entities': map<nat, N.Entity>)
    requires EntitiesDrafted(table, next, entities) && 0 < base
    requires N.IsRemap(base, remap) && N.Permuted(entities, base, remap, entities')
    ensures EntitiesDrafted(table, next, entities')
  {
    forall id <- entities'
      ensures EntityDrafted(table, next, id, entities'[id])
    {
      var x := N.Unmapped(base, remap, id);
      assert x in entities && entities'[id] == entities[x];
      assert EntityDrafted(table, next, x, entities[x]);
    }
  }

  lemma StartCandidate(s: Store, c: Candidate)
    requires s.Valid() && c == Candidate(c.full, map[], [], if c.full then 1 else |s.types| + 1, [], map[], map[])
    ensures CandidateValid(s, c)
  {
    CommittedTable(s);
    assert s.table + [] == s.table;
    hide WellFormed, NamedMap, Store.InArenas, Store.MembersResolve, Store.IndexExact;
    assert NamedMap(s.namedRefs) + c.addedNamed == NamedMap(s.namedRefs);
    assert s.derivedIndex + c.addedDerived == s.derivedIndex;
    assert AddedValid(s, c);
    hide AddedValid;
    assert OverlayValid(s, c);
  }

  lemma StartValid(before: G.Image, full: bool, spelling: N.Spelling)
    requires before.store.Valid() && N.Interned(spelling) && 0 < before.nextStableId
    requires N.Sound(IdentityMap(before.identity), before.nextStableId)
    ensures DraftValid(before, spelling, StartDraft(before, full))
  {
    var s, d := before.store, StartDraft(before, full);
    StartCandidate(s, d.c);
    hide Store.Valid, CandidateValid, N.Interned, N.Sound;
    assert N.LiveNamed(IdentityMap(before.identity) + d.names.identity, d.names.entities);
  }

  lemma TouchedKeeps(before: G.Image, spelling: N.Spelling, d: Draft, slot: nat, change: Change, counted: bool, d': Draft)
    requires DraftValid(before, spelling, d) && Touchable(d.c, slot, change, counted)
    requires BuildValid(before.store.table + d.c.added, d.c.next, change)
    requires d' == d.(c := Touched(d.c, slot, change, counted))
    ensures DraftValid(before, spelling, d')
  {
    TouchedValid(before.store, d.c, slot, change, counted);
    hide CandidateValid, BuildValid, N.Valid, EntityDrafted;
    var table := before.store.table + d.c.added;
    DraftedWiden(table, table, d.c.next, d'.c.next, d.names.entities);
  }

  /** A declared entity has an identity above zero. */
  lemma IdPositive(before: G.Image, spelling: N.Spelling, d: Draft, name: N.Name)
    requires N.Valid(IdentityMap(before.identity), before.nextStableId, spelling, d.names, d.added)
    ensures 0 < IdFor(before, d, name)
  {
    N.NowSound(IdentityMap(before.identity), before.nextStableId, spelling, d.names, d.added);
    N.Parts(IdentityMap(before.identity), before.nextStableId, spelling, d.names, d.added);
    N.Components(IdentityMap(before.identity), before.nextStableId, spelling, d.names, d.added);
    hide N.Valid, N.Interned, N.FreshNames, N.RecordsAgree, N.SlotsAgree, N.LiveNamed, NoDuplicates;
  }

  lemma DeclaredNames(before: G.Image, spelling: N.Spelling, d: Draft, entity: N.Entity, d': Draft)
    requires N.Valid(IdentityMap(before.identity), before.nextStableId, spelling, d.names, d.added)
    requires DeclaresName(before, spelling, d, entity, d')
    ensures N.Valid(IdentityMap(before.identity), before.nextStableId, spelling, d'.names, d'.added)
  {
    var committed, base, id := IdentityMap(before.identity), before.nextStableId, IdFor(before, d, entity.name);
    hide N.Valid, N.Declared;
    if entity.name in Now(before, d) {
      N.DeclaredKnown(committed, base, spelling, d.names, d.added, id, entity, d'.names);
    } else {
      N.DeclaredNew(committed, base, spelling, d.names, d.added, entity, d'.names);
    }
  }

  lemma DeclareKeeps(before: G.Image, spelling: N.Spelling, d: Draft, entity: N.Entity, change: Change, d': Draft)
    requires DraftValid(before, spelling, d) && Does(before, spelling, d, Declare(entity, change), d')
    ensures DraftValid(before, spelling, d')
  {
    hide CandidateValid, BuildValid, N.Valid, AddedValid, EntitiesDrafted;
    var s, counted, id := before.store, entity.slot == d.c.next, IdFor(before, d, entity.name);
    IdPositive(before, spelling, d, entity.name);
    DeclaredNames(before, spelling, d, entity, d');
    TouchedValid(s, d.c, entity.slot, change, counted);
    GrownTableKeepsCandidate(s, Touched(d.c, entity.slot, change, counted), d'.c);
    DraftedWiden(s.table + d.c.added, s.table + d'.c.added, d.c.next, d'.c.next, d.names.entities);
    DraftedPut(s.table + d'.c.added, d'.c.next, d.names.entities, id, entity);
  }

  lemma DraftedPut(table: seq<Record>, next: nat, entities: map<nat, N.Entity>, id: nat, entity: N.Entity)
    requires EntitiesDrafted(table, next, entities) && EntityDrafted(table, next, id, entity)
    ensures EntitiesDrafted(table, next, entities[id := entity])
  {
  }

  lemma ForgetKeeps(before: G.Image, spelling: N.Spelling, d: Draft, name: N.Name, slot: nat, d': Draft)
    requires DraftValid(before, spelling, d) && Does(before, spelling, d, Forget(name, slot), d')
    ensures DraftValid(before, spelling, d')
  {
    var s, committed := before.store, IdentityMap(before.identity);
    N.TombstonedValid(committed, before.nextStableId, spelling, d.names, d.added, name, d'.names);
    N.Components(committed, before.nextStableId, spelling, d.names, d.added);
    if slot != 0 {
      TouchedValid(s, d.c, slot, Removed, false);
    }
    hide CandidateValid, N.Valid, N.Interned, N.FreshNames, N.RecordsAgree, N.SlotsAgree, N.LiveNamed;
    var dead := N.Entity(name, false, false, 0);
    assert EntityDrafted(s.table + d.c.added, d.c.next, committed[name], dead);
  }

  lemma ReferKeeps(before: G.Image, spelling: N.Spelling, d: Draft, d': Draft)
    requires DraftValid(before, spelling, d) && Does(before, spelling, d, Refer(d'.c), d')
    ensures DraftValid(before, spelling, d')
  {
    var s := before.store;
    GrownTableKeepsCandidate(s, d.c, d'.c);
    hide CandidateValid, AddedValid, N.Valid;
    DraftedWiden(s.table + d.c.added, s.table + d'.c.added, d.c.next, d'.c.next, d.names.entities);
  }

  lemma RenumberKeeps(before: G.Image, spelling: N.Spelling, d: Draft, list: seq<N.Name>, remap: seq<nat>, d': Draft)
    requires DraftValid(before, spelling, d) && Does(before, spelling, d, Renumber(list, remap), d')
    ensures DraftValid(before, spelling, d')
  {
    var committed, base := IdentityMap(before.identity), before.nextStableId;
    N.ReassignmentKeepsValid(committed, base, spelling, d.names, d.added, list, remap, d'.names);
    N.Components(committed, base, spelling, d.names, d.added);
    hide CandidateValid, N.Valid, N.Interned, N.FreshNames, N.RecordsAgree, N.SlotsAgree, N.LiveNamed, N.Sorted, N.IsRemap;
    hide N.Permuted, EntitiesDrafted;
    DraftedPermuted(before.store.table + d.c.added, d.c.next, d.names.entities, base, remap, d'.names.entities);
  }

  lemma {:induction false} ReleaseKeeps(before: G.Image, spelling: N.Spelling, d: Draft, slots: seq<nat>, d': Draft)
    requires DraftValid(before, spelling, d) && 0 !in slots && (d.c.full ==> slots == [])
    requires d' == d.(c := Released(d.c, slots))
    ensures DraftValid(before, spelling, d')
    decreases |slots|
  {
    hide DraftValid;
    if slots != [] {
      var n := |slots| - 1;
      var mid := d.(c := Released(d.c, slots[..n]));
      ReleaseKeeps(before, spelling, d, slots[..n], mid);
      assert slots[n] in slots;
      TouchedKeeps(before, spelling, mid, slots[n], Removed, false, d');
    }
  }

  /** Every operation keeps the draft in order. */
  lemma DoesKeepsDraft(before: G.Image, spelling: N.Spelling, d: Draft, op: Op, d': Draft)
    requires DraftValid(before, spelling, d) && Does(before, spelling, d, op, d')
    ensures DraftValid(before, spelling, d')
  {
    match op {
      case Declare(entity, change) =>
        DeclareKeeps(before, spelling, d, entity, change, d');
      case Forget(name, slot) =>
        ForgetKeeps(before, spelling, d, name, slot, d');
      case Anonymous(slot, drawn, change) =>
        hide CandidateValid, BuildValid, N.Valid, EntitiesDrafted;
        TouchedKeeps(before, spelling, d, slot, change, !drawn, d');
      case Release(slots) =>
        ReleaseKeeps(before, spelling, d, slots, d');
      case Define(slot, change) =>
        SlotsOfChanges(before.store, d.c, slot);
        hide CandidateValid, BuildValid, N.Valid, EntitiesDrafted;
        TouchedKeeps(before, spelling, d, slot, change, false, d');
      case Refer(c) =>
        ReferKeeps(before, spelling, d, d');
      case Renumber(list, remap) =>
        RenumberKeeps(before, spelling, d, list, remap, d');
    }
  }

  /** Only enums lie at or above the counter. */
  lemma SlotsOfChanges(s: Store, c: Candidate, slot: nat)
    requires CandidateValid(s, c) && slot in c.changes
    ensures 1 <= slot && (slot < c.next || Stray(c.full, c.changes[slot]))
  {
  }

  // ----- Whole updates -----

  /** The operations of one update, one after the other. */
  ghost predicate Drafting(before: G.Image, spelling: N.Spelling, full: bool, drafts: seq<Draft>, ops: seq<Op>) {
    && |drafts| == |ops| + 1
    && drafts[0] == StartDraft(before, full)
    && forall i: nat :: i < |ops| ==> Does(before, spelling, drafts[i], ops[i], drafts[i + 1])
  }

  lemma {:induction false} DraftingKeeps(before: G.Image, spelling: N.Spelling, full: bool, drafts: seq<Draft>,
                                         ops: seq<Op>, i: nat)
    requires Drafting(before, spelling, full, drafts, ops) && i < |drafts|
    requires before.store.Valid() && N.Interned(spelling) && 0 < before.nextStableId
    requires N.Sound(IdentityMap(before.identity), before.nextStableId)
    ensures DraftValid(before, spelling, drafts[i])
  {
    hide Does, DraftValid, Store.Valid, N.Interned, N.Sound;
    if i == 0 {
      StartValid(before, full, spelling);
    } else {
      DraftingKeeps(before, spelling, full, drafts, ops, i - 1);
      assert Does(before, spelling, drafts[i - 1], ops[i - 1], drafts[i - 1 + 1]);
      DoesKeepsDraft(before, spelling, drafts[i - 1], ops[i - 1], drafts[i]);
    }
  }

  predicate EntityStored(e: N.Entity, slot: C.EntitySlot) {
    if e.live then slot.name == e.name && slot.slot == e.slot && (slot.kind.AggregateType? <==> e.aggregate)
    else slot == G.DEAD
  }

  /** The entity table after a commit: a rebuild keeps nothing that was not declared again. */
  ghost predicate EntitiesPublished(before: seq<C.EntitySlot>, full: bool, names: N.State, after: seq<C.EntitySlot>) {
    && (if full then |after| == names.next else |after| >= |before|)
    && (forall id <- names.entities :: id < |after| && EntityStored(names.entities[id], after[id]))
    && (forall id: nat :: id < |after| && id !in names.entities ==>
          after[id] == if !full && id < |before| then before[id] else G.DEAD)
  }

  ghost predicate IdentityPublished(before: seq<C.U32>, overlay: N.Identity, after: seq<C.U32>) {
    && |before| <= |after|
    && (forall n <- overlay :: n < |after| && after[n] == overlay[n])
    && (forall n: nat :: n < |after| && n !in overlay ==> after[n] == if n < |before| then before[n] else 0)
  }

  /** One update, and how it was resolved and published. */
  datatype Update = Update(spelling: N.Spelling, drafts: seq<Draft>, ops: seq<Op>, entityTypes: map<nat, nat>,
                           commit: Commit)
  {
    predicate Drafted() {
      |drafts| == |ops| + 1
    }

    function Final(): Draft
      requires Drafted()
    {
      drafts[|ops|]
    }
  }

  /** A rebuild is refused while some live entity has no live type in its slot. */
  ghost predicate SlotsLive(entities: seq<C.EntitySlot>, types: Types) {
    forall e <- entities :: e.Live() ==> LiveSlot(types, e.slot)
  }

  /** What one commit makes of the Graph; its numbers fit the records. */
  ghost predicate Committed(before: G.Image, u: Update, after: G.Image) {
    && N.Interned(u.spelling) && Drafting(before, u.spelling, u.commit.Rebuild?, u.drafts, u.ops)
    && ResolvedFrom(before.store, u.Final().c, u.commit.candidate, u.entityTypes)
    && Step(before.store, u.commit, after.store)
    && G.Representable(after.store)
    && EntitiesPublished(before.entities, u.commit.Rebuild?, u.Final().names, after.entities)
    && IdentityPublished(before.identity, u.Final().names.identity, after.identity)
    && (u.commit.Rebuild? ==> SlotsLive(after.entities, after.store.types))
    && after.nextStableId == u.Final().names.next && after.abi == before.abi
  }

  /** Loading an export of the Graph in its place. */
  ghost predicate Reloaded(before: G.Image, after: G.Image) {
    G.Acceptable(G.Exported(before)) && G.Restores(G.Exported(before), after) && G.ImageValid(after)
  }

  /** What holds between updates. */
  ghost predicate Settled(image: G.Image) {
    && G.ImageSound(image) && P.PlainAggregates(image)
    && 0 < image.nextStableId && N.Sound(IdentityMap(image.identity), image.nextStableId)
    && (image.identity != [] ==> image.identity[0] == 0)
  }

  // ----- The arenas -----

  /** Everything that a change gives to the arenas is named and in range. */
  ghost predicate GivenSound(table: seq<Record>, changes: Changes) {
    forall h <- changes :: changes[h].Replacement? ==> ChangeSound(table, changes[h])
  }

  ghost predicate ChangeSound(table: seq<Record>, change: Change)
    requires change.Replacement?
  {
    && (forall m <- change.build.members :: m.name != 0 && IsRef(table, m.ref))
    && (forall v <- change.build.values :: v.name != 0)
    && if change.kind.Aggregate? then change.enumeration == PLAIN else change.enumeration.underlying <= C.LAST_UNDERLYING
  }

  predicate PlainEntry(e: TypeEntry) {
    e.kind.Aggregate? ==> e.enumeration == PLAIN
  }

  lemma EntryGivenSound(table: seq<Record>, changes: Changes, e: TypeEntry)
    requires GivenSound(table, changes) && EntryGiven(changes, e)
    ensures G.EntrySound(e) && PlainEntry(e)
  {
    var h :| h in changes && changes[h].Replacement? && e.kind == changes[h].kind && e.enumeration == changes[h].enumeration;
    assert ChangeSound(table, changes[h]);
  }

  lemma MemberGivenSound(table: seq<Record>, changes: Changes, m: Member)
    requires GivenSound(table, changes) && MemberGiven(changes, m)
    ensures m.name != 0 && IsRef(table, m.ref)
  {
    var h :| h in changes && changes[h].Replacement? && m in changes[h].build.members;
    assert ChangeSound(table, changes[h]);
  }

  lemma ValueGivenSound(table: seq<Record>, changes: Changes, v: EnumValue)
    requires GivenSound(table, changes) && ValueGiven(changes, v)
    ensures v.name != 0
  {
    var h :| h in changes && changes[h].Replacement? && v in changes[h].build.values;
    assert ChangeSound(table, changes[h]);
  }

  /** What is stored stays sound when everything new is. */
  lemma ArenasKept(types: Types, members: seq<Member>, values: seq<EnumValue>, changes: Changes, after: G.Image)
    requires Sourced(types, members, values, changes, after.store.types, after.store.members, after.store.values)
    requires GivenSound(after.store.table, changes)
    requires forall m <- members :: m.name != 0 && IsRef(after.store.table, m.ref)
    requires forall v <- values :: v.name != 0
    requires forall t <- types :: t.Some? ==> G.EntrySound(t.value) && PlainEntry(t.value)
    ensures G.ArenasSound(after.store) && P.PlainAggregates(after)
  {
    hide GivenSound, MemberGiven, ValueGiven, EntryGiven, G.EntrySound;
    var s := after.store;
    forall m <- s.members
      ensures m.name != 0 && IsRef(s.table, m.ref)
    {
      if m !in members {
        MemberGivenSound(s.table, changes, m);
      }
    }
    forall v <- s.values
      ensures v.name != 0
    {
      if v !in values {
        ValueGivenSound(s.table, changes, v);
      }
    }
    forall t <- s.types | t.Some?
      ensures G.EntrySound(t.value) && PlainEntry(t.value)
    {
      if t !in types {
        EntryGivenSound(s.table, changes, t.value);
      }
    }
  }

  lemma BuildsGiven(table: seq<Record>, next: nat, changes: Changes)
    requires forall h <- changes :: BuildValid(table, next, changes[h])
    ensures GivenSound(table, changes)
  {
    hide MembersBelow;
    forall h <- changes | changes[h].Replacement?
      ensures ChangeSound(table, changes[h])
    {
      assert BuildValid(table, next, changes[h]);
    }
  }

  /** Carrying a change to the new table keeps names, and its TypeRefs are in range there. */
  lemma CarriedSound(table: seq<Record>, change: Change, table': seq<Record>, change': Change)
    requires WellFormed(table) && WellFormed(table') && SameChange(table, change, table', change')
    requires change'.Replacement? && ChangeSound(table, change)
    requires change.kind.Enumeration? ==> change.build.members == []
    ensures ChangeSound(table', change')
  {
    hide WellFormed, Meaning;
    if change.kind.Aggregate? {
      forall m <- change'.build.members
        ensures m.name != 0 && IsRef(table', m.ref)
      {
        var i: nat :| i < |change'.build.members| && change'.build.members[i] == m;
        assert change.build.members[i] in change.build.members;
      }
    }
  }

  lemma CandidateBuilds(s: Store, c: Candidate)
    requires CandidateValid(s, c)
    ensures GivenSound(s.table + c.added, c.changes)
    ensures forall h <- c.changes :: c.changes[h].Replacement? && c.changes[h].kind.Enumeration? ==>
              c.changes[h].build.members == []
  {
    hide OverlayValid, AddedValid, MembersBelow;
    BuildsGiven(s.table + c.added, c.next, c.changes);
    forall h <- c.changes | c.changes[h].Replacement? && c.changes[h].kind.Enumeration?
      ensures c.changes[h].build.members == []
    {
      assert BuildValid(s.table + c.added, c.next, c.changes[h]);
    }
  }

  lemma CarriedGiven(s: Store, c: Candidate, carried: Changes, table: seq<Record>)
    requires CandidateValid(s, c) && WellFormed(s.table + c.added) && WellFormed(table)
    requires carried.Keys == c.changes.Keys
    requires forall h <- c.changes :: SameChange(s.table + c.added, c.changes[h], table, carried[h])
    ensures GivenSound(table, carried)
  {
    CandidateBuilds(s, c);
    hide CandidateValid, WellFormed, ChangeSound, SameMembers;
    forall h <- carried | carried[h].Replacement?
      ensures ChangeSound(table, carried[h])
    {
      assert SameChange(s.table + c.added, c.changes[h], table, carried[h]);
      assert ChangeSound(s.table + c.added, c.changes[h]);
      CarriedSound(s.table + c.added, c.changes[h], table, carried[h]);
    }
  }

  lemma StoredSound(image: G.Image, table: seq<Record>)
    requires G.ArenasSound(image.store) && P.PlainAggregates(image) && image.store.table <= table
    ensures forall m <- image.store.members :: m.name != 0 && IsRef(table, m.ref)
    ensures forall v <- image.store.values :: v.name != 0
    ensures forall t <- image.store.types :: t.Some? ==> G.EntrySound(t.value) && PlainEntry(t.value)
  {
  }

  /** Either kind of commit leaves the arenas in order. */
  lemma StepKeepsArenas(before: G.Image, commit: Commit, after: G.Image)
    requires G.ArenasSound(before.store) && P.PlainAggregates(before)
    requires Step(before.store, commit, after.store)
    ensures G.ArenasSound(after.store) && P.PlainAggregates(after)
  {
    var s, c, s' := before.store, commit.candidate, after.store;
    CandidateTable(s, c);
    match commit {
      case Incremental(_) =>
        StoredSound(before, s'.table);
        CandidateBuilds(s, c);
        hide CandidateValid, WellFormed, GivenSound, Sourced, Store.Valid, G.ArenasSound, P.PlainAggregates, InClosure, SlotPasses;
        ArenasKept(s.types, s.members, s.values, c.changes, after);
      case Rebuild(_, carried) =>
        hide CandidateValid, WellFormed, Sourced, Store.Valid, G.ArenasSound, P.PlainAggregates, EverySlotPasses;
        CarriedGiven(s, c, carried, s'.table);
        hide GivenSound, SameChange;
        ArenasKept([], [], [], carried, after);
    }
  }

  // ----- Names and entities -----

  /** What the update saw is what the identity table then says. */
  lemma IdentityAfter(before: seq<C.U32>, overlay: N.Identity, after: seq<C.U32>)
    requires IdentityPublished(before, overlay, after) && forall n <- overlay :: 0 < overlay[n]
    ensures IdentityMap(after) == IdentityMap(before) + overlay
  {
    var now := IdentityMap(before) + overlay;
    forall n: nat
      ensures n in IdentityMap(after) <==> n in now
      ensures n in now ==> IdentityMap(after)[n] == now[n]
    {
    }
  }

  lemma IdentityKept(before: G.Image, spelling: N.Spelling, d: Draft, after: G.Image)
    requires DraftValid(before, spelling, d)
    requires IdentityPublished(before.identity, d.names.identity, after.identity)
    ensures IdentityMap(after.identity) == Now(before, d) && N.Sound(Now(before, d), d.names.next)
  {
    N.NowSound(IdentityMap(before.identity), before.nextStableId, spelling, d.names, d.added);
    hide CandidateValid, EntitiesDrafted, N.Valid;
    forall n <- d.names.identity
      ensures 0 < d.names.identity[n]
    {
      assert n in Now(before, d);
    }
    IdentityAfter(before.identity, d.names.identity, after.identity);
  }

  /** A name of the update either was committed or has its entity in the update. */
  lemma NamesHoused(before: G.Image, spelling: N.Spelling, d: Draft, n: N.Name)
    requires DraftValid(before, spelling, d) && n in Now(before, d)
    ensures (n in IdentityMap(before.identity) && Now(before, d)[n] == before.identity[n]) || Now(before, d)[n] in d.names.entities
  {
    N.Components(IdentityMap(before.identity), before.nextStableId, spelling, d.names, d.added);
    hide CandidateValid, EntitiesDrafted, N.Valid, N.Interned, N.FreshNames, N.RecordsAgree, N.LiveNamed, N.Sound;
    FreshHoused(IdentityMap(before.identity), before.nextStableId, spelling, d.names.identity, d.added, d.names.entities, n);
  }

  lemma FreshHoused(committed: N.Identity, base: nat, spelling: N.Spelling, identity: N.Identity, added: seq<N.Name>,
                    entities: map<nat, N.Entity>, n: N.Name)
    requires N.FreshNames(committed, base, spelling, identity, added) && N.NewEntities(base, entities, added)
    requires n in committed + identity
    ensures var now := committed + identity;
            (n in committed && now[n] == committed[n]) || now[n] in entities
  {
    hide NoDuplicates;
    if n in added {
      var k :| 0 <= k < |added| && added[k] == n;
      assert N.Holds(entities, base + k, added[k]);
    }
  }

  /** Every identity has its slot in the entity table. */
  lemma IdentityInTable(before: G.Image, u: Update, after: G.Image, n: nat)
    requires Settled(before) && u.Drafted() && DraftValid(before, u.spelling, u.Final())
    requires EntitiesPublished(before.entities, u.commit.Rebuild?, u.Final().names, after.entities)
    requires n in Now(before, u.Final())
    ensures Now(before, u.Final())[n] < |after.entities|
  {
    var d, id := u.Final(), Now(before, u.Final())[n];
    NamesHoused(before, u.spelling, d, n);
    N.NowSound(IdentityMap(before.identity), before.nextStableId, u.spelling, d.names, d.added);
    hide DraftValid, N.Valid, P.PlainAggregates, G.Representable, G.ArenasSound, Store.Valid, G.NamedPresent, EntityStored;
  }

  /** The one name that leads to a live entity is its own. */
  lemma LiveEntityNamed(before: G.Image, u: Update, after: G.Image, n: nat)
    requires Settled(before) && u.Drafted() && DraftValid(before, u.spelling, u.Final())
    requires EntitiesPublished(before.entities, u.commit.Rebuild?, u.Final().names, after.entities)
    requires n in Now(before, u.Final()) && Now(before, u.Final())[n] < |after.entities|
    requires after.entities[Now(before, u.Final())[n]].Live()
    ensures after.entities[Now(before, u.Final())[n]].name == n
  {
    var d, id := u.Final(), Now(before, u.Final())[n];
    NamesHoused(before, u.spelling, d, n);
    N.NowSound(IdentityMap(before.identity), before.nextStableId, u.spelling, d.names, d.added);
    N.Components(IdentityMap(before.identity), before.nextStableId, u.spelling, d.names, d.added);
    hide DraftValid, N.Valid, N.Interned, N.FreshNames, N.RecordsAgree, N.SlotsAgree;
    hide P.PlainAggregates, G.Representable, G.ArenasSound, Store.Valid, G.NamedPresent;
    if id in d.names.entities {
      assert d.names.entities[id].live;
      assert d.names.entities[id].name == n;
    } else {
      assert id < |before.entities| && after.entities[id] == before.entities[id];
    }
  }

  lemma IdentitiesKept(before: G.Image, u: Update, after: G.Image)
    requires Settled(before) && u.Drafted() && DraftValid(before, u.spelling, u.Final())
    requires EntitiesPublished(before.entities, u.commit.Rebuild?, u.Final().names, after.entities)
    requires IdentityPublished(before.identity, u.Final().names.identity, after.identity)
    ensures after.identity != [] ==> after.identity[0] == 0
    ensures G.IdentitiesHoused(after.identity, after.entities)
  {
    var d := u.Final();
    IdentityKept(before, u.spelling, d, after);
    hide N.Valid, CandidateValid, EntitiesDrafted, EntitiesPublished, G.ImageSound, P.PlainAggregates;
    forall n: nat | n < |after.identity|
      ensures after.identity[n] != 0 ==> n in Now(before, d) && after.identity[n] == Now(before, d)[n]
      ensures after.identity[n] != 0 ==> after.identity[n] < |after.entities|
      ensures after.identity[n] != 0 && after.entities[after.identity[n]].Live() ==> after.entities[after.identity[n]].name == n
    {
      if after.identity[n] != 0 {
        assert n in IdentityMap(after.identity);
        IdentityInTable(before, u, after, n);
        if after.entities[after.identity[n]].Live() {
          LiveEntityNamed(before, u, after, n);
        }
      }
    }
  }

  /** The TypeRef of a live slot is in the table that a rebuild publishes. */
  lemma RebuiltNamed(s: Store, c: Candidate, carried: Changes, s': Store, slot: nat)
    requires RebuildStep(s, c, carried, s') && LiveSlot(s'.types, slot)
    ensures Named(slot) in s'.table
  {
    CandidateTable(s, c);
    hide EverySlotPasses;
    assert s'.View(slot).Some?;
    assert slot < c.next && slot in carried && carried[slot].Replacement?;
    assert SameChange(s.table + c.added, c.changes[slot], s'.table, carried[slot]);
    hide CandidateValid, Store.Valid, WellFormed, Sourced, SameMembers, ChangedView, AllInArenas;
    assert slot in NamedMap(s'.namedRefs);
    assert s'.table[s'.namedRefs[slot]] == Named(slot);
  }

  /** Where a live entity comes from: this update, or one before it. */
  lemma EntitySourced(before: G.Image, u: Update, after: G.Image, e: C.EntitySlot)
    requires u.Drafted() && EntitiesPublished(before.entities, u.commit.Rebuild?, u.Final().names, after.entities)
    requires e in after.entities && e.Live() && !u.commit.Rebuild?
    ensures e in before.entities || exists id :: id in u.Final().names.entities && u.Final().names.entities[id].live
                                                 && u.Final().names.entities[id].slot == e.slot
  {
    var id: nat :| id < |after.entities| && after.entities[id] == e;
    if id in u.Final().names.entities {
      assert EntityStored(u.Final().names.entities[id], e);
    }
  }

  lemma IncrementalNamed(before: G.Image, u: Update, after: G.Image, e: C.EntitySlot)
    requires u.Drafted() && EntitiesPublished(before.entities, u.commit.Rebuild?, u.Final().names, after.entities)
    requires e in after.entities && e.Live() && !u.commit.Rebuild?
    requires G.NamedPresent(before.entities, before.store.table)
    requires EntitiesDrafted(before.store.table + u.Final().c.added, u.Final().c.next, u.Final().names.entities)
    requires before.store.table <= after.store.table && before.store.table + u.Final().c.added <= after.store.table
    ensures Named(e.slot) in after.store.table
  {
    var table, d := before.store.table, u.Final();
    EntitySourced(before, u, after, e);
    hide EntitiesPublished;
    if e in before.entities {
      PrefixKeeps(table, after.store.table, Named(e.slot));
    } else {
      var id :| id in d.names.entities && d.names.entities[id].live && d.names.entities[id].slot == e.slot;
      assert EntityDrafted(table + d.c.added, d.c.next, id, d.names.entities[id]);
      PrefixKeeps(table + d.c.added, after.store.table, Named(e.slot));
    }
  }

  lemma IncrementalLonger(s: Store, d: Draft, u: Update, s': Store)
    requires Step(s, u.commit, s') && !u.commit.Rebuild? && ResolvedFrom(s, d.c, u.commit.candidate, u.entityTypes)
    ensures s.table <= s'.table && s.table + d.c.added <= s'.table
  {
    hide Store.Valid, CandidateValid, InClosure, SlotPasses, Sourced, Resolved, WellFormed;
  }

  /** Every live entity has its named TypeRef in the table. */
  lemma NamedKept(before: G.Image, u: Update, after: G.Image)
    requires G.NamedPresent(before.entities, before.store.table)
    requires Committed(before, u, after) && DraftValid(before, u.spelling, u.Final())
    ensures G.NamedPresent(after.entities, after.store.table)
  {
    assert u.Drafted();
    hide Drafting, CandidateValid, N.Valid, G.Representable, EntitiesPublished, IdentityPublished, ResolvedFrom, N.Interned;
    hide IncrementalStep, RebuildStep, EntitiesDrafted;
    var s, c := before.store, u.commit.candidate;
    if u.commit.Incremental? {
      IncrementalLonger(s, u.Final(), u, after.store);
    }
    forall e: C.EntitySlot | e in after.entities && e.Live()
      ensures Named(e.slot) in after.store.table
    {
      match u.commit
      case Rebuild(_, carried) =>
        RebuiltNamed(s, c, carried, after.store, e.slot);
      case Incremental(_) =>
        IncrementalNamed(before, u, after, e);
    }
  }

  lemma PrefixKeeps(table: seq<Record>, longer: seq<Record>, r: Record)
    requires table <= longer && r in table
    ensures r in longer
  {
    var i :| 0 <= i < |table| && table[i] == r;
    assert longer[i] == r;
  }

  /** Slot zero stays dead, and what is dead is empty. */
  lemma EntitiesKept(before: G.Image, u: Update, after: G.Image)
    requires Settled(before) && u.Drafted() && DraftValid(before, u.spelling, u.Final())
    requires EntitiesPublished(before.entities, u.commit.Rebuild?, u.Final().names, after.entities)
    ensures after.entities != [] ==> after.entities[0] == G.DEAD
    ensures forall e <- after.entities :: e.Live() || e == G.DEAD
  {
    var d := u.Final();
    hide CandidateValid, N.Valid, Store.Valid, G.Representable, G.ArenasSound, G.NamedPresent, G.IdentitiesHoused, P.PlainAggregates;
    hide N.Sound;
    ZeroUndrafted(before.store.table + d.c.added, d.c.next, d.names.entities);
    forall e <- after.entities
      ensures e.Live() || e == G.DEAD
    {
      var id: nat :| id < |after.entities| && after.entities[id] == e;
      if id in d.names.entities {
        assert EntityDrafted(before.store.table + d.c.added, d.c.next, id, d.names.entities[id]);
        assert EntityStored(d.names.entities[id], e);
      }
    }
  }

  lemma ZeroUndrafted(table: seq<Record>, next: nat, entities: map<nat, N.Entity>)
    requires EntitiesDrafted(table, next, entities)
    ensures 0 !in entities
  {
  }

  /** Commits keep the Graph settled. */
  lemma CommitSettles(before: G.Image, u: Update, after: G.Image)
    requires Settled(before) && Committed(before, u, after)
    ensures DraftValid(before, u.spelling, u.Final())
    ensures Settled(after)
  {
    hide Does, G.Representable, G.ArenasSound, P.PlainAggregates, G.NamedPresent, G.IdentitiesHoused, N.Sound, N.Interned;
    hide IncrementalStep, RebuildStep, ResolvedFrom, Store.Valid, DraftValid, EntitiesPublished, IdentityPublished;
    DraftingKeeps(before, u.spelling, u.commit.Rebuild?, u.drafts, u.ops, |u.ops|);
    StepKeepsArenas(before, u.commit, after);
    StepKeepsStore(before.store, u.commit, after.store);
    NamedKept(before, u, after);
    EntitiesKept(before, u, after);
    IdentitiesKept(before, u, after);
    IdentityKept(before, u.spelling, u.Final(), after);
    CounterPositive(before, u.spelling, u.Final());
  }

  lemma StepKeepsStore(s: Store, commit: Commit, s': Store)
    requires Step(s, commit, s')
    ensures s'.Valid()
  {
    hide IncrementalStep, RebuildStep, Store.Valid;
    match commit
    case Incremental(c) => IncrementalStepValid(s, c, s');
    case Rebuild(c, carried) => RebuildStepValid(s, c, carried, s');
  }

  lemma CounterPositive(before: G.Image, spelling: N.Spelling, d: Draft)
    requires DraftValid(before, spelling, d)
    ensures 0 < d.names.next
  {
    hide CandidateValid, EntitiesDrafted;
    N.Parts(IdentityMap(before.identity), before.nextStableId, spelling, d.names, d.added);
    N.Components(IdentityMap(before.identity), before.nextStableId, spelling, d.names, d.added);
  }

  /** So does loading an export in place of the Graph. */
  lemma ReloadSettles(before: G.Image, after: G.Image)
    requires Settled(before) && Reloaded(before, after)
    ensures Settled(after) && G.SameContent(before, after)
  {
    hide G.ImageSound, G.EntitiesHoused, G.BooksExact, G.Exported, G.Restores, G.Acceptable, G.Same, N.Sound, P.PlainAggregates;
    G.ImportOfExport(before, after);
    G.ExportAcceptable(before);
    G.EntitiesKept(before, after);
    SameTypesPlain(before, after);
    SoundIdentities(after);
    IdentitiesAreSound(after.identity, after.entities);
  }

  lemma SameTypesPlain(before: G.Image, after: G.Image)
    requires P.PlainAggregates(before) && after.store.types == before.store.types
    ensures P.PlainAggregates(after)
  {
  }

  lemma SoundIdentities(image: G.Image)
    requires G.ImageSound(image)
    ensures G.IdentitiesHoused(image.identity, image.entities)
  {
  }

  lemma IdentitiesAreSound(identity: seq<C.U32>, entities: seq<C.EntitySlot>)
    requires entities != [] && G.IdentitiesHoused(identity, entities) && (identity != [] ==> identity[0] == 0)
    ensures N.Sound(IdentityMap(identity), |entities|)
  {
    var m := IdentityMap(identity);
    forall a <- m, b <- m | a < b
      ensures m[a] != m[b]
    {
      assert identity[b] != identity[a];
    }
  }

  // ----- Whole runs -----

  function Fresh(abi: C.Abi): G.Image {
    G.Image(abi, EmptyStore(), [], [], [], 0, 0, 1, 0)
  }

  datatype Event = Publish(update: Update) | Reload

  ghost predicate Happens(before: G.Image, event: Event, after: G.Image) {
    match event
    case Publish(u) => Committed(before, u, after)
    case Reload => Reloaded(before, after)
  }

  /** Any sequence of committed updates, and of checkpoints saved and loaded, from a new Graph. */
  ghost predicate History(images: seq<G.Image>, events: seq<Event>) {
    && |images| == |events| + 1
    && C.Supported(images[0].abi) && images[0] == Fresh(images[0].abi)
    && forall i: nat :: i < |events| ==> Happens(images[i], events[i], images[i + 1])
  }

  lemma FreshSettled(abi: C.Abi)
    requires C.Supported(abi)
    ensures Settled(Fresh(abi))
  {
  }

  lemma {:induction false} HistorySettled(images: seq<G.Image>, events: seq<Event>, i: nat)
    requires History(images, events) && i < |images|
    ensures Settled(images[i])
  {
    hide Committed, Reloaded, Settled, Fresh;
    if i == 0 {
      FreshSettled(images[0].abi);
    } else {
      HistorySettled(images, events, i - 1);
      assert Happens(images[i - 1], events[i - 1], images[i - 1 + 1]);
      match events[i - 1]
      case Publish(u) => CommitSettles(images[i - 1], u, images[i]);
      case Reload => ReloadSettles(images[i - 1], images[i]);
    }
  }

  /** Every state of every history is exported as an accepted checkpoint exactly when it
  has an entity table and every live entity finds a live type of its kind in its slot. */
  lemma {:induction false} ExportOverHistory(images: seq<G.Image>, events: seq<Event>, i: nat)
    requires History(images, events) && i < |images|
    ensures G.ImageSound(images[i]) && P.PlainAggregates(images[i])
    ensures G.Acceptable(G.Exported(images[i])) <==> images[i].entities != [] && G.EntitiesHoused(images[i])
  {
    hide History, G.ImageSound, G.Acceptable, G.Exported, G.EntitiesHoused, P.PlainAggregates;
    HistorySettled(images, events, i);
    G.ExportAcceptable(images[i]);
  }
}
