/** Which updates leave every entity a type of its kind.

An entity keeps its home as long as no operation takes or frees the slot it lives
in. The operations that do are told apart here, and one rebuild is shown that the
code commits and then cannot load again.
 */
module EntityHousing {
  import opened Collections
  import opened TypeTable
  import opened TypeGraph
  import opened GraphCandidate
  import opened GraphHistory
  import opened GraphCommits
  import C = CompiledState
  import G = CompiledGraph
  import N = StableIds
  import P = Checkpoint
  import U = GraphUpdates

  // ----- Which entities find a type of their kind -----

  /** The kind of type that an update sees in a slot. */
  function KindSeen(types: Types, c: Candidate, slot: nat): Option<UserTypeKind> {
    if slot == 0 || slot >= c.next || (slot in c.changes && c.changes[slot].Removed?) then None
    else if slot in c.changes && c.changes[slot].Replacement? then Some(c.changes[slot].kind)
    else if c.full || !LiveSlot(types, slot) then None
    else Some(types[slot - 1].value.kind)
  }

  /** The live entity that an update sees under an identity. */
  function EntitySeen(entities: seq<C.EntitySlot>, d: Draft, id: nat): Option<N.Entity> {
    if id in d.names.entities then (if d.names.entities[id].live then Some(d.names.entities[id]) else None)
    else if d.c.full || id >= |entities| || !entities[id].Live() then None
    else Some(N.Entity(entities[id].name, true, entities[id].kind.AggregateType?, entities[id].slot))
  }

  predicate Fits(kind: Option<UserTypeKind>, aggregate: bool) {
    kind.Some? && (kind.value.Aggregate? <==> aggregate)
  }

  /** An entity that an update sees finds a type of its kind in its slot. */
  predicate Housed(before: G.Image, d: Draft, id: nat) {
    var e := EntitySeen(before.entities, d, id);
    e.Some? ==> Fits(KindSeen(before.store.types, d.c, e.value.slot), e.value.aggregate)
  }

  ghost predicate AllHoused(before: G.Image, d: Draft) {
    forall id: nat :: Housed(before, d, id)
  }

  lemma ViewKind(s: Store, slot: nat)
    requires s.InArenas()
    ensures s.IsLive(slot) <==> s.View(slot).Some?
    ensures s.IsLive(slot) ==> (s.types[slot - 1].value.kind.Aggregate? <==> s.View(slot).value.AggregateView?)
  {
  }

  /** The changes of a slot agree on what kind of type it holds. */
  predicate SameKind(a: Change, b: Change) {
    (a.Removed? <==> b.Removed?) && (a.Replacement? <==> b.Replacement?) && (a.Replacement? ==> a.kind == b.kind)
  }

  lemma ResolvedKinds(s: Store, c: Candidate, c': Candidate, entityTypes: map<nat, nat>)
    requires ResolvedFrom(s, c, c', entityTypes)
    ensures c'.full == c.full && c'.next == c.next && c'.changes.Keys == c.changes.Keys
    ensures forall h <- c.changes :: SameKind(c.changes[h], c'.changes[h])
  {
    hide WellFormed, MembersDenote;
    forall h <- c.changes
      ensures SameKind(c.changes[h], c'.changes[h])
    {
      assert Resolved(s.table + c'.added, c.changes[h], c'.changes[h], entityTypes);
    }
  }

  lemma ViewOfKind(s: Store, c: Candidate, changes: Changes, slot: nat)
    requires s.InArenas() && changes.Keys == c.changes.Keys && forall h <- c.changes :: SameKind(c.changes[h], changes[h])
    requires 0 < slot < c.next
    ensures var view, kind := ViewAfter(s, c.full, changes, slot), KindSeen(s.types, c, slot);
            && (view.Some? <==> kind.Some?)
            && (kind.Some? ==> (view.value.AggregateView? <==> kind.value.Aggregate?))
  {
    ViewKind(s, slot);
  }

  lemma CarriedKinds(table: seq<Record>, changes: Changes, table': seq<Record>, carried: Changes)
    requires WellFormed(table) && WellFormed(table') && carried.Keys == changes.Keys
    requires forall h <- changes :: SameChange(table, changes[h], table', carried[h])
    ensures forall h <- changes :: SameKind(changes[h], carried[h])
  {
    hide WellFormed, SameMembers;
    forall h <- changes
      ensures SameKind(changes[h], carried[h])
    {
      assert SameChange(table, changes[h], table', carried[h]);
    }
  }

  /** What an update saw in a slot is what its commit leaves there. */
  lemma KindPublished(s: Store, d: Draft, u: Update, s': Store, slot: nat)
    requires Step(s, u.commit, s') && ResolvedFrom(s, d.c, u.commit.candidate, u.entityTypes)
    ensures var kind := KindSeen(s.types, d.c, slot);
            && (LiveSlot(s'.types, slot) <==> kind.Some?)
            && (kind.Some? ==> (s'.types[slot - 1].value.kind.Aggregate? <==> kind.value.Aggregate?))
  {
    var c := u.commit.candidate;
    CandidateTable(s, c);
    ResolvedKinds(s, d.c, c, u.entityTypes);
    hide ResolvedFrom, CandidateValid, InClosure, SlotPasses, EverySlotPasses, Sourced, WellFormed, SameChange, SameMembers;
    hide Store.TableValid, Store.MembersResolve, Store.IndexExact, AllInArenas, ViewAfter;
    ViewKind(s', slot);
    match u.commit {
      case Incremental(_) =>
        if 0 < slot < c.next {
          ViewOfKind(s, d.c, c.changes, slot);
        }
      case Rebuild(_, carried) =>
        CarriedKinds(s.table + c.added, c.changes, s'.table, carried);
        if 0 < slot < c.next {
          ViewOfKind(s, d.c, carried, slot);
        }
    }
  }

  /** What an update saw under an identity is what its commit leaves there. */
  lemma EntityPublished(before: G.Image, u: Update, after: G.Image, id: nat)
    requires u.Drafted() && u.Final().c.full == u.commit.Rebuild?
    requires EntitiesPublished(before.entities, u.commit.Rebuild?, u.Final().names, after.entities)
    requires EntitiesDrafted(before.store.table + u.Final().c.added, u.Final().c.next, u.Final().names.entities)
    ensures var e := EntitySeen(before.entities, u.Final(), id);
            && (e.Some? <==> id < |after.entities| && after.entities[id].Live())
            && (e.Some? ==> e.value.slot == after.entities[id].slot
                            && (e.value.aggregate <==> after.entities[id].kind.AggregateType?))
  {
    var d := u.Final();
    if id in d.names.entities {
      assert EntityDrafted(before.store.table + d.c.added, d.c.next, id, d.names.entities[id]);
      assert EntityStored(d.names.entities[id], after.entities[id]);
    }
  }

  lemma HousedAt(before: G.Image, u: Update, after: G.Image, id: nat)
    requires Committed(before, u, after) && DraftValid(before, u.spelling, u.Final())
    ensures if id < |after.entities| then G.EntityAccepted(after.entities[id], after.store.types) <==> Housed(before, u.Final(), id)
            else Housed(before, u.Final(), id)
  {
    FullOf(before, u, after);
    assert u.Drafted();
    hide Drafting, Step, ResolvedFrom, G.Representable, EntitiesPublished, IdentityPublished, SlotsLive, N.Interned;
    hide CandidateValid, N.Valid, EntitiesDrafted, EntitySeen, KindSeen;
    EntityPublished(before, u, after, id);
    if id < |after.entities| {
      KindPublished(before.store, u.Final(), u, after.store, after.entities[id].slot);
    }
  }

  /** Every live entity of a commit finds a type of its kind exactly when it did in the finished draft. */
  lemma HousedIff(before: G.Image, u: Update, after: G.Image)
    requires Settled(before) && Committed(before, u, after)
    ensures G.EntitiesHoused(after) <==> AllHoused(before, u.Final())
  {
    assert u.Drafted();
    hide Committed, Settled, DraftValid, Housed, G.EntityAccepted;
    CommitSettles(before, u, after);
    forall id: nat
      ensures if id < |after.entities| then G.EntityAccepted(after.entities[id], after.store.types) <==> Housed(before, u.Final(), id)
              else Housed(before, u.Final(), id)
    {
      HousedAt(before, u, after, id);
    }
    SlotsAndIdentities(before, u.Final(), after);
  }

  lemma SlotsAndIdentities(before: G.Image, d: Draft, after: G.Image)
    requires forall id: nat :: if id < |after.entities|
               then G.EntityAccepted(after.entities[id], after.store.types) <==> Housed(before, d, id)
               else Housed(before, d, id)
    ensures G.EntitiesHoused(after) <==> AllHoused(before, d)
  {
    hide Housed, G.EntityAccepted;
    if G.EntitiesHoused(after) {
      forall id: nat
        ensures Housed(before, d, id)
      {
        assert id < |after.entities| ==> after.entities[id] in after.entities;
      }
    }
  }

  lemma FullOf(before: G.Image, u: Update, after: G.Image)
    requires Committed(before, u, after)
    ensures u.Final().c.full == u.commit.Rebuild?
  {
    hide Does, Store.Valid, CandidateValid, InClosure, EverySlotPasses, PublishedIncrementally, PublishedByRebuild;
  }

  // ----- Operations that put an entity out of its slot -----

  /** Some live entity other than `own` holds the slot; with a kind given, as one of another kind. */
  ghost predicate HeldByOther(before: G.Image, d: Draft, own: nat, slot: nat, kind: Option<UserTypeKind>) {
    exists id: nat :: id != own && Holds(before, d, id, slot, kind)
  }

  predicate Holds(before: G.Image, d: Draft, id: nat, slot: nat, kind: Option<UserTypeKind>) {
    var e := EntitySeen(before.entities, d, id);
    e.Some? && e.value.slot == slot && (kind.Some? ==> (kind.value.Aggregate? <==> !e.value.aggregate))
  }

  /** The operation takes or frees a slot in which another entity, of another kind, lives. */
  ghost predicate Evicts(before: G.Image, d: Draft, op: Op) {
    match op
    case Declare(entity, change) =>
      HeldByOther(before, d, IdFor(before, d, entity.name), entity.slot, Some(if entity.aggregate then Aggregate else Enumeration))
    case Forget(name, slot) =>
      slot != 0 && name in IdentityMap(before.identity) && HeldByOther(before, d, IdentityMap(before.identity)[name], slot, None)
    case Anonymous(slot, _, _) => HeldByOther(before, d, 0, slot, Some(Enumeration))
    case Release(slots) => exists h :: h in slots && HeldByOther(before, d, 0, h, None)
    case Define(_, _) => false
    case Refer(_) => false
    case Renumber(_, _) => false
  }

  /** Only the touched slot changes its kind. */
  lemma KindTouched(types: Types, c: Candidate, slot: nat, change: Change, counted: bool, other: nat)
    requires 1 <= c.next && Touchable(c, slot, change, counted)
    ensures other != slot ==> KindSeen(types, Touched(c, slot, change, counted), other) == KindSeen(types, c, other)
    ensures change.Removed? ==> KindSeen(types, Touched(c, slot, change, counted), slot).None?
    ensures change.Replacement? && (slot < c.next || counted) ==>
              KindSeen(types, Touched(c, slot, change, counted), slot) == Some(change.kind)
  {
  }

  /** An operation that touches one slot and one entity leaves all others where they were. */
  lemma Retouched(before: G.Image, d: Draft, own: nat, slot: nat, kind: Option<UserTypeKind>, d': Draft)
    requires AllHoused(before, d) && Housed(before, d', own)
    requires forall id: nat :: id != own ==> EntitySeen(before.entities, d', id) == EntitySeen(before.entities, d, id)
    requires forall h: nat :: h != slot ==> KindSeen(before.store.types, d'.c, h) == KindSeen(before.store.types, d.c, h)
    requires KindSeen(before.store.types, d'.c, slot) == kind
    ensures AllHoused(before, d') <==> !HeldByOther(before, d, own, slot, kind)
  {
    hide EntitySeen, KindSeen;
    forall id: nat
      ensures Housed(before, d', id) <==> id == own || !Holds(before, d, id, slot, kind)
    {
      assert Housed(before, d, id);
    }
  }

  /** Nothing that an update sees has changed its place or its slot's kind. */
  lemma Unmoved(before: G.Image, d: Draft, d': Draft)
    requires AllHoused(before, d)
    requires forall id: nat :: EntitySeen(before.entities, d', id) == EntitySeen(before.entities, d, id)
    requires forall h: nat :: KindSeen(before.store.types, d'.c, h) == KindSeen(before.store.types, d.c, h)
    ensures AllHoused(before, d')
  {
    hide EntitySeen, KindSeen;
    forall id: nat
      ensures Housed(before, d', id)
    {
      assert Housed(before, d, id);
    }
  }

  lemma DeclaredSeen(before: G.Image, d: Draft, own: nat, entity: N.Entity, d': Draft)
    requires d'.names.entities == d.names.entities[own := entity] && entity.live && d'.c.full == d.c.full
    ensures EntitySeen(before.entities, d', own) == Some(entity)
    ensures forall id: nat :: id != own ==> EntitySeen(before.entities, d', id) == EntitySeen(before.entities, d, id)
  {
  }

  lemma DeclaredKind(types: Types, s: Store, c: Candidate, slot: nat, change: Change, c': Candidate)
    requires 1 <= slot <= c.next && change.Replacement?
    requires AssignedIn(s, c, slot, change, c')
    ensures c'.full == c.full && KindSeen(types, c', slot) == Some(change.kind)
    ensures forall h: nat :: h != slot ==> KindSeen(types, c', h) == KindSeen(types, c, h)
  {
  }

  lemma DeclareEvicts(before: G.Image, spelling: N.Spelling, d: Draft, entity: N.Entity, change: Change, d': Draft)
    requires AllHoused(before, d) && Does(before, spelling, d, Declare(entity, change), d')
    ensures AllHoused(before, d') <==> !Evicts(before, d, Declare(entity, change))
  {
    hide BuildValid, Now, IdFor, AllHoused, HeldByOther, EntitySeen, KindSeen, AssignedIn;
    var own, kind := IdFor(before, d, entity.name), if entity.aggregate then Aggregate else Enumeration;
    DeclaredKind(before.store.types, before.store, d.c, entity.slot, change, d'.c);
    DeclaredSeen(before, d, own, entity, d');
    Retouched(before, d, own, entity.slot, Some(kind), d');
  }

  /** An entity that is dead in the update needs no slot. */
  lemma DeadUnseen(before: G.Image, d: Draft, own: nat, d': Draft)
    requires AllHoused(before, d) && EntitySeen(before.entities, d', own).None? && d'.c == d.c
    requires forall id: nat :: id != own ==> EntitySeen(before.entities, d', id) == EntitySeen(before.entities, d, id)
    ensures AllHoused(before, d')
  {
    hide EntitySeen, KindSeen;
    forall id: nat
      ensures Housed(before, d', id)
    {
      assert Housed(before, d, id);
    }
  }

  lemma ForgetEvicts(before: G.Image, spelling: N.Spelling, d: Draft, name: N.Name, slot: nat, d': Draft)
    requires AllHoused(before, d) && 1 <= d.c.next && Does(before, spelling, d, Forget(name, slot), d')
    ensures AllHoused(before, d') <==> !Evicts(before, d, Forget(name, slot))
  {
    var own := IdentityMap(before.identity)[name];
    assert d'.names.entities == d.names.entities[own := N.Entity(name, false, false, 0)];
    hide AllHoused, HeldByOther, N.Tombstoned;
    if slot == 0 {
      DeadUnseen(before, d, own, d');
    } else {
      forall h: nat
        ensures h != slot ==> KindSeen(before.store.types, d'.c, h) == KindSeen(before.store.types, d.c, h)
        ensures KindSeen(before.store.types, d'.c, slot) == None
      {
        KindTouched(before.store.types, d.c, slot, Removed, false, h);
      }
      Retouched(before, d, own, slot, None, d');
    }
  }

  /** No housed entity is in a slot that the update has not counted. */
  lemma NobodyThere(before: G.Image, d: Draft, own: nat, slot: nat, kind: Option<UserTypeKind>)
    requires AllHoused(before, d) && d.c.next <= slot
    ensures !HeldByOther(before, d, own, slot, kind)
  {
    forall id: nat
      ensures !Holds(before, d, id, slot, kind)
    {
      assert Housed(before, d, id);
    }
  }

  lemma AnonymousEvicts(before: G.Image, spelling: N.Spelling, d: Draft, slot: nat, drawn: bool, change: Change, d': Draft)
    requires AllHoused(before, d) && 1 <= d.c.next && Does(before, spelling, d, Anonymous(slot, drawn, change), d')
    requires EntitySeen(before.entities, d, 0).None?
    ensures AllHoused(before, d') <==> !Evicts(before, d, Anonymous(slot, drawn, change))
  {
    hide BuildValid, HeldByOther, AllHoused;
    forall h: nat
      ensures h != slot ==> KindSeen(before.store.types, d'.c, h) == KindSeen(before.store.types, d.c, h)
      ensures slot < d.c.next || !drawn ==> KindSeen(before.store.types, d'.c, slot) == Some(Enumeration)
    {
      KindTouched(before.store.types, d.c, slot, change, !drawn, h);
    }
    if slot < d.c.next || !drawn {
      Retouched(before, d, 0, slot, Some(Enumeration), d');
    } else {
      Unmoved(before, d, d');
      NobodyThere(before, d, 0, slot, Some(Enumeration));
    }
  }

  lemma ReleaseEvicts(before: G.Image, spelling: N.Spelling, d: Draft, slots: seq<nat>, d': Draft)
    requires AllHoused(before, d) && Does(before, spelling, d, Release(slots), d')
    requires EntitySeen(before.entities, d, 0).None?
    ensures AllHoused(before, d') <==> !Evicts(before, d, Release(slots))
  {
    forall id: nat
      ensures Housed(before, d', id) <==> !exists h :: h in slots && id != 0 && Holds(before, d, id, h, None)
    {
      assert Housed(before, d, id);
    }
    hide Housed, Holds, EntitySeen;
    if !AllHoused(before, d') {
      var id: nat :| !Housed(before, d', id);
      var h :| h in slots && id != 0 && Holds(before, d, id, h, None);
      assert HeldByOther(before, d, 0, h, None);
    }
    if Evicts(before, d, Release(slots)) {
      var h :| h in slots && HeldByOther(before, d, 0, h, None);
      var id: nat :| id != 0 && Holds(before, d, id, h, None);
      assert !Housed(before, d', id);
    }
  }

  lemma DefineEvicts(before: G.Image, spelling: N.Spelling, d: Draft, slot: nat, change: Change, d': Draft)
    requires AllHoused(before, d) && CandidateValid(before.store, d.c) && Does(before, spelling, d, Define(slot, change), d')
    ensures AllHoused(before, d')
  {
    SlotsOfChanges(before.store, d.c, slot);
    hide BuildValid, CandidateValid, AllHoused;
    forall h: nat
      ensures KindSeen(before.store.types, d'.c, h) == KindSeen(before.store.types, d.c, h)
    {
    }
    Unmoved(before, d, d');
  }

  /** Renumbering moves every new entity to its final identity and nothing else. */
  lemma RenumberMoves(before: G.Image, spelling: N.Spelling, d: Draft, list: seq<N.Name>, remap: seq<nat>, d': Draft)
    requires DraftValid(before, spelling, d) && AllHoused(before, d)
    requires Does(before, spelling, d, Renumber(list, remap), d')
    ensures AllHoused(before, d')
  {
    var base := before.nextStableId;
    ProvisionalHeld(before, spelling, d, list, remap, d');
    assert d'.c == d.c && N.Permuted(d.names.entities, base, remap, d'.names.entities);
    hide Does, DraftValid, N.Permuted, KindSeen;
    forall id: nat
      ensures Housed(before, d', id)
    {
      var x := N.Unmapped(base, remap, id);
      assert Housed(before, d, x);
      MovedTo(d.names.entities, base, remap, x, d'.names.entities);
    }
  }

  /** Every provisional identity has its entity in the update. */
  lemma ProvisionalHeld(before: G.Image, spelling: N.Spelling, d: Draft, list: seq<N.Name>, remap: seq<nat>, d': Draft)
    requires DraftValid(before, spelling, d) && Does(before, spelling, d, Renumber(list, remap), d')
    ensures forall x: nat :: before.nextStableId <= x < before.nextStableId + |remap| ==> x in d.names.entities
  {
    var base := before.nextStableId;
    assert N.Reassigns(base, d.added, list, remap);
    assert N.Valid(IdentityMap(before.identity), base, spelling, d.names, d.added);
    hide *;
    N.Components(IdentityMap(before.identity), base, spelling, d.names, d.added);
    N.RemapLength(base, d.added, list, remap);
    forall x: nat | base <= x < base + |remap|
      ensures x in d.names.entities
    {
      AddedHeld(base, d.names, d.added, x);
    }
  }

  lemma AddedHeld(base: nat, names: N.State, added: seq<N.Name>, x: nat)
    requires N.SlotsAgree(base, names, added) && base <= x < base + |added|
    ensures x in names.entities
  {
    assert N.Holds(names.entities, base + (x - base), added[x - base]);
  }

  lemma MovedTo(entities: map<nat, N.Entity>, base: nat, remap: seq<nat>, x: nat, entities': map<nat, N.Entity>)
    requires N.Permuted(entities, base, remap, entities') && (base <= x < base + |remap| ==> x in entities)
    ensures var id := N.Mapped(base, remap, x);
            (base <= x < base + |remap| ==> id in entities' && entities'[id] == entities[x])
            && (!(base <= x < base + |remap|) ==> id == x && (x in entities' <==> x in entities))
            && (!(base <= x < base + |remap|) && x in entities ==> entities'[x] == entities[x])
  {
    assert base <= x ==> base + (x - base) == x;
  }

  lemma ZeroUnseen(before: G.Image, spelling: N.Spelling, d: Draft)
    requires Settled(before) && DraftValid(before, spelling, d)
    ensures EntitySeen(before.entities, d, 0).None?
  {
    hide CandidateValid, N.Valid, N.Sound, Store.Valid, G.Representable, G.ArenasSound, G.NamedPresent, P.PlainAggregates;
    ZeroUndrafted(before.store.table + d.c.added, d.c.next, d.names.entities);
  }

  lemma ReferMoves(before: G.Image, spelling: N.Spelling, d: Draft, d': Draft)
    requires AllHoused(before, d) && Does(before, spelling, d, Refer(d'.c), d')
    ensures AllHoused(before, d')
  {
    hide AddedValid, AllHoused;
    Unmoved(before, d, d');
  }

  /** Once every entity is housed, an operation leaves one without a home exactly when it evicts one. */
  lemma HousedUnlessEvicted(before: G.Image, spelling: N.Spelling, d: Draft, op: Op, d': Draft)
    requires Settled(before) && DraftValid(before, spelling, d) && Does(before, spelling, d, op, d')
    requires AllHoused(before, d)
    ensures AllHoused(before, d') <==> !Evicts(before, d, op)
  {
    ZeroUnseen(before, spelling, d);
    CandidateTable(before.store, d.c);
    assert CandidateValid(before.store, d.c);
    assert op.Refer? ==> op == Refer(d'.c);
    hide Settled, DraftValid, Does, AllHoused, HeldByOther, CandidateValid, WellFormed, EntitySeen;
    match op {
      case Declare(entity, change) => DeclareEvicts(before, spelling, d, entity, change, d');
      case Forget(name, slot) => ForgetEvicts(before, spelling, d, name, slot, d');
      case Anonymous(slot, drawn, change) => AnonymousEvicts(before, spelling, d, slot, drawn, change, d');
      case Release(slots) => ReleaseEvicts(before, spelling, d, slots, d');
      case Define(slot, change) => DefineEvicts(before, spelling, d, slot, change, d');
      case Refer(_) => ReferMoves(before, spelling, d, d');
      case Renumber(list, remap) => RenumberMoves(before, spelling, d, list, remap, d');
    }
  }

  lemma StartHoused(before: G.Image, full: bool)
    requires G.EntitiesHoused(before) || full
    ensures AllHoused(before, StartDraft(before, full))
  {
    var d := StartDraft(before, full);
    forall id: nat
      ensures Housed(before, d, id)
    {
      if !full && id < |before.entities| {
        assert before.entities[id] in before.entities;
        assert G.EntityAccepted(before.entities[id], before.store.types);
      }
    }
  }

  /** No operation of the update evicts an entity. */
  ghost predicate Considerate(before: G.Image, u: Update) {
    |u.drafts| == |u.ops| + 1 && forall i: nat :: i < |u.ops| ==> !Evicts(before, u.drafts[i], u.ops[i])
  }

  lemma {:induction false} ConsiderateKeeps(before: G.Image, u: Update, i: nat)
    requires Settled(before) && (G.EntitiesHoused(before) || u.commit.Rebuild?)
    requires N.Interned(u.spelling) && Drafting(before, u.spelling, u.commit.Rebuild?, u.drafts, u.ops)
    requires Considerate(before, u) && i < |u.drafts|
    ensures AllHoused(before, u.drafts[i])
  {
    hide Does, Evicts, AllHoused, G.EntitiesHoused, G.ImageSound, DraftValid, N.Interned, N.Sound;
    StoreOf(before);
    if i == 0 {
      StartHoused(before, u.commit.Rebuild?);
    } else {
      ConsiderateKeeps(before, u, i - 1);
      DraftingKeeps(before, u.spelling, u.commit.Rebuild?, u.drafts, u.ops, i - 1);
      assert Does(before, u.spelling, u.drafts[i - 1], u.ops[i - 1], u.drafts[i - 1 + 1]);
      HousedUnlessEvicted(before, u.spelling, u.drafts[i - 1], u.ops[i - 1], u.drafts[i]);
    }
  }

  lemma StoreOf(image: G.Image)
    requires Settled(image)
    ensures image.store.Valid()
  {
  }

  /** A commit of a considerate update houses every entity; a rebuild does so whatever was there before. */
  lemma ConsiderateCommit(before: G.Image, u: Update, after: G.Image)
    requires Settled(before) && (G.EntitiesHoused(before) || u.commit.Rebuild?)
    requires Committed(before, u, after) && Considerate(before, u)
    ensures G.EntitiesHoused(after)
  {
    HousedIff(before, u, after);
    assert u.Drafted();
    hide Settled, Considerate, G.EntitiesHoused, AllHoused, Step, ResolvedFrom, Drafting;
    ConsiderateKeeps(before, u, |u.ops|);
  }

  /** In a history without evictions every state is exported as an accepted checkpoint as soon as there is
  an entity table, and what is loaded cannot be told from what was saved. */
  lemma {:induction false} ConsiderateHistory(images: seq<G.Image>, events: seq<Event>, i: nat)
    requires History(images, events) && i < |images|
    requires forall k: nat :: k < |events| && events[k].Publish? ==> Considerate(images[k], events[k].update)
    ensures G.EntitiesHoused(images[i])
    ensures G.Acceptable(G.Exported(images[i])) <==> images[i].entities != []
  {
    hide Committed, Reloaded, Considerate, G.EntitiesHoused, G.Acceptable, G.Exported, Settled;
    ExportOverHistory(images, events, i);
    if i == 0 {
      NoEntities(images[0]);
    } else {
      ConsiderateHistory(images, events, i - 1);
      HistorySettled(images, events, i - 1);
      assert Happens(images[i - 1], events[i - 1], images[i - 1 + 1]);
      match events[i - 1]
      case Publish(u) => ConsiderateCommit(images[i - 1], u, images[i]);
      case Reload => ReloadHoused(images[i - 1], images[i]);
    }
  }

  lemma NoEntities(image: G.Image)
    requires image.entities == []
    ensures G.EntitiesHoused(image)
  {
  }

  lemma ReloadHoused(before: G.Image, after: G.Image)
    requires Reloaded(before, after)
    ensures G.EntitiesHoused(after)
  {
    hide G.ImageSound, G.EntitiesHoused, G.Restores, G.Acceptable;
  }

  // ----- A slot that is taken from its entity -----

  /** When the last operation evicts an entity, the commit cannot be exported. */
  lemma EvictionRefused(before: G.Image, u: Update, after: G.Image)
    requires Settled(before) && Committed(before, u, after) && u.ops != []
    requires AllHoused(before, u.drafts[|u.ops| - 1]) && Evicts(before, u.drafts[|u.ops| - 1], u.ops[|u.ops| - 1])
    ensures Settled(after) && !G.Acceptable(G.Exported(after))
  {
    var n := |u.ops| - 1;
    assert Does(before, u.spelling, u.drafts[n], u.ops[n], u.drafts[n + 1]) && u.Drafted();
    SettledParts(before);
    DraftingKeeps(before, u.spelling, u.commit.Rebuild?, u.drafts, u.ops, n);
    hide Committed, Settled, DraftValid, Does, Evicts, AllHoused, G.Acceptable, G.Exported, G.EntitiesHoused, Drafting;
    HousedUnlessEvicted(before, u.spelling, u.drafts[n], u.ops[n], u.drafts[n + 1]);
    HousedIff(before, u, after);
    CommitSettles(before, u, after);
    SettledParts(after);
    G.ExportAcceptable(after);
  }

  lemma SettledParts(image: G.Image)
    requires Settled(image)
    ensures G.ImageSound(image) && image.store.Valid() && 0 < image.nextStableId
    ensures N.Sound(IdentityMap(image.identity), image.nextStableId)
  {
  }

  const FLAGS := EnumEntry(false, false, 6)

  function SharedAggregate(): Change {
    Replacement(Aggregate, PLAIN, Build(true, [], [], [], []))
  }

  function SharedEnum(): Change {
    Replacement(Enumeration, FLAGS, Build(true, [], [], [], []))
  }

  /** The names of an update that declares one new aggregate, in slot 1. */
  function OneName(base: nat, name: N.Name): N.State {
    N.State(map[name := base], map[base := N.Entity(name, true, true, 1)], map[base := 1], [N.Record(base, name)], [base], base + 1)
  }

  function SharedOps(name: N.Name): seq<Op> {
    [Declare(N.Entity(name, true, true, 1), SharedAggregate()), Anonymous(1, true, SharedEnum())]
  }

  function SharedDrafts(before: G.Image, name: N.Name, c1: Candidate, c2: Candidate): seq<Draft> {
    var names := OneName(before.nextStableId, name);
    [StartDraft(before, true), Draft(c1, names, [name]), Draft(c2, names, [name])]
  }

  lemma EmptyBuildsValid(table: seq<Record>, next: nat)
    ensures BuildValid(table, next, SharedAggregate()) && BuildValid(table, next, SharedEnum())
  {
  }

  lemma SharedNames(before: G.Image, spelling: N.Spelling, name: N.Name, c1: Candidate, c2: Candidate)
    requires 0 < name && name in spelling && name !in IdentityMap(before.identity)
    ensures var drafts := SharedDrafts(before, name, c1, c2);
            DeclaresName(before, spelling, drafts[0], N.Entity(name, true, true, 1), drafts[1])
  {
    assert Now(before, StartDraft(before, true)) == IdentityMap(before.identity);
  }

  lemma SharedDeclare(before: G.Image, spelling: N.Spelling, name: N.Name, c1: Candidate, c2: Candidate)
    requires 0 < name && name in spelling && name !in IdentityMap(before.identity)
    requires AssignedIn(before.store, StartDraft(before, true).c, 1, SharedAggregate(), c1)
    ensures var drafts := SharedDrafts(before, name, c1, c2);
            Does(before, spelling, drafts[0], SharedOps(name)[0], drafts[1])
  {
    EmptyBuildsValid(before.store.table, 1);
    SharedNames(before, spelling, name, c1, c2);
    hide BuildValid, AssignedIn, DeclaresName, OneName;
    assert before.store.table + StartDraft(before, true).c.added == before.store.table;
  }

  lemma SharedDraw(before: G.Image, spelling: N.Spelling, name: N.Name, c1: Candidate, c2: Candidate)
    requires 1 in before.free && c1.full && c2 == Touched(c1, 1, SharedEnum(), false)
    ensures var drafts := SharedDrafts(before, name, c1, c2);
            Does(before, spelling, drafts[1], SharedOps(name)[1], drafts[2])
  {
    EmptyBuildsValid(before.store.table + c1.added, c1.next);
    hide BuildValid, OneName;
  }

  /** A rebuild gives slot 1 to a new aggregate and lets an anonymous enum draw the same slot. */
  lemma SharedSlotDrafted(before: G.Image, spelling: N.Spelling, name: N.Name, c1: Candidate, c2: Candidate)
    requires 1 in before.free && 0 < name && name in spelling && name !in IdentityMap(before.identity)
    requires AssignedIn(before.store, StartDraft(before, true).c, 1, SharedAggregate(), c1)
    requires c2 == Touched(c1, 1, SharedEnum(), false)
    ensures Drafting(before, spelling, true, SharedDrafts(before, name, c1, c2), SharedOps(name))
  {
    hide AddedValid, Does;
    SharedDeclare(before, spelling, name, c1, c2);
    SharedDraw(before, spelling, name, c1, c2);
  }

  /** The enum takes the slot from the aggregate that was just given it. */
  lemma SharedSlotEvicts(before: G.Image, name: N.Name, c1: Candidate, c2: Candidate)
    requires AssignedIn(before.store, StartDraft(before, true).c, 1, SharedAggregate(), c1) && 0 < before.nextStableId
    ensures var d := SharedDrafts(before, name, c1, c2)[1];
            AllHoused(before, d) && Evicts(before, d, SharedOps(name)[1])
  {
    hide AddedValid;
    var d := SharedDrafts(before, name, c1, c2)[1];
    forall id: nat
      ensures Housed(before, d, id)
    {
    }
    assert Holds(before, d, before.nextStableId, 1, Some(Enumeration));
  }

  /** The entity and identity tables that its commit leaves. */
  function SharedAfter(before: G.Image, name: N.Name, store: Store): (after: G.Image)
    requires 0 < name < G.LIMIT32 && before.nextStableId < G.LIMIT32
  {
    var id := before.nextStableId;
    var entities := seq(id + 1, i => if i == id then C.EntitySlot(C.AggregateType, name, 1) else G.DEAD);
    var identity := seq(if name < |before.identity| then |before.identity| else name + 1,
                        i requires 0 <= i => if i == name then id as C.U32 else if i < |before.identity| then before.identity[i] else 0);
    G.Image(before.abi, store, entities, identity, [], 1, 1, id + 1, 0)
  }

  lemma SharedTables(before: G.Image, name: N.Name, store: Store)
    requires 0 < name < G.LIMIT32 && before.nextStableId < G.LIMIT32
    ensures var after, names := SharedAfter(before, name, store), OneName(before.nextStableId, name);
            && EntitiesPublished(before.entities, true, names, after.entities)
            && IdentityPublished(before.identity, names.identity, after.identity)
            && (LiveSlot(store.types, 1) ==> SlotsLive(after.entities, store.types))
  {
  }

  lemma EnumSeen(before: G.Image, c1: Candidate, c2: Candidate)
    requires AssignedIn(before.store, StartDraft(before, true).c, 1, SharedAggregate(), c1)
    requires c2 == Touched(c1, 1, SharedEnum(), false)
    ensures KindSeen(before.store.types, c2, 1) == Some(Enumeration)
  {
    hide AddedValid;
  }

  lemma SharedCommitted(before: G.Image, u: Update, after: G.Image, name: N.Name, c1: Candidate, c2: Candidate)
    requires Settled(before) && N.Interned(u.spelling) && name in u.spelling && name !in IdentityMap(before.identity)
    requires 1 in before.free && 0 < name < G.LIMIT32 && before.nextStableId < G.LIMIT32
    requires AssignedIn(before.store, StartDraft(before, true).c, 1, SharedAggregate(), c1)
    requires c2 == Touched(c1, 1, SharedEnum(), false)
    requires u.drafts == SharedDrafts(before, name, c1, c2) && u.ops == SharedOps(name) && u.commit.Rebuild?
    requires ResolvedFrom(before.store, c2, u.commit.candidate, u.entityTypes)
    requires Step(before.store, u.commit, after.store) && after == SharedAfter(before, name, after.store)
    ensures G.Representable(after.store) ==> Committed(before, u, after) && !G.Acceptable(G.Exported(after))
  {
    assert u.Drafted();
    var d := u.Final();
    hide Settled, G.Representable, G.Acceptable, G.Exported, Step, ResolvedFrom, AssignedIn, N.Interned, SharedAfter;
    hide Drafting, EntitiesPublished, IdentityPublished, SlotsLive, AllHoused, Evicts, KindSeen, N.Sound, Store.Valid;
    hide G.ImageSound, G.IdentitiesHoused, WellFormed, Indexed;
    SettledParts(before);
    SharedSlotDrafted(before, u.spelling, name, c1, c2);
    SharedSlotEvicts(before, name, c1, c2);
    EnumSeen(before, c1, c2);
    KindPublished(before.store, d, u, after.store, 1);
    SharedTables(before, name, after.store);
    SharedCounters(before, name, after.store);
    if G.Representable(after.store) {
      EvictionRefused(before, u, after);
    }
  }

  lemma SharedCounters(before: G.Image, name: N.Name, store: Store)
    requires 0 < name < G.LIMIT32 && before.nextStableId < G.LIMIT32
    ensures var after := SharedAfter(before, name, store);
            after.nextStableId == before.nextStableId + 1 && after.abi == before.abi && after.store == store
  {
  }

  /** The drafting half of the rebuild, on the update itself. */
  method DraftShared(graph: U.Graph, ghost before: G.Image, name: N.Name)
    returns (update: U.GraphUpdate, status: U.Status, ghost c1: Candidate)
    requires graph.Valid() && graph.Snapshot() == before.store
    ensures fresh(update) && update.graph == graph && update.full && update.base == before.store
    ensures status == U.Success || status == U.InitializationFailed
    ensures status == U.Success ==>
              && update.Active() && !update.Refused()
              && AssignedIn(before.store, StartDraft(before, true).c, 1, SharedAggregate(), c1)
              && update.Overlay() == Touched(c1, 1, SharedEnum(), false)
  {
    hide Store.Valid, U.Graph.Valid, U.GraphUpdate.Active, U.GraphUpdate.Refused, CandidateValid, AssignedIn;
    update := new U.GraphUpdate(graph, true, map[]);
    c1 := update.Overlay();
    assert c1 == StartDraft(before, true).c;
    status := update.MaterializeAggregate(name, 1, true);
    if status != U.Success {
      return;
    }
    assert update.changes[1] == SharedAggregate();
    c1 := update.Overlay();
    update.AddAnonymousEnum(1, true, FLAGS, []);
    assert update.changes[1] == SharedEnum();
    update.EnumsNotRefused();
  }

  /** Whatever Graph has slot 1 free: no check refuses the rebuild that uses the slot twice,
  and what it publishes is refused as corrupt when it is exported and loaded. */
  method SharedSlotCommitted(graph: U.Graph, ghost before: G.Image, ghost spelling: N.Spelling, name: N.Name)
    returns (status: U.Status, ghost u: Update, ghost after: G.Image)
    requires graph.Valid() && graph.Snapshot() == before.store && Settled(before) && N.Interned(spelling)
    requires 1 in before.free && 0 < name < G.LIMIT32 && name in spelling && name !in IdentityMap(before.identity)
    requires before.nextStableId < G.LIMIT32
    modifies graph
    ensures status == U.Success || status == U.InitializationFailed
    ensures status == U.Success ==> after.store == graph.Snapshot()
    ensures status == U.Success && G.Representable(after.store) ==>
              Committed(before, u, after) && !G.Acceptable(G.Exported(after))
  {
    hide Settled, Store.Valid, U.Graph.Valid, U.GraphUpdate.Active, U.GraphUpdate.Refused, U.GraphUpdate.Ready;
    hide U.GraphUpdate.CanRollBack, Step, ResolvedFrom, G.Representable, G.Acceptable, Committed, AssignedIn, N.Interned, SharedAfter;
    u, after := Update(spelling, [], [], map[], Incremental(StartDraft(before, false).c)), before;
    var update;
    ghost var c1;
    update, status, c1 := DraftShared(graph, before, name);
    if status != U.Success {
      return;
    }
    ghost var c2 := update.Overlay();
    status := update.PreparePublish(U.NoFailure);
    if status != U.Success {
      return;
    }
    update.PublishPrepared();
    u := Update(spelling, SharedDrafts(before, name, c1, c2), SharedOps(name), update.entityTypes, update.AsCommit());
    after := SharedAfter(before, name, graph.Snapshot());
    SharedCounters(before, name, graph.Snapshot());
    SharedCommitted(before, u, after, name, c1, c2);
  }
}
