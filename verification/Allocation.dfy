/** The slots that an update chooses.

`GraphCommits` lets an update put its entities wherever the counter allows. Here the
slots are those that the allocator of `TypeSlots` chooses, operation by operation, and
what the allocator keeps is carried over: over valid slots an increment evicts nobody
and touches no slot outside its table, and a rebuild can evict only through a slot
that an anonymous enum draws from the old free list.
 */
module Allocation {
  import opened Collections
  import opened TypeGraph
  import opened GraphCandidate
  import opened GraphCommits
  import opened EntityHousing
  import C = CompiledState
  import G = CompiledGraph
  import H = GraphHistory
  import N = StableIds
  import R = SlotRuns
  import S = TypeSlots

  /** The slot of the entity that an update sees under an identity, or zero. */
  function SlotSeen(before: G.Image, d: Draft, id: nat): nat {
    var e := EntitySeen(before.entities, d, id);
    if e.Some? then e.value.slot else 0
  }

  /** A committed Graph and the committed slots are told from each other. */
  ghost predicate SlotsOf(image: G.Image, s: S.Slots) {
    && |s.types| == |image.store.types| && s.free == image.free
    && (forall h: nat :: S.Live(s, h) <==> LiveSlot(image.store.types, h))
    && (forall id: nat :: S.Held(s, S.Entity(id)) ==
          if id < |image.entities| && image.entities[id].Live() then image.entities[id].slot else 0)
  }

  predicate Alike(kind: S.Kind, change: Change) {
    match kind
    case Replacement => change.Replacement?
    case Removed => change.Removed?
  }

  ghost predicate KindsLinked(c: Candidate, v: S.Update) {
    && v.kinds.Keys == c.changes.Keys
    && forall h <- v.kinds :: Alike(v.kinds[h], c.changes[h])
  }

  ghost predicate EntitiesLinked(before: G.Image, d: Draft, v: S.Update) {
    forall id: nat :: S.HeldNow(v, S.Entity(id)) == SlotSeen(before, d, id)
  }

  /** A draft and the update of its slots. */
  ghost predicate Linked(before: G.Image, d: Draft, v: S.Update) {
    && v.full == d.c.full && v.next == d.c.next && v.base.free == before.free
    && (!v.full ==> |v.base.types| == |before.store.types| &&
                    forall h: nat :: S.Live(v.base, h) <==> LiveSlot(before.store.types, h))
    && KindsLinked(d.c, v) && EntitiesLinked(before, d, v)
  }

  /** The operation uses the slots that the allocator gives out. */
  ghost predicate Chooses(before: G.Image, d: Draft, v: S.Update, op: Op, v': S.Update) {
    match op
    case Declare(entity, _) =>
      v' == S.Assigned(v, IdFor(before, d, entity.name)) && entity.slot == v'.entities[IdFor(before, d, entity.name)].handle
    case Forget(name, slot) =>
      && !v.full && name in IdentityMap(before.identity)
      && v' == S.Tombstoned(v, IdentityMap(before.identity)[name])
      && slot == S.HeldNow(v, S.Entity(IdentityMap(before.identity)[name]))
    case Anonymous(slot, drawn, _) =>
      && slot == S.NextFree(v) && (drawn <==> |v.claimed| < |v.base.free|)
      && exists source :: source in v.anonymous && v' == S.Pushed(v, source)
    case Release(slots) => exists source :: Gives(v, source, slots, v')
    case Define(_, _) => v' == v
    case Refer(_) => v' == v
    case Renumber(_, _) => v' == v
  }

  /** begin_source_replacement: the slots that the Source had recorded, unless it is being replaced already. */
  predicate Gives(v: S.Update, source: nat, slots: seq<nat>, v': S.Update) {
    && v' == S.Cleared(v, source)
    && slots == if source in v.anonymous then [] else S.ListAt(S.Before(v).anonymous, source)
  }

  // ----- Draft and slots stay together -----

  lemma TouchedLinked(c: Candidate, v: S.Update, slot: nat, change: Change, counted: bool, kind: S.Kind, c': Candidate,
                      v': S.Update)
    requires KindsLinked(c, v) && Alike(kind, change)
    requires c'.changes == Touched(c, slot, change, counted).changes && v'.kinds == v.kinds[slot := kind]
    ensures KindsLinked(c', v')
  {
    assert v'.kinds.Keys == v.kinds.Keys + {slot} && c'.changes.Keys == c.changes.Keys + {slot};
    forall h <- v'.kinds
      ensures Alike(v'.kinds[h], c'.changes[h])
    {
      assert h != slot ==> h in v.kinds.Keys;
    }
  }

  lemma ReleasedLinked(c: Candidate, v: S.Update, slots: seq<nat>, v': S.Update)
    requires KindsLinked(c, v)
    requires forall h :: h in v'.kinds <==> h in v.kinds || h in slots
    requires forall h <- v'.kinds :: v'.kinds[h] == if h in slots then S.Removed else v.kinds[h]
    ensures KindsLinked(Released(c, slots), v')
  {
    var c' := Released(c, slots);
    forall h
      ensures h in v'.kinds.Keys <==> h in c'.changes.Keys
    {
      assert h in v.kinds.Keys <==> h in c.changes.Keys;
    }
  }

  /** The counter moves exactly when its slot was chosen. */
  lemma AssignedCounts(v: S.Update, id: nat)
    requires S.Steady(v)
    ensures var h := S.Assigned(v, id).entities[id].handle;
            0 < h <= v.next && S.Assigned(v, id).next == if h == v.next then v.next + 1 else v.next
  {
    S.AssignedSlot(v, id);
    hide S.KindsSteady, S.Recorded, S.Issued, S.ClaimedFromFree;
    var cell := S.Touch(v, id);
    assert cell.handle < v.next;
    assert !v.full ==> cell.retained < v.next;
    if !v.full && |v.claimed| < |v.base.free| {
      FreeBelow(v);
    }
  }

  lemma FreeBelow(v: S.Update)
    requires S.Steady(v) && !v.full && |v.claimed| < |v.base.free|
    ensures 0 < S.NextFree(v) < v.next
  {
    assert v.base.free[|v.base.free| - 1 - |v.claimed|] in v.base.free;
  }

  /** One entity moved in both: the draft and the slots say where to. */
  lemma EntityMoved(before: G.Image, d: Draft, v: S.Update, id: nat, d': Draft, v': S.Update)
    requires EntitiesLinked(before, d, v)
    requires S.HeldNow(v', S.Entity(id)) == SlotSeen(before, d', id)
    requires forall p :: p != S.Entity(id) ==> S.HeldNow(v', p) == S.HeldNow(v, p)
    requires forall x: nat :: x != id ==> EntitySeen(before.entities, d', x) == EntitySeen(before.entities, d, x)
    ensures EntitiesLinked(before, d', v')
  {
    hide S.HeldNow, EntitySeen;
    forall x: nat
      ensures S.HeldNow(v', S.Entity(x)) == SlotSeen(before, d', x)
    {
      assert S.HeldNow(v, S.Entity(x)) == SlotSeen(before, d, x);
    }
  }

  lemma DeclareLinks(before: G.Image, spelling: N.Spelling, d: Draft, v: S.Update, entity: N.Entity, change: Change, d': Draft,
                     v': S.Update)
    requires Linked(before, d, v) && S.Steady(v) && Does(before, spelling, d, Declare(entity, change), d')
    requires Chooses(before, d, v, Declare(entity, change), v')
    ensures Linked(before, d', v')
  {
    hide S.Steady, S.Assigned, BuildValid, AddedValid, EntitySeen, S.HeldNow, IdFor, KindsLinked, S.Live, EntitiesLinked;
    var id := IdFor(before, d, entity.name);
    assert d'.names.entities == d.names.entities[id := entity] && entity.live && d'.c.full == d.c.full;
    AssignedCounts(v, id);
    S.AssignedFields(v, id);
    DeclaredSeen(before, d, id, entity, d');
    S.EntityHolds(v, v', id, v'.entities[id]);
    EntityMoved(before, d, v, id, d', v');
    hide N.Declared, DeclaresName;
    TouchedLinked(d.c, v, entity.slot, change, entity.slot == d.c.next, S.Replacement, d'.c, v');
  }

  lemma ForgetLinks(before: G.Image, spelling: N.Spelling, d: Draft, v: S.Update, name: N.Name, slot: nat, d': Draft,
                    v': S.Update)
    requires Linked(before, d, v) && S.Touched(v) && Does(before, spelling, d, Forget(name, slot), d')
    requires Chooses(before, d, v, Forget(name, slot), v')
    ensures Linked(before, d', v')
  {
    hide S.Tombstoned, EntitySeen, S.HeldNow, KindsLinked, S.Live, EntitiesLinked;
    var id := IdentityMap(before.identity)[name];
    var dead := N.Entity(name, false, false, 0);
    assert d'.names.entities == d.names.entities[id := dead] && d'.c.full == d.c.full;
    S.TombstonedShape(v, id);
    S.TouchIsHeld(v, id);
    S.EntityHolds(v, v', id, v'.entities[id]);
    ForgottenSeen(before, d, id, dead, d');
    EntityMoved(before, d, v, id, d', v');
    hide S.Touched, S.Touch, N.Tombstoned;
    if slot != 0 {
      TouchedLinked(d.c, v, slot, Removed, false, S.Removed, d'.c, v');
    } else {
      SameLinked(d.c, v, d'.c, v');
    }
  }

  lemma ForgottenSeen(before: G.Image, d: Draft, own: nat, entity: N.Entity, d': Draft)
    requires d'.names.entities == d.names.entities[own := entity] && !entity.live && d'.c.full == d.c.full
    ensures EntitySeen(before.entities, d', own) == None
    ensures forall id: nat :: id != own ==> EntitySeen(before.entities, d', id) == EntitySeen(before.entities, d, id)
  {
  }

  lemma SameLinked(c: Candidate, v: S.Update, c': Candidate, v': S.Update)
    requires KindsLinked(c, v) && c'.changes == c.changes && v'.kinds == v.kinds
    ensures KindsLinked(c', v')
  {
  }

  /** Slots of anonymous enums come and go without any entity being moved. */
  lemma EntitiesStay(before: G.Image, d: Draft, v: S.Update, d': Draft, v': S.Update)
    requires EntitiesLinked(before, d, v) && d'.names == d.names && d'.c.full == d.c.full
    requires v'.entities == v.entities && v'.base == v.base && v'.full == v.full
    ensures EntitiesLinked(before, d', v')
  {
    forall id: nat
      ensures S.HeldNow(v', S.Entity(id)) == SlotSeen(before, d', id)
    {
      assert S.HeldNow(v, S.Entity(id)) == SlotSeen(before, d, id);
    }
  }

  lemma AnonymousLinks(before: G.Image, spelling: N.Spelling, d: Draft, v: S.Update, slot: nat, drawn: bool, change: Change,
                       d': Draft, v': S.Update)
    requires Linked(before, d, v) && S.Steady(v) && Does(before, spelling, d, Anonymous(slot, drawn, change), d')
    requires Chooses(before, d, v, Anonymous(slot, drawn, change), v')
    ensures Linked(before, d', v')
  {
    var source :| source in v.anonymous && v' == S.Pushed(v, source);
    S.PushedFields(v, source);
    assert v'.next == if drawn then v.next else v.next + 1;
    hide S.Steady, S.Pushed, S.NextFree, S.Claim, BuildValid, EntitySeen, S.HeldNow, KindsLinked, EntitiesLinked, S.Live;
    TouchedLinked(d.c, v, slot, change, !drawn, S.Replacement, d'.c, v');
    EntitiesStay(before, d, v, d', v');
  }

  lemma ReleaseLinks(before: G.Image, spelling: N.Spelling, d: Draft, v: S.Update, slots: seq<nat>, d': Draft, v': S.Update)
    requires Linked(before, d, v) && Does(before, spelling, d, Release(slots), d')
    requires Chooses(before, d, v, Release(slots), v')
    ensures Linked(before, d', v')
  {
    var source :| Gives(v, source, slots, v');
    S.ClearedFields(v, source);
    hide EntitySeen, S.HeldNow, EntitiesLinked, KindsLinked, S.Live;
    ReleasedLinked(d.c, v, slots, v');
    EntitiesStay(before, d, v, d', v');
  }

  /** Draft and slots stay together, whatever slots were committed. */
  lemma LinkStep(before: G.Image, spelling: N.Spelling, d: Draft, v: S.Update, op: Op, d': Draft, v': S.Update)
    requires Linked(before, d, v) && S.Steady(v) && Does(before, spelling, d, op, d')
    requires Chooses(before, d, v, op, v') && !op.Renumber?
    ensures Linked(before, d', v')
  {
    match op {
      case Declare(entity, change) => DeclareLinks(before, spelling, d, v, entity, change, d', v');
      case Forget(name, slot) =>
        SteadyTouched(v);
        ForgetLinks(before, spelling, d, v, name, slot, d', v');
      case Anonymous(slot, drawn, change) => AnonymousLinks(before, spelling, d, v, slot, drawn, change, d', v');
      case Release(slots) => ReleaseLinks(before, spelling, d, v, slots, d', v');
      case Define(slot, change) =>
        hide S.Steady, BuildValid, EntitySeen, S.HeldNow, EntitiesLinked, S.Live;
        EntitiesStay(before, d, v, d', v');
        RedefinedLinked(d.c, v, slot, change, d'.c);
      case Refer(c) =>
        hide S.Steady, AddedValid, EntitySeen, S.HeldNow, EntitiesLinked, S.Live;
        EntitiesStay(before, d, v, d', v');
    }
  }

  lemma SteadyTouched(v: S.Update)
    requires S.Steady(v)
    ensures S.Touched(v)
  {
  }

  lemma RedefinedLinked(c: Candidate, v: S.Update, slot: nat, change: Change, c': Candidate)
    requires KindsLinked(c, v) && slot in c.changes && c.changes[slot].Replacement? && change.Replacement?
    requires c' == Touched(c, slot, change, false)
    ensures KindsLinked(c', v)
  {
    assert slot in v.kinds.Keys;
    assert c'.changes.Keys == c.changes.Keys;
  }

  /** A draft begins with the slots that were committed; a rebuild sees no more of them than the free list. */
  lemma StartLinks(before: G.Image, full: bool, s: S.Slots)
    requires s.free == before.free && (!full ==> SlotsOf(before, s))
    ensures Linked(before, StartDraft(before, full), R.Start(full, s))
  {
    forall id: nat
      ensures S.HeldNow(R.Start(full, s), S.Entity(id)) == SlotSeen(before, StartDraft(before, full), id)
    {
    }
  }

  // ----- Nobody is evicted -----

  /** Nobody but `own` holds the slot. */
  ghost predicate Alone(v: S.Update, own: S.Owner, slot: nat) {
    forall p :: p != own ==> S.HeldNow(v, p) != slot
  }

  lemma AloneEvictsNobody(before: G.Image, d: Draft, v: S.Update, own: S.Owner, id: nat, slot: nat, kind: Option<UserTypeKind>)
    requires EntitiesLinked(before, d, v) && Alone(v, own, slot) && (own.Entity? ==> own.id == id) && slot != 0
    ensures !HeldByOther(before, d, id, slot, kind)
  {
    hide S.HeldNow;
    forall x: nat | x != id
      ensures !Holds(before, d, x, slot, kind)
    {
      assert S.HeldNow(v, S.Entity(x)) == SlotSeen(before, d, x);
    }
  }

  /** Over valid slots, the slots that an increment chooses are nobody else's. */
  lemma SoundConsiderate(before: G.Image, spelling: N.Spelling, d: Draft, v: S.Update, op: Op, d': Draft, v': S.Update)
    requires EntitiesLinked(before, d, v) && S.Sound(v) && Does(before, spelling, d, op, d') && Chooses(before, d, v, op, v')
    ensures !Evicts(before, d, op)
  {
    match op {
      case Declare(entity, _) =>
        var id := IdFor(before, d, entity.name);
        S.AssignedGives(v, id);
        hide S.Sound, S.Assigned, S.HeldNow, S.Held, S.Live, EntitiesLinked, BuildValid, AssignedIn, DeclaresName, HeldByOther, IdFor;
        AloneEvictsNobody(before, d, v, S.Entity(id), id, entity.slot, Some(if entity.aggregate then Aggregate else Enumeration));
      case Forget(name, slot) =>
        var id := IdentityMap(before.identity)[name];
        HeldAlone(v, S.Entity(id));
        hide S.Sound, S.Tombstoned, S.HeldNow, EntitiesLinked, HeldByOther;
        if slot != 0 {
          AloneEvictsNobody(before, d, v, S.Entity(id), id, slot, None);
        }
      case Anonymous(slot, _, _) =>
        S.NextFreeUnused(v);
        hide S.Sound, S.HeldNow, EntitiesLinked, HeldByOther, BuildValid, S.NextFree, S.Pushed;
        AloneEvictsNobody(before, d, v, S.Anonymous(0, 0), 0, slot, Some(Enumeration));
      case Release(slots) =>
        var source :| Gives(v, source, slots, v');
        forall h <- slots
          ensures !HeldByOther(before, d, 0, h, None)
        {
          var i := S.AnonymousHeld(v, source, h);
          HeldAlone(v, S.Anonymous(source, i));
          AloneEvictsNobody(before, d, v, S.Anonymous(source, i), 0, h, None);
        }
      case Define(_, _) =>
      case Refer(_) =>
      case Renumber(_, _) =>
    }
  }

  lemma HeldAlone(v: S.Update, own: S.Owner)
    requires S.Sound(v)
    ensures S.HeldNow(v, own) != 0 ==> Alone(v, own, S.HeldNow(v, own))
  {
    hide S.HeldNow, S.Accounted, S.HoldersLive, S.Covered, S.KeepsHands, S.SlotsValid;
  }

  /** No entity but `own` holds the slot. */
  ghost predicate EntityAlone(v: S.Update, own: nat, slot: nat) {
    forall id: nat :: id != own ==> S.HeldNow(v, S.Entity(id)) != slot
  }

  lemma EntityEvictsNobody(before: G.Image, d: Draft, v: S.Update, own: nat, slot: nat, kind: Option<UserTypeKind>)
    requires EntitiesLinked(before, d, v) && EntityAlone(v, own, slot) && slot != 0
    ensures !HeldByOther(before, d, own, slot, kind)
  {
    hide S.HeldNow;
    forall x: nat | x != own
      ensures !Holds(before, d, x, slot, kind)
    {
      assert S.HeldNow(v, S.Entity(x)) == SlotSeen(before, d, x);
    }
  }

  /** Entities of a rebuild hold what the counter issued, each its own slot. */
  lemma EntityIssued(v: S.Update, id: nat, issued: seq<S.Owner>, takers: seq<S.Owner>)
    requires S.Rebuilding(v, issued, takers) && S.HeldNow(v, S.Entity(id)) != 0
    ensures var h := S.HeldNow(v, S.Entity(id));
            0 < h < v.next && issued[h - 1] == S.Entity(id)
  {
    hide S.HeldNow, S.LiveNow, S.FreePositive, S.ClaimedFromFree;
    assert S.Entity(id) in issued;
    var i :| 0 <= i < |issued| && issued[i] == S.Entity(id);
    assert S.HeldNow(v, issued[i]) == i + 1;
  }

  lemma IssuedAlone(v: S.Update, id: nat, issued: seq<S.Owner>, takers: seq<S.Owner>)
    requires S.Rebuilding(v, issued, takers)
    ensures var h := S.Assigned(v, id).entities[id].handle;
            h != 0 && EntityAlone(v, id, h)
  {
    assert S.Touch(v, id).handle == S.HeldNow(v, S.Entity(id));
    var h := S.Assigned(v, id).entities[id].handle;
    assert h == if S.HeldNow(v, S.Entity(id)) != 0 then S.HeldNow(v, S.Entity(id)) else v.next;
    hide S.HeldNow, S.Assigned;
    forall x: nat | x != id && S.HeldNow(v, S.Entity(x)) != 0
      ensures S.HeldNow(v, S.Entity(x)) != h
    {
      EntityIssued(v, x, issued, takers);
      if S.HeldNow(v, S.Entity(id)) != 0 {
        EntityIssued(v, id, issued, takers);
      }
    }
  }

  lemma CounterAlone(v: S.Update, issued: seq<S.Owner>, takers: seq<S.Owner>)
    requires S.Rebuilding(v, issued, takers)
    ensures v.next != 0 && forall id: nat :: S.HeldNow(v, S.Entity(id)) != v.next
  {
    forall id: nat
      ensures S.HeldNow(v, S.Entity(id)) != v.next
    {
      if S.HeldNow(v, S.Entity(id)) != 0 {
        EntityIssued(v, id, issued, takers);
      }
    }
  }

  lemma RebuildDeclares(before: G.Image, d: Draft, v: S.Update, entity: N.Entity, change: Change, v': S.Update,
                        issued: seq<S.Owner>, takers: seq<S.Owner>)
    requires EntitiesLinked(before, d, v) && S.Rebuilding(v, issued, takers)
    requires Chooses(before, d, v, Declare(entity, change), v')
    ensures !Evicts(before, d, Declare(entity, change))
  {
    var id := IdFor(before, d, entity.name);
    IssuedAlone(v, id, issued, takers);
    hide S.Rebuilding, S.Assigned, S.HeldNow, EntitiesLinked, HeldByOther, IdFor, EntityAlone;
    EntityEvictsNobody(before, d, v, id, entity.slot, Some(if entity.aggregate then Aggregate else Enumeration));
  }

  lemma RebuildCounts(before: G.Image, d: Draft, v: S.Update, slot: nat, change: Change, issued: seq<S.Owner>,
                      takers: seq<S.Owner>)
    requires EntitiesLinked(before, d, v) && S.Rebuilding(v, issued, takers) && slot == v.next
    ensures !Evicts(before, d, Anonymous(slot, false, change))
  {
    CounterAlone(v, issued, takers);
    hide S.Rebuilding, S.HeldNow, EntitiesLinked, HeldByOther;
    EntityEvictsNobody(before, d, v, 0, slot, Some(Enumeration));
  }

  /** In a rebuild only an enum that draws from the old free list can evict anybody. */
  lemma RebuildConsiderate(before: G.Image, spelling: N.Spelling, d: Draft, v: S.Update, op: Op, d': Draft, v': S.Update,
                           issued: seq<S.Owner>, takers: seq<S.Owner>)
    requires EntitiesLinked(before, d, v) && S.Rebuilding(v, issued, takers) && v.full == d.c.full
    requires Does(before, spelling, d, op, d') && Chooses(before, d, v, op, v')
    ensures Evicts(before, d, op) ==> op.Anonymous? && op.drawn
  {
    hide S.Rebuilding, EntitiesLinked, HeldByOther, BuildValid, AssignedIn, DeclaresName, IdFor, S.Pushed, S.Assigned, S.HeldNow;
    match op {
      case Declare(entity, change) => RebuildDeclares(before, d, v, entity, change, v', issued, takers);
      case Anonymous(slot, drawn, change) =>
        RebuildIsFull(v, issued, takers);
        if !drawn {
          RebuildCounts(before, d, v, slot, change, issued, takers);
        }
      case Release(slots) => RebuildIsFull(v, issued, takers);
      case Forget(_, _) => RebuildIsFull(v, issued, takers);
      case Define(_, _) =>
      case Refer(_) =>
      case Renumber(_, _) =>
    }
  }

  lemma RebuildIsFull(v: S.Update, issued: seq<S.Owner>, takers: seq<S.Owner>)
    requires S.Rebuilding(v, issued, takers)
    ensures v.full
  {
  }

  // ----- Whole updates -----

  /** Every operation of the update takes its slots from the allocator, which starts from the
  committed slots. New identities are renumbered at the end, when everything is declared. */
  ghost predicate Allocated(before: G.Image, s: S.Slots, u: Update, vs: seq<S.Update>) {
    && |vs| == |u.drafts| == |u.ops| + 1
    && vs[0] == R.Start(u.commit.Rebuild?, s)
    && forall i: nat :: i < |u.ops| ==>
         && Chooses(before, u.drafts[i], vs[i], u.ops[i], vs[i + 1])
         && (u.ops[i].Renumber? ==> i == |u.ops| - 1)
  }

  /** Where the update starts: from slots that an increment can see in the Graph, and of which
  a rebuild uses the free list. */
  ghost predicate StartsFrom(before: G.Image, s: S.Slots, full: bool) {
    S.Anchored(s) && s.free == before.free && (!full ==> SlotsOf(before, s))
  }

  lemma ChoosesBooks(before: G.Image, d: Draft, v: S.Update, op: Op, v': S.Update, issued: seq<S.Owner>, takers: seq<S.Owner>)
    returns (issued': seq<S.Owner>, takers': seq<S.Owner>)
    requires S.Books(v, issued, takers) && Chooses(before, d, v, op, v')
    ensures S.Books(v', issued', takers') && v'.base == v.base && v'.full == v.full && v.claimed <= v'.claimed
    ensures op.Anonymous? && op.drawn ==> v'.claimed != []
  {
    hide S.Books, S.Assigned, S.Tombstoned, S.Cleared, S.Pushed, S.HeldNow, IdFor, EntitySeen;
    issued', takers' := issued, takers;
    match op {
      case Declare(entity, _) =>
        var id := IdFor(before, d, entity.name);
        S.AssignedFields(v, id);
        AssignedClaimsMore(v, id);
        issued' := S.AssignedBooks(v, id, issued, takers);
      case Forget(name, slot) =>
        S.TombstonedShape(v, IdentityMap(before.identity)[name]);
        S.TombstonedBooks(v, IdentityMap(before.identity)[name], issued, takers);
      case Anonymous(slot, drawn, _) =>
        var source :| source in v.anonymous && v' == S.Pushed(v, source);
        S.PushedFields(v, source);
        issued', takers' := S.PushedBooks(v, source, issued, takers);
      case Release(slots) =>
        var source :| Gives(v, source, slots, v');
        S.ClearedFields(v, source);
        S.ClearedBooks(v, source, issued, takers);
      case Define(_, _) =>
      case Refer(_) =>
      case Renumber(_, _) =>
    }
  }

  lemma AssignedClaimsMore(v: S.Update, id: nat)
    ensures v.claimed <= S.Assigned(v, id).claimed
  {
    hide S.NextFree, S.Touch;
  }

  /** The slots of an update keep their books, and so do draft and slots until the renumbering. */
  lemma {:induction false} AllocatedSteps(before: G.Image, s: S.Slots, u: Update, vs: seq<S.Update>, i: nat)
    returns (issued: seq<S.Owner>, takers: seq<S.Owner>)
    requires StartsFrom(before, s, u.commit.Rebuild?) && Allocated(before, s, u, vs) && i < |vs|
    requires Drafting(before, u.spelling, u.commit.Rebuild?, u.drafts, u.ops)
    ensures S.Books(vs[i], issued, takers) && vs[i].base == s && vs[i].full == u.commit.Rebuild?
    ensures i == 0 || !u.ops[i - 1].Renumber? ==> Linked(before, u.drafts[i], vs[i])
    decreases i
  {
    hide S.Books, Linked, Chooses, Does, SlotsOf, S.Anchored;
    if i == 0 {
      R.StartBooks(u.commit.Rebuild?, s);
      StartLinks(before, u.commit.Rebuild?, s);
      issued, takers := [], [];
    } else {
      var before1, before2 := AllocatedSteps(before, s, u, vs, i - 1);
      var d, v := u.drafts[i - 1], vs[i - 1];
      assert Chooses(before, d, v, u.ops[i - 1], vs[i - 1 + 1]) && Does(before, u.spelling, d, u.ops[i - 1], u.drafts[i - 1 + 1]);
      issued, takers := ChoosesBooks(before, d, v, u.ops[i - 1], vs[i], before1, before2);
      S.BooksBounded(v, before1, before2);
      if !u.ops[i - 1].Renumber? {
        LinkStep(before, u.spelling, d, v, u.ops[i - 1], u.drafts[i], vs[i]);
      }
    }
  }

  lemma {:induction false} ClaimsGrow(before: G.Image, s: S.Slots, u: Update, vs: seq<S.Update>, i: nat, j: nat)
    requires StartsFrom(before, s, u.commit.Rebuild?) && Allocated(before, s, u, vs) && i <= j < |vs|
    requires Drafting(before, u.spelling, u.commit.Rebuild?, u.drafts, u.ops)
    ensures vs[i].claimed <= vs[j].claimed
    decreases j
  {
    hide S.Books, Linked, Chooses, Does, StartsFrom;
    if i < j {
      ClaimsGrow(before, s, u, vs, i, j - 1);
      var issued, takers := AllocatedSteps(before, s, u, vs, j - 1);
      assert Chooses(before, u.drafts[j - 1], vs[j - 1], u.ops[j - 1], vs[j - 1 + 1]);
      issued, takers := ChoosesBooks(before, u.drafts[j - 1], vs[j - 1], u.ops[j - 1], vs[j], issued, takers);
    }
  }

  /** An increment over valid slots evicts nobody, and neither does a rebuild that draws nothing
  from the old free list. */
  lemma AllocatedConsiderate(before: G.Image, s: S.Slots, u: Update, vs: seq<S.Update>)
    requires StartsFrom(before, s, u.commit.Rebuild?) && Allocated(before, s, u, vs)
    requires Drafting(before, u.spelling, u.commit.Rebuild?, u.drafts, u.ops)
    requires if u.commit.Rebuild? then vs[|u.ops|].claimed == [] else S.SlotsValid(s)
    ensures Considerate(before, u)
  {
    hide S.Books, Linked, Chooses, Does, StartsFrom, Evicts, S.SlotsValid, S.Sound, S.Rebuilding;
    forall i: nat | i < |u.ops|
      ensures !Evicts(before, u.drafts[i], u.ops[i])
    {
      var issued, takers := AllocatedSteps(before, s, u, vs, i);
      assert Chooses(before, u.drafts[i], vs[i], u.ops[i], vs[i + 1]) && Does(before, u.spelling, u.drafts[i], u.ops[i], u.drafts[i + 1]);
      assert i == 0 || !u.ops[i - 1].Renumber?;
      LinkedParts(before, u.drafts[i], vs[i]);
      BooksParts(vs[i], issued, takers);
      if u.commit.Rebuild? {
        ClaimsGrow(before, s, u, vs, i + 1, |u.ops|);
        RebuildConsiderate(before, u.spelling, u.drafts[i], vs[i], u.ops[i], u.drafts[i + 1], vs[i + 1], issued, takers);
        var _, _ := ChoosesBooks(before, u.drafts[i], vs[i], u.ops[i], vs[i + 1], issued, takers);
      } else {
        SoundConsiderate(before, u.spelling, u.drafts[i], vs[i], u.ops[i], u.drafts[i + 1], vs[i + 1]);
      }
    }
  }

  lemma LinkedParts(before: G.Image, d: Draft, v: S.Update)
    requires Linked(before, d, v)
    ensures EntitiesLinked(before, d, v) && KindsLinked(d.c, v) && v.full == d.c.full && v.next == d.c.next
  {
  }

  lemma BooksParts(v: S.Update, issued: seq<S.Owner>, takers: seq<S.Owner>)
    requires S.Books(v, issued, takers)
    ensures v.full ==> S.Rebuilding(v, issued, takers)
    ensures !v.full && S.SlotsValid(v.base) ==> S.Sound(v)
  {
  }

  /** Draft and slots agree on whether the update stays inside its table. */
  lemma ContainedIff(c: Candidate, v: S.Update)
    requires KindsLinked(c, v) && v.next == c.next
    ensures Contained(c) <==> S.Inside(v)
  {
    assert forall h :: h in v.kinds.Keys <==> h in c.changes.Keys;
  }

  lemma LastOp(before: G.Image, s: S.Slots, u: Update, vs: seq<S.Update>)
    requires Allocated(before, s, u, vs) && Drafting(before, u.spelling, u.commit.Rebuild?, u.drafts, u.ops)
    ensures var n := |u.ops|;
            n > 0 && u.ops[n - 1].Renumber? ==>
              && vs[n] == vs[n - 1] && u.drafts[n].c == u.drafts[n - 1].c && (n == 1 || !u.ops[n - 2].Renumber?)
              && Does(before, u.spelling, u.drafts[n - 1], u.ops[n - 1], u.drafts[n])
  {
    var n := |u.ops|;
    if n > 0 && u.ops[n - 1].Renumber? {
      assert Chooses(before, u.drafts[n - 1], vs[n - 1], u.ops[n - 1], vs[n - 1 + 1]);
      assert Does(before, u.spelling, u.drafts[n - 1], u.ops[n - 1], u.drafts[n - 1 + 1]);
    }
  }

  /** The table of the finished draft is that of the slots, also when the last operation renumbers. */
  lemma FinalLinked(before: G.Image, s: S.Slots, u: Update, vs: seq<S.Update>)
    returns (issued: seq<S.Owner>, takers: seq<S.Owner>)
    requires StartsFrom(before, s, u.commit.Rebuild?) && Allocated(before, s, u, vs)
    requires Drafting(before, u.spelling, u.commit.Rebuild?, u.drafts, u.ops)
    ensures S.Books(vs[|u.ops|], issued, takers) && vs[|u.ops|].base == s && vs[|u.ops|].full == u.commit.Rebuild?
    ensures KindsLinked(u.Final().c, vs[|u.ops|]) && vs[|u.ops|].next == u.Final().c.next
    ensures u.ops != [] && u.ops[|u.ops| - 1].Renumber? ==> Linked(before, u.drafts[|u.ops| - 1], vs[|u.ops|])
    ensures u.ops == [] || !u.ops[|u.ops| - 1].Renumber? ==> Linked(before, u.Final(), vs[|u.ops|])
  {
    hide S.Books, Linked, StartsFrom, KindsLinked, EntitiesLinked, Does, Chooses;
    assert u.Drafted() && |vs| == |u.ops| + 1;
    var n := |u.ops|;
    hide Allocated, Drafting;
    LastOp(before, s, u, vs);
    issued, takers := AllocatedSteps(before, s, u, vs, n);
    if n > 0 && u.ops[n - 1].Renumber? {
      var _, _ := AllocatedSteps(before, s, u, vs, n - 1);
      LinkedParts(before, u.drafts[n - 1], vs[n - 1]);
    } else {
      LinkedParts(before, u.Final(), vs[n]);
    }
  }

  /** An increment touches no slot outside its table exactly when every slot that its replaced
  Sources had recorded for anonymous enums is below its final counter; from slots whose
  enums all lie inside the table it always does. */
  lemma IncrementContained(before: G.Image, s: S.Slots, u: Update, vs: seq<S.Update>)
    requires StartsFrom(before, s, false) && Allocated(before, s, u, vs) && !u.commit.Rebuild?
    requires Drafting(before, u.spelling, false, u.drafts, u.ops)
    ensures var v := vs[|u.ops|];
            Contained(u.Final().c) <==> forall source <- v.anonymous :: S.Within(S.ListAt(s.anonymous, source), v.next - 1)
    ensures S.Bounded(s) ==> Contained(u.Final().c)
  {
    assert u.Drafted() && |vs| == |u.ops| + 1;
    hide S.Books, Linked, StartsFrom, Allocated, Drafting, Contained, S.Inside, S.Bounded;
    var issued, takers := FinalLinked(before, s, u, vs);
    var v := vs[|u.ops|];
    S.BooksBounded(v, issued, takers);
    ContainedIff(u.Final().c, v);
    S.InsideIff(v);
    if S.Bounded(s) {
      S.BoundedInside(v);
    }
  }
}
