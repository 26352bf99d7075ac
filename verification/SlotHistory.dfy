/** What becomes of entities when a rebuild draws slots from the old free list, and what
holds over whole histories whose slots come from the allocator.
 */
module SlotHistory {
  import opened Allocation
  import opened Collections
  import opened TypeGraph
  import opened GraphCandidate
  import opened GraphCommits
  import opened EntityHousing
  import C = CompiledState
  import G = CompiledGraph
  import H = GraphHistory
  import N = StableIds
  import R = SlotRuns
  import S = TypeSlots

  // ----- Rebuilds that draw from the old free list -----

  /** An anonymous enum drew the slot, and no entity was declared in it afterwards. */
  ghost predicate Buried(u: Update, n: nat, slot: nat)
    requires n <= |u.ops|
  {
    exists i: nat :: i < n && BuriedAt(u, n, i, slot)
  }

  ghost predicate BuriedAt(u: Update, n: nat, i: nat, slot: nat)
    requires i < n <= |u.ops|
  {
    && u.ops[i].Anonymous? && u.ops[i].drawn && u.ops[i].slot == slot
    && forall j: nat :: i < j < n && u.ops[j].Declare? ==> u.ops[j].entity.slot != slot
  }

  lemma BuriedNext(u: Update, n: nat, slot: nat)
    requires n < |u.ops|
    ensures Buried(u, n + 1, slot) <==>
              if u.ops[n].Declare? && u.ops[n].entity.slot == slot then false
              else (u.ops[n].Anonymous? && u.ops[n].drawn && u.ops[n].slot == slot) || Buried(u, n, slot)
  {
    if Buried(u, n, slot) && !(u.ops[n].Declare? && u.ops[n].entity.slot == slot) {
      var i: nat :| i < n && BuriedAt(u, n, i, slot);
      assert BuriedAt(u, n + 1, i, slot);
    }
    if u.ops[n].Anonymous? && u.ops[n].drawn && u.ops[n].slot == slot {
      assert BuriedAt(u, n + 1, n, slot);
    }
    if Buried(u, n + 1, slot) {
      var i: nat :| i < n + 1 && BuriedAt(u, n + 1, i, slot);
      if i < n {
        assert BuriedAt(u, n, i, slot);
      }
    }
  }

  /** What a rebuild says of one entity: it has a home unless it is an aggregate and was buried. */
  ghost predicate Told(before: G.Image, d: Draft, u: Update, n: nat, id: nat)
    requires n <= |u.ops|
  {
    var e := EntitySeen(before.entities, d, id);
    e.Some? ==> (Housed(before, d, id) <==> !(e.value.aggregate && Buried(u, n, e.value.slot)))
  }

  /** An operation that leaves an entity and the kind in its slot alone. */
  lemma ToldStays(before: G.Image, d: Draft, u: Update, n: nat, id: nat, d': Draft)
    requires n < |u.ops| && Told(before, d, u, n, id)
    requires EntitySeen(before.entities, d', id) == EntitySeen(before.entities, d, id)
    requires var h := SlotSeen(before, d, id);
             && KindSeen(before.store.types, d'.c, h) == KindSeen(before.store.types, d.c, h)
             && (u.ops[n].Declare? ==> u.ops[n].entity.slot != h) && (u.ops[n].Anonymous? ==> u.ops[n].slot != h)
    ensures Told(before, d', u, n + 1, id)
  {
    hide Buried, EntitySeen, KindSeen;
    BuriedNext(u, n, SlotSeen(before, d, id));
  }

  lemma ToldDeclared(before: G.Image, spelling: N.Spelling, d: Draft, v: S.Update, u: Update, n: nat, id: nat, d': Draft,
                     v': S.Update, issued: seq<S.Owner>, takers: seq<S.Owner>)
    requires n < |u.ops| && u.ops[n].Declare? && Told(before, d, u, n, id)
    requires EntitiesLinked(before, d, v) && S.Rebuilding(v, issued, takers)
    requires Does(before, spelling, d, u.ops[n], d') && Chooses(before, d, v, u.ops[n], v')
    ensures Told(before, d', u, n + 1, id)
  {
    var entity, change := u.ops[n].entity, u.ops[n].change;
    var own := IdFor(before, d, entity.name);
    assert d'.names.entities == d.names.entities[own := entity] && entity.live && change.Replacement?;
    assert change.kind.Aggregate? <==> entity.aggregate;
    hide S.Rebuilding, S.Assigned, S.HeldNow, EntitySeen, KindSeen, IdFor, BuildValid, Buried, N.Declared, DeclaresName;
    DeclaredKind(before.store.types, before.store, d.c, entity.slot, change, d'.c);
    hide AssignedIn;
    DeclaredSeen(before, d, own, entity, d');
    IssuedAlone(v, own, issued, takers);
    BuriedNext(u, n, entity.slot);
    if id != own {
      assert S.HeldNow(v, S.Entity(id)) == SlotSeen(before, d, id);
      ToldStays(before, d, u, n, id, d');
    }
  }

  lemma ToldDrawn(before: G.Image, spelling: N.Spelling, d: Draft, v: S.Update, u: Update, n: nat, id: nat, d': Draft,
                  v': S.Update, issued: seq<S.Owner>, takers: seq<S.Owner>)
    requires n < |u.ops| && u.ops[n].Anonymous? && Told(before, d, u, n, id)
    requires EntitiesLinked(before, d, v) && S.Rebuilding(v, issued, takers) && v.next == d.c.next && 1 <= d.c.next
    requires Does(before, spelling, d, u.ops[n], d') && Chooses(before, d, v, u.ops[n], v')
    ensures Told(before, d', u, n + 1, id)
  {
    var slot, drawn, change := u.ops[n].slot, u.ops[n].drawn, u.ops[n].change;
    var h := SlotSeen(before, d, id);
    assert d'.names == d.names && d'.c == Touched(d.c, slot, change, !drawn);
    assert S.HeldNow(v, S.Entity(id)) == h;
    KindTouched(before.store.types, d.c, slot, change, !drawn, h);
    CounterAlone(v, issued, takers);
    assert EntitySeen(before.entities, d', id) == EntitySeen(before.entities, d, id);
    hide S.HeldNow, KindSeen, BuildValid, Buried, EntitySeen, Touched, S.Pushed, S.NextFree;
    if h == slot && EntitySeen(before.entities, d, id).Some? {
      EntityIssuedSeen(v, id, issued, takers);
      BuriedNext(u, n, slot);
    } else if EntitySeen(before.entities, d, id).Some? {
      ToldStays(before, d, u, n, id, d');
    }
  }

  lemma EntityIssuedSeen(v: S.Update, id: nat, issued: seq<S.Owner>, takers: seq<S.Owner>)
    requires S.Rebuilding(v, issued, takers)
    ensures S.HeldNow(v, S.Entity(id)) < v.next
  {
    if S.HeldNow(v, S.Entity(id)) != 0 {
      EntityIssued(v, id, issued, takers);
    }
  }

  lemma ToldStep(before: G.Image, spelling: N.Spelling, d: Draft, v: S.Update, u: Update, n: nat, id: nat, d': Draft,
                 v': S.Update, issued: seq<S.Owner>, takers: seq<S.Owner>)
    requires n < |u.ops| && !u.ops[n].Renumber? && Told(before, d, u, n, id) && CandidateValid(before.store, d.c)
    requires Linked(before, d, v) && S.Rebuilding(v, issued, takers)
    requires Does(before, spelling, d, u.ops[n], d') && Chooses(before, d, v, u.ops[n], v')
    ensures Told(before, d', u, n + 1, id)
  {
    LinkedParts(before, d, v);
    RebuildIsFull(v, issued, takers);
    CandidateTable(before.store, d.c);
    match u.ops[n] {
      case Declare(_, _) => ToldDeclared(before, spelling, d, v, u, n, id, d', v', issued, takers);
      case Anonymous(_, _, _) => ToldDrawn(before, spelling, d, v, u, n, id, d', v', issued, takers);
      case Release(slots) =>
        assert d' == d.(c := Released(d.c, [])) && Released(d.c, []) == d.c;
        hide Linked, S.Rebuilding, CandidateValid, Told, Does;
        SameDraft(before, d, u, n, id, d');
      case Define(slot, change) =>
        SlotsOfChanges(before.store, d.c, slot);
        hide Linked, S.Rebuilding, CandidateValid, BuildValid, Buried;
        ToldStays(before, d, u, n, id, d');
      case Refer(_) =>
        hide Linked, S.Rebuilding, CandidateValid, AddedValid, Buried;
        ToldStays(before, d, u, n, id, d');
      case Forget(_, _) =>
        assert false;
    }
  }

  lemma SameDraft(before: G.Image, d: Draft, u: Update, n: nat, id: nat, d': Draft)
    requires n < |u.ops| && u.ops[n].Release? && Told(before, d, u, n, id) && d' == d
    ensures Told(before, d', u, n + 1, id)
  {
    hide Buried, EntitySeen, KindSeen;
    ToldStays(before, d, u, n, id, d');
  }

  /** The draft before the renumbering saw the same entity under another identity. */
  lemma RenumberSeen(before: G.Image, spelling: N.Spelling, d: Draft, list: seq<N.Name>, remap: seq<nat>, d': Draft, id: nat)
    returns (x: nat)
    requires DraftValid(before, spelling, d) && Does(before, spelling, d, Renumber(list, remap), d')
    ensures id == N.Mapped(before.nextStableId, remap, x)
    ensures EntitySeen(before.entities, d', id) == EntitySeen(before.entities, d, x)
  {
    var base := before.nextStableId;
    ProvisionalHeld(before, spelling, d, list, remap, d');
    assert d'.c == d.c && N.Permuted(d.names.entities, base, remap, d'.names.entities) && N.IsRemap(base, remap);
    hide Does, DraftValid, N.Permuted;
    x := N.Unmapped(base, remap, id);
    MovedTo(d.names.entities, base, remap, x, d'.names.entities);
  }

  lemma ToldRenumbered(before: G.Image, spelling: N.Spelling, d: Draft, u: Update, n: nat, id: nat, d': Draft)
    requires n < |u.ops| && u.ops[n].Renumber? && DraftValid(before, spelling, d)
    requires Does(before, spelling, d, u.ops[n], d') && forall x: nat :: Told(before, d, u, n, x)
    ensures Told(before, d', u, n + 1, id)
  {
    assert d'.c == d.c;
    var x := RenumberSeen(before, spelling, d, u.ops[n].list, u.ops[n].remap, d', id);
    hide Does, DraftValid, Buried, EntitySeen, KindSeen;
    assert Told(before, d, u, n, x);
    BuriedNext(u, n, SlotSeen(before, d, x));
  }

  lemma {:induction false} ToldAll(before: G.Image, s: S.Slots, u: Update, vs: seq<S.Update>, n: nat, id: nat)
    requires Settled(before) && StartsFrom(before, s, true) && Allocated(before, s, u, vs) && u.commit.Rebuild?
    requires N.Interned(u.spelling) && Drafting(before, u.spelling, true, u.drafts, u.ops) && n < |vs|
    ensures Told(before, u.drafts[n], u, n, id)
    decreases n
  {
    hide Settled, StartsFrom, Linked, Chooses, Does, Told, DraftValid, S.Books, S.Rebuilding;
    if n == 0 {
      StartTold(before, u, id);
    } else {
      SettledParts(before);
      DraftingKeeps(before, u.spelling, true, u.drafts, u.ops, n - 1);
      var issued, takers := AllocatedSteps(before, s, u, vs, n - 1);
      assert Chooses(before, u.drafts[n - 1], vs[n - 1], u.ops[n - 1], vs[n - 1 + 1]);
      assert Does(before, u.spelling, u.drafts[n - 1], u.ops[n - 1], u.drafts[n - 1 + 1]);
      assert n - 1 == 0 || !u.ops[n - 2].Renumber?;
      BooksParts(vs[n - 1], issued, takers);
      DraftTypes(before, u.spelling, u.drafts[n - 1]);
      if u.ops[n - 1].Renumber? {
        var d, m: nat := u.drafts[n - 1], n - 1;
        forall x: nat
          ensures Told(before, d, u, m, x)
        {
          ToldAll(before, s, u, vs, m, x);
        }
        ToldRenumbered(before, u.spelling, d, u, m, id, u.drafts[n]);
      } else {
        ToldAll(before, s, u, vs, n - 1, id);
        ToldStep(before, u.spelling, u.drafts[n - 1], vs[n - 1], u, n - 1, id, u.drafts[n], vs[n], issued, takers);
      }
    }
  }

  lemma StartTold(before: G.Image, u: Update, id: nat)
    ensures Told(before, StartDraft(before, true), u, 0, id)
  {
  }

  lemma DraftTypes(before: G.Image, spelling: N.Spelling, d: Draft)
    requires DraftValid(before, spelling, d)
    ensures CandidateValid(before.store, d.c)
  {
  }

  /** A rebuild houses every entity if and only if no aggregate is left in a slot that an enum drew
  from the old free list after the aggregate was last declared. */
  lemma RebuildHousedIff(before: G.Image, s: S.Slots, u: Update, vs: seq<S.Update>, after: G.Image)
    requires Settled(before) && StartsFrom(before, s, true) && Allocated(before, s, u, vs) && u.commit.Rebuild?
    requires Committed(before, u, after)
    ensures G.EntitiesHoused(after) <==>
              forall e <- after.entities :: e.Live() && e.kind.AggregateType? ==> !Buried(u, |u.ops|, e.slot)
  {
    HousedIff(before, u, after);
    SettledParts(before);
    FullOf(before, u, after);
    assert u.Drafted() && N.Interned(u.spelling) && Drafting(before, u.spelling, true, u.drafts, u.ops);
    DraftingKeeps(before, u.spelling, true, u.drafts, u.ops, |u.ops|);
    EntitiesOf(before, u, after);
    hide Settled, StartsFrom, Allocated, Committed, Told, DraftValid, EntitiesPublished, EntitiesDrafted, Drafting, G.EntitiesHoused;
    forall id: nat
      ensures Told(before, u.Final(), u, |u.ops|, id)
    {
      ToldAll(before, s, u, vs, |u.ops|, id);
    }
    HousedByTelling(before, u, after);
  }

  lemma EntitiesOf(before: G.Image, u: Update, after: G.Image)
    requires Committed(before, u, after) && u.Drafted() && DraftValid(before, u.spelling, u.Final())
    ensures EntitiesPublished(before.entities, u.commit.Rebuild?, u.Final().names, after.entities)
    ensures EntitiesDrafted(before.store.table + u.Final().c.added, u.Final().c.next, u.Final().names.entities)
  {
  }

  lemma HousedByTelling(before: G.Image, u: Update, after: G.Image)
    requires u.Drafted() && u.Final().c.full == u.commit.Rebuild?
    requires EntitiesPublished(before.entities, u.commit.Rebuild?, u.Final().names, after.entities)
    requires EntitiesDrafted(before.store.table + u.Final().c.added, u.Final().c.next, u.Final().names.entities)
    requires forall id: nat :: Told(before, u.Final(), u, |u.ops|, id)
    ensures AllHoused(before, u.Final()) <==>
              forall e <- after.entities :: e.Live() && e.kind.AggregateType? ==> !Buried(u, |u.ops|, e.slot)
  {
    var d := u.Final();
    forall id: nat
      ensures Housed(before, d, id) <==>
                (id < |after.entities| && after.entities[id].Live() && after.entities[id].kind.AggregateType? ==>
                  !Buried(u, |u.ops|, after.entities[id].slot))
    {
      EntityPublished(before, u, after, id);
      assert Told(before, d, u, |u.ops|, id);
      hide Buried, EntitySeen, KindSeen, EntitiesPublished, EntitiesDrafted;
    }
    hide Buried, Housed, EntitiesPublished, EntitiesDrafted, Told;
    if AllHoused(before, d) {
      forall e <- after.entities | e.Live() && e.kind.AggregateType?
        ensures !Buried(u, |u.ops|, e.slot)
      {
        var id: nat :| id < |after.entities| && after.entities[id] == e;
        assert Housed(before, d, id);
      }
    } else {
      var id: nat :| !Housed(before, d, id);
      assert after.entities[id] in after.entities;
    }
  }

  // ----- The slots that a commit leaves -----

  ghost predicate Leaves(v: S.Update, p: S.Slots) {
    && |v.claimed| <= |v.base.free| && v.next > 0 && (forall h <- v.changed :: h in v.kinds)
    && p == if v.full then S.Rebuilt(v) else S.Published(v)
  }

  /** Entities are found under their final identities. */
  ghost predicate Renamed(base: nat, u: Update, p: S.Slots, s': S.Slots) {
    if u.ops != [] && u.ops[|u.ops| - 1].Renumber? then
      && s' == p.(entities := s'.entities)
      && N.Permuted(p.entities, base, u.ops[|u.ops| - 1].remap, s'.entities)
    else s' == p
  }

  ghost predicate SlotsAfter(before: G.Image, u: Update, v: S.Update, s': S.Slots) {
    exists p :: Leaves(v, p) && Renamed(before.nextStableId, u, p, s')
  }

  lemma LeavesSees(v: S.Update, p: S.Slots, id: nat)
    requires Leaves(v, p)
    ensures S.Held(p, S.Entity(id)) == S.HeldNow(v, S.Entity(id))
  {
  }

  lemma LeavesLive(v: S.Update, p: S.Slots, h: nat)
    requires Leaves(v, p)
    ensures S.Live(p, h) <==> 0 < h < v.next && S.LiveNow(v, h)
  {
    if v.full {
      S.RebuiltLive(v, h);
    } else if 0 < h < v.next {
      assert S.Published(v).types[h - 1] == S.LiveNow(v, h);
    }
  }

  lemma LiveIsSeen(before: G.Image, d: Draft, v: S.Update, h: nat)
    requires Linked(before, d, v)
    ensures 0 < h < v.next && S.LiveNow(v, h) <==> KindSeen(before.store.types, d.c, h).Some?
  {
    hide EntitiesLinked, S.Live;
    assert h in v.kinds.Keys <==> h in d.c.changes.Keys;
    if h !in v.kinds {
      EmptyStart(v, h);
    }
  }

  lemma EmptyStart(v: S.Update, h: nat)
    requires h !in v.kinds
    ensures S.LiveNow(v, h) <==> !v.full && S.Live(v.base, h)
  {
  }

  lemma StepCounts(s: Store, commit: H.Commit, s': Store)
    requires H.Step(s, commit, s')
    ensures |s'.types| == commit.candidate.next - 1
    ensures commit.Incremental? ==> Contained(commit.candidate)
  {
    hide Store.Valid, CandidateValid, InClosure, SlotPasses, EverySlotPasses, Sourced;
  }

  /** The committed slots are those of the committed Graph. */
  lemma LeavesSlots(before: G.Image, d: Draft, u: Update, v: S.Update, p: S.Slots, after: G.Image)
    requires Committed(before, u, after) && DraftValid(before, u.spelling, u.Final())
    requires Linked(before, d, v) && Leaves(v, p) && d.c == u.Final().c
    ensures |p.types| == |after.store.types|
    ensures forall h: nat :: S.Live(p, h) <==> LiveSlot(after.store.types, h)
  {
    StepCounts(before.store, u.commit, after.store);
    var c := u.commit.candidate;
    assert c.next == u.Final().c.next;
    hide H.Step, ResolvedFrom, EntitiesPublished, IdentityPublished, G.Representable, DraftValid, Drafting, SlotsLive;
    assert |p.types| == v.next - 1;
    hide Leaves, Linked, S.Live;
    LinkedParts(before, d, v);
    forall h: nat
      ensures S.Live(p, h) <==> LiveSlot(after.store.types, h)
    {
      LeavesLive(v, p, h);
      LiveIsSeen(before, d, v, h);
      KindPublished(before.store, u.Final(), u, after.store, h);
    }
  }

  /** Renaming moves the slots along with the identities. */
  lemma RenamedHeld(base: nat, remap: seq<nat>, p: S.Slots, s': S.Slots, x: nat)
    requires s' == p.(entities := s'.entities) && N.Permuted(p.entities, base, remap, s'.entities)
    ensures S.Held(s', S.Entity(N.Mapped(base, remap, x))) == S.Held(p, S.Entity(x))
  {
    if base <= x < base + |remap| {
      assert base + (x - base) == x;
    }
  }

  /** The owner that was renamed to this one. */
  lemma RenamedOwner(base: nat, remap: seq<nat>, p: S.Slots, s': S.Slots, o: S.Owner) returns (q: S.Owner)
    requires s' == p.(entities := s'.entities) && N.Permuted(p.entities, base, remap, s'.entities) && N.IsRemap(base, remap)
    ensures S.Held(s', o) == S.Held(p, q) && o == Renaming(base, remap, q)
  {
    match o
    case Entity(id) =>
      var x := N.Unmapped(base, remap, id);
      RenamedHeld(base, remap, p, s', x);
      q := S.Entity(x);
    case Anonymous(_, _) =>
      q := o;
  }

  function Renaming(base: nat, remap: seq<nat>, o: S.Owner): S.Owner {
    match o
    case Entity(id) => S.Entity(N.Mapped(base, remap, id))
    case Anonymous(_, _) => o
  }

  lemma RenamedBack(base: nat, remap: seq<nat>, p: S.Slots, s': S.Slots, q: S.Owner)
    requires s' == p.(entities := s'.entities) && N.Permuted(p.entities, base, remap, s'.entities)
    ensures S.Held(s', Renaming(base, remap, q)) == S.Held(p, q)
  {
    match q
    case Entity(id) => RenamedHeld(base, remap, p, s', id);
    case Anonymous(_, _) =>
  }

  lemma RenamedValid(base: nat, remap: seq<nat>, p: S.Slots, s': S.Slots)
    requires s' == p.(entities := s'.entities) && N.Permuted(p.entities, base, remap, s'.entities) && N.IsRemap(base, remap)
    requires S.SlotsValid(p)
    ensures S.SlotsValid(s')
  {
    hide N.Permuted, N.IsRemap, S.Held, NoDuplicates;
    assert forall h :: S.Live(s', h) <==> S.Live(p, h);
    hide S.Live;
    forall o
      ensures S.Held(s', o) != 0 ==> S.Live(s', S.Held(s', o))
    {
      var q := RenamedOwner(base, remap, p, s', o);
    }
    forall o, o' | S.Held(s', o) == S.Held(s', o') != 0
      ensures o == o'
    {
      var q := RenamedOwner(base, remap, p, s', o);
      var q' := RenamedOwner(base, remap, p, s', o');
      assert q == q';
    }
    forall h | S.Live(s', h)
      ensures exists o :: S.Held(s', o) == h
    {
      var q :| S.Held(p, q) == h;
      RenamedBack(base, remap, p, s', q);
    }
  }

  lemma RenamedAnchored(base: nat, remap: seq<nat>, p: S.Slots, s': S.Slots)
    requires s' == p.(entities := s'.entities) && N.Permuted(p.entities, base, remap, s'.entities) && N.IsRemap(base, remap)
    requires S.Anchored(p)
    ensures S.Anchored(s') && (S.Bounded(s') <==> S.Bounded(p))
  {
    forall id <- s'.entities
      ensures s'.entities[id] <= |s'.types|
    {
      var x := N.Unmapped(base, remap, id);
      RenamedHeld(base, remap, p, s', x);
    }
  }

  /** What one commit makes of the slots, however they were before. */
  lemma CommitSlots(before: G.Image, s: S.Slots, u: Update, vs: seq<S.Update>, after: G.Image, s': S.Slots)
    requires Settled(before) && Committed(before, u, after)
    requires StartsFrom(before, s, u.commit.Rebuild?) && Allocated(before, s, u, vs)
    requires SlotsAfter(before, u, vs[|u.ops|], s') && s'.free == after.free
    ensures SlotsOf(after, s') && S.Anchored(s')
    ensures !u.commit.Rebuild? && S.SlotsValid(s) ==> S.SlotsValid(s')
    ensures !u.commit.Rebuild? && S.Bounded(s) ==> S.Bounded(s')
    ensures u.commit.Rebuild? && vs[|u.ops|].claimed == [] ==> S.SlotsValid(s')
    ensures u.commit.Rebuild? && (forall h <- vs[|u.ops|].claimed :: h < vs[|u.ops|].next) ==> S.Bounded(s')
  {
    hide Settled, S.Books, Linked, StartsFrom, KindsLinked, Leaves, SlotsOf, S.SlotsValid, S.Anchored, S.Bounded, Chooses, Does;
    hide H.Step, ResolvedFrom, EntitiesPublished, IdentityPublished, G.Representable, SlotsLive, N.Interned, S.Inside, N.Permuted;
    AllocatedSizes(before, s, u, vs);
    assert u.Drafted() && Drafting(before, u.spelling, u.commit.Rebuild?, u.drafts, u.ops);
    hide Drafting, Allocated;
    var v := vs[|u.ops|];
    var issued, takers := FinalLinked(before, s, u, vs);
    var p :| Leaves(v, p) && Renamed(before.nextStableId, u, p, s');
    LastOp(before, s, u, vs);
    LeavesBooks(before, u, v, p, after, issued, takers);
    SlotsFollow(before, u, v, p, after, s');
  }

  lemma SlotsFollow(before: G.Image, u: Update, v: S.Update, p: S.Slots, after: G.Image, s': S.Slots)
    requires Settled(before) && Committed(before, u, after) && u.Drafted()
    requires var n := |u.ops|;
             if n > 0 && u.ops[n - 1].Renumber?
             then Linked(before, u.drafts[n - 1], v) && u.drafts[n - 1].c == u.Final().c
                  && Does(before, u.spelling, u.drafts[n - 1], u.ops[n - 1], u.Final())
             else Linked(before, u.Final(), v)
    requires Leaves(v, p) && Renamed(before.nextStableId, u, p, s') && s'.free == after.free && S.Anchored(p)
    ensures SlotsOf(after, s') && S.Anchored(s') && (S.SlotsValid(p) ==> S.SlotsValid(s')) && (S.Bounded(p) ==> S.Bounded(s'))
  {
    hide Settled, Linked, Leaves, SlotsOf, S.SlotsValid, S.Anchored, S.Bounded, DraftValid, EntitiesPublished, N.Permuted;
    hide H.Step, ResolvedFrom, IdentityPublished, G.Representable, SlotsLive, N.Interned;
    CommitSettles(before, u, after);
    SettledParts(before);
    var n := |u.ops|;
    if n > 0 && u.ops[n - 1].Renumber? {
      DraftingKeeps(before, u.spelling, u.commit.Rebuild?, u.drafts, u.ops, n - 1);
      var op := u.ops[n - 1];
      assert N.IsRemap(before.nextStableId, op.remap);
      hide Committed, Does, N.IsRemap;
      RenumberedSlots(before, u, v, p, after, s');
      RenamedAnchored(before.nextStableId, op.remap, p, s');
      if S.SlotsValid(p) {
        RenamedValid(before.nextStableId, op.remap, p, s');
      }
    } else {
      hide Committed;
      PlainSlots(before, u, v, p, after, s');
    }
  }

  lemma AllocatedSizes(before: G.Image, s: S.Slots, u: Update, vs: seq<S.Update>)
    requires Allocated(before, s, u, vs)
    ensures |vs| == |u.drafts| == |u.ops| + 1
  {
  }

  lemma LeavesBooks(before: G.Image, u: Update, v: S.Update, p: S.Slots, after: G.Image, issued: seq<S.Owner>,
                    takers: seq<S.Owner>)
    requires u.Drafted() && Committed(before, u, after) && KindsLinked(u.Final().c, v) && v.next == u.Final().c.next
    requires S.Books(v, issued, takers) && v.full == u.commit.Rebuild? && Leaves(v, p)
    ensures S.Anchored(p)
    ensures !v.full && S.SlotsValid(v.base) ==> S.SlotsValid(p)
    ensures !v.full && S.Bounded(v.base) ==> S.Bounded(p)
    ensures v.full && v.claimed == [] ==> S.SlotsValid(p)
    ensures v.full && (forall h <- v.claimed :: h < v.next) ==> S.Bounded(p)
  {
    hide S.Books, S.Anchored, S.Bounded, S.SlotsValid, KindsLinked, Drafting, EntitiesPublished, IdentityPublished, SlotsLive;
    hide G.Representable, N.Interned, H.Step, ResolvedFrom, S.Rebuilt, S.Published, S.Inside, Contained;
    if v.full {
      S.RebuiltBooks(v, issued, takers);
    } else {
      StepCounts(before.store, u.commit, after.store);
      ResolvedKinds(before.store, u.Final().c, u.commit.candidate, u.entityTypes);
      SameContained(u.Final().c, u.commit.candidate);
      ContainedIff(u.Final().c, v);
      S.PublishedBooks(v, issued, takers);
    }
  }

  lemma SameContained(c: Candidate, c': Candidate)
    requires c'.next == c.next && c'.changes.Keys == c.changes.Keys && Contained(c')
    ensures Contained(c)
  {
    assert forall h :: h in c.changes.Keys <==> h in c'.changes.Keys;
  }

  ghost predicate EntitiesHeld(after: G.Image, s: S.Slots) {
    forall id: nat :: S.Held(s, S.Entity(id)) ==
      if id < |after.entities| && after.entities[id].Live() then after.entities[id].slot else 0
  }

  lemma PlainEntities(before: G.Image, u: Update, v: S.Update, p: S.Slots, after: G.Image)
    requires u.Drafted() && u.Final().c.full == u.commit.Rebuild?
    requires EntitiesPublished(before.entities, u.commit.Rebuild?, u.Final().names, after.entities)
    requires EntitiesDrafted(before.store.table + u.Final().c.added, u.Final().c.next, u.Final().names.entities)
    requires EntitiesLinked(before, u.Final(), v) && Leaves(v, p)
    ensures EntitiesHeld(after, p)
  {
    hide Leaves, EntitiesPublished, EntitiesDrafted, EntitySeen, S.Held, S.HeldNow;
    forall id: nat
      ensures S.Held(p, S.Entity(id)) == if id < |after.entities| && after.entities[id].Live() then after.entities[id].slot else 0
    {
      LeavesSees(v, p, id);
      EntityPublished(before, u, after, id);
      assert S.HeldNow(v, S.Entity(id)) == SlotSeen(before, u.Final(), id);
    }
  }

  lemma PlainSlots(before: G.Image, u: Update, v: S.Update, p: S.Slots, after: G.Image, s': S.Slots)
    requires u.Drafted() && Committed(before, u, after) && DraftValid(before, u.spelling, u.Final())
    requires Linked(before, u.Final(), v) && Leaves(v, p) && s' == p && s'.free == after.free
    ensures SlotsOf(after, s')
  {
    hide DraftValid, Linked, Leaves, S.Live, EntitiesPublished, EntitiesDrafted, Drafting, H.Step, ResolvedFrom, S.Held, N.Interned;
    hide IdentityPublished, SlotsLive, G.Representable;
    LeavesSlots(before, u.Final(), u, v, p, after);
    EntitiesOf(before, u, after);
    FullOf(before, u, after);
    LinkedParts(before, u.Final(), v);
    hide Committed;
    PlainEntities(before, u, v, p, after);
  }

  lemma RenumberedEntities(before: G.Image, u: Update, d: Draft, v: S.Update, p: S.Slots, after: G.Image, s': S.Slots,
                           list: seq<N.Name>, remap: seq<nat>)
    requires u.Drafted() && u.Final().c.full == u.commit.Rebuild?
    requires EntitiesPublished(before.entities, u.commit.Rebuild?, u.Final().names, after.entities)
    requires EntitiesDrafted(before.store.table + u.Final().c.added, u.Final().c.next, u.Final().names.entities)
    requires DraftValid(before, u.spelling, d) && Does(before, u.spelling, d, Renumber(list, remap), u.Final())
    requires EntitiesLinked(before, d, v) && Leaves(v, p)
    requires s' == p.(entities := s'.entities) && N.Permuted(p.entities, before.nextStableId, remap, s'.entities)
    ensures EntitiesHeld(after, s')
  {
    hide Leaves, EntitiesPublished, EntitiesDrafted, EntitySeen, DraftValid, Does, N.Permuted, S.Held, S.HeldNow;
    forall id: nat
      ensures S.Held(s', S.Entity(id)) == if id < |after.entities| && after.entities[id].Live() then after.entities[id].slot else 0
    {
      var x := RenumberSeen(before, u.spelling, d, list, remap, u.Final(), id);
      RenamedHeld(before.nextStableId, remap, p, s', x);
      LeavesSees(v, p, x);
      EntityPublished(before, u, after, id);
      assert S.HeldNow(v, S.Entity(x)) == SlotSeen(before, d, x);
    }
  }

  lemma RenumberedSlots(before: G.Image, u: Update, v: S.Update, p: S.Slots, after: G.Image, s': S.Slots)
    requires u.Drafted() && Committed(before, u, after) && DraftValid(before, u.spelling, u.Final())
    requires u.ops != [] && u.ops[|u.ops| - 1].Renumber?
    requires var d := u.drafts[|u.ops| - 1];
             && DraftValid(before, u.spelling, d) && Linked(before, d, v) && d.c == u.Final().c
             && Does(before, u.spelling, d, u.ops[|u.ops| - 1], u.Final())
    requires Leaves(v, p) && Renamed(before.nextStableId, u, p, s') && s'.free == after.free
    ensures SlotsOf(after, s')
  {
    hide DraftValid, Linked, Leaves, EntitiesPublished, EntitiesDrafted, Drafting, H.Step, ResolvedFrom, S.Held, N.Interned, Does;
    hide IdentityPublished, SlotsLive, G.Representable, N.Permuted, KindsLinked, EntitiesLinked;
    var n := |u.ops|;
    var d, op := u.drafts[n - 1], u.ops[n - 1];
    LeavesSlots(before, d, u, v, p, after);
    EntitiesOf(before, u, after);
    FullOf(before, u, after);
    LinkedParts(before, d, v);
    hide Committed;
    SameLive(p, s');
    hide S.Live;
    RenumberedEntities(before, u, d, v, p, after, s', op.list, op.remap);
    SlotsBy(after, p, s');
  }

  lemma SameLive(p: S.Slots, s': S.Slots)
    requires s' == p.(entities := s'.entities)
    ensures |s'.types| == |p.types| && forall h: nat :: S.Live(s', h) <==> S.Live(p, h)
  {
  }

  lemma SlotsBy(after: G.Image, p: S.Slots, s': S.Slots)
    requires EntitiesHeld(after, s') && s'.free == after.free && |s'.types| == |after.store.types|
    requires forall h: nat :: S.Live(s', h) <==> LiveSlot(after.store.types, h)
    ensures SlotsOf(after, s')
  {
    hide S.Held, S.Live;
  }

  // ----- Whole histories -----

  /** What a reload leaves of the slots: the free list and the table, but no word of the enums. */
  predicate Forgotten(after: G.Image, s': S.Slots) {
    s'.free == after.free && |s'.types| == |after.store.types| && s'.entities == map[] && s'.anonymous == map[]
  }

  /** One committed build or reload. `ready` says that the contributions of all Sources are known;
  without them the next build is a rebuild. */
  ghost predicate SlotStep(before: G.Image, s: S.Slots, ready: bool, event: Event, vs: seq<S.Update>, after: G.Image,
                           s': S.Slots, ready': bool) {
    match event
    case Publish(u) =>
      && Committed(before, u, after) && Allocated(before, s, u, vs) && (u.commit.Rebuild? || ready) && ready'
      && SlotsAfter(before, u, vs[|u.ops|], s') && s'.free == after.free
    case Reload => Reloaded(before, after) && Forgotten(after, s') && !ready'
  }

  /** Any sequence of builds, each with slots from the allocator, and of reloads, from a new Graph. */
  ghost predicate SlotRun(images: seq<G.Image>, slots: seq<S.Slots>, ready: seq<bool>, events: seq<Event>,
                          works: seq<seq<S.Update>>) {
    && |images| == |slots| == |ready| == |events| + 1 && |works| == |events|
    && C.Supported(images[0].abi) && images[0] == Fresh(images[0].abi) && slots[0] == S.Slots([], [], map[], map[]) && ready[0]
    && forall i: nat :: i < |events| ==>
         SlotStep(images[i], slots[i], ready[i], events[i], works[i], images[i + 1], slots[i + 1], ready[i + 1])
  }

  /** What a rebuild draws from the old free list lies below its final counter. */
  ghost predicate DrawsBelow(event: Event, vs: seq<S.Update>) {
    event.Publish? && event.update.commit.Rebuild? && vs != [] ==> ClaimsBelow(vs[|vs| - 1])
  }

  ghost predicate ClaimsBelow(v: S.Update) {
    forall h <- v.claimed :: h < v.next
  }

  /** A rebuild draws nothing from the old free list. */
  ghost predicate DrawsNothing(event: Event, vs: seq<S.Update>) {
    event.Publish? && event.update.commit.Rebuild? && vs != [] ==> vs[|vs| - 1].claimed == []
  }

  /** It does so exactly when the list is empty or it holds no anonymous enum. */
  lemma {:induction false} DrawsNothingIff(before: G.Image, s: S.Slots, u: Update, vs: seq<S.Update>, n: nat)
    requires StartsFrom(before, s, u.commit.Rebuild?) && Allocated(before, s, u, vs) && n < |vs|
    requires Drafting(before, u.spelling, u.commit.Rebuild?, u.drafts, u.ops) && u.commit.Rebuild?
    ensures vs[n].claimed == [] <==> before.free == [] || forall i: nat :: i < n ==> !u.ops[i].Anonymous?
    decreases n
  {
    hide S.Books, Linked, Chooses, Does, StartsFrom;
    if n > 0 {
      DrawsNothingIff(before, s, u, vs, n - 1);
      var issued, takers := AllocatedSteps(before, s, u, vs, n - 1);
      assert Chooses(before, u.drafts[n - 1], vs[n - 1], u.ops[n - 1], vs[n - 1 + 1]);
      ClaimsByOp(before, s, u.drafts[n - 1], vs[n - 1], u.ops[n - 1], vs[n], issued, takers);
      FreeOf(before, s);
    }
  }

  lemma FreeOf(before: G.Image, s: S.Slots)
    requires StartsFrom(before, s, true)
    ensures s.free == before.free
  {
  }

  lemma ClaimsByOp(before: G.Image, s: S.Slots, d: Draft, v: S.Update, op: Op, v': S.Update, issued: seq<S.Owner>,
                   takers: seq<S.Owner>)
    requires S.Books(v, issued, takers) && v.full && v.base == s && Chooses(before, d, v, op, v')
    ensures v'.claimed == [] <==> v.claimed == [] && !(op.Anonymous? && s.free != [])
  {
    hide S.Books, S.Assigned, S.Tombstoned, S.Cleared, S.Pushed, S.HeldNow, IdFor, EntitySeen;
    match op {
      case Declare(entity, _) =>
        var _ := S.AssignedBooks(v, IdFor(before, d, entity.name), issued, takers);
      case Anonymous(_, _, _) =>
        var source :| source in v.anonymous && v' == S.Pushed(v, source);
        var _, _ := S.PushedBooks(v, source, issued, takers);
      case Release(slots) =>
        var source :| Gives(v, source, slots, v');
        S.ClearedFields(v, source);
      case Define(_, _) =>
      case Refer(_) =>
      case Renumber(_, _) =>
    }
  }

  /** Slots and Graph stay together over every such history. */
  ghost predicate Together(image: G.Image, s: S.Slots, ready: bool) {
    && Settled(image) && S.Anchored(s) && s.free == image.free && (ready ==> SlotsOf(image, s))
  }

  lemma ForgottenAnchored(before: G.Image, after: G.Image, s': S.Slots)
    requires Reloaded(before, after) && Forgotten(after, s')
    ensures S.Bounded(s')
  {
    hide G.Acceptable, G.ImageValid;
  }

  lemma NoSlots()
    ensures S.SlotsValid(S.Slots([], [], map[], map[]))
  {
    var s := S.Slots([], [], map[], map[]);
    assert forall o :: S.Held(s, o) == 0;
    assert forall h :: !S.Live(s, h);
  }

  lemma FreshTogether(abi: C.Abi)
    requires C.Supported(abi)
    ensures Together(Fresh(abi), S.Slots([], [], map[], map[]), true) && S.SlotsValid(S.Slots([], [], map[], map[]))
    ensures G.EntitiesHoused(Fresh(abi))
  {
    hide Settled, S.SlotsValid;
    NoSlots();
    FreshSettled(abi);
  }

  /** Such a history is one of the histories of commits and reloads. */
  lemma RunIsHistory(images: seq<G.Image>, slots: seq<S.Slots>, ready: seq<bool>, events: seq<Event>,
                     works: seq<seq<S.Update>>)
    requires SlotRun(images, slots, ready, events, works)
    ensures History(images, events)
  {
    hide Committed, Reloaded, Allocated, SlotsAfter, Forgotten, Fresh;
    forall i: nat | i < |events|
      ensures Happens(images[i], events[i], images[i + 1])
    {
      assert SlotStep(images[i], slots[i], ready[i], events[i], works[i], images[i + 1], slots[i + 1], ready[i + 1]);
    }
  }

  lemma StepTogether(before: G.Image, s: S.Slots, ready: bool, event: Event, vs: seq<S.Update>, after: G.Image,
                     s': S.Slots, ready': bool)
    requires Together(before, s, ready) && SlotStep(before, s, ready, event, vs, after, s', ready')
    ensures Together(after, s', ready')
    ensures ready' && DrawsBelow(event, vs) && (ready ==> S.Bounded(s)) ==> S.Bounded(s')
    ensures ready' && DrawsNothing(event, vs) && (ready ==> S.SlotsValid(s)) ==> S.SlotsValid(s')
  {
    hide Settled, S.Anchored, S.Bounded, S.SlotsValid, SlotsOf, Committed, Reloaded, Allocated, SlotsAfter;
    match event {
      case Publish(u) =>
        AllocatedSizes(before, s, u, vs);
        CommitSettles(before, u, after);
        CommitSlots(before, s, u, vs, after, s');
      case Reload =>
        ReloadSettles(before, after);
        ForgottenAnchored(before, after, s');
        R.BoundedIsAnchored(s');
    }
  }

  lemma {:induction false} RunTogether(images: seq<G.Image>, slots: seq<S.Slots>, ready: seq<bool>, events: seq<Event>,
                                       works: seq<seq<S.Update>>, i: nat)
    requires SlotRun(images, slots, ready, events, works) && i < |images|
    ensures Together(images[i], slots[i], ready[i])
    ensures (forall k: nat :: k < |events| ==> DrawsBelow(events[k], works[k])) ==> (ready[i] ==> S.Bounded(slots[i]))
    ensures (forall k: nat :: k < |events| ==> DrawsNothing(events[k], works[k])) ==> (ready[i] ==> S.SlotsValid(slots[i]))
  {
    hide Together, SlotStep, S.Bounded, S.SlotsValid, Fresh, DrawsBelow, DrawsNothing;
    if i == 0 {
      FreshTogether(images[0].abi);
      S.ValidIsAnchored(slots[0]);
    } else {
      RunTogether(images, slots, ready, events, works, i - 1);
      assert SlotStep(images[i - 1], slots[i - 1], ready[i - 1], events[i - 1], works[i - 1], images[i - 1 + 1],
                      slots[i - 1 + 1], ready[i - 1 + 1]);
      StepTogether(images[i - 1], slots[i - 1], ready[i - 1], events[i - 1], works[i - 1], images[i], slots[i], ready[i]);
    }
  }

  /** In a history whose rebuilds draw no slot at or above their own final counters, every increment
  that can be drafted next stays inside its table. */
  lemma NothingLost(images: seq<G.Image>, slots: seq<S.Slots>, ready: seq<bool>, events: seq<Event>,
                    works: seq<seq<S.Update>>, i: nat, u: Update, vs: seq<S.Update>)
    requires SlotRun(images, slots, ready, events, works) && i < |images| && ready[i]
    requires forall k: nat :: k < |events| ==> DrawsBelow(events[k], works[k])
    requires Allocated(images[i], slots[i], u, vs) && !u.commit.Rebuild?
    requires Drafting(images[i], u.spelling, false, u.drafts, u.ops)
    ensures Contained(u.Final().c)
  {
    assert u.Drafted();
    hide SlotRun, Allocated, Drafting, S.Bounded, S.SlotsValid, DrawsBelow, Contained;
    RunTogether(images, slots, ready, events, works, i);
    hide Settled, SlotsOf, S.Anchored;
    IncrementContained(images[i], slots[i], u, vs);
  }

  /** In a history whose rebuilds draw nothing from the old free list, every entity keeps its home,
  and every state can be saved and loaded as soon as there is an entity table. */
  lemma {:induction false} EverythingLoads(images: seq<G.Image>, slots: seq<S.Slots>, ready: seq<bool>, events: seq<Event>,
                                           works: seq<seq<S.Update>>, i: nat)
    requires SlotRun(images, slots, ready, events, works) && i < |images|
    requires forall k: nat :: k < |events| ==> DrawsNothing(events[k], works[k])
    ensures G.EntitiesHoused(images[i])
    ensures G.Acceptable(G.Exported(images[i])) <==> images[i].entities != []
  {
    hide Together, SlotStep, S.Bounded, S.SlotsValid, Fresh, DrawsBelow, DrawsNothing, G.EntitiesHoused, G.Acceptable, G.Exported;
    RunTogether(images, slots, ready, events, works, i);
    TogetherSound(images[i], slots[i], ready[i]);
    G.ExportAcceptable(images[i]);
    if i == 0 {
      FreshTogether(images[0].abi);
    } else {
      EverythingLoads(images, slots, ready, events, works, i - 1);
      RunTogether(images, slots, ready, events, works, i - 1);
      assert SlotStep(images[i - 1], slots[i - 1], ready[i - 1], events[i - 1], works[i - 1], images[i - 1 + 1],
                      slots[i - 1 + 1], ready[i - 1 + 1]);
      StepHouses(images[i - 1], slots[i - 1], ready[i - 1], events[i - 1], works[i - 1], images[i], slots[i], ready[i]);
    }
  }

  lemma TogetherSound(image: G.Image, s: S.Slots, ready: bool)
    requires Together(image, s, ready)
    ensures G.ImageSound(image)
  {
  }

  lemma StepHouses(before: G.Image, s: S.Slots, ready: bool, event: Event, vs: seq<S.Update>, after: G.Image,
                   s': S.Slots, ready': bool)
    requires Together(before, s, ready) && SlotStep(before, s, ready, event, vs, after, s', ready')
    requires G.EntitiesHoused(before) && DrawsNothing(event, vs) && (ready ==> S.SlotsValid(s))
    ensures G.EntitiesHoused(after)
  {
    hide Settled, S.Anchored, S.SlotsValid, SlotsOf, Reloaded, SlotsAfter, G.EntitiesHoused, Considerate;
    match event {
      case Publish(u) =>
        assert Drafting(before, u.spelling, u.commit.Rebuild?, u.drafts, u.ops);
        hide Committed, Drafting;
        AllocatedSizes(before, s, u, vs);
        hide Allocated;
        AllocatedConsiderate(before, s, u, vs);
        ConsiderateCommit(before, u, after);
      case Reload =>
        ReloadHoused(before, after);
    }
  }
}
