/** The allocator of type slots as the update performs it: fields that are edited in place,
each method tied to its function in `TypeSlots`.
 */
module SlotUpdates {
  import opened Collections
  import opened TypeSlots

  // ----- The allocator -----

  class SlotStore {
    var types: seq<bool>
    var free: seq<nat>
    var entities: map<nat, nat>
    var anonymous: map<nat, seq<nat>>

    function Value(): Slots
      reads this
    {
      Slots(types, free, entities, anonymous)
    }

    constructor ()
      ensures SlotsValid(Value())
    {
      types, free, entities, anonymous := [], [], map[], map[];
    }
  }

  /** begin_source_replacement marks the old anonymous enums one by one. */
  method MarkRemoved(ghost u: Update, kinds: map<nat, Kind>, changed: seq<nat>, handles: seq<nat>)
    returns (kinds': map<nat, Kind>, changed': seq<nat>)
    requires kinds == u.kinds && changed == u.changed
    ensures kinds' == MarkAll(u, handles).kinds && changed' == MarkAll(u, handles).changed
  {
    kinds', changed' := kinds, changed;
    for i := 0 to |handles|
      invariant kinds' == MarkAll(u, handles[..i]).kinds && changed' == MarkAll(u, handles[..i]).changed
    {
      TakeNext(handles, i);
      assert handles[..i + 1][..i] == handles[..i];
      kinds' := kinds'[handles[i] := Removed];
      changed' := PushNew(changed', handles[i]);
    }
    TakeAll(handles);
  }

  /** The publication loop over the touched slots. */
  method PublishTouched(oldTypes: seq<bool>, kept: seq<nat>, kinds: map<nat, Kind>, changed: seq<nat>, next: nat)
    returns (types: seq<bool>, free: seq<nat>)
    requires |oldTypes| < next
    requires forall h <- changed :: h in kinds && 0 < h < next
    ensures |types| == next - 1
    ensures forall i: nat :: i < |types| ==>
              types[i] == if i + 1 in changed then kinds[i + 1] == Replacement else i < |oldTypes| && oldTypes[i]
    ensures free == kept + RemovedOf(changed, kinds)
  {
    hide NoDuplicates, SetOf;
    free := kept;
    types := oldTypes + seq(next - 1 - |oldTypes|, i => false);
    for n := 0 to |changed|
      invariant |types| == next - 1
      invariant forall i: nat :: i < |types| ==>
                  types[i] == if i + 1 in changed[..n] then kinds[i + 1] == Replacement else i < |oldTypes| && oldTypes[i]
      invariant free == kept + RemovedOf(changed[..n], kinds)
    {
      TakeNext(changed, n);
      assert changed[n] in changed;
      assert changed[..n + 1][..n] == changed[..n];
      if kinds[changed[n]] == Replacement {
        types := types[changed[n] - 1 := true];
      } else {
        types := types[changed[n] - 1 := false];
        free := free + [changed[n]];
      }
    }
    TakeAll(changed);
  }

  lemma FlagsAre(u: Update, types: seq<bool>)
    requires !u.full && u.next > |u.base.types| && |types| == u.next - 1
    requires forall h: nat :: h in u.kinds <==> h in u.changed
    requires forall i: nat :: i < |types| ==>
               types[i] == if i + 1 in u.changed then u.kinds[i + 1] == Replacement else i < |u.base.types| && u.base.types[i]
    ensures types == LiveFlags(u, u.next - 1)
  {
    forall i: nat | i < |types|
      ensures types[i] == LiveFlags(u, u.next - 1)[i]
    {
      assert LiveFlags(u, u.next - 1)[(i + 1) - 1] == LiveNow(u, i + 1);
    }
  }

  /** Claimed slots leave the free list, then the touched slots are published. */
  method PublishSlots(ghost u: Update, oldTypes: seq<bool>, oldFree: seq<nat>, claims: nat,
                      kinds: map<nat, Kind>, changed: seq<nat>, next: nat)
    returns (types: seq<bool>, free: seq<nat>)
    requires Steady(u) && !u.full && Inside(u)
    requires oldTypes == u.base.types && oldFree == u.base.free && claims == |u.claimed|
    requires kinds == u.kinds && changed == u.changed && next == u.next
    ensures types == LiveFlags(u, u.next - 1)
    ensures free == u.base.free[..|u.base.free| - |u.claimed|] + RemovedOf(u.changed, u.kinds)
  {
    hide HoldersSteady, GivesUp, AllTouched, NoDuplicates, LiveFlags, RemovedOf;
    var kept := oldFree;
    for i := 0 to claims
      invariant kept == oldFree[..|oldFree| - i]
    {
      kept := kept[..|kept| - 1];
    }
    types, free := PublishTouched(oldTypes, kept, kinds, changed, next);
    FlagsAre(u, types);
  }

  /** build_rebuild_storage: walks the counter's slots. */
  method RebuildSlots(ghost u: Update, kinds: map<nat, Kind>, next: nat) returns (types: seq<bool>, free: seq<nat>)
    requires u.full && kinds == u.kinds && next == u.next > 0
    ensures types == LiveFlags(u, u.next - 1) && free == RebuiltFree(u, u.next)
  {
    types, free := [], [];
    for h := 1 to next
      invariant types == LiveFlags(u, h - 1) && free == RebuiltFree(u, h)
    {
      if h in kinds && kinds[h] == Replacement {
        types := types + [true];
      } else {
        types, free := types + [false], free + [h];
      }
    }
  }

  /** A slot from the back of the free list, or the counter's next. */
  method ClaimNext(ghost u: Update, free: seq<nat>, claimed: seq<nat>, next: nat)
    returns (handle: nat, claimed': seq<nat>, next': nat)
    requires free == u.base.free && claimed == u.claimed && next == u.next && |claimed| <= |free|
    ensures handle == NextFree(u) && claimed' == Claim(u).claimed && next' == Claim(u).next
  {
    claimed', next' := claimed, next;
    if |claimed| < |free| {
      handle := free[|free| - 1 - |claimed|];
      claimed' := claimed + [handle];
    } else {
      handle := next;
      next' := next + 1;
    }
  }

  method ChooseSlot(ghost u: Update, ghost id: nat, cell: Cell, full: bool, free: seq<nat>, claimed: seq<nat>,
                    next: nat)
    returns (handle: nat, claimed': seq<nat>, next': nat)
    requires cell == Touch(u, id) && full == u.full
    requires free == u.base.free && claimed == u.claimed && next == u.next && |claimed| <= |free|
    ensures handle == Assigned(u, id).entities[id].handle
    ensures claimed' == Assigned(u, id).claimed && next' == Assigned(u, id).next
  {
    hide NextFree, Touch;
    handle, claimed', next' := cell.handle, claimed, next;
    if handle == 0 && !full {
      handle := cell.retained;
    }
    if handle == 0 {
      if full {
        handle := next;
        next' := next + 1;
      } else {
        handle, claimed', next' := ClaimNext(u, free, claimed, next);
      }
    }
  }

  lemma AnonymousIsPushed(u: Update, source: nat)
    requires source in Cleared(u, source).anonymous
    ensures AnonymousAdded(u, source) == Pushed(Cleared(u, source), source)
  {
    hide Cleared, Pushed;
  }

  class SlotUpdate {
    const owner: SlotStore
    const full: bool
    var entities: map<nat, Cell>
    var anonymous: map<nat, seq<nat>>
    var kinds: map<nat, Kind>
    var changed: seq<nat>
    var claimed: seq<nat>
    var next: nat
    /** How many anonymous enums were added, and who received which slot in a rebuild. */
    ghost var added: nat
    ghost var issued: seq<Owner>
    ghost var takers: seq<Owner>

    function Now(): Update
      reads this, owner
    {
      Update(full, owner.Value(), entities, anonymous, kinds, changed, claimed, next)
    }

    /** Whatever was committed, the update is steady; over valid slots it is sound. */
    ghost predicate Valid()
      reads this, owner
    {
      && Books(Now(), issued, takers)
      && (full ==> |claimed| == if added < |owner.free| then added else |owner.free|)
    }

    constructor (store: SlotStore, reconstruct: bool)
      requires Anchored(store.Value())
      ensures Valid() && fresh(this) && owner == store && full == reconstruct && added == 0
      ensures !full ==> forall o :: HeldNow(Now(), o) == Held(store.Value(), o)
    {
      owner, full := store, reconstruct;
      entities, anonymous, kinds, changed, claimed := map[], map[], map[], [], [];
      next := if reconstruct then 1 else |store.types| + 1;
      added, issued, takers := 0, [], [];
      new;
      StartsSteady(Now());
      if !full && SlotsValid(owner.Value()) {
        StartsSound(Now());
      }
    }

    lemma NowIs(v: Update)
      requires v.full == full && v.base == owner.Value() && v.entities == entities && v.anonymous == anonymous
      requires v.kinds == kinds && v.changed == changed && v.claimed == claimed && v.next == next
      ensures Now() == v
    {
    }

    lemma NowFields()
      ensures var v := Now();
              && v.full == full && v.base == owner.Value() && v.entities == entities && v.anonymous == anonymous
              && v.kinds == kinds && v.changed == changed && v.claimed == claimed && v.next == next
              && v.base == Slots(owner.types, owner.free, owner.entities, owner.anonymous)
    {
    }

    lemma BooksAre()
      requires Valid()
      ensures Books(Now(), issued, takers)
      ensures full ==> |claimed| == if added < |owner.free| then added else |owner.free|
      ensures |claimed| <= |owner.free|
    {
      BooksBounded(Now(), issued, takers);
    }

    lemma BooksKept()
      requires Books(Now(), issued, takers)
      requires full ==> |claimed| == if added < |owner.free| then added else |owner.free|
      ensures Valid()
    {
    }

    /** assign_type */
    method AssignType(id: nat) returns (handle: nat)
      requires Valid()
      modifies this
      ensures Valid() && added == old(added)
      ensures Now() == Assigned(old(Now()), id) && handle == HeldNow(Now(), Entity(id))
    {
      hide *;
      ghost var u := Now();
      BooksAre();
      NowFields();
      ghost var more := AssignedBooks(u, id, issued, takers);
      var cell := if id in entities then entities[id]
                  else if full || id !in owner.entities then Cell(0, 0)
                  else Cell(owner.entities[id], owner.entities[id]);
      TouchedCell(u, id, cell);
      var claims, counter;
      handle, claims, counter := ChooseSlot(u, id, cell, full, owner.free, claimed, next);
      AssignedFields(u, id);
      entities := entities[id := Cell(handle, cell.retained)];
      kinds := kinds[handle := Replacement];
      changed := PushNew(changed, handle);
      claimed, next := claims, counter;
      issued := more;
      NowIs(Assigned(u, id));
      EntityHolds(u, Now(), id, Cell(handle, cell.retained));
      BooksKept();
    }

    /** materialize of an entity that nothing declares any more; a rebuild never gets there. */
    method Tombstone(id: nat)
      requires Valid() && !full
      modifies this
      ensures Valid() && Now() == Tombstoned(old(Now()), id)
    {
      hide Books;
      TombstonedBooks(Now(), id, issued, takers);
      var cell := if id in entities then entities[id]
                  else if id !in owner.entities then Cell(0, 0)
                  else Cell(owner.entities[id], owner.entities[id]);
      if cell.handle != 0 {
        kinds := kinds[cell.handle := Removed];
        changed := PushNew(changed, cell.handle);
      }
      entities := entities[id := Cell(0, cell.retained)];
    }

    /** begin_source_replacement, as far as slots are concerned. */
    method ClearSource(source: nat)
      requires Valid()
      modifies this
      ensures Valid() && Now() == Cleared(old(Now()), source)
      ensures added == old(added) && issued == old(issued) && takers == old(takers)
    {
      hide Books;
      ClearedBooks(Now(), source, issued, takers);
      if source in anonymous {
        return;
      }
      ghost var u := Now().(anonymous := anonymous[source := []]);
      var handles: seq<nat> := if full then [] else ListAt(owner.anonymous, source);
      var k, c := MarkRemoved(u, kinds, changed, handles);
      anonymous := anonymous[source := []];
      kinds, changed := k, c;
    }

    /** The rest of add_anonymous_enum, once the Source is being replaced. */
    method PushAnonymous(source: nat) returns (handle: nat)
      requires Valid() && source in anonymous
      modifies this
      ensures Valid() && added == old(added) + 1
      ensures Now() == Pushed(old(Now()), source) && handle == NextFree(old(Now()))
    {
      hide *;
      ghost var v := Now();
      NowFields();
      BooksAre();
      PushedFields(v, source);
      ghost var issued', takers' := PushedBooks(v, source, issued, takers);
      var claims, counter;
      handle, claims, counter := ClaimNext(v, owner.free, claimed, next);
      kinds := kinds[handle := Replacement];
      changed := PushNew(changed, handle);
      anonymous := anonymous[source := anonymous[source] + [handle]];
      claimed, next := claims, counter;
      added, issued, takers := added + 1, issued', takers';
      NowIs(Pushed(v, source));
      BooksKept();
    }

    /** add_anonymous_enum */
    method AddAnonymousEnum(source: nat) returns (handle: nat)
      requires Valid()
      modifies this
      ensures Valid() && added == old(added) + 1
      ensures Now() == AnonymousAdded(old(Now()), source)
      ensures handle == NextFree(Cleared(old(Now()), source))
    {
      hide *;
      ghost var u := Now();
      ClearedHas(u, source);
      ClearSource(source);
      NowFields();
      handle := PushAnonymous(source);
      AnonymousIsPushed(u, source);
    }

    /** publish_prepared: an incremental update that stays inside its table keeps valid slots
    valid; a rebuild leaves them so exactly when the old free list was empty or no anonymous
    enum was added. All its enums lie inside its table exactly when no claimed slot lies at
    or above the final counter, and then so do those of every increment that follows. */
    method Publish()
      requires Valid() && (full || Inside(Now()))
      modifies this, owner
      ensures owner.Value() == if full then Rebuilt(old(Now())) else Published(old(Now()))
      ensures Anchored(owner.Value())
      ensures !full && SlotsValid(old(owner.Value())) ==>
                SlotsValid(owner.Value()) && forall o :: Held(owner.Value(), o) == HeldNow(old(Now()), o)
      ensures full ==> (SlotsValid(owner.Value()) <==> old(owner.free) == [] || added == 0)
      ensures if full then Bounded(owner.Value()) <==> forall h <- old(claimed) :: h < old(next)
              else Bounded(old(owner.Value())) ==> Bounded(owner.Value())
    {
      hide Books, SlotsValid, HeldNow, Held, Bounded, Anchored, Inside;
      ghost var u := Now();
      BooksBounded(u, issued, takers);
      if full {
        RebuiltBooks(u, issued, takers);
        var types, free := RebuildSlots(u, kinds, next);
        owner.types, owner.free := types, free;
        owner.entities := map id | id in entities && entities[id].handle != 0 :: entities[id].handle;
        owner.anonymous := anonymous;
        assert owner.Value() == Rebuilt(u);
      } else {
        PublishedBooks(u, issued, takers);
        var types, free := PublishSlots(u, owner.types, owner.free, |claimed|, kinds, changed, next);
        owner.types, owner.free := types, free;
        owner.entities := PublishedEntities(owner.entities, entities);
        owner.anonymous := owner.anonymous + anonymous;
        assert owner.Value() == Published(u) by { PublishedEntitiesAre(u); }
      }
    }
  }

  /** The committed entities overridden by the touched ones; a tombstone has no slot. */
  function PublishedEntities(base: map<nat, nat>, touched: map<nat, Cell>): map<nat, nat> {
    map id | id in base.Keys + touched.Keys && (if id in touched then touched[id].handle else base[id]) != 0
      :: if id in touched then touched[id].handle else base[id]
  }

  lemma PublishedEntitiesAre(u: Update)
    requires !u.full
    ensures Overridden(u) == PublishedEntities(u.base.entities, u.entities)
  {
  }

  lemma TouchedCell(u: Update, id: nat, cell: Cell)
    requires cell == if id in u.entities then u.entities[id]
                     else if u.full || id !in u.base.entities then Cell(0, 0)
                     else Cell(u.base.entities[id], u.base.entities[id])
    ensures cell == Touch(u, id)
  {
  }
}
