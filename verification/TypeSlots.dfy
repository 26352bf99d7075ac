/** The allocator of type slots.

A Graph stores its user types in numbered slots and recycles the numbers. Every
live slot has exactly one owner: one named entity, or one place in one Source's
list of anonymous enums. The free list is exactly the set of empty slots. An
incremental update keeps both; a rebuild keeps them exactly when no anonymous
enum takes a slot from the free list of the old generation.
 */
module TypeSlots {
  import opened Collections

  datatype Owner =
    | Entity(id: nat)
    | Anonymous(source: nat, index: nat)

  datatype Slots = Slots(types: seq<bool>, free: seq<nat>, entities: map<nat, nat>, anonymous: map<nat, seq<nat>>)

  function ListAt(lists: map<nat, seq<nat>>, source: nat): seq<nat> {
    if source in lists then lists[source] else []
  }

  predicate Live(s: Slots, handle: nat) {
    0 < handle <= |s.types| && s.types[handle - 1]
  }

  /** The slot that an owner holds, or zero. */
  function Held(s: Slots, o: Owner): nat {
    match o
    case Entity(id) => if id in s.entities then s.entities[id] else 0
    case Anonymous(source, index) =>
      if index < |ListAt(s.anonymous, source)| then ListAt(s.anonymous, source)[index] else 0
  }

  /** The free list is the set of empty slots, each listed once. */
  ghost predicate FreeListExact(s: Slots) {
    && NoDuplicates(s.free)
    && forall h :: h in s.free <==> 0 < h <= |s.types| && !Live(s, h)
  }

  /** Every live slot has exactly one owner, and owners hold live slots only. */
  ghost predicate OwnedExactly(s: Slots) {
    && (forall source <- s.anonymous :: 0 !in s.anonymous[source])
    && (forall o :: Held(s, o) != 0 ==> Live(s, Held(s, o)))
    && (forall o, p :: Held(s, o) == Held(s, p) != 0 ==> o == p)
    && (forall h :: Live(s, h) ==> exists o :: Held(s, o) == h)
  }

  ghost predicate SlotsValid(s: Slots) {
    FreeListExact(s) && OwnedExactly(s)
  }

  // ----- An update in progress -----

  datatype Kind = Replacement | Removed

  /** A touched entity: its slot now, and the slot it had in the old generation. */
  datatype Cell = Cell(handle: nat, retained: nat)

  datatype Update = Update(
    full: bool, base: Slots, entities: map<nat, Cell>, anonymous: map<nat, seq<nat>>,
    kinds: map<nat, Kind>, changed: seq<nat>, claimed: seq<nat>, next: nat)

  /** A rebuild starts from nothing, except that it still sees the old free list. */
  function Before(u: Update): Slots {
    if u.full then Slots([], [], map[], map[]) else u.base
  }

  function LiveNow(u: Update, handle: nat): bool {
    if handle in u.kinds then u.kinds[handle] == Replacement else Live(Before(u), handle)
  }

  function HeldNow(u: Update, o: Owner): nat {
    match o
    case Entity(id) => if id in u.entities then u.entities[id].handle else Held(Before(u), o)
    case Anonymous(source, index) =>
      if source !in u.anonymous then Held(Before(u), o)
      else if index < |u.anonymous[source]| then u.anonymous[source][index]
      else 0
  }

  ghost predicate ClaimedFromFree(u: Update) {
    && |u.claimed| <= |u.base.free|
    && forall i :: 0 <= i < |u.claimed| ==> u.claimed[i] == u.base.free[|u.base.free| - 1 - i]
  }

  ghost predicate Touched(u: Update) {
    && (forall h <- u.kinds :: 0 < h)
    && NoDuplicates(u.changed)
    && (forall h :: h in u.changed <==> h in u.kinds)
    && (forall id <- u.entities :: u.entities[id].retained == Held(Before(u), Entity(id)))
    && (forall source <- u.anonymous :: 0 !in u.anonymous[source])
  }

  /** A slot that this update took from the free list or appended. */
  predicate Fresh(u: Update, handle: nat) {
    handle in u.claimed || |u.base.types| < handle < u.next
  }

  /** Which slots the update touched: owned ones of the old generation, and fresh ones. */
  ghost predicate Accounted(u: Update) {
    && ClaimedFromFree(u) && Touched(u)
    && |u.base.types| < u.next
    && (forall h <- u.kinds :: h < u.next)
    && (forall h <- u.kinds :: Live(u.base, h) || Fresh(u, h))
    && (forall h :: Fresh(u, h) ==> h in u.kinds)
  }

  ghost predicate HoldersLive(u: Update) {
    forall o :: HeldNow(u, o) != 0 ==> LiveNow(u, HeldNow(u, o))
  }

  ghost predicate Exclusive(u: Update) {
    forall o, p :: HeldNow(u, o) == HeldNow(u, p) != 0 ==> o == p
  }

  ghost predicate HasHolder(u: Update, h: nat) {
    exists o :: HeldNow(u, o) == h
  }

  ghost predicate Covered(u: Update) {
    forall h :: LiveNow(u, h) ==> HasHolder(u, h)
  }

  /** A slot that was live in the old generation never changes hands. */
  ghost predicate KeepsHands(u: Update) {
    forall o :: Live(u.base, HeldNow(u, o)) ==> Held(u.base, o) == HeldNow(u, o)
  }

  /** The invariant of an incremental update. */
  ghost predicate Sound(u: Update) {
    && !u.full && SlotsValid(u.base) && Accounted(u)
    && HoldersLive(u) && Exclusive(u) && Covered(u) && KeepsHands(u)
  }

  /** The next slot: from the back of the free list, or a new one. */
  function NextFree(u: Update): nat {
    if |u.claimed| < |u.base.free| then u.base.free[|u.base.free| - 1 - |u.claimed|] else u.next
  }

  function Claim(u: Update): Update {
    if |u.claimed| < |u.base.free|
    then u.(claimed := u.claimed + [u.base.free[|u.base.free| - 1 - |u.claimed|]])
    else u.(next := u.next + 1)
  }

  function Mark(u: Update, handle: nat, kind: Kind): Update {
    u.(kinds := u.kinds[handle := kind], changed := PushNew(u.changed, handle))
  }

  function Touch(u: Update, id: nat): Cell {
    if id in u.entities then u.entities[id] else Cell(Held(Before(u), Entity(id)), Held(Before(u), Entity(id)))
  }

  /** A slot about to be claimed belongs to nobody and was touched by nobody. */
  lemma NextFreeUnused(u: Update)
    requires Sound(u)
    ensures 0 < NextFree(u) && !Live(u.base, NextFree(u))
    ensures NextFree(u) !in u.kinds && !LiveNow(u, NextFree(u)) && !Fresh(u, NextFree(u))
    ensures forall o :: HeldNow(u, o) != NextFree(u)
    ensures Fresh(Claim(u), NextFree(u)) && NextFree(u) < Claim(u).next
    ensures forall h :: Fresh(Claim(u), h) <==> Fresh(u, h) || h == NextFree(u)
    ensures ClaimedFromFree(Claim(u))
  {
    if |u.claimed| < |u.base.free| {
      var k := |u.base.free| - 1 - |u.claimed|;
      assert u.base.free[k] in u.base.free;
      assert NextFree(u) !in u.claimed;
    } else {
      assert forall h :: h in u.base.free ==> h <= |u.base.types|;
      forall h <- u.claimed
        ensures h in u.base.free
      {
      }
    }
  }

  // ----- The operations -----

  /** assign_type: keep the slot, take the retained one back, or claim the next. */
  function Assigned(u: Update, id: nat): Update {
    var cell := Touch(u, id);
    var handle := if cell.handle != 0 then cell.handle
                  else if !u.full && cell.retained != 0 then cell.retained
                  else if u.full then u.next
                  else NextFree(u);
    var claimed := if cell.handle != 0 || (!u.full && cell.retained != 0) then u
                   else if u.full then u.(next := u.next + 1)
                   else Claim(u);
    Mark(claimed.(entities := u.entities[id := Cell(handle, cell.retained)]), handle, Replacement)
  }

  /** materialize, when nothing declares the entity any more. */
  function Tombstoned(u: Update, id: nat): Update {
    var cell := Touch(u, id);
    var cleared := u.(entities := u.entities[id := Cell(0, cell.retained)]);
    if cell.handle != 0 then Mark(cleared, cell.handle, Removed) else cleared
  }

  function MarkAll(u: Update, handles: seq<nat>): (r: Update)
    ensures r == u.(kinds := r.kinds, changed := r.changed)
    ensures forall h :: h in r.kinds <==> h in u.kinds || h in handles
    ensures forall h <- r.kinds :: r.kinds[h] == if h in handles then Removed else u.kinds[h]
    ensures forall h :: h in r.changed <==> h in u.changed || h in handles
    ensures NoDuplicates(u.changed) ==> NoDuplicates(r.changed)
    decreases |handles|
  {
    if handles == [] then u
    else
      assert handles == handles[..|handles| - 1] + [handles[|handles| - 1]];
      Mark(MarkAll(u, handles[..|handles| - 1]), handles[|handles| - 1], Removed)
  }

  /** begin_source_replacement: the Source gives up its anonymous enums. */
  function Cleared(u: Update, source: nat): Update {
    if source in u.anonymous then u
    else MarkAll(u.(anonymous := u.anonymous[source := []]), ListAt(Before(u).anonymous, source))
  }

  /** The next slot goes to the end of a cleared Source's list. */
  function Pushed(v: Update, source: nat): Update
    requires source in v.anonymous
  {
    var h := NextFree(v);
    Update(v.full, v.base, v.entities, v.anonymous[source := v.anonymous[source] + [h]],
           v.kinds[h := Replacement], PushNew(v.changed, h), Claim(v).claimed, Claim(v).next)
  }

  /** add_anonymous_enum: always prefers the free list of the old generation. */
  function AnonymousAdded(u: Update, source: nat): Update {
    Pushed(Cleared(u, source), source)
  }

  // ----- Incremental updates -----

  /** One owner receives a slot that nobody else holds. */
  ghost predicate Gives(u: Update, u': Update, o: Owner, h: nat) {
    && u'.base == u.base && u'.full == u.full
    && u'.kinds == u.kinds[h := Replacement] && h != 0
    && HeldNow(u', o) == h
    && (HeldNow(u, o) == 0 || HeldNow(u, o) == h)
    && (forall p :: p != o ==> HeldNow(u', p) == HeldNow(u, p) && HeldNow(u, p) != h)
    && (Live(u.base, h) ==> Held(u.base, o) == h)
  }

  lemma GivenCovered(u: Update, u': Update, o: Owner, h: nat)
    requires Gives(u, u', o, h) && Covered(u) && 0 !in u.kinds
    ensures Covered(u')
  {
    forall x | LiveNow(u', x)
      ensures HasHolder(u', x)
    {
      if x != h {
        assert x in u'.kinds <==> x in u.kinds;
        assert LiveNow(u, x);
        assert HasHolder(u, x);
        var p :| HeldNow(u, p) == x;
        assert HeldNow(u', p) == x;
      } else {
        assert HeldNow(u', o) == x;
      }
    }
  }

  lemma GivenExclusive(u: Update, u': Update, o: Owner, h: nat)
    requires Gives(u, u', o, h) && Exclusive(u)
    ensures Exclusive(u')
  {
    hide HeldNow;
  }

  lemma GivenLive(u: Update, u': Update, o: Owner, h: nat)
    requires Gives(u, u', o, h) && HoldersLive(u) && KeepsHands(u)
    ensures HoldersLive(u') && KeepsHands(u')
  {
    hide HeldNow, Held, Live;
  }

  lemma SlotGiven(u: Update, u': Update, o: Owner, h: nat)
    requires Sound(u) && Accounted(u') && Gives(u, u', o, h)
    ensures Sound(u')
  {
    hide Gives, Accounted, HoldersLive, Exclusive, Covered, KeepsHands, SlotsValid;
    GivenBase(u, u', o, h);
    GivenCovered(u, u', o, h);
    GivenExclusive(u, u', o, h);
    GivenLive(u, u', o, h);
  }

  lemma GivenBase(u: Update, u': Update, o: Owner, h: nat)
    requires Gives(u, u', o, h) && Accounted(u)
    ensures u'.base == u.base && u'.full == u.full && 0 !in u.kinds
  {
  }

  lemma TouchIsHeld(u: Update, id: nat)
    requires Touched(u)
    ensures Touch(u, id).handle == HeldNow(u, Entity(id))
    ensures Touch(u, id).retained == Held(Before(u), Entity(id))
  {
  }

  /** Giving an entity another slot changes what this entity holds, and nothing else. */
  lemma EntityHolds(u: Update, u': Update, id: nat, cell: Cell)
    requires u'.entities == u.entities[id := cell] && u'.anonymous == u.anonymous
    requires u'.base == u.base && u'.full == u.full
    ensures HeldNow(u', Entity(id)) == cell.handle
    ensures forall p :: p != Entity(id) ==> HeldNow(u', p) == HeldNow(u, p)
  {
  }

  lemma AssignedShape(u: Update, id: nat)
    ensures var u' := Assigned(u, id);
            var h := u'.entities[id].handle;
            && u'.entities == u.entities[id := Cell(h, Touch(u, id).retained)]
            && u'.anonymous == u.anonymous && u'.base == u.base && u'.full == u.full
            && u'.kinds == u.kinds[h := Replacement] && u'.changed == PushNew(u.changed, h)
            && (Touch(u, id).handle != 0 ==> h == Touch(u, id).handle && u'.claimed == u.claimed && u'.next == u.next)
            && (Touch(u, id).handle == 0 && !u.full && Touch(u, id).retained != 0 ==>
                  h == Touch(u, id).retained && u'.claimed == u.claimed && u'.next == u.next)
            && (Touch(u, id).handle == 0 && !u.full && Touch(u, id).retained == 0 ==>
                  h == NextFree(u) && u'.claimed == Claim(u).claimed && u'.next == Claim(u).next)
  {
  }

  /** Nobody else holds the slot that assign_type chooses. */
  lemma AssignedGives(u: Update, id: nat)
    requires Sound(u)
    ensures Gives(u, Assigned(u, id), Entity(id), Assigned(u, id).entities[id].handle)
  {
    var u' := Assigned(u, id);
    var h := u'.entities[id].handle;
    TouchedFacts(u);
    AssignedShape(u, id);
    EntityHolds(u, u', id, Cell(h, Touch(u, id).retained));
    TouchIsHeld(u, id);
    var cell := Touch(u, id);
    ChosenUnheld(u, id, h);
  }

  lemma ChosenUnheld(u: Update, id: nat, h: nat)
    requires Sound(u)
    requires HeldNow(u, Entity(id)) != 0 ==> h == HeldNow(u, Entity(id))
    requires HeldNow(u, Entity(id)) == 0 && Held(u.base, Entity(id)) != 0 ==> h == Held(u.base, Entity(id))
    requires HeldNow(u, Entity(id)) == 0 && Held(u.base, Entity(id)) == 0 ==> h == NextFree(u)
    ensures h != 0
    ensures forall p :: p != Entity(id) ==> HeldNow(u, p) != h
    ensures Live(u.base, h) ==> Held(u.base, Entity(id)) == h
  {
    hide HeldNow, Accounted, FreeListExact, Covered, Held, Live, NextFree, LiveNow;
    if HeldNow(u, Entity(id)) != 0 {
    } else if Held(u.base, Entity(id)) != 0 {
      RetainedUnheld(u, id);
    } else {
      NextFreeUnused(u);
    }
  }

  lemma TouchedFacts(u: Update)
    requires Accounted(u)
    ensures Touched(u)
  {
  }

  /** The slot that an entity had in the old generation is not given to anybody else. */
  lemma RetainedUnheld(u: Update, id: nat)
    requires Sound(u) && Held(u.base, Entity(id)) != 0
    ensures Live(u.base, Held(u.base, Entity(id)))
    ensures forall p :: p != Entity(id) ==> HeldNow(u, p) != Held(u.base, Entity(id))
  {
    hide HeldNow, Accounted, FreeListExact, HoldersLive, Exclusive, Covered, LiveNow;
    var h := Held(u.base, Entity(id));
    forall p | HeldNow(u, p) == h
      ensures p == Entity(id)
    {
      assert Live(u.base, HeldNow(u, p));
    }
  }

  lemma AssignedAccounted(u: Update, id: nat)
    requires Sound(u)
    ensures Accounted(Assigned(u, id))
  {
    hide HoldersLive, Exclusive, Covered, KeepsHands, SlotsValid, HeldNow, LiveNow, Accounted, Assigned;
    var cell := Touch(u, id);
    TouchedFacts(u);
    TouchIsHeld(u, id);
    AssignedShape(u, id);
    AccountedClaims(u);
    var u' := Assigned(u, id);
    var h := u'.entities[id].handle;
    if cell.handle == 0 && cell.retained == 0 {
      NextFreeUnused(u);
      ClaimsKept(Claim(u), u');
      assert forall x :: Fresh(u', x) <==> Fresh(Claim(u), x);
    } else if cell.handle == 0 {
      RetainedUnheld(u, id);
      ClaimsKept(u, u');
      RetainedBounded(u, h);
    } else {
      HeldIsAccounted(u, Entity(id));
      ClaimsKept(u, u');
    }
    assert Before(u') == Before(u) && u.next <= u'.next;
    assert forall x :: x != h ==> (Fresh(u', x) <==> Fresh(u, x));
    assert Fresh(u, h) ==> Fresh(u', h);
    hide NextFree, Claim, ClaimedFromFree, Live, Held, NoDuplicates, Fresh;
    MarkAccounted(u, u', h);
  }

  lemma RetainedBounded(u: Update, h: nat)
    requires Accounted(u) && Live(u.base, h)
    ensures 0 < h < u.next
  {
  }

  lemma AccountedClaims(u: Update)
    requires Accounted(u)
    ensures ClaimedFromFree(u)
  {
  }

  /** Marking a slot that is owned from before or freshly claimed keeps the account. */
  lemma MarkAccounted(u: Update, u': Update, h: nat)
    requires Accounted(u) && u'.base == u.base && u'.full == u.full
    requires h in u'.kinds && u'.kinds == u.kinds[h := u'.kinds[h]] && u'.changed == PushNew(u.changed, h)
    requires 0 < h < u'.next && u.next <= u'.next
    requires ClaimedFromFree(u')
    requires Live(u.base, h) || Fresh(u', h)
    requires forall x :: x != h ==> (Fresh(u', x) <==> Fresh(u, x))
    requires forall id <- u'.entities :: u'.entities[id].retained == Held(Before(u'), Entity(id))
    requires forall source <- u'.anonymous :: 0 !in u'.anonymous[source]
    requires Fresh(u, h) ==> Fresh(u', h)
    ensures Accounted(u')
  {
    hide Live, Held, ClaimedFromFree, Before;
  }

  lemma HeldIsAccounted(u: Update, o: Owner)
    requires Sound(u) && HeldNow(u, o) != 0
    ensures HeldNow(u, o) < u.next && (Live(u.base, HeldNow(u, o)) || Fresh(u, HeldNow(u, o)))
  {
    assert LiveNow(u, HeldNow(u, o));
  }

  lemma AssignedSound(u: Update, id: nat)
    requires Sound(u)
    ensures Sound(Assigned(u, id))
    ensures HeldNow(Assigned(u, id), Entity(id)) != 0
    ensures forall p :: p != Entity(id) ==> HeldNow(Assigned(u, id), p) == HeldNow(u, p)
  {
    AssignedGives(u, id);
    AssignedAccounted(u, id);
    hide Sound, Accounted, HeldNow;
    SlotGiven(u, Assigned(u, id), Entity(id), Assigned(u, id).entities[id].handle);
  }

  /** Some owners lose their slots, and exactly those slots are removed. */
  ghost predicate Takes(u: Update, u': Update, lost: set<nat>) {
    && u'.base == u.base && u'.full == u.full
    && (forall x :: LiveNow(u', x) <==> LiveNow(u, x) && x !in lost)
    && (forall p :: HeldNow(u', p) == if HeldNow(u, p) in lost then 0 else HeldNow(u, p))
    && 0 !in lost
  }

  lemma SlotsTaken(u: Update, u': Update, lost: set<nat>)
    requires Sound(u) && Accounted(u') && Takes(u, u', lost)
    ensures Sound(u')
  {
    hide HeldNow, LiveNow, Accounted, SlotsValid, Held;
    forall x | LiveNow(u', x)
      ensures HasHolder(u', x)
    {
      assert LiveNow(u, x) && HasHolder(u, x);
      var p :| HeldNow(u, p) == x;
      assert HeldNow(u', p) == x;
    }
  }

  lemma TombstonedShape(u: Update, id: nat)
    ensures var u' := Tombstoned(u, id);
            var h := Touch(u, id).handle;
            && u' == u.(entities := u.entities[id := Cell(0, Touch(u, id).retained)], kinds := u'.kinds, changed := u'.changed)
            && u'.kinds == (if h != 0 then u.kinds[h := Removed] else u.kinds)
            && u'.changed == (if h != 0 then PushNew(u.changed, h) else u.changed)
            && forall x :: LiveNow(u', x) <==> LiveNow(u, x) && !(x == h != 0)
  {
  }

  lemma TombstonedAccounted(u: Update, id: nat)
    requires Accounted(u)
    requires var h := Touch(u, id).handle;
             h != 0 ==> h < u.next && (Live(u.base, h) || Fresh(u, h))
    ensures Accounted(Tombstoned(u, id))
  {
    hide LiveNow, Live, Held, NoDuplicates, Tombstoned;
    TombstonedShape(u, id);
    var u' := Tombstoned(u, id);
    var h := Touch(u, id).handle;
    AccountedClaims(u);
    ClaimsKept(u, u');
    hide ClaimedFromFree;
    assert Before(u') == Before(u);
    assert forall x :: Fresh(u', x) <==> Fresh(u, x);
    hide Fresh;
    if h != 0 {
      MarkAccounted(u, u', h);
    }
  }

  lemma TombstonedTakes(u: Update, id: nat)
    requires Touched(u) && Exclusive(u)
    ensures var h := HeldNow(u, Entity(id));
            Takes(u, Tombstoned(u, id), if h == 0 then {} else {h})
    ensures HeldNow(Tombstoned(u, id), Entity(id)) == 0
    ensures forall p :: p != Entity(id) ==> HeldNow(Tombstoned(u, id), p) == HeldNow(u, p)
  {
    var u' := Tombstoned(u, id);
    TouchIsHeld(u, id);
    TombstonedShape(u, id);
    hide Tombstoned, Touched, LiveNow;
    EntityHolds(u, u', id, Cell(0, Touch(u, id).retained));
    hide HeldNow, Touch;
  }

  lemma TombstonedSound(u: Update, id: nat)
    requires Sound(u)
    ensures Sound(Tombstoned(u, id))
    ensures HeldNow(Tombstoned(u, id), Entity(id)) == 0
    ensures forall p :: p != Entity(id) ==> HeldNow(Tombstoned(u, id), p) == HeldNow(u, p)
  {
    hide SlotsValid, HoldersLive, Exclusive, Covered, KeepsHands, Tombstoned, Takes, LiveNow;
    TouchedFacts(u);
    TouchIsHeld(u, id);
    if HeldNow(u, Entity(id)) != 0 {
      HeldIsAccounted(u, Entity(id));
    }
    hide HeldNow, Accounted, Touched;
    TombstonedAccounted(u, id);
    TombstonedTakes(u, id);
    var h := HeldNow(u, Entity(id));
    SlotsTaken(u, Tombstoned(u, id), if h == 0 then {} else {h});
  }

  lemma AnonymousHeld(u: Update, source: nat, h: nat) returns (i: nat)
    requires Sound(u) && source !in u.anonymous && h in ListAt(u.base.anonymous, source)
    ensures i < |ListAt(u.base.anonymous, source)| && HeldNow(u, Anonymous(source, i)) == h
    ensures h != 0 ==> Live(u.base, h)
  {
    hide Covered, KeepsHands, Accounted, HasHolder, Exclusive, FreeListExact;
    var list := ListAt(u.base.anonymous, source);
    i :| 0 <= i < |list| && list[i] == h;
    assert Held(u.base, Anonymous(source, i)) == h;
  }

  /** The slots of the anonymous enums that `source` had in the old generation. */
  ghost function GivenUp(u: Update, source: nat): set<nat> {
    SetOf(ListAt(u.base.anonymous, source))
  }

  lemma ClearedHeld(u: Update, source: nat, p: Owner)
    requires Sound(u) && source !in u.anonymous
    ensures HeldNow(Cleared(u, source), p) == if HeldNow(u, p) in GivenUp(u, source) then 0 else HeldNow(u, p)
  {
    hide Covered, KeepsHands, Accounted, HoldersLive, FreeListExact;
    var list := ListAt(u.base.anonymous, source);
    assert 0 !in list;
    if p.Anonymous? && p.source == source {
      assert HeldNow(u, p) == Held(u.base, p);
      assert p.index < |list| ==> list[p.index] in list;
    } else if HeldNow(u, p) in list {
      var i := AnonymousHeld(u, source, HeldNow(u, p));
      assert false;
    }
  }

  lemma ClearedAccounted(u: Update, source: nat)
    requires Sound(u) && source !in u.anonymous
    ensures Accounted(Cleared(u, source))
  {
    forall h <- ListAt(u.base.anonymous, source)
      ensures h != 0 && Live(u.base, h) && h < u.next
    {
      var i := AnonymousHeld(u, source, h);
      assert 0 !in ListAt(u.base.anonymous, source);
      HeldIsAccounted(u, Anonymous(source, i));
    }
    hide HoldersLive, Exclusive, Covered, KeepsHands, SlotsValid, HeldNow, LiveNow;
    AllRemovedAccounted(u, Cleared(u, source), ListAt(u.base.anonymous, source));
  }

  lemma AllRemovedAccounted(u: Update, u': Update, list: seq<nat>)
    requires Accounted(u) && u'.base == u.base && u'.full == u.full && u'.claimed == u.claimed && u'.next == u.next
    requires u'.entities == u.entities && forall source <- u'.anonymous :: 0 !in u'.anonymous[source]
    requires forall h <- list :: h != 0 && Live(u.base, h) && h < u.next
    requires forall h :: h in u'.kinds <==> h in u.kinds || h in list
    requires forall h :: h in u'.changed <==> h in u.changed || h in list
    requires NoDuplicates(u'.changed)
    ensures Accounted(u')
  {
    hide Live, Held, NoDuplicates;
    ClaimsKept(u, u');
    hide ClaimedFromFree;
    assert forall x :: Fresh(u', x) <==> Fresh(u, x);
    hide Fresh;
  }

  lemma ClaimsKept(u: Update, u': Update)
    requires ClaimedFromFree(u) && u'.base == u.base && u'.claimed == u.claimed
    ensures ClaimedFromFree(u')
  {
  }

  lemma ClearedTakes(u: Update, source: nat)
    requires Sound(u) && source !in u.anonymous
    ensures Takes(u, Cleared(u, source), GivenUp(u, source))
  {
    hide Accounted, HoldersLive, Exclusive, Covered, KeepsHands, HeldNow, FreeListExact;
    var u' := Cleared(u, source);
    forall p
      ensures HeldNow(u', p) == if HeldNow(u, p) in GivenUp(u, source) then 0 else HeldNow(u, p)
    {
      ClearedHeld(u, source, p);
    }
    assert 0 !in ListAt(u.base.anonymous, source);
  }

  lemma ClearedSound(u: Update, source: nat)
    requires Sound(u)
    ensures Sound(Cleared(u, source)) && source in Cleared(u, source).anonymous
  {
    ClearedHas(u, source);
    hide *;
    if source !in u.anonymous {
      ClearedAccounted(u, source);
      ClearedTakes(u, source);
      SlotsTaken(u, Cleared(u, source), GivenUp(u, source));
    } else {
      ClearedSame(u, source);
    }
  }

  lemma ClearedSame(u: Update, source: nat)
    requires source in u.anonymous
    ensures Cleared(u, source) == u
  {
  }

  /** Appending a slot to a Source's list adds one holder. */
  lemma AnonymousHolds(v: Update, u': Update, source: nat, h: nat)
    requires source in v.anonymous && u'.entities == v.entities
    requires u'.anonymous == v.anonymous[source := v.anonymous[source] + [h]]
    requires u'.base == v.base && u'.full == v.full
    ensures HeldNow(v, Anonymous(source, |v.anonymous[source]|)) == 0
    ensures HeldNow(u', Anonymous(source, |v.anonymous[source]|)) == h
    ensures forall p :: p != Anonymous(source, |v.anonymous[source]|) ==> HeldNow(u', p) == HeldNow(v, p)
  {
  }

  lemma AnonymousAddedSound(u: Update, source: nat)
    requires Sound(u)
    ensures Sound(AnonymousAdded(u, source))
  {
    ClearedSound(u, source);
    NextPushedSound(Cleared(u, source), source);
  }

  lemma NextPushedSound(v: Update, source: nat)
    requires Sound(v) && source in v.anonymous
    ensures Sound(Pushed(v, source))
  {
    var h := NextFree(v);
    var list := v.anonymous[source];
    var u' := Pushed(v, source);
    NextFreeUnused(v);
    AnonymousHolds(v, u', source, h);
    assert v.next <= u'.next && Before(u') == Before(v);
    assert forall x :: Fresh(u', x) <==> Fresh(Claim(v), x);
    ClaimsKept(Claim(v), u');
    hide NextFree, HeldNow, LiveNow, HoldersLive, Exclusive, Covered, KeepsHands, SlotsValid, Claim, ClaimedFromFree, Fresh, Live;
    assert Accounted(u') by {
      MarkAccounted(v, u', h);
    }
    hide Accounted, Touched, Held;
    assert Gives(v, u', Anonymous(source, |list|), h);
    SlotGiven(v, u', Anonymous(source, |list|), h);
  }

  // ----- Publishing an incremental update -----

  /** The slots that publication appends to the free list, in the order they were touched. */
  function RemovedOf(changed: seq<nat>, kinds: map<nat, Kind>): (r: seq<nat>)
    requires forall h <- changed :: h in kinds
    ensures forall h :: h in r <==> h in changed && kinds[h] == Removed
    ensures NoDuplicates(changed) ==> NoDuplicates(r)
  {
    if changed == [] then []
    else
      var last := |changed| - 1;
      var rest := RemovedOf(changed[..last], kinds);
      assert changed == changed[..last] + [changed[last]];
      assert NoDuplicates(changed) ==> NoDuplicates(changed[..last]) && changed[last] !in changed[..last];
      if kinds[changed[last]] == Removed then rest + [changed[last]] else rest
  }

  function Overridden(u: Update): map<nat, nat> {
    map id | id in u.base.entities.Keys + u.entities.Keys && HeldNow(u, Entity(id)) != 0 :: HeldNow(u, Entity(id))
  }

  function LiveFlags(u: Update, count: nat): (r: seq<bool>)
    ensures |r| == count
    ensures forall h: nat :: 0 < h <= count ==> r[h - 1] == LiveNow(u, h)
  {
    if count == 0 then [] else LiveFlags(u, count - 1) + [LiveNow(u, count)]
  }

  function Published(u: Update): Slots
    requires |u.claimed| <= |u.base.free| && u.next > 0
    requires forall h <- u.changed :: h in u.kinds
  {
    Slots(LiveFlags(u, u.next - 1),
          u.base.free[..|u.base.free| - |u.claimed|] + RemovedOf(u.changed, u.kinds),
          Overridden(u), u.base.anonymous + u.anonymous)
  }

  lemma PublishedHolds(u: Update, o: Owner)
    requires Sound(u)
    ensures Held(Published(u), o) == HeldNow(u, o)
  {
    hide HoldersLive, Exclusive, Covered, KeepsHands, SlotsValid, LiveNow;
  }

  lemma PublishedLive(u: Update, h: nat)
    requires Sound(u)
    ensures Live(Published(u), h) <==> LiveNow(u, h)
  {
    hide HoldersLive, Exclusive, Covered, KeepsHands;
    assert Before(u) == u.base;
    assert LiveNow(u, h) ==> 0 < h < u.next;
    assert |Published(u).types| == u.next - 1;
    var s := Published(u);
    if 0 < h < u.next {
      assert s.types[h - 1] == LiveNow(u, h);
      assert Live(s, h) <==> LiveNow(u, h);
    } else {
      assert !Live(s, h);
      assert !LiveNow(u, h);
    }
  }

  lemma PublishedFree(u: Update)
    requires Sound(u)
    ensures FreeListExact(Published(u))
  {
    hide HoldersLive, Exclusive, Covered, KeepsHands, OwnedExactly, Overridden, HeldNow;
    var s := Published(u);
    var kept, removed := u.base.free[..|u.base.free| - |u.claimed|], RemovedOf(u.changed, u.kinds);
    forall h: nat
      ensures h in kept <==> h in u.base.free && h !in u.kinds
      ensures h in kept ==> 0 < h < u.next && !LiveNow(u, h)
    {
      FreeSplit(u, h);
      assert h in u.claimed ==> Fresh(u, h);
      assert h in u.kinds ==> Live(u.base, h) || Fresh(u, h);
    }
    forall h: nat
      ensures h in removed <==> h in u.kinds && !LiveNow(u, h)
    {
    }
    forall h: nat
      ensures Live(s, h) <==> LiveNow(u, h)
    {
      PublishedLive(u, h);
    }
    assert |s.types| == u.next - 1 && s.free == kept + removed;
    forall h: nat
      ensures h in s.free <==> 0 < h <= |s.types| && !Live(s, h)
    {
      assert h in s.free <==> h in kept || h in removed;
      if 0 < h < u.next && !LiveNow(u, h) && h !in u.kinds {
        assert !Fresh(u, h) && h <= |u.base.types|;
      }
    }
    DistinctPrefix(u.base.free, |u.base.free| - |u.claimed|);
    DistinctConcat(kept, removed);
  }

  lemma FreeSplit(u: Update, h: nat)
    requires ClaimedFromFree(u) && NoDuplicates(u.base.free)
    ensures h in u.base.free <==> h in u.base.free[..|u.base.free| - |u.claimed|] || h in u.claimed
    ensures h in u.base.free[..|u.base.free| - |u.claimed|] ==> h !in u.claimed
  {
    var n := |u.base.free| - |u.claimed|;
    if h in u.base.free {
      var i :| 0 <= i < |u.base.free| && u.base.free[i] == h;
      if i >= n {
        assert u.claimed[|u.base.free| - 1 - i] == h;
      } else {
        assert u.base.free[..n][i] == h;
      }
    }
    if h in u.claimed {
      var j :| 0 <= j < |u.claimed| && u.claimed[j] == h;
      assert u.base.free[|u.base.free| - 1 - j] == h;
    }
  }

  /** After every incremental commit the free list is exactly the set of empty
  slots, and every live slot has exactly one owner. */
  lemma PublishedValid(u: Update)
    requires Sound(u)
    ensures SlotsValid(Published(u))
    ensures forall o :: Held(Published(u), o) == HeldNow(u, o)
  {
    PublishedFree(u);
    forall o
      ensures Held(Published(u), o) == HeldNow(u, o)
    {
      PublishedHolds(u, o);
    }
    forall h
      ensures Live(Published(u), h) <==> LiveNow(u, h)
    {
      PublishedLive(u, h);
    }
    TouchedFacts(u);
    assert forall source <- Published(u).anonymous :: 0 !in Published(u).anonymous[source];
    hide Published, Live, LiveNow, Held, HeldNow, Accounted, FreeListExact, KeepsHands;
    forall h | Live(Published(u), h)
      ensures exists o :: Held(Published(u), o) == h
    {
      assert LiveNow(u, h) && HasHolder(u, h);
      var o :| HeldNow(u, o) == h;
      assert Held(Published(u), o) == h;
    }
  }

  // ----- Rebuilds -----

  ghost predicate FreePositive(s: Slots) {
    forall h <- s.free :: 0 < h
  }

  /** The bookkeeping of a rebuild: `issued[h - 1]` was given the counter's slot h,
  `takers[i]` the i-th slot claimed from the old free list. */
  ghost predicate Rebuilding(u: Update, issued: seq<Owner>, takers: seq<Owner>) {
    && u.full && FreePositive(u.base) && ClaimedFromFree(u)
    && u.next == |issued| + 1 && |takers| == |u.claimed|
    && (forall i: nat :: i < |issued| ==> HeldNow(u, issued[i]) == i + 1)
    && (forall i: nat :: i < |takers| ==> HeldNow(u, takers[i]) == u.claimed[i])
    && (forall o <- takers :: o.Anonymous? && o !in issued)
    && (forall o :: HeldNow(u, o) != 0 ==> o in issued || o in takers)
    && (forall h: nat :: LiveNow(u, h) <==> 0 < h < u.next || h in u.claimed)
    && (forall source <- u.anonymous :: 0 !in u.anonymous[source])
    && (forall id <- u.entities :: u.entities[id].retained == 0)
  }

  lemma ClaimedPositive(u: Update)
    requires FreePositive(u.base) && ClaimedFromFree(u)
    ensures forall x <- u.claimed :: 0 < x && x in u.base.free
  {
    forall x <- u.claimed
      ensures x in u.base.free
    {
      var i :| 0 <= i < |u.claimed| && u.claimed[i] == x;
      assert u.base.free[|u.base.free| - 1 - i] == x;
    }
  }

  /** An owner without a slot is neither in the counter's book nor among the takers. */
  lemma Unbooked(u: Update, issued: seq<Owner>, takers: seq<Owner>, o: Owner)
    requires Rebuilding(u, issued, takers) && HeldNow(u, o) == 0
    ensures o !in issued && o !in takers
  {
    hide FreePositive, LiveNow, HeldNow;
    forall i: nat | i < |issued|
      ensures issued[i] != o
    {
      assert HeldNow(u, issued[i]) == i + 1;
    }
    ClaimedPositive(u);
    forall i: nat | i < |takers|
      ensures takers[i] != o
    {
      assert HeldNow(u, takers[i]) == u.claimed[i] && u.claimed[i] in u.claimed;
    }
  }

  /** An owner without a slot receives the counter's next one. */
  lemma CounterIssues(u: Update, u': Update, issued: seq<Owner>, takers: seq<Owner>, o: Owner)
    requires Rebuilding(u, issued, takers) && HeldNow(u, o) == 0
    requires u'.base == u.base && u'.full && u'.claimed == u.claimed && u'.next == u.next + 1
    requires u'.kinds == u.kinds[u.next := Replacement]
    requires HeldNow(u', o) == u.next && forall p :: p != o ==> HeldNow(u', p) == HeldNow(u, p)
    requires forall source <- u'.anonymous :: 0 !in u'.anonymous[source]
    requires forall id <- u'.entities :: u'.entities[id].retained == 0
    ensures Rebuilding(u', issued + [o], takers)
  {
    Unbooked(u, issued, takers, o);
    ClaimsKept(u, u');
    assert forall h :: LiveNow(u', h) <==> LiveNow(u, h) || h == u.next;
    hide HeldNow, LiveNow, FreePositive, ClaimedFromFree;
  }

  /** An owner without a slot takes the next one of the old free list. */
  lemma ListIssues(u: Update, u': Update, issued: seq<Owner>, takers: seq<Owner>, o: Owner)
    requires Rebuilding(u, issued, takers) && HeldNow(u, o) == 0
    requires |u.claimed| < |u.base.free| && u'.base == u.base && u'.full && u'.next == u.next
    requires u'.claimed == u.claimed + [u.base.free[|u.base.free| - 1 - |u.claimed|]]
    requires u'.kinds == u.kinds[u'.claimed[|u.claimed|] := Replacement]
    requires o.Anonymous? && HeldNow(u', o) == u'.claimed[|u.claimed|]
    requires forall p :: p != o ==> HeldNow(u', p) == HeldNow(u, p)
    requires forall source <- u'.anonymous :: 0 !in u'.anonymous[source]
    requires forall id <- u'.entities :: u'.entities[id].retained == 0
    ensures Rebuilding(u', issued, takers + [o])
  {
    Unbooked(u, issued, takers, o);
    var h0 := u'.claimed[|u.claimed|];
    assert ClaimedFromFree(u');
    assert forall h :: LiveNow(u', h) <==> LiveNow(u, h) || h == h0;
    hide HeldNow, LiveNow, FreePositive, ClaimedFromFree;
  }

  lemma RebuildAssigns(u: Update, id: nat, issued: seq<Owner>, takers: seq<Owner>) returns (more: seq<Owner>)
    requires Rebuilding(u, issued, takers)
    ensures Rebuilding(Assigned(u, id), more, takers)
    ensures Assigned(u, id).claimed == u.claimed
  {
    var u' := Assigned(u, id);
    var h := u'.entities[id].handle;
    assert Touch(u, id).handle == HeldNow(u, Entity(id)) && Touch(u, id).retained == 0;
    EntityHolds(u, u', id, Cell(h, 0));
    if Touch(u, id).handle != 0 {
      more := issued;
      assert LiveNow(u, h);
      ClaimsKept(u, u');
      assert forall x :: LiveNow(u', x) <==> LiveNow(u, x);
      assert forall p :: HeldNow(u', p) == HeldNow(u, p);
      hide HeldNow, LiveNow, FreePositive, ClaimedFromFree;
    } else {
      more := issued + [Entity(id)];
      hide HeldNow, LiveNow, FreePositive, ClaimedFromFree, Rebuilding;
      CounterIssues(u, u', issued, takers, Entity(id));
    }
  }

  lemma RebuildClears(u: Update, source: nat, issued: seq<Owner>, takers: seq<Owner>)
    requires Rebuilding(u, issued, takers)
    ensures Rebuilding(Cleared(u, source), issued, takers)
    ensures source in Cleared(u, source).anonymous
    ensures Cleared(u, source) == u.(anonymous := Cleared(u, source).anonymous)
  {
    var v := Cleared(u, source);
    assert v == u.(anonymous := if source in u.anonymous then u.anonymous else u.anonymous[source := []]);
    forall o
      ensures HeldNow(v, o) == HeldNow(u, o)
    {
    }
    ClaimsKept(u, v);
    assert forall h :: LiveNow(v, h) <==> LiveNow(u, h);
    hide HeldNow, LiveNow, FreePositive, ClaimedFromFree;
  }

  lemma RebuildPushes(v: Update, source: nat, issued: seq<Owner>, takers: seq<Owner>)
    returns (issued': seq<Owner>, takers': seq<Owner>)
    requires Rebuilding(v, issued, takers) && source in v.anonymous
    ensures Rebuilding(Pushed(v, source), issued', takers')
    ensures |Pushed(v, source).claimed| == if |v.claimed| < |v.base.free| then |v.claimed| + 1 else |v.claimed|
  {
    hide HeldNow, LiveNow, FreePositive;
    var u' := Pushed(v, source);
    var o := Anonymous(source, |v.anonymous[source]|);
    AnonymousHolds(v, u', source, NextFree(v));
    NextPositive(v);
    issued', takers' := issued, takers;
    if |v.claimed| < |v.base.free| {
      takers' := takers + [o];
      ListIssues(v, u', issued, takers, o);
    } else {
      issued' := issued + [o];
      CounterIssues(v, u', issued, takers, o);
    }
  }

  lemma NextPositive(u: Update)
    requires FreePositive(u.base) && u.next > 0
    ensures NextFree(u) > 0
  {
    if |u.claimed| < |u.base.free| {
      assert u.base.free[|u.base.free| - 1 - |u.claimed|] in u.base.free;
    }
  }

  /** The slots below `next` that hold nothing. */
  function RebuiltFree(u: Update, next: nat): (r: seq<nat>)
    ensures forall h :: h in r <==> 0 < h < next && !LiveNow(u, h)
    ensures NoDuplicates(r)
    decreases next
  {
    if next <= 1 then []
    else
      var rest := RebuiltFree(u, next - 1);
      if LiveNow(u, next - 1) then rest else rest + [next - 1]
  }

  /** build_rebuild_storage: only slots below the counter exist in the new generation. */
  function Rebuilt(u: Update): Slots
    requires u.next > 0
  {
    Slots(LiveFlags(u, u.next - 1), RebuiltFree(u, u.next),
          map id | id in u.entities && u.entities[id].handle != 0 :: u.entities[id].handle, u.anonymous)
  }

  lemma RebuiltHolds(u: Update, o: Owner)
    requires u.full && u.next > 0
    ensures Held(Rebuilt(u), o) == HeldNow(u, o)
  {
  }

  lemma RebuiltLive(u: Update, h: nat)
    requires u.next > 0
    ensures Live(Rebuilt(u), h) <==> 0 < h < u.next && LiveNow(u, h)
  {
    if 0 < h < u.next {
      assert Rebuilt(u).types[h - 1] == LiveNow(u, h);
    }
  }

  /** A rebuild gives every slot one owner exactly when it took nothing from the
  old free list. A slot that was taken is issued again by the counter, or lies
  beyond the counter and does not exist in the new generation. */
  lemma RebuiltValidIff(u: Update, issued: seq<Owner>, takers: seq<Owner>)
    requires Rebuilding(u, issued, takers)
    ensures SlotsValid(Rebuilt(u)) <==> u.claimed == []
  {
    var s := Rebuilt(u);
    forall o
      ensures Held(s, o) == HeldNow(u, o)
    {
      RebuiltHolds(u, o);
    }
    forall h: nat
      ensures Live(s, h) <==> 0 < h < u.next
    {
      RebuiltLive(u, h);
    }
    ClaimedPositive(u);
    hide Held, HeldNow, Live, LiveNow, Rebuilding, SlotsValid, FreePositive;
    if u.claimed != [] {
      assert u.claimed[0] in u.claimed;
      TakenTwice(u, s, issued, takers);
    } else {
      EachOnce(u, s, issued, takers);
    }
  }

  lemma TakenTwice(u: Update, s: Slots, issued: seq<Owner>, takers: seq<Owner>)
    requires Rebuilding(u, issued, takers) && u.claimed != [] && u.claimed[0] > 0
    requires forall o :: Held(s, o) == HeldNow(u, o)
    requires forall h: nat :: Live(s, h) <==> 0 < h < u.next
    ensures !OwnedExactly(s)
  {
    hide Held, HeldNow, Live, LiveNow, FreePositive;
    var h, o := u.claimed[0], takers[0];
    assert Held(s, o) == h;
    if h < u.next {
      assert Held(s, issued[h - 1]) == h && o in takers && issued[h - 1] in issued;
    } else {
      assert !Live(s, Held(s, o));
    }
  }

  lemma EachOnce(u: Update, s: Slots, issued: seq<Owner>, takers: seq<Owner>)
    requires Rebuilding(u, issued, takers) && u.claimed == []
    requires s == Rebuilt(u)
    requires forall o :: Held(s, o) == HeldNow(u, o)
    requires forall h: nat :: Live(s, h) <==> 0 < h < u.next
    ensures SlotsValid(s)
  {
    hide Held, HeldNow, SlotsValid;
    forall o | Held(s, o) != 0
      ensures o in issued && 0 < Held(s, o) < u.next && issued[Held(s, o) - 1] == o
    {
      var i :| 0 <= i < |issued| && issued[i] == o;
      assert HeldNow(u, issued[i]) == i + 1;
    }
    forall h | Live(s, h)
      ensures exists o :: Held(s, o) == h
    {
      assert Held(s, issued[h - 1]) == h;
    }
    assert OwnedExactly(s);
    assert FreeListExact(s);
    assert SlotsValid(s) by { BothParts(s); }
  }

  lemma BothParts(s: Slots)
    requires OwnedExactly(s) && FreeListExact(s)
    ensures SlotsValid(s)
  {
  }

  // ----- Updates over whatever slots were committed -----

  /** What a commit leaves in any case: numbers above zero, and entities and free slots inside the table. */
  ghost predicate Anchored(s: Slots) {
    && (forall id <- s.entities :: s.entities[id] <= |s.types|)
    && (forall h <- s.free :: 0 < h <= |s.types|)
    && (forall source <- s.anonymous :: 0 !in s.anonymous[source])
  }

  ghost predicate Within(list: seq<nat>, limit: int) {
    forall h <- list :: h <= limit
  }

  /** The anonymous enums lie inside the table as well. */
  ghost predicate Bounded(s: Slots) {
    Anchored(s) && forall source <- s.anonymous :: Within(s.anonymous[source], |s.types|)
  }

  /** A slot that a replaced Source had recorded for one of its anonymous enums. */
  ghost predicate GivesUp(u: Update, h: nat) {
    exists source :: source in u.anonymous && h in ListAt(Before(u).anonymous, source)
  }

  ghost predicate Recorded(u: Update, h: nat) {
    exists source :: source in u.anonymous && h in u.anonymous[source]
  }

  predicate AllTouched(kinds: map<nat, Kind>, list: seq<nat>) {
    forall h <- list :: h in kinds
  }

  /** Slots that this update gave out: counted ones and, in a rebuild, claimed ones. */
  predicate Issued(u: Update, list: seq<nat>) {
    forall h <- list :: 0 < h && (h < u.next || (u.full && h in u.claimed))
  }

  /** The touched slots have an account, whoever owns them. */
  ghost predicate KindsSteady(u: Update) {
    && NoDuplicates(u.changed) && (forall h :: h in u.changed <==> h in u.kinds)
    && (forall h <- u.kinds :: 0 < h && (h < u.next || if u.full then h in u.claimed else GivesUp(u, h)))
    && (forall source <- u.anonymous :: AllTouched(u.kinds, ListAt(Before(u).anonymous, source)))
  }

  ghost predicate HoldersSteady(u: Update) {
    && (forall id <- u.entities :: u.entities[id].handle < u.next && u.entities[id].retained == Held(Before(u), Entity(id)))
    && (forall source <- u.anonymous :: Issued(u, u.anonymous[source]))
    && (u.full ==> forall h <- u.claimed :: Recorded(u, h))
  }

  /** The invariant of an update that starts from any committed slots. */
  ghost predicate Steady(u: Update) {
    && Anchored(u.base) && ClaimedFromFree(u)
    && (if u.full then 1 <= u.next else |u.base.types| < u.next)
    && KindsSteady(u) && HoldersSteady(u)
  }

  /** Every touched slot lies in the table as long as publication makes it. */
  ghost predicate Inside(u: Update) {
    forall h <- u.kinds :: h < u.next
  }

  lemma ValidIsAnchored(s: Slots)
    requires SlotsValid(s)
    ensures Bounded(s)
  {
    forall id <- s.entities
      ensures s.entities[id] <= |s.types|
    {
      assert Held(s, Entity(id)) == s.entities[id];
    }
    forall source <- s.anonymous, h <- s.anonymous[source]
      ensures h <= |s.types|
    {
      var i :| 0 <= i < |s.anonymous[source]| && s.anonymous[source][i] == h;
      assert Held(s, Anonymous(source, i)) == h;
    }
  }

  lemma StartsSteady(u: Update)
    requires Anchored(u.base) && u.next == if u.full then 1 else |u.base.types| + 1
    requires u.entities == map[] && u.anonymous == map[] && u.kinds == map[] && u.changed == [] && u.claimed == []
    ensures Steady(u)
  {
  }

  /** A slot that is chosen next is new, or free in the old generation. */
  lemma NextSteady(u: Update)
    requires Steady(u)
    ensures 0 < NextFree(u) && ClaimedFromFree(Claim(u))
    ensures NextFree(u) < Claim(u).next || (u.full && NextFree(u) in Claim(u).claimed)
    ensures u.claimed <= Claim(u).claimed && u.next <= Claim(u).next
    ensures forall h :: h in Claim(u).claimed ==> h in u.claimed || h == NextFree(u)
  {
    hide KindsSteady, HoldersSteady;
    if |u.claimed| < |u.base.free| {
      assert u.base.free[|u.base.free| - 1 - |u.claimed|] in u.base.free;
    }
  }

  lemma KindsMarked(u: Update, u': Update, h: nat, kind: Kind)
    requires KindsSteady(u) && u'.base == u.base && u'.full == u.full && u'.anonymous.Keys == u.anonymous.Keys
    requires u'.kinds == u.kinds[h := kind] && u'.changed == PushNew(u.changed, h)
    requires u.next <= u'.next && u.claimed <= u'.claimed
    requires 0 < h && (h < u'.next || if u.full then h in u'.claimed else GivesUp(u, h))
    ensures KindsSteady(u')
  {
    hide NoDuplicates;
    forall source: nat
      ensures source in u'.anonymous <==> source in u.anonymous
    {
      assert source in u'.anonymous.Keys <==> source in u.anonymous.Keys;
    }
    forall x | GivesUp(u, x)
      ensures GivesUp(u', x)
    {
      var source :| source in u.anonymous && x in ListAt(Before(u).anonymous, source);
      assert source in u'.anonymous && x in ListAt(Before(u').anonymous, source);
    }
    hide GivesUp;
  }

  lemma AssignedSlot(u: Update, id: nat)
    requires Steady(u)
    ensures var u', h := Assigned(u, id), Assigned(u, id).entities[id].handle;
            && 0 < h < u'.next && u.next <= u'.next && u.claimed <= u'.claimed && (u.full ==> u'.claimed == u.claimed)
            && ClaimedFromFree(u') && Touch(u, id).retained == Held(Before(u), Entity(id))
  {
    hide KindsSteady, Recorded, Issued;
    var cell := Touch(u, id);
    assert cell.handle < u.next && cell.retained == Held(Before(u), Entity(id));
    assert !u.full ==> cell.retained <= |u.base.types|;
    hide HoldersSteady;
    NextSteady(u);
    hide NextFree, Touch;
    AssignedClaims(u, id);
  }

  lemma AssignedClaims(u: Update, id: nat)
    requires ClaimedFromFree(u) && ClaimedFromFree(Claim(u))
    ensures ClaimedFromFree(Assigned(u, id))
  {
    hide NextFree, Touch, ClaimedFromFree;
    if Assigned(u, id).claimed == u.claimed {
      ClaimsAs(u, Assigned(u, id));
    } else {
      ClaimsAs(Claim(u), Assigned(u, id));
    }
  }

  lemma SteadyAssigned(u: Update, id: nat)
    requires Steady(u)
    ensures Steady(Assigned(u, id))
  {
    var u' := Assigned(u, id);
    var h, cell := u'.entities[id].handle, Touch(u, id);
    AssignedSlot(u, id);
    AssignedFields(u, id);
    hide Assigned, Touch, ClaimedFromFree;
    KindsMarked(u, u', h, Replacement);
    HoldersKept(u, u', id, Cell(h, cell.retained));
  }

  lemma HoldersKept(u: Update, u': Update, id: nat, cell: Cell)
    requires HoldersSteady(u) && u'.base == u.base && u'.full == u.full && u'.anonymous == u.anonymous
    requires u'.entities == u.entities[id := cell] && cell.handle < u'.next && cell.retained == Held(Before(u), Entity(id))
    requires u.next <= u'.next && (u.full ==> u'.claimed == u.claimed)
    ensures HoldersSteady(u')
  {
    forall h | u.full && h in u'.claimed
      ensures Recorded(u', h)
    {
      assert Recorded(u, h);
    }
  }

  lemma SteadyTombstoned(u: Update, id: nat)
    requires Steady(u)
    ensures Steady(Tombstoned(u, id))
  {
    var u' := Tombstoned(u, id);
    var cell := Touch(u, id);
    assert cell.handle < u.next && cell.retained == Held(Before(u), Entity(id));
    ClaimsKept(u, u');
    hide ClaimedFromFree, NoDuplicates, Touch;
    HoldersKept(u, u', id, Cell(0, cell.retained));
    hide HoldersSteady;
    if cell.handle != 0 {
      KindsMarked(u, u', cell.handle, Removed);
    } else {
      KindsCarried(u, u');
    }
  }

  lemma KindsCarried(u: Update, u': Update)
    requires KindsSteady(u) && u'.base == u.base && u'.full == u.full && u'.anonymous == u.anonymous
    requires u'.kinds == u.kinds && u'.changed == u.changed && u'.next == u.next && u'.claimed == u.claimed
    ensures KindsSteady(u')
  {
    forall x <- u'.kinds | !u.full && GivesUp(u, x)
      ensures GivesUp(u', x)
    {
    }
  }

  /** A Source that is replaced gives up its slots on top of those given up before. */
  lemma ClearedGivesUp(u: Update, source: nat, x: nat)
    requires source !in u.anonymous
    ensures GivesUp(Cleared(u, source), x) <==> GivesUp(u, x) || x in ListAt(Before(u).anonymous, source)
  {
    var u' := Cleared(u, source);
    assert u'.anonymous == u.anonymous[source := []] && Before(u') == Before(u);
    hide Before, Cleared;
    if x in ListAt(Before(u).anonymous, source) {
      assert source in u'.anonymous && x in ListAt(Before(u').anonymous, source);
    } else if GivesUp(u, x) {
      var other :| other in u.anonymous && x in ListAt(Before(u).anonymous, other);
      assert other in u'.anonymous && x in ListAt(Before(u').anonymous, other);
    }
  }

  lemma ClearedShape(u: Update, source: nat)
    requires source !in u.anonymous
    ensures var u', list := Cleared(u, source), ListAt(Before(u).anonymous, source);
            && u' == u.(anonymous := u.anonymous[source := []], kinds := u'.kinds, changed := u'.changed)
            && (forall h :: h in u'.kinds <==> h in u.kinds || h in list)
            && (forall h :: h in u'.changed <==> h in u.changed || h in list)
            && (NoDuplicates(u.changed) ==> NoDuplicates(u'.changed))
  {
    hide NoDuplicates, Before;
  }

  lemma KindsWidened(u: Update, u': Update, list: seq<nat>)
    requires KindsSteady(u) && u'.full == u.full && u'.next == u.next && u'.claimed == u.claimed
    requires NoDuplicates(u'.changed)
    requires forall h :: h in u'.kinds <==> h in u.kinds || h in list
    requires forall h :: h in u'.changed <==> h in u.changed || h in list
    requires forall x :: GivesUp(u', x) <==> GivesUp(u, x) || x in list
    requires (u.full ==> list == []) && 0 !in list
    requires forall source <- u'.anonymous :: AllTouched(u'.kinds, ListAt(Before(u').anonymous, source))
    ensures KindsSteady(u')
  {
    hide NoDuplicates, GivesUp, AllTouched, Before, ListAt;
  }

  lemma ClearedTouched(u: Update, source: nat)
    requires KindsSteady(u) && source !in u.anonymous
    ensures var u' := Cleared(u, source);
            forall s <- u'.anonymous :: AllTouched(u'.kinds, ListAt(Before(u').anonymous, s))
  {
    ClearedShape(u, source);
    var u' := Cleared(u, source);
    assert Before(u') == Before(u);
    hide NoDuplicates, Before, Cleared, GivesUp, ListAt;
    forall s <- u'.anonymous
      ensures AllTouched(u'.kinds, ListAt(Before(u').anonymous, s))
    {
      assert s != source ==> s in u.anonymous && AllTouched(u.kinds, ListAt(Before(u).anonymous, s));
    }
  }

  lemma ClearedKinds(u: Update, source: nat)
    requires KindsSteady(u) && source !in u.anonymous && 0 !in ListAt(Before(u).anonymous, source)
    ensures KindsSteady(Cleared(u, source))
  {
    ClearedShape(u, source);
    RebuildsFromNothing(u, source);
    ClearedTouched(u, source);
    var u', list := Cleared(u, source), ListAt(Before(u).anonymous, source);
    forall x: nat
      ensures GivesUp(u', x) <==> GivesUp(u, x) || x in list
    {
      ClearedGivesUp(u, source, x);
    }
    assert NoDuplicates(u.changed);
    hide NoDuplicates, Before, Cleared, GivesUp, KindsSteady, AllTouched, ListAt;
    KindsWidened(u, u', list);
  }

  lemma RebuildsFromNothing(u: Update, source: nat)
    ensures u.full ==> ListAt(Before(u).anonymous, source) == []
  {
  }

  lemma ClearedHolders(u: Update, source: nat)
    requires HoldersSteady(u) && source !in u.anonymous
    ensures HoldersSteady(Cleared(u, source))
  {
    var u' := Cleared(u, source);
    assert u'.anonymous == u.anonymous[source := []];
    forall x | Recorded(u, x)
      ensures Recorded(u', x)
    {
      var other :| other in u.anonymous && x in u.anonymous[other];
      assert other in u'.anonymous && x in u'.anonymous[other];
    }
    hide Recorded;
  }

  lemma SteadyCleared(u: Update, source: nat)
    requires Steady(u)
    ensures Steady(Cleared(u, source))
  {
    var u' := Cleared(u, source);
    if source !in u.anonymous {
      ClaimsKept(u, u');
      assert 0 !in ListAt(Before(u).anonymous, source);
      hide KindsSteady, HoldersSteady, ClaimedFromFree;
      ClearedKinds(u, source);
      ClearedHolders(u, source);
    }
  }

  lemma SteadyPushed(v: Update, source: nat)
    requires Steady(v) && source in v.anonymous
    ensures Steady(Pushed(v, source))
  {
    var u' := Pushed(v, source);
    var h := NextFree(v);
    NextSteady(v);
    PushedFields(v, source);
    hide Pushed, NextFree, Claim;
    ClaimsAs(Claim(v), u');
    hide ClaimedFromFree;
    KindsMarked(v, u', h, Replacement);
    hide KindsSteady, NoDuplicates;
    forall x | v.full && x in u'.claimed
      ensures Recorded(u', x)
    {
      if x in v.claimed {
        assert Recorded(v, x);
        var other :| other in v.anonymous && x in v.anonymous[other];
        assert other in u'.anonymous && x in u'.anonymous[other];
      } else {
        assert source in u'.anonymous && x in u'.anonymous[source];
      }
    }
    hide Recorded;
  }

  lemma ClaimsAs(u: Update, u': Update)
    requires ClaimedFromFree(u) && u'.base == u.base && u'.claimed == u.claimed
    ensures ClaimedFromFree(u')
  {
  }

  /** An increment stays inside its table exactly when every slot that its replaced Sources
  had recorded for anonymous enums does. */
  lemma InsideIff(u: Update)
    requires Steady(u) && !u.full
    ensures Inside(u) <==> forall source <- u.anonymous :: Within(ListAt(u.base.anonymous, source), u.next - 1)
  {
    hide HoldersSteady, ClaimedFromFree, NoDuplicates;
    if forall source <- u.anonymous :: Within(ListAt(u.base.anonymous, source), u.next - 1) {
      forall h <- u.kinds | GivesUp(u, h)
        ensures h < u.next
      {
        var source :| source in u.anonymous && h in ListAt(Before(u).anonymous, source);
        assert Within(ListAt(u.base.anonymous, source), u.next - 1);
      }
    }
  }

  lemma BoundedInside(u: Update)
    requires Steady(u) && !u.full && Bounded(u.base)
    ensures Inside(u)
  {
    hide HoldersSteady, ClaimedFromFree, KindsSteady;
    InsideIff(u);
  }

  /** What an increment that stays inside its table commits can be updated again. */
  lemma PublishedAnchored(u: Update)
    requires Steady(u) && !u.full && Inside(u)
    ensures |u.claimed| <= |u.base.free| && forall h <- u.changed :: h in u.kinds
    ensures Anchored(Published(u)) && (Bounded(u.base) ==> Bounded(Published(u)))
  {
    hide NoDuplicates, LiveFlags, GivesUp, Recorded;
    var s := Published(u);
    forall id <- s.entities
      ensures s.entities[id] <= |s.types|
    {
    }
    forall h <- s.free
      ensures 0 < h <= |s.types|
    {
      var kept := u.base.free[..|u.base.free| - |u.claimed|];
      assert h in kept ==> h in u.base.free;
    }
  }

  /** So can what any rebuild commits; all its enums lie inside exactly when no slot that was
  claimed from the old free list lies at or above the final counter. */
  lemma RebuiltAnchored(u: Update)
    requires Steady(u) && u.full
    ensures Anchored(Rebuilt(u))
    ensures Bounded(Rebuilt(u)) <==> forall h <- u.claimed :: h < u.next
  {
    hide KindsSteady, ClaimedFromFree, LiveFlags;
    var s := Rebuilt(u);
    if Bounded(s) {
      forall h <- u.claimed
        ensures h < u.next
      {
        assert Recorded(u, h);
        var source :| source in u.anonymous && h in u.anonymous[source];
        assert Within(s.anonymous[source], |s.types|);
      }
    }
  }

  /** The failure in the small: slot 1 is empty, a rebuild issues it to an entity
  by counter, and an anonymous enum then takes it from the old free list. */
  lemma RebuildSharesSlot()
    ensures var base := Slots([false], [1], map[], map[]);
            var start := Update(true, base, map[], map[], map[], [], [], 1);
            var end := AnonymousAdded(Assigned(start, 7), 3);
            && SlotsValid(base)
            && HeldNow(end, Entity(7)) == HeldNow(end, Anonymous(3, 0)) == 1
  {
    var base := Slots([false], [1], map[], map[]);
    var start := Update(true, base, map[], map[], map[], [], [], 1);
    var mid := Assigned(start, 7);
    AssignedFields(start, 7);
    assert mid.entities[7].handle == 1 && mid.claimed == [];
    assert 3 in Cleared(mid, 3).anonymous && Cleared(mid, 3).claimed == [] && Cleared(mid, 3).entities == mid.entities;
    hide Assigned, Cleared;
    assert SlotsValid(base) by {
      assert forall o :: Held(base, o) == 0;
      assert !Live(base, 1);
    }
  }

  lemma AssignedFields(u: Update, id: nat)
    ensures var v := Assigned(u, id);
            var h := v.entities[id].handle;
            && v.full == u.full && v.base == u.base && v.anonymous == u.anonymous
            && v.entities == u.entities[id := Cell(h, Touch(u, id).retained)]
            && v.kinds == u.kinds[h := Replacement] && v.changed == PushNew(u.changed, h)
  {
  }

  lemma PushedFields(v: Update, source: nat)
    requires source in v.anonymous
    ensures var w := Pushed(v, source);
            var h := NextFree(v);
            && w.full == v.full && w.base == v.base && w.entities == v.entities
            && w.anonymous == v.anonymous[source := v.anonymous[source] + [h]]
            && w.kinds == v.kinds[h := Replacement] && w.changed == PushNew(v.changed, h)
            && w.claimed == Claim(v).claimed && w.next == Claim(v).next
  {
    hide NextFree, Claim;
  }

  lemma ClearedHas(u: Update, source: nat)
    ensures source in Cleared(u, source).anonymous
  {
  }

  lemma StartsSound(u: Update)
    requires !u.full && SlotsValid(u.base) && u.next == |u.base.types| + 1
    requires u.entities == map[] && u.anonymous == map[] && u.kinds == map[] && u.changed == [] && u.claimed == []
    ensures Sound(u) && forall o :: HeldNow(u, o) == Held(u.base, o)
  {
    forall o
      ensures HeldNow(u, o) == Held(u.base, o)
    {
    }
    forall h | LiveNow(u, h)
      ensures HasHolder(u, h)
    {
      var o :| Held(u.base, o) == h;
      assert HeldNow(u, o) == h;
    }
  }

  /** The books of an update: steady, and sound or accounted for when they can be. */
  ghost predicate Books(u: Update, issued: seq<Owner>, takers: seq<Owner>) {
    && Steady(u)
    && (u.full ==> Rebuilding(u, issued, takers))
    && (!u.full && SlotsValid(u.base) ==> Sound(u))
  }

  lemma AssignedBooks(u: Update, id: nat, issued: seq<Owner>, takers: seq<Owner>) returns (more: seq<Owner>)
    requires Books(u, issued, takers)
    ensures Books(Assigned(u, id), more, takers) && (u.full ==> Assigned(u, id).claimed == u.claimed)
  {
    hide Steady, Rebuilding, Sound, SlotsValid, Assigned;
    AssignedFields(u, id);
    SteadyAssigned(u, id);
    more := issued;
    if u.full {
      more := RebuildAssigns(u, id, issued, takers);
    } else if SlotsValid(u.base) {
      AssignedSound(u, id);
    }
  }

  lemma TombstonedBooks(u: Update, id: nat, issued: seq<Owner>, takers: seq<Owner>)
    requires Books(u, issued, takers) && !u.full
    ensures Books(Tombstoned(u, id), issued, takers)
  {
    TombstonedShape(u, id);
    hide Steady, Rebuilding, Sound, SlotsValid, Tombstoned;
    SteadyTombstoned(u, id);
    if SlotsValid(u.base) {
      TombstonedSound(u, id);
    }
  }

  lemma ClearedBooks(u: Update, source: nat, issued: seq<Owner>, takers: seq<Owner>)
    requires Books(u, issued, takers)
    ensures Books(Cleared(u, source), issued, takers) && source in Cleared(u, source).anonymous
    ensures Cleared(u, source).claimed == u.claimed && Cleared(u, source).next == u.next
  {
    ClearedHas(u, source);
    ClearedFields(u, source);
    hide Steady, Rebuilding, Sound, SlotsValid, Cleared;
    SteadyCleared(u, source);
    if u.full {
      RebuildClears(u, source, issued, takers);
    } else if SlotsValid(u.base) {
      ClearedSound(u, source);
    }
  }

  lemma ClearedFields(u: Update, source: nat)
    ensures var v := Cleared(u, source);
            v.full == u.full && v.base == u.base && v.claimed == u.claimed && v.next == u.next && v.entities == u.entities
  {
  }

  lemma PushedBooks(v: Update, source: nat, issued: seq<Owner>, takers: seq<Owner>)
    returns (issued': seq<Owner>, takers': seq<Owner>)
    requires Books(v, issued, takers) && source in v.anonymous
    ensures Books(Pushed(v, source), issued', takers')
    ensures v.full ==>
              |Pushed(v, source).claimed| == if |v.claimed| < |v.base.free| then |v.claimed| + 1 else |v.claimed|
  {
    hide Steady, Rebuilding, Sound, SlotsValid, Pushed;
    PushedFields(v, source);
    SteadyPushed(v, source);
    issued', takers' := issued, takers;
    if v.full {
      issued', takers' := RebuildPushes(v, source, issued, takers);
    } else if SlotsValid(v.base) {
      NextPushedSound(v, source);
    }
  }

  lemma BooksBounded(u: Update, issued: seq<Owner>, takers: seq<Owner>)
    requires Books(u, issued, takers)
    ensures Steady(u) && |u.claimed| <= |u.base.free| && u.next > 0
    ensures forall h <- u.changed :: h in u.kinds
  {
    hide NoDuplicates, HoldersSteady, GivesUp, AllTouched, Rebuilding, Sound;
  }

  /** What publication makes of an increment that stays inside its table. */
  lemma PublishedBooks(u: Update, issued: seq<Owner>, takers: seq<Owner>)
    requires Books(u, issued, takers) && !u.full && Inside(u)
    ensures |u.claimed| <= |u.base.free| && u.next > 0 && forall h <- u.changed :: h in u.kinds
    ensures Anchored(Published(u)) && (Bounded(u.base) ==> Bounded(Published(u)))
    ensures SlotsValid(u.base) ==> SlotsValid(Published(u)) && forall o :: Held(Published(u), o) == HeldNow(u, o)
  {
    BooksBounded(u, issued, takers);
    hide Steady, Inside, Sound, SlotsValid, Published, Anchored, Bounded, HeldNow, Held;
    PublishedAnchored(u);
    if SlotsValid(u.base) {
      PublishedValid(u);
    }
  }

  /** What publication makes of a rebuild. */
  lemma RebuiltBooks(u: Update, issued: seq<Owner>, takers: seq<Owner>)
    requires Books(u, issued, takers) && u.full
    ensures u.next > 0 && Anchored(Rebuilt(u))
    ensures SlotsValid(Rebuilt(u)) <==> u.claimed == []
    ensures Bounded(Rebuilt(u)) <==> forall h <- u.claimed :: h < u.next
  {
    BooksBounded(u, issued, takers);
    hide Steady, Rebuilding, SlotsValid, Rebuilt, Anchored, Bounded;
    RebuiltAnchored(u);
    RebuiltValidIff(u, issued, takers);
  }
}
