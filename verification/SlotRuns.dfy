/** Type slots over whole runs of updates.

An update is a list of slot operations. What a rebuild commits need not be valid, so
increments are followed here from whatever was committed: they stay inside their
tables forever exactly when no slot that the rebuild drew from the old free list lies
at or above its final counter.
 */
module SlotRuns {
  import opened Collections
  import opened TypeSlots

  datatype SlotOp =
    | Assign(id: nat)
    | Kill(id: nat)
    | Clear(source: nat)
    | Add(source: nat)

  /** A rebuild takes no declaration back, so it never comes to remove an entity. */
  function Do(u: Update, op: SlotOp): Update {
    match op
    case Assign(id) => Assigned(u, id)
    case Kill(id) => if u.full then u else Tombstoned(u, id)
    case Clear(source) => Cleared(u, source)
    case Add(source) => AnonymousAdded(u, source)
  }

  function Start(full: bool, base: Slots): Update {
    Update(full, base, map[], map[], map[], [], [], if full then 1 else |base.types| + 1)
  }

  function After(u: Update, ops: seq<SlotOp>): Update {
    if ops == [] then u else Do(After(u, ops[..|ops| - 1]), ops[|ops| - 1])
  }

  lemma StartBooks(full: bool, base: Slots)
    requires Anchored(base)
    ensures Books(Start(full, base), [], [])
  {
    var u := Start(full, base);
    StartsSteady(u);
    if !full && SlotsValid(base) {
      StartsSound(u);
    }
    if full {
      StartsRebuilding(u);
    }
  }

  lemma StartsRebuilding(u: Update)
    requires u.full && Anchored(u.base) && u.next == 1
    requires u.entities == map[] && u.anonymous == map[] && u.kinds == map[] && u.changed == [] && u.claimed == []
    ensures Rebuilding(u, [], [])
  {
  }

  lemma DoBooks(u: Update, op: SlotOp, issued: seq<Owner>, takers: seq<Owner>)
    returns (issued': seq<Owner>, takers': seq<Owner>)
    requires Books(u, issued, takers)
    ensures Books(Do(u, op), issued', takers') && Do(u, op).full == u.full && Do(u, op).base == u.base
  {
    hide Books, Assigned, Tombstoned, Cleared, Pushed;
    issued', takers' := issued, takers;
    match op {
      case Assign(id) =>
        AssignedFields(u, id);
        issued' := AssignedBooks(u, id, issued, takers);
      case Kill(id) =>
        TombstonedShape(u, id);
        if !u.full {
          TombstonedBooks(u, id, issued, takers);
        }
      case Clear(source) =>
        ClearedFields(u, source);
        ClearedBooks(u, source, issued, takers);
      case Add(source) =>
        ClearedFields(u, source);
        ClearedBooks(u, source, issued, takers);
        PushedFields(Cleared(u, source), source);
        issued', takers' := PushedBooks(Cleared(u, source), source, issued, takers);
    }
  }

  /** Every update keeps its books, whatever slots it started from. */
  lemma {:induction false} AfterBooks(full: bool, base: Slots, ops: seq<SlotOp>)
    returns (issued: seq<Owner>, takers: seq<Owner>)
    requires Anchored(base)
    ensures var u := After(Start(full, base), ops);
            Books(u, issued, takers) && u.full == full && u.base == base
    decreases |ops|
  {
    hide Books, Anchored, Do;
    if ops == [] {
      StartBooks(full, base);
      issued, takers := [], [];
    } else {
      var i, t := AfterBooks(full, base, ops[..|ops| - 1]);
      issued, takers := DoBooks(After(Start(full, base), ops[..|ops| - 1]), ops[|ops| - 1], i, t);
    }
  }

  /** What a build commits. Publication of an increment takes for granted that it is inside its table. */
  ghost predicate Commits(s: Slots, full: bool, ops: seq<SlotOp>, s': Slots) {
    var u := After(Start(full, s), ops);
    if full then u.next > 0 && s' == Rebuilt(u)
    else
      && Inside(u) && |u.claimed| <= |u.base.free| && u.next > 0 && (forall h <- u.changed :: h in u.kinds)
      && s' == Published(u)
  }

  /** Increments committed one after the other. */
  ghost predicate Increments(states: seq<Slots>, opss: seq<seq<SlotOp>>) {
    && |states| == |opss| + 1
    && forall i: nat :: i < |opss| ==> Commits(states[i], false, opss[i], states[i + 1])
  }

  lemma CommitsKeeps(s: Slots, full: bool, ops: seq<SlotOp>, s': Slots)
    requires Anchored(s) && Commits(s, full, ops, s')
    ensures Anchored(s')
    ensures !full && Bounded(s) ==> Bounded(s')
    ensures !full && SlotsValid(s) ==> SlotsValid(s')
  {
    hide Books, Anchored, Bounded, SlotsValid, Inside, Published, Rebuilt, After, Start;
    var issued, takers := AfterBooks(full, s, ops);
    var u := After(Start(full, s), ops);
    if full {
      RebuiltBooks(u, issued, takers);
    } else {
      PublishedBooks(u, issued, takers);
    }
  }

  lemma {:induction false} IncrementsBounded(states: seq<Slots>, opss: seq<seq<SlotOp>>, i: nat)
    requires Increments(states, opss) && i < |states| && Bounded(states[0])
    ensures Bounded(states[i])
  {
    hide Bounded, Commits;
    if i > 0 {
      IncrementsBounded(states, opss, i - 1);
      assert Commits(states[i - 1], false, opss[i - 1], states[i - 1 + 1]);
      BoundedIsAnchored(states[i - 1]);
      CommitsKeeps(states[i - 1], false, opss[i - 1], states[i]);
    }
  }

  lemma BoundedIsAnchored(s: Slots)
    requires Bounded(s)
    ensures Anchored(s)
  {
  }

  /** From slots whose enums lie inside the table, no increment ever leaves its table. */
  lemma IncrementsInside(states: seq<Slots>, opss: seq<seq<SlotOp>>, ops: seq<SlotOp>)
    requires Increments(states, opss) && Bounded(states[0])
    ensures Inside(After(Start(false, states[|opss|]), ops))
  {
    hide Bounded, Commits, Inside, After, Start, Anchored;
    IncrementsBounded(states, opss, |opss|);
    BoundedIsAnchored(states[|opss|]);
    var issued, takers := AfterBooks(false, states[|opss|], ops);
    BooksBounded(After(Start(false, states[|opss|]), ops), issued, takers);
    BoundedInside(After(Start(false, states[|opss|]), ops));
  }

  /** A Source with an enum beyond the table need only be replaced. */
  lemma {:induction false} BeyondTheTable(s: Slots, source: nat, h: nat)
    requires h in ListAt(s.anonymous, source) && h > |s.types|
    ensures !Inside(After(Start(false, s), [Clear(source)]))
  {
    var u := Start(false, s);
    var ops := [Clear(source)];
    assert ops[..0] == [] && After(u, []) == u;
    assert After(u, ops) == Cleared(u, source);
    ClearedShape(u, source);
    hide Cleared;
    assert h in Cleared(u, source).kinds;
  }

  /** No increment that follows a rebuild, directly or after others, leaves its table if and
  only if the rebuild claimed no slot at or above its own final counter. */
  lemma {:induction false} SafeIff(base: Slots, ops: seq<SlotOp>)
    requires Anchored(base)
    ensures var u := After(Start(true, base), ops);
            && u.next > 0
            && ((forall states: seq<Slots>, opss: seq<seq<SlotOp>>, more: seq<SlotOp> ::
                   Increments(states, opss) && states[0] == Rebuilt(u) ==> Inside(After(Start(false, states[|opss|]), more)))
                <==> forall h <- u.claimed :: h < u.next)
  {
    hide Books, Anchored, Bounded, Rebuilt, Inside, After, Start, Commits;
    var u := After(Start(true, base), ops);
    var issued, takers := AfterBooks(true, base, ops);
    RebuiltBooks(u, issued, takers);
    if Bounded(Rebuilt(u)) {
      forall states: seq<Slots>, opss: seq<seq<SlotOp>>, more: seq<SlotOp> |
        Increments(states, opss) && states[0] == Rebuilt(u)
        ensures Inside(After(Start(false, states[|opss|]), more))
      {
        IncrementsInside(states, opss, more);
      }
    } else {
      var source, h := Unbounded(Rebuilt(u));
      BeyondTheTable(Rebuilt(u), source, h);
      var none: seq<seq<SlotOp>> := [];
      assert Increments([Rebuilt(u)], none);
      assert [Rebuilt(u)][|none|] == Rebuilt(u);
    }
  }

  lemma Unbounded(s: Slots) returns (source: nat, h: nat)
    requires Anchored(s) && !Bounded(s)
    ensures h in ListAt(s.anonymous, source) && h > |s.types|
  {
    source :| source in s.anonymous && !Within(s.anonymous[source], |s.types|);
    h :| h in s.anonymous[source] && h > |s.types|;
  }

  // ----- The lost slot -----

  lemma {:induction false} OneOp(u: Update, op: SlotOp)
    ensures After(u, [op]) == Do(u, op)
  {
    assert [op][..0] == [] && After(u, []) == u;
    hide Do;
  }

  /** The rebuild that holds one anonymous enum and nothing else. */
  lemma {:induction false} DrawsOnly(base: Slots, source: nat)
    requires base.free != []
    ensures var u, h := After(Start(true, base), [Add(source)]), base.free[|base.free| - 1];
            u.claimed == [h] && u.next == 1 && u.entities == map[] && u.anonymous == map[source := [h]]
  {
    var u0 := Start(true, base);
    OneOp(u0, Add(source));
    ClearsNothing(u0, source);
    var v := u0.(anonymous := u0.anonymous[source := []]);
    hide After, Cleared, Pushed, PushNew;
    PushedFields(v, source);
    assert v.anonymous[source] == [] && [] + [NextFree(v)] == [NextFree(v)];
  }

  lemma ClearsNothing(u: Update, source: nat)
    requires u.full && source !in u.anonymous
    ensures Cleared(u, source) == u.(anonymous := u.anonymous[source := []])
  {
  }

  lemma LeavesNothing(u: Update)
    requires u.next == 1 && u.entities == map[]
    ensures Rebuilt(u) == Slots([], [], map[], u.anonymous)
  {
    assert LiveFlags(u, 0) == [] && RebuiltFree(u, 1) == [];
    assert Rebuilt(u).entities.Keys == {};
  }

  /** Some increment has freed a slot. A rebuild finds one anonymous enum and nothing else: the
  enum draws that slot and the new generation has no slot at all. The increment that drops the
  enum then touches the slot, outside its table. */
  lemma LostSlot(base: Slots, source: nat)
    requires SlotsValid(base) && base.free != []
    ensures var u, h := After(Start(true, base), [Add(source)]), base.free[|base.free| - 1];
            && u.claimed == [h] && u.next == 1
            && Rebuilt(u) == Slots([], [], map[], map[source := [h]])
            && !Inside(After(Start(false, Rebuilt(u)), [Clear(source)]))
  {
    var u, h := After(Start(true, base), [Add(source)]), base.free[|base.free| - 1];
    assert h in base.free;
    hide SlotsValid, After, Start, Rebuilt, Inside;
    DrawsOnly(base, source);
    LeavesNothing(u);
    FreeAboveZero(base);
    BeyondTheTable(Rebuilt(u), source, h);
  }

  lemma FreeAboveZero(s: Slots)
    requires SlotsValid(s)
    ensures forall h <- s.free :: 0 < h
  {
  }

  /** The smallest such slots. */
  lemma OneFreeSlot()
    ensures SlotsValid(Slots([false], [1], map[], map[]))
  {
    var base := Slots([false], [1], map[], map[]);
    assert forall o :: Held(base, o) == 0;
    assert !Live(base, 1);
  }
}
