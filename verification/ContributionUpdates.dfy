/** Sparse replacement of Source contributions.

The cache remembers the contributions of every Source and the counters of every
entity. An update replaces some Sources: their old contributions are subtracted
one by one, the new ones added one by one, and each touched entity is
materialized again. At every moment the counters and the materialized entities
are those of a recount over the contributions of all Sources.
 */
module ContributionUpdates {
  import opened Collections
  import opened TypeTable
  import opened Contributions
  import opened ContributionRecount

  datatype SourceRecord = SourceRecord(entity: nat, contribution: Contribution)

  type States = seq<seq<SourceRecord>>

  /** The contributions of one Source to one entity. */
  function Contributed(records: seq<SourceRecord>, source: nat, entity: nat): seq<Entry> {
    if records == [] then []
    else (if records[0].entity == entity then [Entry(source, records[0].contribution)] else [])
         + Contributed(records[1..], source, entity)
  }

  /** All contributions to one entity, Source by Source. */
  function InForce(states: States, entity: nat): seq<Entry> {
    if states == [] then []
    else
      var last := |states| - 1;
      InForce(states[..last], entity) + Contributed(states[last], last, entity)
  }

  lemma {:induction false} ContributedPush(records: seq<SourceRecord>, record: SourceRecord, source: nat, entity: nat)
    ensures Contributed(records + [record], source, entity)
         == Contributed(records, source, entity) + Contributed([record], source, entity)
  {
    if records == [] {
      assert records + [record] == [record];
    } else {
      ContributedPush(records[1..], record, source, entity);
      assert (records + [record])[1..] == records[1..] + [record];
    }
  }

  lemma InForceLast(states: States, entity: nat)
    requires states != []
    ensures multiset(InForce(states, entity))
         == multiset(InForce(states[..|states| - 1], entity))
            + multiset(Contributed(states[|states| - 1], |states| - 1, entity))
  {
  }

  lemma {:induction false} InForceReplaced(states: States, source: nat, records: seq<SourceRecord>, entity: nat)
    requires source < |states|
    ensures multiset(InForce(states[source := records], entity)) + multiset(Contributed(states[source], source, entity))
         == multiset(InForce(states, entity)) + multiset(Contributed(records, source, entity))
    decreases |states|
  {
    hide InForce, Contributed;
    var last := |states| - 1;
    var next := states[source := records];
    InForceLast(states, entity);
    InForceLast(next, entity);
    if source == last {
      assert next[..last] == states[..last];
      Exchange(multiset(InForce(states[..last], entity)), multiset(Contributed(states[source], source, entity)),
               multiset(Contributed(records, source, entity)));
    } else {
      InForceReplaced(states[..last], source, records, entity);
      assert next[..last] == states[..last][source := records];
      Carried(multiset(InForce(next[..last], entity)), multiset(InForce(states[..last], entity)),
              multiset(Contributed(states[source], source, entity)), multiset(Contributed(records, source, entity)),
              multiset(Contributed(states[last], last, entity)));
    }
  }

  lemma Exchange(base: multiset<Entry>, d: multiset<Entry>, r: multiset<Entry>)
    ensures (base + r) + d == (base + d) + r
  {
  }

  lemma Carried(a': multiset<Entry>, a: multiset<Entry>, d: multiset<Entry>, r: multiset<Entry>, c: multiset<Entry>)
    requires a' + d == a + r
    ensures (a' + c) + d == (a + c) + r
  {
    assert (a' + c) + d == (a' + d) + c;
    assert (a + c) + r == (a + r) + c;
  }

  lemma SameRest(m: multiset<Entry>, n: multiset<Entry>, x: multiset<Entry>)
    requires m + x == n + x
    ensures m == n
  {
    assert m == (m + x) - x && n == (n + x) - x;
  }

  /** Growing the vector of Source states with empty states declares nothing. */
  lemma {:induction false} InForceGrown(states: States, more: nat, entity: nat)
    ensures InForce(states + seq(more, i => []), entity) == InForce(states, entity)
    decreases more
  {
    var grown := states + seq(more, i => []);
    if more == 0 {
      assert grown == states;
    } else {
      InForceGrown(states, more - 1, entity);
      assert grown[..|grown| - 1] == states + seq(more - 1, i => []);
    }
  }

  function CountersAt(counters: map<nat, Counters>, entity: nat): Counters {
    if entity in counters then counters[entity] else NoContributions()
  }

  function EntityAt(entities: map<nat, EntityView>, entity: nat): EntityView {
    if entity in entities then entities[entity] else Absent
  }

  /** One entity agrees with the recount over all Sources. */
  ghost predicate EntityRecounted(states: States, k: Counters, view: EntityView, entity: nat) {
    && Exact(k, InForce(states, entity))
    && AllWellBuilt(InForce(states, entity))
    && (k.definitions != 0 ==> k.definition.Some?)
    && view == Materialized(k)
  }

  ghost predicate Recounted(states: States, counters: map<nat, Counters>, entities: map<nat, EntityView>) {
    forall e: nat :: EntityRecounted(states, CountersAt(counters, e), EntityAt(entities, e), e)
  }

  lemma RecountedPermuted(states: States, states': States, k: Counters, view: EntityView, entity: nat)
    requires EntityRecounted(states, k, view, entity)
    requires multiset(InForce(states', entity)) == multiset(InForce(states, entity))
    ensures EntityRecounted(states', k, view, entity)
  {
    ExactPermuted(k, InForce(states, entity), InForce(states', entity));
    assert forall e :: e in InForce(states', entity) ==> e in multiset(InForce(states', entity));
    assert forall e :: e in multiset(InForce(states, entity)) ==> e in InForce(states, entity);
  }

  lemma GrownRecounted(states: States, more: nat, counters: map<nat, Counters>, entities: map<nat, EntityView>)
    requires Recounted(states, counters, entities)
    ensures Recounted(states + seq(more, i => []), counters, entities)
  {
    hide EntityRecounted;
    forall e: nat
      ensures EntityRecounted(states + seq(more, i => []), CountersAt(counters, e), EntityAt(entities, e), e)
    {
      InForceGrown(states, more, e);
      assert EntityRecounted(states, CountersAt(counters, e), EntityAt(entities, e), e);
      RecountedPermuted(states, states + seq(more, i => []), CountersAt(counters, e), EntityAt(entities, e), e);
    }
  }

  // ----- One contribution less -----

  lemma FirstRemoved(states: States, source: nat, entity: nat)
    requires source < |states| && states[source] != []
    ensures var record := states[source][0];
            var rest := states[source := states[source][1..]];
            multiset(InForce(states, entity)) == multiset(InForce(rest, entity))
              + (if record.entity == entity then multiset{Entry(source, record.contribution)} else multiset{})
  {
    hide Contributed, InForce;
    var records := states[source];
    var m := multiset(Contributed(records[1..], source, entity));
    InForceReplaced(states, source, records[1..], entity);
    var one := if records[0].entity == entity then multiset{Entry(source, records[0].contribution)} else multiset{};
    FirstContributed(records, source, entity);
    var rest := multiset(InForce(states[source := records[1..]], entity));
    assert rest + (one + m) == (rest + one) + m;
    SameRest(rest + one, multiset(InForce(states, entity)), m);
  }

  lemma FirstContributed(records: seq<SourceRecord>, source: nat, entity: nat)
    requires records != []
    ensures multiset(Contributed(records, source, entity))
         == (if records[0].entity == entity then multiset{Entry(source, records[0].contribution)} else multiset{})
            + multiset(Contributed(records[1..], source, entity))
  {
  }

  lemma RemovedRecounted(states: States, source: nat, k: Counters, view: EntityView)
    requires source < |states| && states[source] != []
    requires EntityRecounted(states, k, view, states[source][0].entity)
    ensures CanSubtract(k, states[source][0].contribution)
    ensures var k' := Subtracted(k, states[source][0].contribution);
            && (k'.definitions != 0 ==> k'.definition.Some?)
            && EntityRecounted(states[source := states[source][1..]], k', Materialized(k'), states[source][0].entity)
  {
    hide Exact, Subtracted, Compatible;
    var record := states[source][0];
    var rest := states[source := states[source][1..]];
    var before, after := InForce(states, record.entity), InForce(rest, record.entity);
    FirstRemoved(states, source, record.entity);
    assert Entry(source, record.contribution) in multiset(before);
    var i :| 0 <= i < |before| && before[i] == Entry(source, record.contribution);
    SubtractionSafe(k, before, i);
    SubtractedExact(k, before, i);
    var k' := Subtracted(k, record.contribution);
    RemovedMultiset(before, i);
    SameRest(multiset(Removed(before, i)), multiset(after), multiset{before[i]});
    ExactPermuted(k', Removed(before, i), after);
    DefinitionRemembered(k', after);
    forall e <- after
      ensures e in before
    {
      assert e in multiset(after) && e in multiset(before);
    }
  }

  /** The other entities keep their recount when only `entity` changes. */
  lemma OneEntityChanged(states: States, states': States, counters: map<nat, Counters>, entities: map<nat, EntityView>,
                         entity: nat, k: Counters)
    requires Recounted(states, counters, entities)
    requires forall e: nat :: e != entity ==> multiset(InForce(states', e)) == multiset(InForce(states, e))
    requires k.definitions != 0 ==> k.definition.Some?
    requires EntityRecounted(states', k, Materialized(k), entity)
    ensures Recounted(states', counters[entity := k], entities[entity := Materialized(k)])
  {
    hide EntityRecounted, Materialized;
    var counters', entities' := counters[entity := k], entities[entity := Materialized(k)];
    forall e: nat
      ensures EntityRecounted(states', CountersAt(counters', e), EntityAt(entities', e), e)
    {
      if e != entity {
        assert EntityRecounted(states, CountersAt(counters, e), EntityAt(entities, e), e);
        RecountedPermuted(states, states', CountersAt(counters, e), EntityAt(entities, e), e);
      }
    }
  }

  /** remove_delta: after one subtraction everything agrees with the shorter record list. */
  lemma OneLess(states: States, source: nat, counters: map<nat, Counters>, entities: map<nat, EntityView>)
    requires source < |states| && states[source] != [] && Recounted(states, counters, entities)
    ensures var record := states[source][0];
            var k := CountersAt(counters, record.entity);
            && CanSubtract(k, record.contribution)
            && var k' := Subtracted(k, record.contribution);
            && (k'.definitions != 0 ==> k'.definition.Some?)
            && Recounted(states[source := states[source][1..]], counters[record.entity := k'],
                         entities[record.entity := Materialized(k')])
  {
    hide EntityRecounted, Subtracted, Materialized, CanSubtract, InForce;
    var record := states[source][0];
    var rest := states[source := states[source][1..]];
    var k := CountersAt(counters, record.entity);
    assert EntityRecounted(states, k, EntityAt(entities, record.entity), record.entity);
    RemovedRecounted(states, source, k, EntityAt(entities, record.entity));
    hide CountersAt, EntityAt;
    forall e: nat | e != record.entity
      ensures multiset(InForce(rest, e)) == multiset(InForce(states, e))
    {
      FirstRemoved(states, source, e);
    }
    hide Recounted;
    OneEntityChanged(states, rest, counters, entities, record.entity, Subtracted(k, record.contribution));
  }

  // ----- One contribution more -----

  lemma LastAdded(states: States, source: nat, record: SourceRecord, entity: nat)
    requires source < |states|
    ensures multiset(InForce(states[source := states[source] + [record]], entity))
         == multiset(InForce(states, entity))
              + (if record.entity == entity then multiset{Entry(source, record.contribution)} else multiset{})
  {
    var records := states[source];
    var longer := states[source := records + [record]];
    InForceReplaced(states, source, records + [record], entity);
    ContributedPush(records, record, source, entity);
    assert Contributed([record], source, entity)
        == if record.entity == entity then [Entry(source, record.contribution)] else [];
    var a, b := multiset(InForce(states, entity)), multiset(InForce(longer, entity));
    var m := multiset(Contributed(records, source, entity));
    var one := if record.entity == entity then multiset{Entry(source, record.contribution)} else multiset{};
    assert multiset(Contributed(records + [record], source, entity)) == m + one;
    SameRest(b, a + one, m);
  }

  lemma CountersShape(states: States, k: Counters, view: EntityView, entity: nat)
    requires EntityRecounted(states, k, view, entity)
    ensures |k.underlying| == BUILTIN_COUNT
  {
  }

  lemma AddedRecounted(states: States, source: nat, record: SourceRecord, k: Counters, view: EntityView)
    requires source < |states| && WellBuilt(record.contribution)
    requires EntityRecounted(states, k, view, record.entity) && |k.underlying| == BUILTIN_COUNT
    ensures Added(k, source, record.contribution).Some?
       <==> forall e <- InForce(states, record.entity) :: Compatible(e.contribution, record.contribution)
    ensures Added(k, source, record.contribution).Some? ==>
              var k' := Added(k, source, record.contribution).value;
              && (k'.definitions != 0 ==> k'.definition.Some?)
              && EntityRecounted(states[source := states[source] + [record]], k', Materialized(k'), record.entity)
  {
    hide Exact, Added, Compatible, WellBuilt;
    var entries := InForce(states, record.entity);
    AcceptedIffCompatible(k, entries, source, record.contribution);
    if Added(k, source, record.contribution).Some? {
      var k' := Added(k, source, record.contribution).value;
      var e := Entry(source, record.contribution);
      var after := InForce(states[source := states[source] + [record]], record.entity);
      AddedExact(k, entries, source, record.contribution);
      LastAdded(states, source, record, record.entity);
      assert multiset(entries + [e]) == multiset(entries) + multiset{e};
      ExactPermuted(k', entries + [e], after);
      DefinitionRemembered(k', after);
      forall f <- after
        ensures f in entries || f == e
      {
        assert f in multiset(after) && f in multiset(entries + [e]);
      }
    }
  }

  /** add_delta: accepted exactly when the contribution can coexist with those in
  force, and then everything agrees with the longer record list. */
  lemma OneMore(states: States, source: nat, record: SourceRecord, counters: map<nat, Counters>,
                entities: map<nat, EntityView>)
    requires source < |states| && WellBuilt(record.contribution) && Recounted(states, counters, entities)
    ensures |CountersAt(counters, record.entity).underlying| == BUILTIN_COUNT
    ensures Added(CountersAt(counters, record.entity), source, record.contribution).Some?
       <==> forall e <- InForce(states, record.entity) :: Compatible(e.contribution, record.contribution)
    ensures Added(CountersAt(counters, record.entity), source, record.contribution).Some? ==>
              var k' := Added(CountersAt(counters, record.entity), source, record.contribution).value;
              && (k'.definitions != 0 ==> k'.definition.Some?)
              && Recounted(states[source := states[source] + [record]], counters[record.entity := k'],
                           entities[record.entity := Materialized(k')])
  {
    hide EntityRecounted, Added, Materialized, Compatible, WellBuilt, InForce;
    var k, view := CountersAt(counters, record.entity), EntityAt(entities, record.entity);
    var longer := states[source := states[source] + [record]];
    assert EntityRecounted(states, k, view, record.entity);
    CountersShape(states, k, view, record.entity);
    AddedRecounted(states, source, record, k, view);
    hide CountersAt, EntityAt, Recounted;
    if Added(k, source, record.contribution).Some? {
      forall e: nat | e != record.entity
        ensures multiset(InForce(longer, e)) == multiset(InForce(states, e))
      {
        LastAdded(states, source, record, e);
      }
      OneEntityChanged(states, longer, counters, entities, record.entity, Added(k, source, record.contribution).value);
    }
  }

  // ----- Aggregate members are not contributions -----

  /** The member lists of the touched entities; None where the candidate holds no aggregate. */
  type Slots = map<nat, Option<seq<nat>>>

  /** materialize takes members over from an earlier candidate of the same update, and
  never from the committed slot. An entity that is absent for a moment loses them. */
  function Rematerialized(slots: Slots, entity: nat, view: EntityView): Slots {
    var kept := if entity in slots && slots[entity].Some? then slots[entity].value else [];
    slots[entity := if view.AggregateEntity? then Some(kept) else None]
  }

  /** The definition in force comes from a Source that this update replaces. */
  predicate DefinedByReplaced(k: Counters, replaced: map<nat, seq<SourceRecord>>) {
    k.aggregateDefinitions > 0 && k.aggregateDefinitionSource in replaced
  }

  /** A candidate holds what the definition in force gave in this update, or nothing. */
  ghost predicate SlotExact(k: Counters, view: EntityView, replaced: map<nat, seq<SourceRecord>>, slots: Slots,
                            given: map<nat, seq<nat>>, e: nat) {
    && (e in slots ==> (slots[e].Some? <==> view.AggregateEntity?))
    && (e in slots && slots[e].Some? ==> slots[e].value == if e in given then given[e] else [])
    && (e in given ==> e in slots && slots[e].Some? && DefinedByReplaced(k, replaced))
  }

  ghost predicate SlotsExact(counters: map<nat, Counters>, views: map<nat, EntityView>,
                             replaced: map<nat, seq<SourceRecord>>, slots: Slots, given: map<nat, seq<nat>>) {
    forall e: nat :: SlotExact(CountersAt(counters, e), EntityAt(views, e), replaced, slots, given, e)
  }

  lemma SlotsChanged(counters: map<nat, Counters>, views: map<nat, EntityView>,
                     replaced: map<nat, seq<SourceRecord>>, slots: Slots, given: map<nat, seq<nat>>,
                     entity: nat, k: Counters, view: EntityView)
    requires SlotsExact(counters, views, replaced, slots, given)
    requires entity in given ==> view.AggregateEntity? && DefinedByReplaced(k, replaced)
    ensures SlotsExact(counters[entity := k], views[entity := view], replaced, Rematerialized(slots, entity, view), given)
  {
    var counters', views' := counters[entity := k], views[entity := view];
    forall e: nat
      ensures SlotExact(CountersAt(counters', e), EntityAt(views', e), replaced, Rematerialized(slots, entity, view), given, e)
    {
      assert SlotExact(CountersAt(counters, e), EntityAt(views, e), replaced, slots, given, e);
    }
  }

  lemma SlotsWiden(counters: map<nat, Counters>, views: map<nat, EntityView>, replaced: map<nat, seq<SourceRecord>>,
                   replaced': map<nat, seq<SourceRecord>>, slots: Slots, given: map<nat, seq<nat>>)
    requires SlotsExact(counters, views, replaced, slots, given) && replaced.Keys <= replaced'.Keys
    ensures SlotsExact(counters, views, replaced', slots, given)
  {
    forall e: nat
      ensures SlotExact(CountersAt(counters, e), EntityAt(views, e), replaced', slots, given, e)
    {
      assert SlotExact(CountersAt(counters, e), EntityAt(views, e), replaced, slots, given, e);
    }
  }

  /** Giving members to a defined aggregate whose Source is being replaced. */
  lemma SlotGiven(counters: map<nat, Counters>, views: map<nat, EntityView>, replaced: map<nat, seq<SourceRecord>>,
                  slots: Slots, given: map<nat, seq<nat>>, entity: nat, members: seq<nat>)
    requires SlotsExact(counters, views, replaced, slots, given)
    requires entity in slots && slots[entity].Some? && DefinedByReplaced(CountersAt(counters, entity), replaced)
    ensures SlotsExact(counters, views, replaced, slots[entity := Some(members)], given[entity := members])
  {
    forall e: nat
      ensures SlotExact(CountersAt(counters, e), EntityAt(views, e), replaced, slots[entity := Some(members)],
                        given[entity := members], e)
    {
      assert SlotExact(CountersAt(counters, e), EntityAt(views, e), replaced, slots, given, e);
    }
  }

  /** What is taken away from an aggregate defined elsewhere is a mere declaration. */
  lemma SubtractKeepsDefinition(entries: seq<Entry>, k: Counters, source: nat, c: Contribution)
    requires Exact(k, entries) && Entry(source, c) in entries && CanSubtract(k, c)
    requires k.aggregateDefinitions > 0 && k.aggregateDefinitionSource != source
    ensures c == AggregateContribution(false)
    ensures Subtracted(k, c).aggregateDefinitions > 0 && Subtracted(k, c).definitions == k.definitions
    ensures Subtracted(k, c).aggregateDefinitionSource == k.aggregateDefinitionSource
  {
    hide Count;
    var d := CountWitness(entries, DefinesAggregate);
    var i :| 0 <= i < |entries| && entries[i] == Entry(source, c);
    var j :| 0 <= j < |entries| && entries[j] == d;
    assert i != j;
    assert Compatible(entries[if i < j then i else j].contribution, entries[if i < j then j else i].contribution);
  }

  /** Subtracting a record of a Source that is not replaced yet leaves given members alone. */
  lemma SlotsLess(states: States, source: nat, counters: map<nat, Counters>, views: map<nat, EntityView>,
                  replaced: map<nat, seq<SourceRecord>>, slots: Slots, given: map<nat, seq<nat>>)
    requires source < |states| && states[source] != [] && Recounted(states, counters, views) && source !in replaced
    requires SlotsExact(counters, views, replaced, slots, given)
    requires CanSubtract(CountersAt(counters, states[source][0].entity), states[source][0].contribution)
    requires var k := Subtracted(CountersAt(counters, states[source][0].entity), states[source][0].contribution);
             k.definitions != 0 ==> k.definition.Some?
    ensures var e := states[source][0].entity;
            var k := Subtracted(CountersAt(counters, e), states[source][0].contribution);
            SlotsExact(counters[e := k], views[e := Materialized(k)], replaced, Rematerialized(slots, e, Materialized(k)), given)
  {
    hide Exact, Subtracted, CanSubtract, CountersAt, EntityAt, InForce, Rematerialized;
    var record := states[source][0];
    var e, k := record.entity, CountersAt(counters, record.entity);
    assert EntityRecounted(states, k, EntityAt(views, e), e);
    assert SlotExact(k, EntityAt(views, e), replaced, slots, given, e);
    var less := Subtracted(k, record.contribution);
    FirstRemoved(states, source, e);
    assert Entry(source, record.contribution) in multiset(InForce(states, e));
    if e in given {
      SubtractKeepsDefinition(InForce(states, e), k, source, record.contribution);
    }
    SlotsChanged(counters, views, replaced, slots, given, e, less, Materialized(less));
  }

  /** Adding to a defined aggregate is accepted only for a mere declaration. */
  lemma SlotsMore(source: nat, record: SourceRecord, counters: map<nat, Counters>, views: map<nat, EntityView>,
                  replaced: map<nat, seq<SourceRecord>>, slots: Slots, given: map<nat, seq<nat>>)
    requires SlotsExact(counters, views, replaced, slots, given)
    requires |CountersAt(counters, record.entity).underlying| == BUILTIN_COUNT
    requires Added(CountersAt(counters, record.entity), source, record.contribution).Some?
    requires var k := Added(CountersAt(counters, record.entity), source, record.contribution).value;
             k.definitions != 0 ==> k.definition.Some?
    ensures var e := record.entity;
            var k := Added(CountersAt(counters, e), source, record.contribution).value;
            SlotsExact(counters[e := k], views[e := Materialized(k)], replaced, Rematerialized(slots, e, Materialized(k)), given)
  {
    hide CountersAt, EntityAt, Rematerialized;
    var e, k := record.entity, CountersAt(counters, record.entity);
    assert SlotExact(k, EntityAt(views, e), replaced, slots, given, e);
    var more := Added(k, source, record.contribution).value;
    SlotsChanged(counters, views, replaced, slots, given, e, more, Materialized(more));
  }

  function ListOf(members: map<nat, seq<nat>>, entity: nat): seq<nat> {
    if entity in members then members[entity] else []
  }

  /** The committed member lists overridden by those of the touched entities. */
  function PublishedMembers(members: map<nat, seq<nat>>, slots: Slots): (r: map<nat, seq<nat>>)
    ensures forall e: nat :: ListOf(r, e) ==
              if e !in slots then ListOf(members, e) else if slots[e].Some? then slots[e].value else []
  {
    map e | e in members.Keys + slots.Keys ::
      if e !in slots then members[e] else if slots[e].Some? then slots[e].value else []
  }

  /** The members of the definition in force: those its Source gave in this update
  if it was replaced, else the committed ones. */
  function MembersDue(members: map<nat, seq<nat>>, k: Counters, replaced: map<nat, seq<SourceRecord>>,
                      given: map<nat, seq<nat>>, entity: nat): seq<nat> {
    if k.aggregateDefinitions == 0 then []
    else if k.aggregateDefinitionSource in replaced then ListOf(given, entity)
    else ListOf(members, entity)
  }

  /** A Source mentions an entity in its old or in its new contributions. */
  ghost predicate Mentions(records: seq<SourceRecord>, entity: nat) {
    exists r <- records :: r.entity == entity
  }

  ghost predicate TouchedBy(base: States, full: bool, replaced: map<nat, seq<SourceRecord>>, entity: nat) {
    exists s :: s in replaced && (Mentions(CommittedRecords(base, full, s), entity) || Mentions(replaced[s], entity))
  }

  /** Every definition that a replaced Source declared again came with its members. */
  ghost predicate AllGiven(replaced: map<nat, seq<SourceRecord>>, given: map<nat, seq<nat>>) {
    forall s, r :: s in replaced && r in replaced[s] && r.contribution == AggregateContribution(true) ==> r.entity in given
  }

  /** After an update every defined aggregate has the members of its definition, except
  one that a replaced Source mentions while its defining Source is not replaced: it has none. */
  ghost predicate SurvivalExact(base: States, full: bool, counters: map<nat, Counters>,
                                replaced: map<nat, seq<SourceRecord>>, given: map<nat, seq<nat>>,
                                members: map<nat, seq<nat>>, published: map<nat, seq<nat>>) {
    forall e: nat :: CountersAt(counters, e).aggregateDefinitions > 0 ==>
      var k := CountersAt(counters, e);
      ListOf(published, e) == if TouchedBy(base, full, replaced, e) && k.aggregateDefinitionSource !in replaced then []
                              else MembersDue(members, k, replaced, given, e)
  }

  /** An aggregate keeps the members of its definition exactly when no replaced Source
  mentions it, or its defining Source is one of the replaced ones, or it had none. */
  lemma MembersSurviveIff(u: Seen, members: map<nat, seq<nat>>, e: nat)
    requires u.Valid() && AllGiven(u.replaced, u.given)
    requires CountersAt(u.counters, e).aggregateDefinitions > 0
    ensures var k := CountersAt(u.counters, e);
            ListOf(PublishedMembers(members, u.slots), e) == MembersDue(members, k, u.replaced, u.given, e)
            <==> || !TouchedBy(u.base, u.full, u.replaced, e)
                 || k.aggregateDefinitionSource in u.replaced
                 || ListOf(members, e) == []
    ensures var k := CountersAt(u.counters, e);
            TouchedBy(u.base, u.full, u.replaced, e) && k.aggregateDefinitionSource !in u.replaced ==>
              ListOf(PublishedMembers(members, u.slots), e) == []
  {
    hide CountersAt, EntityAt, InForce, TouchedBy, Exact, PublishedMembers;
    var k := CountersAt(u.counters, e);
    assert EntityRecounted(u.now, k, EntityAt(u.views, e), e);
    assert SlotExact(k, EntityAt(u.views, e), u.replaced, u.slots, u.given, e);
    if k.aggregateDefinitionSource in u.replaced {
      var s := DefinitionGiven(u.now, k, EntityAt(u.views, e), u.replaced, u.given, e);
      MentionedTouches(u.base, u.full, u.replaced, s, SourceRecord(e, AggregateContribution(true)));
    }
  }

  lemma MembersSurvive(u: Seen, members: map<nat, seq<nat>>)
    requires u.Valid() && AllGiven(u.replaced, u.given)
    ensures SurvivalExact(u.base, u.full, u.counters, u.replaced, u.given, members, PublishedMembers(members, u.slots))
  {
    hide Seen.Valid, AllGiven, TouchedBy, CountersAt, PublishedMembers, MembersDue;
    forall e: nat | CountersAt(u.counters, e).aggregateDefinitions > 0
      ensures var k := CountersAt(u.counters, e);
              ListOf(PublishedMembers(members, u.slots), e) ==
                if TouchedBy(u.base, u.full, u.replaced, e) && k.aggregateDefinitionSource !in u.replaced then []
                else MembersDue(members, k, u.replaced, u.given, e)
    {
      MembersSurviveIff(u, members, e);
    }
  }

  lemma MentionedTouches(base: States, full: bool, replaced: map<nat, seq<SourceRecord>>, s: nat, record: SourceRecord)
    requires s in replaced && record in replaced[s]
    ensures TouchedBy(base, full, replaced, record.entity)
  {
    assert Mentions(replaced[s], record.entity);
  }

  /** The definition in force is a record of its Source. */
  lemma DefinitionGiven(states: States, k: Counters, view: EntityView, replaced: map<nat, seq<SourceRecord>>,
                        given: map<nat, seq<nat>>, e: nat) returns (s: nat)
    requires EntityRecounted(states, k, view, e) && k.aggregateDefinitions > 0 && k.aggregateDefinitionSource in replaced
    requires forall x <- replaced :: x < |states| && states[x] == replaced[x]
    requires AllGiven(replaced, given)
    ensures s == k.aggregateDefinitionSource && SourceRecord(e, AggregateContribution(true)) in replaced[s]
    ensures e in given
  {
    hide Count;
    s := k.aggregateDefinitionSource;
    var d := CountWitness(InForce(states, e), DefinesAggregate);
    InForceMember(states, e, d);
  }

  lemma {:induction false} InForceMember(states: States, entity: nat, x: Entry)
    requires x in InForce(states, entity)
    ensures x.source < |states| && SourceRecord(entity, x.contribution) in states[x.source]
    decreases |states|
  {
    var last := |states| - 1;
    if x in Contributed(states[last], last, entity) {
      ContributedMember(states[last], last, entity, x);
    } else {
      InForceMember(states[..last], entity, x);
    }
  }

  lemma {:induction false} ContributedMember(records: seq<SourceRecord>, source: nat, entity: nat, x: Entry)
    requires x in Contributed(records, source, entity)
    ensures x.source == source && SourceRecord(entity, x.contribution) in records
  {
    if x !in Contributed(records[1..], source, entity) {
      assert records[0] in records;
    } else {
      ContributedMember(records[1..], source, entity, x);
    }
  }

  // ----- The committed cache and its update -----

  class ContributionCache {
    var states: States
    var counters: map<nat, Counters>
    /** The live entities of the Graph, as materialized from the counters. */
    var entities: map<nat, EntityView>
    /** The members of the committed aggregates. */
    var members: map<nat, seq<nat>>

    ghost predicate Valid()
      reads `states, `counters, `entities
    {
      Recounted(states, counters, entities)
    }

    lemma ValidFrom()
      requires Recounted(states, counters, entities)
      ensures Valid()
    {
    }

    constructor ()
      ensures Valid() && states == [] && members == map[]
    {
      states, counters, entities, members := [], map[], map[], map[];
      new;
      NothingCounted();
    }

    /** invalidate: no contribution of any Source is known. */
    method Invalidate()
      modifies this
      ensures Valid() && states == [] && members == map[]
    {
      states, counters, entities, members := [], map[], map[], map[];
      NothingCounted();
    }
  }

  /** Overriding a vector at the given positions, in their order. */
  method Override(base: States, changed: seq<nat>, candidates: map<nat, seq<SourceRecord>>) returns (r: States)
    requires forall s <- changed :: s < |base| && s in candidates
    ensures |r| == |base|
    ensures forall s: nat :: s < |r| ==> r[s] == if s in changed then candidates[s] else base[s]
  {
    r := base;
    for i := 0 to |changed|
      invariant |r| == |base|
      invariant forall s: nat :: s < |r| ==> r[s] == if s in changed[..i] then candidates[s] else base[s]
    {
      TakeNext(changed, i);
      assert changed[i] in changed;
      r := r[changed[i] := candidates[changed[i]]];
    }
    TakeAll(changed);
  }

  /** How far prepare_publish grows a vector so that every changed index fits. */
  function GrowthFor(indexes: seq<nat>, size: nat): (more: nat)
    ensures forall s <- indexes :: s < size + more
    ensures more == 0 || size + more - 1 in indexes
  {
    if indexes == [] then 0
    else
      var rest := GrowthFor(indexes[1..], size);
      assert indexes == [indexes[0]] + indexes[1..];
      if indexes[0] < size + rest then rest else indexes[0] + 1 - size
  }

  /** The state vector grown so that `source` is an index of it. */
  function Grown(states: States, source: nat): (r: States)
    ensures |r| > source && |r| >= |states|
    ensures source < |states| ==> r == states
    ensures source >= |states| ==> |r| == source + 1
    ensures forall s: nat :: s < |r| ==> r[s] == At(states, s)
  {
    if source < |states| then states else states + seq(source + 1 - |states|, i => [])
  }

  function CommittedRecords(base: States, full: bool, source: nat): seq<SourceRecord> {
    if full then [] else At(base, source)
  }

  /** The states that an update sees: replaced Sources from the update, the others as committed. */
  ghost predicate Sees(now: States, base: States, full: bool, changed: seq<nat>,
                       replaced: map<nat, seq<SourceRecord>>) {
    && |now| >= |base|
    && (forall s: nat :: s in changed <==> s in replaced)
    && (forall s <- replaced :: s < |now|)
    && (|now| == |base| || |now| - 1 in replaced)
    && (forall s: nat :: s < |now| ==> now[s] == if s in replaced then replaced[s] else CommittedRecords(base, full, s))
  }

  /** What the Sources contribute once `source` has been cleared for replacement. */
  ghost function Cleared(now: States, replaced: map<nat, seq<SourceRecord>>, source: nat): States {
    if source in replaced then now else Grown(now, source)[source := []]
  }

  lemma SeesReplaced(now: States, base: States, full: bool, changed: seq<nat>, replaced: map<nat, seq<SourceRecord>>,
                     source: nat)
    requires Sees(now, base, full, changed, replaced) && source !in replaced
    ensures Grown(now, source)[source] == CommittedRecords(base, full, source)
    ensures Sees(Grown(now, source)[source := []], base, full, changed + [source], replaced[source := []])
  {
  }

  lemma SeesPushed(now: States, base: States, full: bool, changed: seq<nat>, replaced: map<nat, seq<SourceRecord>>,
                   source: nat, record: SourceRecord)
    requires Sees(now, base, full, changed, replaced) && source in replaced
    ensures source < |now| && now[source] == replaced[source]
    ensures Sees(now[source := now[source] + [record]], base, full, changed, replaced[source := replaced[source] + [record]])
  {
  }

  lemma GrowingRecounted(states: States, source: nat, counters: map<nat, Counters>, entities: map<nat, EntityView>)
    requires Recounted(states, counters, entities)
    ensures Recounted(Grown(states, source), counters, entities)
  {
    hide Recounted;
    if source >= |states| {
      GrownRecounted(states, source + 1 - |states|, counters, entities);
    }
  }

  lemma NothingRecounted(size: nat)
    ensures Recounted(seq(size, i => []), map[], map[])
  {
    var states: States := seq(size, i => []);
    assert [] + states == states;
    forall e: nat
      ensures EntityRecounted(seq(size, i => []), CountersAt(map[], e), EntityAt(map[], e), e)
    {
      InForceGrown([], size, e);
      NothingCounted();
    }
  }

  /** The removal loop of begin_source_replacement: subtracts the old records one by one. */
  method SubtractAll(source: nat, records: seq<SourceRecord>, ghost states: States,
                     baseK: map<nat, Counters>, baseV: map<nat, EntityView>,
                     oldK: map<nat, Counters>, oldV: map<nat, EntityView>, oldSlots: Slots,
                     ghost replaced: map<nat, seq<SourceRecord>>, ghost given: map<nat, seq<nat>>)
    returns (k: map<nat, Counters>, v: map<nat, EntityView>, slots: Slots)
    requires source < |states| && states[source] == records && source !in replaced
    requires Recounted(states, baseK + oldK, baseV + oldV)
    requires SlotsExact(baseK + oldK, baseV + oldV, replaced, oldSlots, given)
    ensures Recounted(states[source := []], baseK + k, baseV + v)
    ensures SlotsExact(baseK + k, baseV + v, replaced, slots, given)
    ensures forall e: nat :: e in slots <==> e in oldSlots || Mentions(records, e)
  {
    hide Recounted, Subtracted, Materialized, CanSubtract, CountersAt, SlotsExact;
    k, v, slots := oldK, oldV, oldSlots;
    ghost var left := states;
    for i := 0 to |records|
      invariant |left| == |states| && left == states[source := records[i..]]
      invariant Recounted(left, baseK + k, baseV + v)
      invariant SlotsExact(baseK + k, baseV + v, replaced, slots, given)
      invariant forall e: nat :: e in slots <==> e in oldSlots || Mentions(records[..i], e)
    {
      OneLess(left, source, baseK + k, baseV + v);
      assert left[source][0] == records[i];
      SlotsLess(left, source, baseK + k, baseV + v, replaced, slots, given);
      MentionsNext(records, i);
      var e := records[i].entity;
      var less := Subtracted(CountersAt(baseK + k, e), records[i].contribution);
      OverrideOne(baseK, k, e, less);
      OverrideOne(baseV, v, e, Materialized(less));
      k, v := k[e := less], v[e := Materialized(less)];
      slots := Rematerialized(slots, e, Materialized(less));
      assert left[source][1..] == records[i + 1..];
      left := left[source := records[i + 1..]];
    }
    assert records[|records|..] == [];
    TakeAll(records);
  }

  lemma TouchedReplaced(base: States, full: bool, replaced: map<nat, seq<SourceRecord>>, source: nat)
    requires source !in replaced
    ensures forall e: nat :: TouchedBy(base, full, replaced[source := []], e)
                        <==> TouchedBy(base, full, replaced, e) || Mentions(CommittedRecords(base, full, source), e)
  {
    hide Mentions, CommittedRecords;
    var next := replaced[source := []];
    forall e: nat
      ensures TouchedBy(base, full, next, e)
         <==> TouchedBy(base, full, replaced, e) || Mentions(CommittedRecords(base, full, source), e)
    {
      NothingMentioned(e);
      if TouchedBy(base, full, replaced, e) {
        var s :| s in replaced && (Mentions(CommittedRecords(base, full, s), e) || Mentions(replaced[s], e));
        assert s in next && next[s] == replaced[s];
      } else if Mentions(CommittedRecords(base, full, source), e) {
        assert source in next;
      }
    }
  }

  lemma NothingMentioned(e: nat)
    ensures !Mentions([], e)
  {
  }

  lemma TouchedPushed(base: States, full: bool, replaced: map<nat, seq<SourceRecord>>, source: nat, record: SourceRecord)
    requires source in replaced
    ensures forall e: nat :: TouchedBy(base, full, replaced[source := replaced[source] + [record]], e)
                        <==> TouchedBy(base, full, replaced, e) || e == record.entity
  {
    hide CommittedRecords;
    var next := replaced[source := replaced[source] + [record]];
    forall e: nat
      ensures TouchedBy(base, full, next, e) <==> TouchedBy(base, full, replaced, e) || e == record.entity
    {
      MentionsPushed(replaced[source], record, e);
      hide Mentions;
      if TouchedBy(base, full, replaced, e) {
        var s :| s in replaced && (Mentions(CommittedRecords(base, full, s), e) || Mentions(replaced[s], e));
        assert s in next;
      } else if e == record.entity {
        assert source in next && Mentions(next[source], e);
      }
    }
  }

  lemma MentionsPushed(records: seq<SourceRecord>, record: SourceRecord, e: nat)
    ensures Mentions(records + [record], e) <==> Mentions(records, e) || e == record.entity
  {
    assert record in records + [record];
    assert forall r <- records :: r in records + [record];
  }

  /** A definition that is accepted is remembered with its Source. */
  lemma DefinitionAdded(k: Counters, source: nat, c: Contribution)
    requires |k.underlying| == BUILTIN_COUNT && Added(k, source, c).Some?
    requires var k' := Added(k, source, c).value; k'.definitions != 0 ==> k'.definition.Some?
    ensures var k' := Added(k, source, c).value;
            c == AggregateContribution(true) ==>
              && k'.aggregateDefinitions > 0 && k'.aggregateDefinitionSource == source
              && Materialized(k').AggregateEntity?
  {
  }

  /** A definition that some Source contributes is the one the counters remember. */
  lemma DefinerRemembered(states: States, counters: map<nat, Counters>, views: map<nat, EntityView>, s: nat, e: nat)
    requires Recounted(states, counters, views)
    requires s < |states| && SourceRecord(e, AggregateContribution(true)) in states[s]
    ensures CountersAt(counters, e).aggregateDefinitions > 0 && CountersAt(counters, e).aggregateDefinitionSource == s
  {
    hide Count, InForce;
    var k := CountersAt(counters, e);
    assert EntityRecounted(states, k, EntityAt(views, e), e);
    RecordInForce(states, s, e, AggregateContribution(true));
    CountMember(InForce(states, e), Entry(s, AggregateContribution(true)), DefinesAggregate);
  }

  lemma {:induction false} RecordInForce(states: States, s: nat, e: nat, c: Contribution)
    requires s < |states| && SourceRecord(e, c) in states[s]
    ensures Entry(s, c) in InForce(states, e)
    decreases |states|
  {
    var last := |states| - 1;
    if s == last {
      RecordContributed(states[s], s, e, c);
    } else {
      RecordInForce(states[..last], s, e, c);
    }
  }

  lemma {:induction false} RecordContributed(records: seq<SourceRecord>, s: nat, e: nat, c: Contribution)
    requires SourceRecord(e, c) in records
    ensures Entry(s, c) in Contributed(records, s, e)
  {
    if records[0] != SourceRecord(e, c) {
      RecordContributed(records[1..], s, e, c);
    }
  }

  lemma MentionsNext(records: seq<SourceRecord>, i: nat)
    requires i < |records|
    ensures forall e: nat :: Mentions(records[..i + 1], e) <==> Mentions(records[..i], e) || records[i].entity == e
  {
    TakeNext(records, i);
    assert records[i] in records[..i + 1];
    assert forall r <- records[..i] :: r in records[..i + 1];
  }

  /** Everything an update sees: its own tables over the committed ones. */
  datatype Seen = Seen(
    now: States, base: States, full: bool, changed: seq<nat>, replaced: map<nat, seq<SourceRecord>>,
    counters: map<nat, Counters>, views: map<nat, EntityView>, slots: Slots, given: map<nat, seq<nat>>)
  {
    ghost predicate Valid() {
      && Sees(now, base, full, changed, replaced)
      && Recounted(now, counters, views)
      && SlotsExact(counters, views, replaced, slots, given)
      && (forall e: nat :: e in slots <==> TouchedBy(base, full, replaced, e))
    }
  }

  /** What is seen after one accepted declaration of a Source that is being replaced. */
  function Declared(u: Seen, source: nat, record: SourceRecord, k: Counters): Seen
    requires source in u.replaced && source < |u.now| && (k.definitions != 0 ==> k.definition.Some?)
  {
    u.(now := u.now[source := u.now[source] + [record]],
       replaced := u.replaced[source := u.replaced[source] + [record]],
       counters := u.counters[record.entity := k], views := u.views[record.entity := Materialized(k)],
       slots := Rematerialized(u.slots, record.entity, Materialized(k)))
  }

  lemma SeenDeclared(u: Seen, source: nat, record: SourceRecord)
    requires u.Valid() && source in u.replaced && WellBuilt(record.contribution)
    ensures source < |u.now| && |CountersAt(u.counters, record.entity).underlying| == BUILTIN_COUNT
    ensures Added(CountersAt(u.counters, record.entity), source, record.contribution).Some?
       <==> forall e <- InForce(u.now, record.entity) :: Compatible(e.contribution, record.contribution)
    ensures Added(CountersAt(u.counters, record.entity), source, record.contribution).Some? ==>
              var k := Added(CountersAt(u.counters, record.entity), source, record.contribution).value;
              && (k.definitions != 0 ==> k.definition.Some?)
              && Declared(u, source, record, k).Valid()
              && (record.contribution == AggregateContribution(true) ==>
                    && record.entity in Declared(u, source, record, k).slots
                    && Declared(u, source, record, k).slots[record.entity].Some?
                    && DefinedByReplaced(k, u.replaced))
  {
    hide Recounted, Sees, Materialized, Compatible, InForce, CountersAt, SlotsExact, TouchedBy, Rematerialized;
    SeesPushed(u.now, u.base, u.full, u.changed, u.replaced, source, record);
    OneMore(u.now, source, record, u.counters, u.views);
    var more := Added(CountersAt(u.counters, record.entity), source, record.contribution);
    if more.Some? {
      var u' := Declared(u, source, record, more.value);
      SlotsMore(source, record, u.counters, u.views, u.replaced, u.slots, u.given);
      SlotsWiden(u'.counters, u'.views, u.replaced, u'.replaced, u'.slots, u.given);
      TouchedPushed(u.base, u.full, u.replaced, source, record);
      RematerializedAt(u.slots, record.entity, Materialized(more.value));
      DefinitionAdded(CountersAt(u.counters, record.entity), source, record.contribution);
      assert u'.replaced == u.replaced[source := u.replaced[source] + [record]];
      assert forall e: nat :: e in u'.slots <==> TouchedBy(u'.base, u'.full, u'.replaced, e);
      assert u'.Valid();
    }
  }

  lemma RematerializedAt(slots: Slots, entity: nat, view: EntityView)
    ensures forall e: nat :: e in Rematerialized(slots, entity, view) <==> e in slots || e == entity
    ensures view.AggregateEntity? <==> Rematerialized(slots, entity, view)[entity].Some?
  {
  }

  lemma SeenBefore(u: Seen, source: nat)
    requires u.Valid() && source !in u.replaced
    ensures Recounted(Grown(u.now, source), u.counters, u.views)
    ensures Grown(u.now, source)[source] == CommittedRecords(u.base, u.full, source)
    ensures SlotsExact(u.counters, u.views, u.replaced, u.slots, u.given)
  {
    hide Recounted, SlotsExact, TouchedBy, Sees, Grown, CommittedRecords;
    SeesReplaced(u.now, u.base, u.full, u.changed, u.replaced, source);
    GrowingRecounted(u.now, source, u.counters, u.views);
  }

  /** The committed vector grown and overridden is what the update saw. */
  lemma SeesOverridden(now: States, base: States, full: bool, changed: seq<nat>, replaced: map<nat, seq<SourceRecord>>,
                       grown: States, states: States)
    requires Sees(now, base, full, changed, replaced)
    requires |grown| == |base| + GrowthFor(changed, |base|) == |states|
    requires forall s: nat :: s < |grown| ==> grown[s] == CommittedRecords(base, full, s)
    requires forall s: nat :: s < |states| ==> states[s] == if s in changed then replaced[s] else grown[s]
    ensures states == now
  {
  }

  lemma GrownRecords(committed: States, full: bool, changed: seq<nat>, base: States, grown: States)
    requires base == if full then seq(|committed|, i => []) else committed
    requires grown == base + seq(GrowthFor(changed, |base|), i => [])
    ensures |grown| == |committed| + GrowthFor(changed, |committed|)
    ensures forall s: nat :: s < |grown| ==> grown[s] == CommittedRecords(committed, full, s)
  {
  }

  lemma SeesChanged(u: Seen)
    requires u.Valid()
    ensures Sees(u.now, u.base, u.full, u.changed, u.replaced)
    ensures Recounted(u.now, u.counters, u.views)
    ensures forall s: nat :: s in u.changed <==> s in u.replaced
  {
  }

  lemma SeenCleared(u: Seen, source: nat, k: map<nat, Counters>, v: map<nat, EntityView>, slots: Slots)
    requires u.Valid() && source !in u.replaced
    requires Recounted(Grown(u.now, source)[source := []], k, v)
    requires SlotsExact(k, v, u.replaced, slots, u.given)
    requires forall e: nat :: e in slots <==> e in u.slots || Mentions(CommittedRecords(u.base, u.full, source), e)
    ensures u.(now := Grown(u.now, source)[source := []], changed := u.changed + [source],
               replaced := u.replaced[source := []], counters := k, views := v, slots := slots).Valid()
  {
    hide Recounted, Sees, SlotsExact, TouchedBy, Grown, Mentions, CommittedRecords;
    SeesReplaced(u.now, u.base, u.full, u.changed, u.replaced, source);
    TouchedReplaced(u.base, u.full, u.replaced, source);
    SlotsWiden(k, v, u.replaced, u.replaced[source := []], slots, u.given);
  }

  lemma SeenGiven(u: Seen, entity: nat, members: seq<nat>)
    requires u.Valid() && entity in u.slots && u.slots[entity].Some?
    requires DefinedByReplaced(CountersAt(u.counters, entity), u.replaced)
    ensures u.(slots := u.slots[entity := Some(members)], given := u.given[entity := members]).Valid()
  {
    hide Recounted, Sees, SlotsExact, TouchedBy, CountersAt;
    SlotGiven(u.counters, u.views, u.replaced, u.slots, u.given, entity, members);
  }

  lemma SeenStart(base: States, full: bool, counters: map<nat, Counters>, views: map<nat, EntityView>)
    requires if full then counters == map[] && views == map[] else Recounted(base, counters, views)
    ensures Seen(if full then seq(|base|, i => []) else base, base, full, [], map[], counters, views, map[], map[]).Valid()
  {
    hide Recounted;
    if full {
      NothingRecounted(|base|);
    }
  }

  /** Records of replaced Sources after one more declaration. */
  function WithRecord(replaced: map<nat, seq<SourceRecord>>, source: nat, record: SourceRecord):
    map<nat, seq<SourceRecord>>
  {
    if source in replaced then replaced[source := replaced[source] + [record]] else replaced[source := [record]]
  }

  lemma AllGivenAfter(replaced: map<nat, seq<SourceRecord>>, given: map<nat, seq<nat>>, source: nat,
                      record: SourceRecord, given': map<nat, seq<nat>>)
    requires AllGiven(replaced, given) && given.Keys <= given'.Keys
    requires record.contribution == AggregateContribution(true) ==> record.entity in given'
    ensures AllGiven(WithRecord(replaced, source, record), given')
  {
    var next := WithRecord(replaced, source, record);
    forall s: nat, r: SourceRecord | s in next && r in next[s] && r.contribution == AggregateContribution(true)
      ensures r.entity in given'
    {
      if r != record {
        assert s in replaced && r in replaced[s];
        assert r.entity in given.Keys;
      }
    }
  }

  class ContributionUpdate {
    const owner: ContributionCache
    const full: bool
    var changed: seq<nat>
    var replaced: map<nat, seq<SourceRecord>>
    var counters: map<nat, Counters>
    var entities: map<nat, EntityView>
    /** The member lists of the candidate types. */
    var slots: Slots
    var failed: bool
    var committed: bool
    /** The contributions of all Sources as this update sees them. */
    ghost var now: States
    /** The members that came with a definition in this update. */
    ghost var given: map<nat, seq<nat>>

    function BaseCounters(): map<nat, Counters>
      reads owner`counters
    {
      if full then map[] else owner.counters
    }

    function BaseEntities(): map<nat, EntityView>
      reads owner`entities
    {
      if full then map[] else owner.entities
    }

    function BaseMembers(): map<nat, seq<nat>>
      reads owner`members
    {
      if full then map[] else owner.members
    }

    /** The counters as this update sees them: its own over the committed ones. */
    function Counted(): map<nat, Counters>
      reads `counters, owner`counters
    {
      BaseCounters() + counters
    }

    function Entities(): map<nat, EntityView>
      reads `entities, owner`entities
    {
      BaseEntities() + entities
    }

    ghost function AsSeen(): Seen
      reads `changed, `replaced, `counters, `entities, `slots, `now, `given, owner
    {
      Seen(now, owner.states, full, changed, replaced, Counted(), Entities(), slots, given)
    }

    ghost predicate Valid()
      reads `changed, `replaced, `counters, `entities, `slots, `now, `given, `committed, owner
    {
      !committed && AsSeen().Valid()
    }

    constructor (cache: ContributionCache, reconstruct: bool)
      requires cache.Valid()
      ensures Valid() && fresh(this) && owner == cache && full == reconstruct && replaced == map[] && !failed
      ensures !full ==> now == cache.states
      ensures AllGiven(replaced, given)
    {
      owner, full := cache, reconstruct;
      changed, replaced, counters, entities := [], map[], map[], map[];
      slots, given := map[], map[];
      failed, committed := false, false;
      now := if reconstruct then seq(|cache.states|, i => []) else cache.states;
      new;
      hide Recounted, Seen.Valid;
      SeenStart(owner.states, full, BaseCounters(), BaseEntities());
      assert Counted() == BaseCounters() && Entities() == BaseEntities();
    }

    /** begin_source_replacement: idempotent; the old contributions no longer count. */
    method BeginSourceReplacement(source: nat) returns (ok: bool)
      requires Valid()
      modifies this
      ensures Valid()
      ensures ok <==> !old(failed) && source != 0
      ensures ok ==> !failed && source in replaced && now == Cleared(old(now), old(replaced), source)
      ensures ok ==> replaced == if source in old(replaced) then old(replaced) else old(replaced)[source := []]
      ensures !ok ==> failed && now == old(now) && replaced == old(replaced)
      ensures given == old(given) && (old(AllGiven(replaced, given)) ==> AllGiven(replaced, given))
    {
      hide Recounted, Sees, Grown, SlotsExact, TouchedBy, CommittedRecords, Mentions;
      if failed || source == 0 {
        failed := true;
        return false;
      }
      if source in replaced {
        return true;
      }
      ghost var u := AsSeen();
      SeenBefore(u, source);
      hide Seen.Valid;
      var previous := CommittedRecords(owner.states, full, source);
      var k, v, s := SubtractAll(source, previous, Grown(now, source), BaseCounters(), BaseEntities(), counters, entities,
                                 slots, replaced, given);
      SeenCleared(u, source, BaseCounters() + k, BaseEntities() + v, s);
      counters, entities, slots := k, v, s;
      changed, replaced := changed + [source], replaced[source := []];
      now := Grown(now, source)[source := []];
      return true;
    }

    /** add_delta, the record of it and materialize, for a Source that is being replaced. */
    method AddDelta(source: nat, entity: nat, c: Contribution) returns (ok: bool)
      requires Valid() && WellBuilt(c) && source in replaced
      modifies this`now, this`replaced, this`counters, this`entities, this`slots, this`failed
      ensures Valid() && source < |old(now)|
      ensures ok <==> forall e <- InForce(old(now), entity) :: Compatible(e.contribution, c)
      ensures ok ==> failed == old(failed)
      ensures ok ==> now == old(now)[source := old(now)[source] + [SourceRecord(entity, c)]]
      ensures ok ==> replaced == old(replaced)[source := old(replaced)[source] + [SourceRecord(entity, c)]]
      ensures !ok ==> failed
      ensures ok && c == AggregateContribution(true) ==>
                && entity in slots && slots[entity].Some?
                && DefinedByReplaced(CountersAt(Counted(), entity), replaced)
    {
      hide *;
      var record := SourceRecord(entity, c);
      SeenFields();
      DeltaAccepted(AsSeen(), BaseCounters(), counters, BaseEntities(), entities, source, record);
      var more := Added(CountersAt(Counted(), entity), source, c);
      if more.None? {
        failed := true;
        return false;
      }
      ok := true;
      var view := Materialized(more.value);
      counters, entities := counters[entity := more.value], entities[entity := view];
      slots := Rematerialized(slots, entity, view);
      replaced := replaced[source := replaced[source] + [record]];
      now := now[source := now[source] + [record]];
      SeenFields();
    }

    /** declare_named_enum and declare_named_type, once the name has its entity:
    accepted exactly when the contribution can coexist with every one in force. */
    method Declare(source: nat, entity: nat, c: Contribution) returns (ok: bool)
      requires Valid() && WellBuilt(c)
      modifies this
      ensures Valid()
      ensures ok <==> !old(failed) && source != 0
                      && forall e <- InForce(Cleared(old(now), old(replaced), source), entity) :: Compatible(e.contribution, c)
      ensures ok ==>
                var cleared := Cleared(old(now), old(replaced), source);
                && !failed && source in replaced && source < |cleared|
                && now == cleared[source := cleared[source] + [SourceRecord(entity, c)]]
                && replaced == WithRecord(old(replaced), source, SourceRecord(entity, c))
      ensures !ok ==> failed || source == 0
      ensures given == old(given)
      ensures ok && old(AllGiven(replaced, given)) && c != AggregateContribution(true) ==> AllGiven(replaced, given)
      ensures ok && c == AggregateContribution(true) ==>
                && entity in slots && slots[entity].Some?
                && DefinedByReplaced(CountersAt(Counted(), entity), replaced)
    {
      hide *;
      if source == 0 {
        return false;
      }
      ok := BeginSourceReplacement(source);
      if !ok {
        return;
      }
      ok := AddDelta(source, entity, c);
      NewRecords(old(replaced), replaced, source, SourceRecord(entity, c));
      if ok && old(AllGiven(replaced, given)) && c != AggregateContribution(true) {
        AllGivenAfter(old(replaced), given, source, SourceRecord(entity, c), given);
      }
    }

    lemma SeenFields()
      ensures AsSeen() == Seen(now, owner.states, full, changed, replaced, BaseCounters() + counters,
                               BaseEntities() + entities, slots, given)
      ensures Counted() == BaseCounters() + counters
      ensures Entities() == BaseEntities() + entities
      ensures Valid() <==> !committed && AsSeen().Valid()
    {
      hide Seen.Valid;
    }

    /** build_aggregate: a declaration and, when it defines the aggregate, its members
    right after it. define_members asks for a candidate whose definition is pending. */
    method PublishAggregate(source: nat, entity: nat, defined: bool, memberList: seq<nat>) returns (ok: bool)
      requires Valid()
      modifies this
      ensures Valid()
      ensures ok <==> !old(failed) && source != 0
                      && (forall e <- InForce(Cleared(old(now), old(replaced), source), entity) ::
                            Compatible(e.contribution, AggregateContribution(defined)))
      ensures ok ==>
                var cleared := Cleared(old(now), old(replaced), source);
                && !failed && source in replaced && source < |cleared|
                && now == cleared[source := cleared[source] + [SourceRecord(entity, AggregateContribution(defined))]]
                && replaced == WithRecord(old(replaced), source, SourceRecord(entity, AggregateContribution(defined)))
      ensures given == if ok && defined then old(given)[entity := memberList] else old(given)
      ensures ok && old(AllGiven(replaced, given)) ==> AllGiven(replaced, given)
    {
      hide Seen.Valid, InForce, Cleared, CountersAt, Compatible, AllGiven, WithRecord, DefinedByReplaced;
      ghost var keeps := AllGiven(replaced, given);
      ok := Declare(source, entity, AggregateContribution(defined));
      if !ok {
        return;
      }
      if defined {
        SeenGiven(AsSeen(), entity, memberList);
        slots := slots[entity := Some(memberList)];
        given := given[entity := memberList];
      }
      if keeps {
        AllGivenAfter(old(replaced), old(given), source, SourceRecord(entity, AggregateContribution(defined)), given);
      }
    }

    /** publish_prepared: the cache now holds what the update saw, and is exact. An
    aggregate keeps the members of its definition exactly when no replaced Source
    mentions it, or its defining Source is replaced too, or it had none. */
    method Publish()
      requires Valid() && !failed
      modifies this, owner
      ensures committed && replaced == old(replaced) && given == old(given)
      ensures owner.Valid()
      ensures owner.states == old(now)
      ensures owner.counters == old(Counted()) && owner.entities == old(Entities())
      ensures old(AllGiven(replaced, given)) ==>
                SurvivalExact(old(owner.states), full, owner.counters, replaced, given, old(BaseMembers()), owner.members)
    {
      hide *;
      SeenFields();
      SeesChanged(AsSeen());
      if AllGiven(replaced, given) {
        MembersSurvive(AsSeen(), BaseMembers());
      }
      var states := CandidateStates();
      var k, v, m := Counted(), Entities(), PublishedMembers(BaseMembers(), slots);
      owner.counters, owner.entities, owner.members, owner.states := k, v, m, states;
      committed := true;
      owner.ValidFrom();
    }

    /** cancel: nothing of this update is published any more. */
    method Cancel()
      requires Valid()
      modifies this`failed
      ensures Valid() && failed
    {
      hide Seen.Valid;
      failed := true;
    }

    /** The committed vector of Source states, grown and with the replaced ones swapped in. */
    method CandidateStates() returns (states: States)
      requires Valid()
      ensures states == now
    {
      hide Recounted, Sees, SlotsExact, TouchedBy, CommittedRecords;
      var base := owner.states;
      if full {
        base := seq(|base|, i => []);
      }
      ghost var before := base;
      base := base + seq(GrowthFor(changed, |base|), i => []);
      GrownRecords(owner.states, full, changed, before, base);
      SeesChanged(AsSeen());
      states := Override(base, changed, replaced);
      SeesOverridden(now, owner.states, full, changed, replaced, base, states);
    }
  }

  /** One accepted contribution, told through the tables that an update keeps over the committed ones. */
  lemma DeltaAccepted(u: Seen, baseK: map<nat, Counters>, ownK: map<nat, Counters>, baseV: map<nat, EntityView>,
                      ownV: map<nat, EntityView>, source: nat, record: SourceRecord)
    requires u.Valid() && source in u.replaced && WellBuilt(record.contribution)
    requires u.counters == baseK + ownK && u.views == baseV + ownV
    ensures source < |u.now| && |CountersAt(u.counters, record.entity).underlying| == BUILTIN_COUNT
    ensures Added(CountersAt(u.counters, record.entity), source, record.contribution).Some?
       <==> forall e <- InForce(u.now, record.entity) :: Compatible(e.contribution, record.contribution)
    ensures Added(CountersAt(u.counters, record.entity), source, record.contribution).Some? ==>
              var k := Added(CountersAt(u.counters, record.entity), source, record.contribution).value;
              && (k.definitions != 0 ==> k.definition.Some?)
              && var view := Materialized(k);
              var slots := Rematerialized(u.slots, record.entity, view);
              var replaced := u.replaced[source := u.replaced[source] + [record]];
              && Seen(u.now[source := u.now[source] + [record]], u.base, u.full, u.changed, replaced,
                      baseK + ownK[record.entity := k], baseV + ownV[record.entity := view], slots, u.given).Valid()
              && (record.contribution == AggregateContribution(true) ==>
                    && record.entity in slots && slots[record.entity].Some?
                    && DefinedByReplaced(CountersAt(baseK + ownK[record.entity := k], record.entity), replaced))
  {
    hide Seen.Valid, Compatible, InForce, Added, WellBuilt, Materialized, Rematerialized;
    SeenDeclared(u, source, record);
    var more := Added(CountersAt(u.counters, record.entity), source, record.contribution);
    if more.Some? {
      OverrideOne(baseK, ownK, record.entity, more.value);
      OverrideOne(baseV, ownV, record.entity, Materialized(more.value));
    }
  }

  lemma NewRecords(before: map<nat, seq<SourceRecord>>, after: map<nat, seq<SourceRecord>>, source: nat,
                   record: SourceRecord)
    ensures (var cleared := if source in before then before else before[source := []];
             after == cleared[source := cleared[source] + [record]]) ==> after == WithRecord(before, source, record)
  {
    assert [] + [record] == [record];
  }

  /** Whatever sequence of replacements led here, a rebuild that counts the same
  contributions from nothing, in any order, accepts them and materializes the
  same entity with the same definition source. */
  lemma CacheAgreesWithRebuild(states: States, counters: map<nat, Counters>, entities: map<nat, EntityView>,
                               entity: nat, order: seq<Entry>)
    requires Recounted(states, counters, entities)
    requires multiset(order) == multiset(InForce(states, entity))
    ensures AddedAll(NoContributions(), order).Some?
    ensures var k := AddedAll(NoContributions(), order).value;
            && (k.definitions != 0 ==> k.definition.Some?)
            && EntityAt(entities, entity) == Materialized(k)
            && Declares(InForce(states, entity), EntityAt(entities, entity))
            && CountersAt(counters, entity).definitionSource == k.definitionSource
            && CountersAt(counters, entity).aggregateDefinitionSource == k.aggregateDefinitionSource
  {
    var k := CountersAt(counters, entity);
    assert EntityRecounted(states, k, EntityAt(entities, entity), entity);
    RebuildAgrees(k, InForce(states, entity), order);
    MaterializedIsDeclared(k, InForce(states, entity));
  }

  /** A concrete loss: Source 1 defines an aggregate with a member; when Source 2, which
  only declares it, is replaced, the member is gone and the definition still in force. */
  method MembersLost() returns (cache: ContributionCache)
    ensures fresh(cache) && cache.Valid()
    ensures CountersAt(cache.counters, 5).aggregateDefinitions > 0
    ensures CountersAt(cache.counters, 5).aggregateDefinitionSource == 1 && ListOf(cache.members, 5) == []
  {
    hide Recounted, TouchedBy, InForce, CountersAt, Seen.Valid, Cleared, WithRecord, ContributionUpdate.Valid,
         ContributionUpdate.Counted, ContributionUpdate.Entities;
    cache := new ContributionCache();
    var first := new ContributionUpdate(cache, false);
    FirstDefinition(first.now);
    var ok := first.PublishAggregate(1, 5, true, [7]);
    first.Publish();
    DefinerRemembered(cache.states, cache.counters, cache.entities, 1, 5);
    var second := new ContributionUpdate(cache, false);
    OneDeclaration(second.now);
    ok := second.PublishAggregate(2, 5, false, []);
    MentionedTouches(cache.states, false, second.replaced, 2, SourceRecord(5, AggregateContribution(false)));
    second.Publish();
    DefinerRemembered(cache.states, cache.counters, cache.entities, 1, 5);
  }

  lemma FirstDefinition(now: States)
    requires now == []
    ensures InForce(Cleared(now, map[], 1), 5) == []
    ensures var c := Cleared(now, map[], 1);
            |c| == 2 && c[1 := c[1] + [SourceRecord(5, AggregateContribution(true))]] == [[], [SourceRecord(5, AggregateContribution(true))]]
    ensures WithRecord(map[], 1, SourceRecord(5, AggregateContribution(true))) == map[1 := [SourceRecord(5, AggregateContribution(true))]]
  {
    var c, record := Cleared(now, map[], 1), SourceRecord(5, AggregateContribution(true));
    assert c == [[], []] && c[1] + [record] == [record];
    NobodyInForce(Cleared(now, map[], 1), 5);
  }

  lemma OneDeclaration(now: States)
    requires now == [[], [SourceRecord(5, AggregateContribution(true))]]
    ensures var c := Cleared(now, map[], 2); |c| == 3 && c[1] == now[1]
    ensures WithRecord(map[], 2, SourceRecord(5, AggregateContribution(false))) == map[2 := [SourceRecord(5, AggregateContribution(false))]]
    ensures forall e <- InForce(Cleared(now, map[], 2), 5) :: e.contribution == AggregateContribution(true)
  {
    forall e <- InForce(Cleared(now, map[], 2), 5)
      ensures e.contribution == AggregateContribution(true)
    {
      InForceMember(Cleared(now, map[], 2), 5, e);
    }
  }

  lemma NobodyInForce(states: States, e: nat)
    requires forall s: nat :: s < |states| ==> states[s] == []
    ensures InForce(states, e) == []
  {
    if InForce(states, e) != [] {
      var x := InForce(states, e)[0];
      InForceMember(states, e, x);
      assert false;
    }
  }
}
