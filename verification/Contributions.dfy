/** Per-entity counters over the contributions of all Sources.

Each Source contributes declarations and definitions of named entities. The
Graph keeps, per entity, a handful of counters so that one Source's old
contribution can be subtracted and its new one added without looking at the
others. The counters are right when they equal a recount over the contributions
that are currently in force.
 */
module Contributions {
  import opened Collections
  import opened TypeTable

  datatype EnumDefinition = EnumDefinition(underlying: BuiltinCode, values: seq<(nat, nat)>)

  datatype Contribution =
    | EnumContribution(scoped: bool, fixed: bool, underlying: BuiltinCode, definition: Option<EnumDefinition>)
    | AggregateContribution(defined: bool)

  predicate Defines(c: Contribution) {
    match c
    case EnumContribution(_, _, _, definition) => definition.Some?
    case AggregateContribution(defined) => defined
  }

  /** What build_contribution guarantees: an opaque enum has a fixed underlying
  type, a scoped enum too, and a definition records the contribution's own type. */
  predicate WellBuilt(c: Contribution) {
    c.EnumContribution? ==>
      && (c.definition.None? ==> c.fixed)
      && (c.scoped ==> c.fixed)
      && (c.definition.Some? ==> c.definition.value.underlying == c.underlying)
  }

  datatype Entry = Entry(source: nat, contribution: Contribution)

  /** The properties that the counters count. */
  datatype Criterion =
    | IsEnum | IsScoped | IsUnscoped | IsFixed | IsNonfixed | FixedAs(underlying: BuiltinCode) | DefinesEnum
    | DeclaresAggregate | DefinesAggregate

  predicate Meets(c: Contribution, criterion: Criterion) {
    match criterion
    case IsEnum => c.EnumContribution?
    case IsScoped => c.EnumContribution? && c.scoped
    case IsUnscoped => c.EnumContribution? && !c.scoped
    case IsFixed => c.EnumContribution? && c.fixed
    case IsNonfixed => c.EnumContribution? && !c.fixed
    case FixedAs(underlying) => c.EnumContribution? && c.fixed && c.underlying == underlying
    case DefinesEnum => c.EnumContribution? && c.definition.Some?
    case DeclaresAggregate => c.AggregateContribution? && !c.defined
    case DefinesAggregate => c.AggregateContribution? && c.defined
  }

  function One(c: Contribution, criterion: Criterion): nat {
    if Meets(c, criterion) then 1 else 0
  }

  /** The recount. */
  function Count(entries: seq<Entry>, criterion: Criterion): nat {
    if entries == [] then 0
    else Count(entries[..|entries| - 1], criterion) + One(entries[|entries| - 1].contribution, criterion)
  }

  function Removed(entries: seq<Entry>, i: nat): seq<Entry>
    requires i < |entries|
  {
    entries[..i] + entries[i + 1..]
  }

  lemma CountPush(entries: seq<Entry>, e: Entry, criterion: Criterion)
    ensures Count(entries + [e], criterion) == Count(entries, criterion) + One(e.contribution, criterion)
  {
    assert (entries + [e])[..|entries|] == entries;
  }

  lemma {:induction false} CountRemoved(entries: seq<Entry>, i: nat, criterion: Criterion)
    requires i < |entries|
    ensures Count(entries, criterion) == Count(Removed(entries, i), criterion) + One(entries[i].contribution, criterion)
  {
    var last := |entries| - 1;
    if i == last {
      assert Removed(entries, i) == entries[..last];
    } else {
      CountRemoved(entries[..last], i, criterion);
      assert Removed(entries, i) == Removed(entries[..last], i) + [entries[last]];
      CountPush(Removed(entries[..last], i), entries[last], criterion);
    }
  }

  lemma {:induction false} CountPositive(entries: seq<Entry>, criterion: Criterion)
    ensures Count(entries, criterion) > 0 <==> exists i :: 0 <= i < |entries| && Meets(entries[i].contribution, criterion)
  {
    if entries != [] {
      var last := |entries| - 1;
      CountPositive(entries[..last], criterion);
      if Count(entries[..last], criterion) > 0 {
        var i :| 0 <= i < last && Meets(entries[..last][i].contribution, criterion);
        assert Meets(entries[i].contribution, criterion);
      }
    }
  }

  // ----- Compatibility -----

  /** Two contributions to the same entity that may coexist. */
  predicate Compatible(a: Contribution, b: Contribution) {
    && a.EnumContribution? == b.EnumContribution?
    && !(Defines(a) && Defines(b))
    && (a.EnumContribution? ==>
          && a.scoped == b.scoped
          && a.fixed == b.fixed
          && (a.fixed ==> a.underlying == b.underlying))
  }

  ghost predicate PairwiseCompatible(entries: seq<Entry>) {
    forall i, j :: 0 <= i < j < |entries| ==> Compatible(entries[i].contribution, entries[j].contribution)
  }

  // ----- The counters -----

  /** canonical_entity_construction_state. The counters are unbounded here: the
  source's 32-bit fields count contributions that are themselves held in memory. */
  datatype Counters = Counters(
    declarations: nat, scoped: nat, unscoped: nat, fixed: nat, nonfixed: nat, definitions: nat, activeFixed: nat,
    aggregateDeclarations: nat, aggregateDefinitions: nat,
    underlying: seq<nat>, activeType: BuiltinCode,
    definitionSource: nat, definition: Option<EnumDefinition>, aggregateDefinitionSource: nat)

  function NoContributions(): (k: Counters)
    ensures |k.underlying| == BUILTIN_COUNT
  {
    Counters(0, 0, 0, 0, 0, 0, 0, 0, 0, seq(BUILTIN_COUNT, i => 0), 6, 0, None, 0)
  }

  /** Every counter equals its recount over the contributions in force. */
  ghost predicate CountsExact(k: Counters, entries: seq<Entry>) {
    && k.declarations == Count(entries, IsEnum)
    && k.scoped == Count(entries, IsScoped) && k.unscoped == Count(entries, IsUnscoped)
    && k.fixed == Count(entries, IsFixed) && k.nonfixed == Count(entries, IsNonfixed)
    && k.definitions == Count(entries, DefinesEnum)
    && k.aggregateDeclarations == Count(entries, DeclaresAggregate)
    && k.aggregateDefinitions == Count(entries, DefinesAggregate)
    && |k.underlying| == BUILTIN_COUNT
    && (forall u: BuiltinCode :: k.underlying[u] == Count(entries, FixedAs(u)))
  }

  /** The active underlying type and the remembered definition are those in force. */
  ghost predicate Remembers(k: Counters, entries: seq<Entry>) {
    && k.activeFixed == (if k.fixed > 0 then 1 else 0)
    && (forall e <- entries :: Meets(e.contribution, IsFixed) ==> e.contribution.underlying == k.activeType)
    && (forall e <- entries :: Meets(e.contribution, DefinesEnum) ==>
          k.definitionSource == e.source && k.definition == e.contribution.definition)
    && (k.definitions == 0 ==> k.definition == None && k.definitionSource == 0)
    && (forall e <- entries :: Meets(e.contribution, DefinesAggregate) ==> k.aggregateDefinitionSource == e.source)
    && (k.aggregateDefinitions == 0 ==> k.aggregateDefinitionSource == 0)
  }

  ghost predicate Exact(k: Counters, entries: seq<Entry>) {
    PairwiseCompatible(entries) && CountsExact(k, entries) && Remembers(k, entries)
  }

  /** add_delta: the counters with one more contribution, or None when it is rejected. */
  function Added(k: Counters, source: nat, c: Contribution): Option<Counters>
    requires |k.underlying| == BUILTIN_COUNT
  {
    match c
    case AggregateContribution(defined) =>
      if k.declarations > 0 then None
      else if !defined then Some(k.(aggregateDeclarations := k.aggregateDeclarations + 1))
      else if k.aggregateDefinitions > 0 then None
      else Some(k.(aggregateDefinitions := 1, aggregateDefinitionSource := source))
    case EnumContribution(scoped, fixed, underlying, definition) =>
      if k.aggregateDeclarations > 0 || k.aggregateDefinitions > 0 then None
      else if k.declarations > 0 && ((scoped && k.unscoped > 0) || (!scoped && k.scoped > 0)
                                     || (fixed && k.nonfixed > 0) || (!fixed && k.fixed > 0)) then None
      else if fixed && k.activeFixed > 0 && k.underlying[underlying] == 0 then None
      else if definition.Some? && k.definitions > 0 then None
      else
        var first := fixed && k.underlying[underlying] == 0;
        Some(k.(declarations := k.declarations + 1,
                scoped := if scoped then k.scoped + 1 else k.scoped,
                unscoped := if scoped then k.unscoped else k.unscoped + 1,
                fixed := if fixed then k.fixed + 1 else k.fixed,
                nonfixed := if fixed then k.nonfixed else k.nonfixed + 1,
                underlying := if fixed then k.underlying[underlying := k.underlying[underlying] + 1] else k.underlying,
                activeFixed := if first then k.activeFixed + 1 else k.activeFixed,
                activeType := if first then underlying else k.activeType,
                definitions := if definition.Some? then 1 else k.definitions,
                definitionSource := if definition.Some? then source else k.definitionSource,
                definition := if definition.Some? then definition else k.definition))
  }

  /** The counters that remove_delta decrements are not zero. */
  predicate CanSubtract(k: Counters, c: Contribution) {
    && |k.underlying| == BUILTIN_COUNT
    && match c
       case AggregateContribution(defined) => defined || k.aggregateDeclarations > 0
       case EnumContribution(scoped, fixed, underlying, _) =>
         && k.declarations > 0
         && (if scoped then k.scoped > 0 else k.unscoped > 0)
         && (if fixed then k.fixed > 0 && k.underlying[underlying] > 0 && k.activeFixed > 0 else k.nonfixed > 0)
  }

  /** remove_delta: the counters with one contribution less. */
  function Subtracted(k: Counters, c: Contribution): Counters
    requires CanSubtract(k, c)
  {
    match c
    case AggregateContribution(defined) =>
      if defined then k.(aggregateDefinitions := 0, aggregateDefinitionSource := 0)
      else k.(aggregateDeclarations := k.aggregateDeclarations - 1)
    case EnumContribution(scoped, fixed, underlying, definition) =>
      var last := fixed && k.underlying[underlying] == 1;
      k.(declarations := k.declarations - 1,
         scoped := if scoped then k.scoped - 1 else k.scoped,
         unscoped := if scoped then k.unscoped else k.unscoped - 1,
         fixed := if fixed then k.fixed - 1 else k.fixed,
         nonfixed := if fixed then k.nonfixed else k.nonfixed - 1,
         underlying := if fixed then k.underlying[underlying := k.underlying[underlying] - 1] else k.underlying,
         activeFixed := if last then k.activeFixed - 1 else k.activeFixed,
         definitions := if definition.Some? then 0 else k.definitions,
         definition := if definition.Some? then None else k.definition,
         definitionSource := if definition.Some? then 0 else k.definitionSource)
  }

  lemma CountMember(entries: seq<Entry>, e: Entry, criterion: Criterion)
    requires e in entries && Meets(e.contribution, criterion)
    ensures Count(entries, criterion) > 0
  {
    var i :| 0 <= i < |entries| && entries[i] == e;
    CountPositive(entries, criterion);
  }

  lemma CountWitness(entries: seq<Entry>, criterion: Criterion) returns (e: Entry)
    requires Count(entries, criterion) > 0
    ensures e in entries && Meets(e.contribution, criterion)
  {
    CountPositive(entries, criterion);
    var i :| 0 <= i < |entries| && Meets(entries[i].contribution, criterion);
    e := entries[i];
  }

  /** A new contribution is rejected only because of one it cannot coexist with. */
  lemma RejectedHasConflict(k: Counters, entries: seq<Entry>, source: nat, c: Contribution) returns (e: Entry)
    requires Exact(k, entries) && Added(k, source, c) == None
    ensures e in entries && !Compatible(e.contribution, c)
  {
    hide PairwiseCompatible;
    if c.AggregateContribution? {
      if k.declarations > 0 {
        e := CountWitness(entries, IsEnum);
      } else {
        e := CountWitness(entries, DefinesAggregate);
      }
    } else if k.aggregateDeclarations > 0 {
      e := CountWitness(entries, DeclaresAggregate);
    } else if k.aggregateDefinitions > 0 {
      e := CountWitness(entries, DefinesAggregate);
    } else if c.scoped && k.unscoped > 0 {
      e := CountWitness(entries, IsUnscoped);
    } else if !c.scoped && k.scoped > 0 {
      e := CountWitness(entries, IsScoped);
    } else if c.fixed && k.nonfixed > 0 {
      e := CountWitness(entries, IsNonfixed);
    } else if !c.fixed && k.fixed > 0 {
      e := CountWitness(entries, IsFixed);
    } else if c.fixed && k.activeFixed > 0 && k.underlying[c.underlying] == 0 {
      e := CountWitness(entries, IsFixed);
      if Meets(e.contribution, FixedAs(c.underlying)) {
        CountMember(entries, e, FixedAs(c.underlying));
      }
    } else {
      e := CountWitness(entries, DefinesEnum);
    }
  }

  /** An accepted contribution coexists with every one in force. */
  lemma AcceptedIsCompatible(k: Counters, entries: seq<Entry>, source: nat, c: Contribution, e: Entry)
    requires Exact(k, entries) && Added(k, source, c).Some? && e in entries
    ensures Compatible(e.contribution, c)
  {
    hide PairwiseCompatible;
    forall criterion | Meets(e.contribution, criterion)
      ensures Count(entries, criterion) > 0
    {
      CountMember(entries, e, criterion);
    }
    var d := e.contribution;
    assert Meets(d, IsEnum) <==> d.EnumContribution?;
    assert Meets(d, DeclaresAggregate) || Meets(d, DefinesAggregate) <==> d.AggregateContribution?;
    assert Meets(d, DefinesAggregate) || Meets(d, DefinesEnum) <==> Defines(d);
    assert d.EnumContribution? ==> (Meets(d, IsScoped) <==> d.scoped) && (Meets(d, IsUnscoped) <==> !d.scoped);
    assert d.EnumContribution? ==> (Meets(d, IsFixed) <==> d.fixed) && (Meets(d, IsNonfixed) <==> !d.fixed);
    if c.EnumContribution? && c.fixed && Count(entries, FixedAs(c.underlying)) > 0 {
      var w := CountWitness(entries, FixedAs(c.underlying));
      assert Meets(w.contribution, IsFixed);
    }
  }

  lemma AddedCounts(k: Counters, entries: seq<Entry>, source: nat, c: Contribution)
    requires CountsExact(k, entries) && Added(k, source, c).Some?
    requires c.EnumContribution? && c.definition.Some? ==> k.definitions == 0
    ensures CountsExact(Added(k, source, c).value, entries + [Entry(source, c)])
  {
    hide Count;
    var more := entries + [Entry(source, c)];
    forall u: BuiltinCode
      ensures Added(k, source, c).value.underlying[u] == Count(more, FixedAs(u))
    {
      CountPush(entries, Entry(source, c), FixedAs(u));
    }
    CountPush(entries, Entry(source, c), IsEnum);
    CountPush(entries, Entry(source, c), IsScoped);
    CountPush(entries, Entry(source, c), IsUnscoped);
    CountPush(entries, Entry(source, c), IsFixed);
    CountPush(entries, Entry(source, c), IsNonfixed);
    CountPush(entries, Entry(source, c), DefinesEnum);
    CountPush(entries, Entry(source, c), DeclaresAggregate);
    CountPush(entries, Entry(source, c), DefinesAggregate);
  }

  lemma AddedRemembers(k: Counters, entries: seq<Entry>, source: nat, c: Contribution)
    requires Exact(k, entries) && Added(k, source, c).Some?
    requires forall e <- entries :: Compatible(e.contribution, c)
    requires CountsExact(Added(k, source, c).value, entries + [Entry(source, c)])
    ensures Remembers(Added(k, source, c).value, entries + [Entry(source, c)])
  {
    hide PairwiseCompatible;
    var k' := Added(k, source, c).value;
    if c.EnumContribution? && c.fixed {
      FixedAgree(k, entries, c);
    }
    forall e <- entries
      ensures Defines(c) && c.EnumContribution? ==> !Meets(e.contribution, DefinesEnum)
      ensures Defines(c) && c.AggregateContribution? ==> !Meets(e.contribution, DefinesAggregate)
    {
    }
  }

  /** All fixed contributions share one underlying type, the active one. */
  lemma FixedAgree(k: Counters, entries: seq<Entry>, c: Contribution)
    requires Exact(k, entries) && c.EnumContribution? && c.fixed
    requires forall e <- entries :: Compatible(e.contribution, c)
    ensures k.underlying[c.underlying] == 0 ==> k.fixed == 0 && forall e <- entries :: !Meets(e.contribution, IsFixed)
    ensures k.underlying[c.underlying] > 0 ==> k.fixed > 0 && k.activeType == c.underlying
  {
    hide PairwiseCompatible;
    forall e <- entries | Meets(e.contribution, IsFixed)
      ensures k.underlying[c.underlying] > 0
    {
      CountMember(entries, e, FixedAs(c.underlying));
    }
    CountPositive(entries, IsFixed);
    if k.underlying[c.underlying] > 0 {
      var w := CountWitness(entries, FixedAs(c.underlying));
      assert Meets(w.contribution, IsFixed);
      CountMember(entries, w, IsFixed);
    }
  }

  /** Adding keeps the counters exact. */
  lemma AddedExact(k: Counters, entries: seq<Entry>, source: nat, c: Contribution)
    requires Exact(k, entries) && Added(k, source, c).Some?
    ensures Exact(Added(k, source, c).value, entries + [Entry(source, c)])
    ensures forall e <- entries :: Compatible(e.contribution, c)
  {
    hide CountsExact, Remembers;
    forall e <- entries
      ensures Compatible(e.contribution, c)
    {
      AcceptedIsCompatible(k, entries, source, c, e);
    }
    AddedCountsFrom(k, entries, source, c);
    AddedRemembers(k, entries, source, c);
  }

  lemma AddedCountsFrom(k: Counters, entries: seq<Entry>, source: nat, c: Contribution)
    requires Exact(k, entries) && Added(k, source, c).Some?
    ensures CountsExact(Added(k, source, c).value, entries + [Entry(source, c)])
  {
    hide PairwiseCompatible;
    AddedCounts(k, entries, source, c);
  }

  /** Acceptance is exactly compatibility with everything in force. */
  lemma AcceptedIffCompatible(k: Counters, entries: seq<Entry>, source: nat, c: Contribution)
    requires Exact(k, entries)
    ensures Added(k, source, c).Some? <==> forall e <- entries :: Compatible(e.contribution, c)
  {
    if Added(k, source, c).None? {
      var e := RejectedHasConflict(k, entries, source, c);
    } else {
      AddedExact(k, entries, source, c);
    }
  }

  lemma RemovedCompatible(entries: seq<Entry>, i: nat)
    requires PairwiseCompatible(entries) && i < |entries|
    ensures PairwiseCompatible(Removed(entries, i))
    ensures forall e <- Removed(entries, i) :: e in entries && Compatible(e.contribution, entries[i].contribution)
  {
    forall e <- Removed(entries, i)
      ensures e in entries && Compatible(e.contribution, entries[i].contribution)
    {
      var j :| 0 <= j < |Removed(entries, i)| && Removed(entries, i)[j] == e;
      assert e == entries[if j < i then j else j + 1];
    }
  }

  /** A contribution in force can be subtracted: no counter underflows. */
  lemma SubtractionSafe(k: Counters, entries: seq<Entry>, i: nat)
    requires Exact(k, entries) && i < |entries|
    ensures CanSubtract(k, entries[i].contribution)
  {
    hide PairwiseCompatible;
    var e := entries[i];
    forall criterion | Meets(e.contribution, criterion)
      ensures Count(entries, criterion) > 0
    {
      CountMember(entries, e, criterion);
    }
    if e.contribution.EnumContribution? {
      assert Meets(e.contribution, IsEnum);
      assert Meets(e.contribution, if e.contribution.scoped then IsScoped else IsUnscoped);
      assert Meets(e.contribution, if e.contribution.fixed then IsFixed else IsNonfixed);
      assert e.contribution.fixed ==> Meets(e.contribution, FixedAs(e.contribution.underlying));
    } else if !e.contribution.defined {
      assert Meets(e.contribution, DeclaresAggregate);
    }
  }

  /** Subtracting keeps the counters exact, and the definition removed is the one remembered. */
  lemma SubtractedExact(k: Counters, entries: seq<Entry>, i: nat)
    requires Exact(k, entries) && i < |entries|
    requires CanSubtract(k, entries[i].contribution)
    ensures Exact(Subtracted(k, entries[i].contribution), Removed(entries, i))
  {
    RemovedCompatible(entries, i);
    SubtractedCounts(k, entries, i);
    SubtractedRemembers(k, entries, i);
  }

  lemma SingleDefinition(entries: seq<Entry>, i: nat)
    requires PairwiseCompatible(entries) && i < |entries|
    ensures Meets(entries[i].contribution, DefinesEnum) ==> Count(Removed(entries, i), DefinesEnum) == 0
    ensures Meets(entries[i].contribution, DefinesAggregate) ==> Count(Removed(entries, i), DefinesAggregate) == 0
  {
    RemovedCompatible(entries, i);
    CountPositive(Removed(entries, i), DefinesEnum);
    CountPositive(Removed(entries, i), DefinesAggregate);
  }

  lemma SubtractedCounts(k: Counters, entries: seq<Entry>, i: nat)
    requires Exact(k, entries) && i < |entries| && CanSubtract(k, entries[i].contribution)
    ensures CountsExact(Subtracted(k, entries[i].contribution), Removed(entries, i))
  {
    SingleDefinition(entries, i);
    hide PairwiseCompatible, Removed;
    forall criterion
      ensures Count(Removed(entries, i), criterion) == Count(entries, criterion) - One(entries[i].contribution, criterion)
    {
      CountRemoved(entries, i, criterion);
    }
  }

  lemma SubtractedRemembers(k: Counters, entries: seq<Entry>, i: nat)
    requires Exact(k, entries) && i < |entries| && CanSubtract(k, entries[i].contribution)
    requires CountsExact(Subtracted(k, entries[i].contribution), Removed(entries, i))
    ensures Remembers(Subtracted(k, entries[i].contribution), Removed(entries, i))
  {
    var c := entries[i].contribution;
    var k' := Subtracted(k, c);
    RemovedCompatible(entries, i);
    hide PairwiseCompatible, Removed, Compatible;
    if c.EnumContribution? && c.fixed {
      assert Meets(c, IsFixed);
      assert entries[i] in entries;
      if k'.fixed > 0 {
        var w := CountWitness(Removed(entries, i), IsFixed);
        CountMember(Removed(entries, i), w, FixedAs(c.underlying));
      }
    }
    if k'.definitions > 0 {
      var w := CountWitness(Removed(entries, i), DefinesEnum);
      assert w in entries;
    }
  }
}
