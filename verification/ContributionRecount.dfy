/** What the counters of one entity determine, whatever the order in which the
contributions were counted.
 */
module ContributionRecount {
  import opened Collections
  import opened TypeTable
  import opened Contributions

  /** What a Graph generation says about one entity. */
  datatype EntityView =
    | Absent
    | AggregateEntity(defined: bool)
    | EnumEntity(scoped: bool, fixed: bool, underlying: BuiltinCode, definition: Option<EnumDefinition>)

  /** The entity that a set of contributions declares, told without counters. */
  ghost predicate Declares(entries: seq<Entry>, view: EntityView) {
    match view
    case Absent => entries == []
    case AggregateEntity(defined) =>
      && entries != []
      && (forall e <- entries :: e.contribution.AggregateContribution?)
      && (defined <==> exists e :: e in entries && Meets(e.contribution, DefinesAggregate))
    case EnumEntity(scoped, fixed, underlying, definition) =>
      && entries != []
      && (forall e <- entries ::
            && e.contribution.EnumContribution?
            && e.contribution.scoped == scoped && e.contribution.fixed == fixed
            && (fixed ==> e.contribution.underlying == underlying))
      && (if definition.Some?
          then exists e :: e in entries && Meets(e.contribution, DefinesEnum)
                        && e.contribution.definition == definition && e.contribution.underlying == underlying
          else forall e <- entries :: !Meets(e.contribution, DefinesEnum))
  }

  ghost predicate AllWellBuilt(entries: seq<Entry>) {
    forall e <- entries :: WellBuilt(e.contribution)
  }

  /** materialize: the entity read off its counters. */
  function Materialized(k: Counters): EntityView
    requires k.definitions != 0 ==> k.definition.Some?
  {
    if k.declarations == 0 && k.aggregateDeclarations == 0 && k.aggregateDefinitions == 0 then Absent
    else if k.aggregateDeclarations != 0 || k.aggregateDefinitions != 0 then
      AggregateEntity(k.aggregateDefinitions != 0)
    else
      var defined := k.definitions != 0;
      EnumEntity(k.scoped != 0, k.fixed != 0,
                 if defined then k.definition.value.underlying else k.activeType,
                 if defined then k.definition else None)
  }

  lemma DefinitionRemembered(k: Counters, entries: seq<Entry>)
    requires Exact(k, entries)
    ensures k.definitions != 0 ==> k.definition.Some?
    ensures k.aggregateDefinitions <= 1 && k.definitions <= 1
  {
    hide PairwiseCompatible;
    if k.definitions != 0 {
      var e := CountWitness(entries, DefinesEnum);
      AtMostOne(entries, e, DefinesEnum);
    }
    if k.aggregateDefinitions != 0 {
      var e := CountWitness(entries, DefinesAggregate);
      AtMostOne(entries, e, DefinesAggregate);
    }
  }

  lemma AtMostOne(entries: seq<Entry>, e: Entry, criterion: Criterion)
    requires PairwiseCompatible(entries) && e in entries && Meets(e.contribution, criterion)
    requires criterion == DefinesEnum || criterion == DefinesAggregate
    ensures Count(entries, criterion) == 1
  {
    var i :| 0 <= i < |entries| && entries[i] == e;
    SingleDefinition(entries, i);
    CountRemoved(entries, i, criterion);
  }

  /** The materialized entity is the one that the contributions declare. */
  lemma MaterializedIsDeclared(k: Counters, entries: seq<Entry>)
    requires Exact(k, entries) && AllWellBuilt(entries)
    requires k.definitions != 0 ==> k.definition.Some?
    ensures Declares(entries, Materialized(k))
  {
    hide Count;
    if Materialized(k) == Absent {
      forall e <- entries
        ensures false
      {
        CountMember(entries, e, if e.contribution.EnumContribution? then IsEnum
                                else if e.contribution.defined then DefinesAggregate else DeclaresAggregate);
      }
      EmptyWhenNoElement(entries);
    } else if Materialized(k).AggregateEntity? {
      AggregateIsDeclared(k, entries);
    } else {
      EnumIsDeclared(k, entries);
    }
  }

  lemma AggregateIsDeclared(k: Counters, entries: seq<Entry>)
    requires Exact(k, entries) && (k.aggregateDeclarations != 0 || k.aggregateDefinitions != 0)
    ensures Declares(entries, AggregateEntity(k.aggregateDefinitions != 0))
  {
    var w := CountWitness(entries, if k.aggregateDefinitions != 0 then DefinesAggregate else DeclaresAggregate);
    SameKind(entries, w);
    forall e <- entries | Meets(e.contribution, DefinesAggregate)
      ensures k.aggregateDefinitions != 0
    {
      CountMember(entries, e, DefinesAggregate);
    }
  }

  lemma SameKind(entries: seq<Entry>, w: Entry)
    requires PairwiseCompatible(entries) && w in entries
    ensures forall e <- entries :: e.contribution.EnumContribution? == w.contribution.EnumContribution?
    ensures w.contribution.EnumContribution? ==>
              forall e <- entries ::
                && e.contribution.scoped == w.contribution.scoped
                && e.contribution.fixed == w.contribution.fixed
                && (w.contribution.fixed ==> e.contribution.underlying == w.contribution.underlying)
  {
    var i :| 0 <= i < |entries| && entries[i] == w;
    forall e <- entries
      ensures e == w || Compatible(e.contribution, w.contribution) || Compatible(w.contribution, e.contribution)
    {
      var j :| 0 <= j < |entries| && entries[j] == e;
      assert j < i ==> Compatible(entries[j].contribution, entries[i].contribution);
      assert i < j ==> Compatible(entries[i].contribution, entries[j].contribution);
    }
  }

  lemma EnumIsDeclared(k: Counters, entries: seq<Entry>)
    requires Exact(k, entries) && AllWellBuilt(entries)
    requires k.definitions != 0 ==> k.definition.Some?
    requires k.aggregateDeclarations == 0 && k.aggregateDefinitions == 0 && k.declarations != 0
    ensures Declares(entries, Materialized(k))
  {
    var w := CountWitness(entries, IsEnum);
    SameKind(entries, w);
    hide PairwiseCompatible;
    if w.contribution.scoped {
      CountMember(entries, w, IsScoped);
    } else if k.scoped != 0 {
      var e := CountWitness(entries, IsScoped);
    }
    if w.contribution.fixed {
      CountMember(entries, w, IsFixed);
    } else if k.fixed != 0 {
      var e := CountWitness(entries, IsFixed);
    }
    forall e <- entries | Meets(e.contribution, DefinesEnum)
      ensures k.definitions != 0
    {
      CountMember(entries, e, DefinesEnum);
    }
    if k.definitions != 0 {
      var e := CountWitness(entries, DefinesEnum);
      assert WellBuilt(e.contribution);
    }
  }

  // ----- Order of contributions does not matter -----

  lemma RemovedMultiset(entries: seq<Entry>, i: nat)
    requires i < |entries|
    ensures multiset(entries) == multiset(Removed(entries, i)) + multiset{entries[i]}
  {
    assert entries == entries[..i] + [entries[i]] + entries[i + 1..];
  }

  lemma PermutedRest(a: seq<Entry>, b: seq<Entry>, i: nat)
    requires a != [] && i < |b| && b[i] == a[|a| - 1]
    requires multiset(a) == multiset(b)
    ensures multiset(a[..|a| - 1]) == multiset(Removed(b, i))
  {
    RemovedMultiset(a, |a| - 1);
    RemovedMultiset(b, i);
    assert Removed(a, |a| - 1) == a[..|a| - 1];
    var m, n, x := multiset(Removed(a, |a| - 1)), multiset(Removed(b, i)), multiset{b[i]};
    assert m == (m + x) - x && n == (n + x) - x;
  }

  lemma {:induction false} CountPermuted(a: seq<Entry>, b: seq<Entry>, criterion: Criterion)
    requires multiset(a) == multiset(b)
    ensures Count(a, criterion) == Count(b, criterion)
    decreases |a|
  {
    if a == [] {
      assert |multiset(b)| == 0;
    } else {
      var last := |a| - 1;
      assert a[last] in multiset(a);
      var i :| 0 <= i < |b| && b[i] == a[last];
      CountRemoved(b, i, criterion);
      PermutedRest(a, b, i);
      CountPermuted(a[..last], Removed(b, i), criterion);
    }
  }

  /** Compatibility of every two contributions, told of the collection without its order. */
  ghost predicate Coexist(m: multiset<Entry>) {
    forall e, f :: e in m && f in m - multiset{e} ==> Compatible(e.contribution, f.contribution)
  }

  lemma CoexistIffPairwise(entries: seq<Entry>)
    ensures Coexist(multiset(entries)) <==> PairwiseCompatible(entries)
  {
    if Coexist(multiset(entries)) {
      forall i, j | 0 <= i < j < |entries|
        ensures Compatible(entries[i].contribution, entries[j].contribution)
      {
        RemovedMultiset(entries, i);
        assert Removed(entries, i)[j - 1] == entries[j];
      }
    }
    if PairwiseCompatible(entries) {
      forall e, f | e in multiset(entries) && f in multiset(entries) - multiset{e}
        ensures Compatible(e.contribution, f.contribution)
      {
        var i :| 0 <= i < |entries| && entries[i] == e;
        RemovedMultiset(entries, i);
        assert f in Removed(entries, i);
        RemovedCompatible(entries, i);
      }
    }
  }

  lemma ExactPermuted(k: Counters, a: seq<Entry>, b: seq<Entry>)
    requires Exact(k, a) && multiset(a) == multiset(b)
    ensures Exact(k, b)
  {
    CoexistIffPairwise(a);
    CoexistIffPairwise(b);
    hide PairwiseCompatible, Coexist;
    forall criterion
      ensures Count(a, criterion) == Count(b, criterion)
    {
      CountPermuted(a, b, criterion);
    }
    forall e
      ensures e in a <==> e in b
    {
      assert e in multiset(a) <==> e in multiset(b);
    }
  }

  /** Adding a batch one contribution at a time. */
  function AddedAll(k: Counters, entries: seq<Entry>): (r: Option<Counters>)
    requires |k.underlying| == BUILTIN_COUNT
    ensures r.Some? ==> |r.value.underlying| == BUILTIN_COUNT
  {
    if entries == [] then Some(k)
    else
      var before := AddedAll(k, entries[..|entries| - 1]);
      if before.None? then None
      else Added(before.value, entries[|entries| - 1].source, entries[|entries| - 1].contribution)
  }

  lemma NothingCounted()
    ensures Exact(NoContributions(), [])
  {
    hide Meets, Compatible;
    assert forall criterion :: Count([], criterion) == 0;
    assert forall u: BuiltinCode :: NoContributions().underlying[u] == 0;
  }

  /** A batch is accepted exactly when it is pairwise compatible with itself and
  with everything in force, and then every counter equals its recount. */
  lemma {:induction false} BatchAcceptedIffCompatible(k: Counters, base: seq<Entry>, more: seq<Entry>)
    requires Exact(k, base)
    ensures AddedAll(k, more).Some? <==> PairwiseCompatible(base + more)
    ensures AddedAll(k, more).Some? ==> Exact(AddedAll(k, more).value, base + more)
    decreases |more|
  {
    if more == [] {
      assert base + more == base;
    } else {
      var last := |more| - 1;
      var e := more[last];
      BatchAcceptedIffCompatible(k, base, more[..last]);
      assert base + more == (base + more[..last]) + [e];
      ExtendedCompatible(base + more[..last], e);
      if AddedAll(k, more[..last]).Some? {
        var k' := AddedAll(k, more[..last]).value;
        AcceptedIffCompatible(k', base + more[..last], e.source, e.contribution);
        if Added(k', e.source, e.contribution).Some? {
          AddedExact(k', base + more[..last], e.source, e.contribution);
          assert Entry(e.source, e.contribution) == e;
        }
      }
    }
  }

  lemma ExtendedCompatible(entries: seq<Entry>, e: Entry)
    ensures PairwiseCompatible(entries + [e])
       <==> PairwiseCompatible(entries) && forall f <- entries :: Compatible(f.contribution, e.contribution)
  {
    var more := entries + [e];
    if PairwiseCompatible(more) {
      forall f <- entries
        ensures Compatible(f.contribution, e.contribution)
      {
        var i :| 0 <= i < |entries| && entries[i] == f;
        assert Compatible(more[i].contribution, more[|entries|].contribution);
      }
      forall i, j | 0 <= i < j < |entries|
        ensures Compatible(entries[i].contribution, entries[j].contribution)
      {
        assert Compatible(more[i].contribution, more[j].contribution);
      }
    }
  }

  /** A rebuild counts the contributions of all Sources from nothing, in an order
  of its own. Whatever was accepted incrementally it accepts too, and it
  materializes the same entity. */
  lemma RebuildAgrees(k: Counters, entries: seq<Entry>, order: seq<Entry>)
    requires Exact(k, entries) && AllWellBuilt(entries)
    requires multiset(order) == multiset(entries)
    ensures AddedAll(NoContributions(), order).Some?
    ensures k.definitions != 0 ==> k.definition.Some?
    ensures var k' := AddedAll(NoContributions(), order).value;
            && Exact(k', entries)
            && (k'.definitions != 0 ==> k'.definition.Some?)
            && Materialized(k') == Materialized(k)
            && k'.definitionSource == k.definitionSource
            && k'.aggregateDefinitionSource == k.aggregateDefinitionSource
  {
    NothingCounted();
    CoexistIffPairwise(entries);
    CoexistIffPairwise(order);
    assert [] + order == order;
    BatchAcceptedIffCompatible(NoContributions(), [], order);
    var k' := AddedAll(NoContributions(), order).value;
    ExactPermuted(k', order, entries);
    DefinitionRemembered(k, entries);
    DefinitionRemembered(k', entries);
    SameEntity(k, k', entries);
  }

  lemma SameEntity(k: Counters, k': Counters, entries: seq<Entry>)
    requires Exact(k, entries) && Exact(k', entries) && AllWellBuilt(entries)
    requires k.definitions != 0 ==> k.definition.Some?
    requires k'.definitions != 0 ==> k'.definition.Some?
    ensures Materialized(k') == Materialized(k)
    ensures k'.definitionSource == k.definitionSource
    ensures k'.aggregateDefinitionSource == k.aggregateDefinitionSource
  {
    hide PairwiseCompatible;
    if k.definitions != 0 {
      var e := CountWitness(entries, DefinesEnum);
    }
    if k.aggregateDefinitions != 0 {
      var e := CountWitness(entries, DefinesAggregate);
    }
    if k.fixed != 0 {
      var e := CountWitness(entries, IsFixed);
    } else if k.declarations != 0 {
      var e := CountWitness(entries, IsEnum);
      if Meets(e.contribution, IsFixed) {
        CountMember(entries, e, IsFixed);
      }
      assert WellBuilt(e.contribution);
      CountMember(entries, e, DefinesEnum);
    }
  }

  /** The converse fails: an update can be refused half way although the final
  contributions are consistent. Two Sources that both change an underlying type
  are replaced one after the other, and the first meets the old declaration of the second. */
  lemma RefusedHalfWay()
    ensures var before := EnumContribution(true, true, 6, None);
            var after := EnumContribution(true, true, 7, None);
            && AddedAll(NoContributions(), [Entry(1, before), Entry(2, before)]).Some?
            && AddedAll(NoContributions(), [Entry(1, after), Entry(2, after)]).Some?
            && AddedAll(NoContributions(), [Entry(2, before), Entry(1, after)]).None?
  {
    var before := EnumContribution(true, true, 6, None);
    var after := EnumContribution(true, true, 7, None);
    NothingCounted();
    forall entries: seq<Entry>
      ensures AddedAll(NoContributions(), entries).Some? <==> PairwiseCompatible(entries)
    {
      assert [] + entries == entries;
      BatchAcceptedIffCompatible(NoContributions(), [], entries);
    }
    var refused := [Entry(2, before), Entry(1, after)];
    assert !Compatible(refused[0].contribution, refused[1].contribution);
  }
}
